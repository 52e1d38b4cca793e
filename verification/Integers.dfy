/** bytes.go: the two-speed decimal parser with exact overflow detection. */
module Integers {
  import opened Bytes

  newtype int64 = x: int | -0x8000_0000_0000_0000 <= x < 0x8000_0000_0000_0000
  newtype uint64 = x: int | 0 <= x < 0x1_0000_0000_0000_0000

  const MAX_INT64: int := 0x7FFF_FFFF_FFFF_FFFF
  const MIN_INT64: int := -0x8000_0000_0000_0000
  const TWO_64: int := 0x1_0000_0000_0000_0000

  /** The mathematical value of a digit string. */
  function Nat(s: Bytes): (n: nat)
    requires AllDigits(s)
  {
    if s == [] then 0 else 10 * Nat(s[..|s| - 1]) + (s[|s| - 1] - ZERO)
  }

  function Digits(s: Bytes): Bytes {
    if s != [] && s[0] == MINUS then s[1..] else s
  }

  /** An optional minus followed by one or more decimal digits. */
  predicate IsInteger(s: Bytes) {
    Digits(s) != [] && AllDigits(Digits(s))
  }

  function Value(s: Bytes): int
    requires IsInteger(s)
  {
    if s[0] == MINUS then 0 - Nat(Digits(s)) else Nat(Digits(s))
  }

  predicate InRange(n: int) {
    MIN_INT64 <= n <= MAX_INT64
  }

  /** Some run of leading digits already exceeds what 64 unsigned bits hold. */
  predicate PrefixOverflows(ds: Bytes) {
    exists k :: 0 <= k <= |ds| && AllDigits(ds[..k]) && Nat(ds[..k]) >= TWO_64
  }

  lemma NatStep(ds: Bytes, i: nat)
    requires i < |ds| && AllDigits(ds[..i]) && IsDigit(ds[i])
    ensures AllDigits(ds[..i + 1]) && Nat(ds[..i + 1]) == 10 * Nat(ds[..i]) + (ds[i] - ZERO)
  {
    assert ds[..i + 1][..i] == ds[..i];
  }

  function Pow10(n: nat): (p: nat)
    ensures p >= 1
  {
    if n == 0 then 1 else 10 * Pow10(n - 1)
  }

  lemma {:induction false} NatBound(s: Bytes)
    requires AllDigits(s)
    ensures Nat(s) < Pow10(|s|)
  {
    if s != [] { NatBound(s[..|s| - 1]); }
  }

  lemma {:induction false} PowMonotone(m: nat, n: nat)
    requires m <= n
    ensures Pow10(m) <= Pow10(n)
  {
    if m < n { PowMonotone(m, n - 1); }
  }

  lemma {:induction false} PrefixMonotone(ds: Bytes, j: nat, k: nat)
    requires j <= k <= |ds| && AllDigits(ds[..k])
    ensures AllDigits(ds[..j]) && Nat(ds[..j]) <= Nat(ds[..k])
    decreases k - j
  {
    assert forall m :: 0 <= m < j ==> ds[..j][m] == ds[..k][m];
    if j < k {
      assert ds[..k][j] == ds[j];
      NatStep(ds, j);
      PrefixMonotone(ds, j + 1, k);
    }
  }

  /** A run of digits that stays below 2^64 up to a bad byte or the end never overflowed on the way. */
  lemma NoPrefixOverflow(ds: Bytes, i: nat)
    requires i <= |ds| && AllDigits(ds[..i]) && Nat(ds[..i]) < TWO_64
    requires i == |ds| || !IsDigit(ds[i])
    ensures !PrefixOverflows(ds)
  {
    forall k | 0 <= k <= |ds| && AllDigits(ds[..k]) ensures Nat(ds[..k]) < TWO_64 {
      PrefixMonotone(ds, k, i);
    }
  }

  /** What the three results of the parser must say about the text. */
  ghost predicate Outcome(s: Bytes, v: int, ok: bool, overflow: bool) {
    && (ok <==> IsInteger(s) && InRange(Value(s)))
    && v == (if ok then Value(s) else 0)
    && (overflow <==> PrefixOverflows(Digits(s)) || (IsInteger(s) && !InRange(Value(s))))
  }

  lemma RejectsBadByte(s: Bytes, i: nat)
    requires i <= |Digits(s)| && AllDigits(Digits(s)[..i]) && Nat(Digits(s)[..i]) < TWO_64
    requires if i == |Digits(s)| then i == 0 else !IsDigit(Digits(s)[i])
    ensures Outcome(s, 0, false, false)
  {
    NoPrefixOverflow(Digits(s), i);
  }

  lemma AcceptsAll(s: Bytes, v: int)
    requires IsInteger(s) && Nat(Digits(s)) < TWO_64
    requires v == if s[0] == MINUS then 0 - Nat(Digits(s)) else Nat(Digits(s))
    ensures InRange(v) ==> Outcome(s, v, true, false)
    ensures !InRange(v) ==> Outcome(s, 0, false, true)
  {
    assert Digits(s)[..|Digits(s)|] == Digits(s);
    NoPrefixOverflow(Digits(s), |Digits(s)|);
  }

  /** Once a digit prefix reaches 2^64 the whole text cannot denote an int64. */
  lemma RejectsOverflow(s: Bytes, k: nat)
    requires k <= |Digits(s)| && AllDigits(Digits(s)[..k]) && Nat(Digits(s)[..k]) >= TWO_64
    ensures Outcome(s, 0, false, true)
  {
    var ds := Digits(s);
    if IsInteger(s) {
      assert ds[..|ds|] == ds;
      PrefixMonotone(ds, k, |ds|);
    }
  }

  /** At most eighteen digits stay below 10^18, far inside int64. */
  lemma ShortBound(ds: Bytes)
    requires AllDigits(ds) && |ds| <= 18
    ensures Nat(ds) < 1_000_000_000_000_000_000
  {
    NatBound(ds);
    PowMonotone(|ds|, 18);
    assert Pow10(6) == 1_000_000;
    assert Pow10(12) == 1_000_000_000_000;
    assert Pow10(18) == 1_000_000_000_000_000_000;
  }

  /** The whole parser: sign, then the fast loop for short texts or the checked loop for long ones. */
  method ParseInt(bytes: Bytes) returns (v: int64, ok: bool, overflow: bool)
    ensures ok <==> IsInteger(bytes) && InRange(Value(bytes))
    ensures v as int == if ok then Value(bytes) else 0
    ensures overflow <==> PrefixOverflows(Digits(bytes)) || (IsInteger(bytes) && !InRange(Value(bytes)))
  {
    var l := |bytes|;
    if l == 0 {
      RejectsBadByte(bytes, 0);
      return 0, false, false;
    }
    var neg := false;
    var i := 0;
    if bytes[0] == MINUS {
      neg := true;
      i := 1;
    }
    if i == l {
      RejectsBadByte(bytes, 0);
      return 0, false, false;
    }
    if l - i < 19 {
      v, ok, overflow := ParseShort(bytes, neg, i);
    } else {
      v, ok, overflow := ParseLong(bytes, neg);
    }
  }

  /** At most eighteen digits: accumulate without any check. */
  method ParseShort(bytes: Bytes, neg: bool, start: nat) returns (v: int64, ok: bool, overflow: bool)
    requires neg <==> bytes != [] && bytes[0] == MINUS
    requires start == (if neg then 1 else 0) && start < |bytes| < start + 19
    ensures Outcome(bytes, v as int, ok, overflow)
  {
    ghost var ds := Digits(bytes);
    var i := start;
    v := 0;
    while i < |bytes|
      invariant start <= i <= |bytes|
      invariant AllDigits(ds[..i - start])
      invariant v as int == Nat(ds[..i - start])
    {
      ghost var k := i - start;
      ShortBound(ds[..k]);
      assert ds[k] == bytes[i];
      var d := (bytes[i] - ZERO) % 256;
      if d > 9 {
        RejectsBadByte(bytes, k);
        return 0, false, false;
      }
      NatStep(ds, k);
      ShortBound(ds[..k + 1]);
      v := 10 * v + d as int64;
      i := i + 1;
    }
    assert ds[..|bytes| - start] == ds;
    ShortBound(ds);
    AcceptsAll(bytes, if neg then 0 - v as int else v as int);
    if neg {
      return -v, true, false;
    }
    return v, true, false;
  }

  /** Nineteen digits or more: accumulate in 64 unsigned bits, testing for wrap-around at every step. */
  method ParseLong(bytes: Bytes, neg: bool) returns (v: int64, ok: bool, overflow: bool)
    requires bytes != [] && (neg <==> bytes[0] == MINUS)
    requires |Digits(bytes)| > 0
    ensures Outcome(bytes, v as int, ok, overflow)
  {
    var digits := bytes;
    if neg {
      digits := bytes[1..];
    }
    ghost var ds := Digits(bytes);
    var n: uint64 := 0;
    var j := 0;
    while j < |digits|
      invariant 0 <= j <= |digits|
      invariant AllDigits(ds[..j])
      invariant n as int == Nat(ds[..j])
    {
      var c := digits[j];
      if c < ZERO || c > NINE {
        RejectsBadByte(bytes, j);
        return 0, false, false;
      }
      NatStep(ds, j);
      if n > 0xFFFF_FFFF_FFFF_FFFF / 10 {
        RejectsOverflow(bytes, j + 1);
        return 0, false, true;
      }
      n := n * 10;
      var n1 := ((n as int + (c - ZERO)) % TWO_64) as uint64;
      if n1 < n {
        RejectsOverflow(bytes, j + 1);
        return 0, false, true;
      }
      n := n1;
      j := j + 1;
    }
    assert ds[..j] == ds;
    AcceptsAll(bytes, if neg then 0 - n as int else n as int);
    if n > 0x7FFF_FFFF_FFFF_FFFF {
      if neg && n == 0x8000_0000_0000_0000 {
        return -0x8000_0000_0000_0000, true, false;
      }
      return 0, false, true;
    }
    if neg {
      return -(n as int64), true, false;
    } else {
      return n as int64, true, false;
    }
  }
}
