/**
 * Decimal numerals. Decimal writes a number down on its own terms; the lemmas say that the integer parser, strconv.Atoi
 * and the index components of a path read exactly these texts, and which number they read.
 */
module Decimals {
  import opened Bytes
  import opened Integers
  import opened Syntax

  function Digit(n: nat): byte
    requires n < 10
  {
    "0123456789"[n] as int
  }

  /** The number without leading zeros. */
  function Decimal(n: nat): (s: Bytes)
    ensures s != []
  {
    if n < 10 then [Digit(n)] else Decimal(n / 10) + [Digit(n % 10)]
  }

  function Zeros(k: nat): (s: Bytes)
    ensures |s| == k
  {
    if k == 0 then [] else Zeros(k - 1) + [Digit(0)]
  }

  /** The text is the number, behind any number of zeros. */
  ghost predicate Writes(s: Bytes, n: nat) {
    exists k: nat :: s == Zeros(k) + Decimal(n)
  }

  lemma DigitIs(n: nat)
    requires n < 10
    ensures IsDigit(Digit(n)) && Digit(n) - ZERO == n
  {
  }

  lemma DigitOf(c: byte)
    requires IsDigit(c)
    ensures c == Digit(c - ZERO)
  {
  }

  /** One more digit at the end. */
  lemma NatSnoc(s: Bytes, n: nat)
    requires AllDigits(s) && n < 10
    ensures AllDigits(s + [Digit(n)]) && Nat(s + [Digit(n)]) == 10 * Nat(s) + n
  {
    DigitIs(n);
    assert (s + [Digit(n)])[..|s|] == s;
  }

  lemma {:induction false} NatZeros(k: nat)
    ensures AllDigits(Zeros(k)) && Nat(Zeros(k)) == 0
  {
    if k > 0 {
      NatZeros(k - 1);
      NatSnoc(Zeros(k - 1), 0);
    }
  }

  /** Reading a written number back. */
  lemma {:induction false} NatWritten(k: nat, n: nat)
    ensures AllDigits(Zeros(k) + Decimal(n)) && Nat(Zeros(k) + Decimal(n)) == n
  {
    hide Digit;
    if n < 10 {
      NatZeros(k);
      NatSnoc(Zeros(k), n);
    } else {
      NatWritten(k, n / 10);
      NatSnoc(Zeros(k) + Decimal(n / 10), n % 10);
      Associate(Zeros(k), Decimal(n / 10), [Digit(n % 10)]);
    }
  }

  lemma {:induction false} DigitsWrite(s: Bytes)
    requires s != [] && AllDigits(s)
    ensures Writes(s, Nat(s))
    decreases |s|
  {
    hide Digit, Nat;
    var m := |s| - 1;
    var c := s[m] - ZERO;
    DigitOf(s[m]);
    NatStep(s, m);
    assert s[..m + 1] == s && s == s[..m] + [Digit(c)];
    if m == 0 {
      assert Nat([]) == 0 by { NatZeros(0); }
      assert s == Zeros(0) + Decimal(c);
    } else {
      DigitsWrite(s[..m]);
      var k: nat :| s[..m] == Zeros(k) + Decimal(Nat(s[..m]));
      LongerWrites(k, Nat(s[..m]), c);
    }
  }

  lemma LongerWrites(k: nat, n: nat, c: nat)
    requires c < 10
    ensures Writes(Zeros(k) + Decimal(n) + [Digit(c)], 10 * n + c)
  {
    hide Digit, Zeros, Writes;
    var all := 10 * n + c;
    assert all / 10 == n && all % 10 == c;
    if n == 0 {
      ZeroMore(k, c);
    } else {
      Associate(Zeros(k), Decimal(n), [Digit(c)]);
      WritesIt(k, all);
    }
  }

  lemma ZeroMore(k: nat, c: nat)
    requires c < 10
    ensures Writes(Zeros(k) + Decimal(0) + [Digit(c)], c)
  {
    hide Digit;
    assert Decimal(0) == [Digit(0)] && Decimal(c) == [Digit(c)];
    assert Zeros(k + 1) == Zeros(k) + [Digit(0)];
  }

  lemma WritesIt(k: nat, n: nat)
    ensures Writes(Zeros(k) + Decimal(n), n)
  {
  }

  /** A non-empty run of digits writes the number the parsers read in it, and no other. */
  lemma WritesExactly(s: Bytes, n: nat)
    ensures Writes(s, n) <==> s != [] && AllDigits(s) && Nat(s) == n
  {
    hide Nat, Digit;
    if Writes(s, n) {
      var k: nat :| s == Zeros(k) + Decimal(n);
      NatWritten(k, n);
    }
    if s != [] && AllDigits(s) { DigitsWrite(s); }
  }

  /** The integers parseInt knows: a number, or a minus and a number. */
  lemma IntegersAre(s: Bytes, z: int)
    ensures IsInteger(s) && Value(s) == z
       <==> (z >= 0 && Writes(s, z)) || (z <= 0 && [MINUS] <= s && Writes(s[1..], -z))
  {
    hide Nat, Writes;
    if z >= 0 { WritesExactly(s, z); }
    if z <= 0 && s != [] { WritesExactly(s[1..], -z); }
  }

  // ---- strconv.Atoi and index components ----

  /** The texts Atoi reads as z: an optional sign, then digits; -0 is 0. */
  ghost predicate Signed(s: Bytes, z: int) {
    || (z >= 0 && Writes(s, z))
    || (z >= 0 && [PLUS] <= s && Writes(s[1..], z))
    || (z <= 0 && [MINUS] <= s && Writes(s[1..], -z))
  }

  /** Exactly the signed numerals in the range of a 64-bit int are accepted, and each for its own value. */
  lemma AtoiIs(s: Bytes, z: int)
    ensures Atoi(s) == Some(z) <==> InRange(z) && Signed(s, z)
  {
    hide Nat, Writes;
    WritesExactly(s, if z >= 0 then z else 0);
    if s != [] { WritesExactly(s[1..], if z >= 0 then z else -z); }
    if s != [] && AllDigits(s) { assert IsDigit(s[0]); }
  }

  function Bracketed(s: Bytes): Bytes { [LBRACKET] + s + [RBRACKET] }

  /** The component "[n]". */
  function Index(n: nat): Bytes { Bracketed(Decimal(n)) }

  /** An index component is a numeral in brackets, not negative and in range; it selects the element with that number. */
  lemma IndexesAre(k: Bytes, n: nat)
    ensures IndexOf(k) == Some(n) <==> n <= MAX_INT64 && exists s :: k == Bracketed(s) && Signed(s, n)
  {
    hide Atoi, Signed;
    if IndexOf(k).Some? {
      var s := k[1..|k| - 1];
      assert k == Bracketed(s);
      AtoiIs(s, IndexOf(k).value);
    }
    if n <= MAX_INT64 && exists s :: k == Bracketed(s) && Signed(s, n) {
      var s :| k == Bracketed(s) && Signed(s, n);
      assert k[1..|k| - 1] == s;
      AtoiIs(s, n);
      assert s != [] by { SignedNonempty(s, n); }
    }
  }

  lemma SignedNonempty(s: Bytes, z: int)
    requires Signed(s, z)
    ensures s != []
  {
  }

  /** "[n]" selects element n, unless n does not fit an int. */
  lemma IndexRead(n: nat)
    ensures IsIndexKey(Index(n)) && IndexOf(Index(n)) == if n <= MAX_INT64 then Some(n) else None
  {
    hide Decimal, Atoi, Writes;
    WritesItself(n);
    AtoiIs(Decimal(n), n);
    assert Index(n)[1..|Index(n)| - 1] == Decimal(n);
    if Atoi(Decimal(n)).Some? {
      var z := Atoi(Decimal(n)).value;
      AtoiIs(Decimal(n), z);
      SignedOnce(n, z);
    }
  }

  lemma WritesItself(n: nat)
    ensures Writes(Decimal(n), n)
  {
    hide Decimal;
    assert Zeros(0) + Decimal(n) == Decimal(n);
  }

  /** The plain form of a number is no other signed numeral. */
  lemma SignedOnce(n: nat, z: int)
    requires Signed(Decimal(n), z)
    ensures z == n
  {
    hide Decimal, Writes, Nat;
    WritesItself(n);
    WritesExactly(Decimal(n), n);
    assert IsDigit(Decimal(n)[0]);
    WritesExactly(Decimal(n), if z >= 0 then z else 0);
  }

  /** A negative index selects nothing. */
  lemma NegativeIndex(n: nat)
    requires n > 0
    ensures IndexOf(Bracketed([MINUS] + Decimal(n))) == None
  {
    hide Decimal, Atoi, Writes;
    var s := [MINUS] + Decimal(n);
    assert s[1..] == Decimal(n);
    assert Bracketed(s)[1..|Bracketed(s)| - 1] == s;
    if Atoi(s).Some? {
      AtoiIs(s, Atoi(s).value);
      NegativeSigned(n, Atoi(s).value);
    }
  }

  lemma NegativeSigned(n: nat, z: int)
    requires Signed([MINUS] + Decimal(n), z)
    ensures z + n == 0
  {
    hide Decimal, Writes, Nat;
    var s := [MINUS] + Decimal(n);
    assert s[0] == MINUS && s[1..] == Decimal(n);
    WritesItself(n);
    WritesExactly(Decimal(n), n);
    WritesExactly(Decimal(n), if z >= 0 then z else -z);
    WritesExactly(s, if z >= 0 then z else 0);
  }
}
