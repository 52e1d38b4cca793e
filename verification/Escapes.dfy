/** escape.go: string escapes, Unicode escapes with surrogate pairs, and the exact output-buffer bound. */
module Escapes {
  import opened Bytes
  import opened Strings

  const RUNE_ERROR: int := 0xFFFD
  const HIGH_SURROGATE: int := 0xD800
  const LOW_SURROGATE: int := 0xDC00
  const LAST_SURROGATE: int := 0xDFFF
  const SUPPLEMENTAL: int := 0x10000
  const BAD_HEX := -1

  const LOWER_B: byte := 0x62
  const LOWER_F: byte := 0x66
  const LOWER_N: byte := 0x6E
  const LOWER_R: byte := 0x72
  const LOWER_T: byte := 0x74
  const LOWER_U: byte := 0x75

  function H2I(c: byte): int {
    if 48 <= c <= 57 then c - 48
    else if 65 <= c <= 70 then c - 65 + 10
    else if 97 <= c <= 102 then c - 97 + 10
    else BAD_HEX
  }

  predicate IsHex(c: byte) {
    H2I(c) != BAD_HEX
  }

  /** The code unit of a \uXXXX escape; the first two bytes are not looked at. */
  function DecodeSingle(s: Bytes): (r: Option<int>)
    ensures r.Some? ==> 0 <= r.value <= 0xFFFF
  {
    if |s| < 6 || !IsHex(s[2]) || !IsHex(s[3]) || !IsHex(s[4]) || !IsHex(s[5]) then None
    else Some(H2I(s[2]) * 4096 + H2I(s[3]) * 256 + H2I(s[4]) * 16 + H2I(s[5]))
  }

  predicate IsSurrogate(r: int) {
    HIGH_SURROGATE <= r <= LAST_SURROGATE
  }

  /** Unicode scalar values: code points that are not surrogates. */
  predicate IsScalar(r: int) {
    0 <= r <= 0x10FFFF && !IsSurrogate(r)
  }

  function CombineSurrogates(high: int, low: int): int {
    SUPPLEMENTAL + (high - HIGH_SURROGATE) * 1024 + (low - LOW_SURROGATE)
  }

  /** The code point of the Unicode escape at the start of s and the bytes it takes, -1 when malformed. */
  function DecodeUnicode(s: Bytes): (int, int) {
    match DecodeSingle(s)
    case None => (RUNE_ERROR, -1)
    case Some(r) =>
      if !IsSurrogate(r) then (r, 6)
      else if r >= LOW_SURROGATE then (RUNE_ERROR, 6)
      else if |s| < 8 || s[6] != BACKSLASH || s[7] != LOWER_U then (RUNE_ERROR, 6)
      else match DecodeSingle(s[6..])
        case None => (RUNE_ERROR, -1)
        case Some(r2) =>
          if r2 < LOW_SURROGATE || r2 > LAST_SURROGATE then (RUNE_ERROR, 6)
          else (CombineSurrogates(r, r2), 12)
  }

  /** UTF-8 per section 3 of RFC 3629; anything that is not a scalar value is written as U+FFFD. */
  function EncodeRune(rune: int): (s: Bytes)
    ensures 1 <= |s| <= 4
  {
    var r := if IsScalar(rune) then rune else RUNE_ERROR;
    if r <= 0x7F then [r]
    else if r <= 0x7FF then [0xC0 + r / 64, 0x80 + r % 64]
    else if r <= 0xFFFF then [0xE0 + r / 4096, 0x80 + r / 64 % 64, 0x80 + r % 64]
    else [0xF0 + r / 262144, 0x80 + r / 4096 % 64, 0x80 + r / 64 % 64, 0x80 + r % 64]
  }

  function SimpleEscape(e: byte): Option<byte> {
    if e == QUOTE || e == BACKSLASH || e == SLASH then Some(e)
    else if e == LOWER_B then Some(8)
    else if e == LOWER_F then Some(12)
    else if e == LOWER_N then Some(10)
    else if e == LOWER_R then Some(13)
    else if e == LOWER_T then Some(9)
    else None
  }

  /** One escape at the start of s: the bytes it takes and the bytes it stands for. */
  function UnescapeOne(cfg: Config, s: Bytes): (r: Option<(nat, Bytes)>)
    ensures r.Some? ==> 2 <= r.value.0 <= |s| && 1 <= |r.value.1| < r.value.0
  {
    if |s| < 2 || s[0] != BACKSLASH then None
    else if SimpleEscape(s[1]).Some? then Some((2, [SimpleEscape(s[1]).value]))
    else if s[1] == APOSTROPHE && cfg.allowSingleQuotes then Some((2, [s[1]]))
    else if s[1] == LOWER_U then
      var (r, n) := DecodeUnicode(s);
      if n == -1 then None
      else
        assert n == 6 ==> |EncodeRune(r)| <= 3 by { EncodeShort(s); }
        Some((n, EncodeRune(r)))
    else if cfg.allowUnknownEscapes then Some((2, [s[1]]))
    else None
  }

  /** A six-byte escape denotes at most three bytes of UTF-8. */
  lemma EncodeShort(s: Bytes)
    ensures DecodeUnicode(s).1 == 6 ==> |EncodeRune(DecodeUnicode(s).0)| <= 3
  {
  }

  function Prepend(a: Bytes, r: Option<Bytes>): Option<Bytes> {
    if r.Some? then Some(a + r.value) else None
  }

  /** The bytes a string body stands for, or None when an escape in it is invalid. */
  function Unescaped(cfg: Config, s: Bytes): (r: Option<Bytes>)
    ensures r.Some? ==> |r.value| <= |s|
  {
    if s == [] then Some([])
    else if s[0] != BACKSLASH then Prepend([s[0]], Unescaped(cfg, s[1..]))
    else match UnescapeOne(cfg, s)
      case None => None
      case Some((n, o)) => Prepend(o, Unescaped(cfg, s[n..]))
  }

  lemma {:induction false} UnescapedPlain(cfg: Config, s: Bytes, k: nat)
    requires k <= |s| && Plain(s[..k])
    ensures Unescaped(cfg, s) == Prepend(s[..k], Unescaped(cfg, s[k..]))
  {
    if k == 0 {
      assert s[0..] == s;
      PrependNothing(Unescaped(cfg, s));
    } else {
      assert s[..k][0] == s[0];
      assert s[1..][..k - 1] == s[..k][1..];
      UnescapedPlain(cfg, s[1..], k - 1);
      assert s[1..][k - 1..] == s[k..];
      PrependTwice([s[0]], s[..k][1..], Unescaped(cfg, s[k..]));
      assert [s[0]] + s[..k][1..] == s[..k];
    }
  }

  lemma PrependNothing(r: Option<Bytes>)
    ensures Prepend([], r) == r
  {
    if r.Some? { assert [] + r.value == r.value; }
  }

  lemma PrependTwice(a: Bytes, b: Bytes, r: Option<Bytes>)
    ensures Prepend(a, Prepend(b, r)) == Prepend(a + b, r)
  {
    if r.Some? { assert a + (b + r.value) == a + b + r.value; }
  }

  /** Without a backslash unescaping is the identity. */
  lemma UnescapedIdentity(cfg: Config, s: Bytes)
    requires Plain(s)
    ensures Unescaped(cfg, s) == Some(s)
  {
    assert s[..|s|] == s;
    UnescapedPlain(cfg, s, |s|);
    assert s + [] == s;
  }

  /** Decoding a text that holds a backslash makes it shorter. */
  lemma {:induction false} DecodedShorter(cfg: Config, s: Bytes)
    requires HasBackslash(s) && Unescaped(cfg, s).Some?
    ensures |Unescaped(cfg, s).value| < |s|
    decreases |s|
  {
    if s[0] != BACKSLASH {
      assert HasBackslash(s[1..]) by {
        var k :| 0 <= k < |s| && s[k] == BACKSLASH;
        assert s[1..][k - 1] == BACKSLASH;
      }
      DecodedShorter(cfg, s[1..]);
    }
  }

  // ---- the buffer-writing form ----

  /** Offset of the first backslash, or -1. */
  method IndexBackslash(s: Bytes) returns (k: int)
    ensures k == -1 ==> Plain(s)
    ensures k != -1 ==> 0 <= k < |s| && s[k] == BACKSLASH && Plain(s[..k])
  {
    k := 0;
    while k < |s|
      invariant 0 <= k <= |s|
      invariant forall m :: 0 <= m < k ==> s[m] != BACKSLASH
    {
      if s[k] == BACKSLASH { return k; }
      k := k + 1;
    }
    return -1;
  }

  /** Go's copy(out[at:], s) when s fits. */
  method Copy(out: array<byte>, at: nat, s: Bytes)
    requires at + |s| <= out.Length
    modifies out
    ensures out[..at + |s|] == old(out[..at]) + s
    ensures out[at + |s|..] == old(out[at + |s|..])
  {
    forall k | 0 <= k < |s| { out[at + k] := s[k]; }
  }

  /** Decodes the escape at the start of s into out[at..]; the remaining output is at least the remaining input. */
  method UnescapeToUTF8(cfg: Config, s: Bytes, out: array<byte>, at: nat) returns (inLen: int, outLen: int)
    requires at + |s| <= out.Length
    modifies out
    ensures match UnescapeOne(cfg, s)
            case None => inLen == -1 && outLen == -1 && out[..] == old(out[..])
            case Some((n, o)) =>
              && inLen == n && outLen == |o| && at + outLen <= out.Length
              && out[..at + |o|] == old(out[..at]) + o
              && out[at + |o|..] == old(out[at + |o|..])
  {
    if |s| < 2 || s[0] != BACKSLASH {
      return -1, -1;
    }
    var e := s[1];
    if SimpleEscape(e).Some? {
      out[at] := SimpleEscape(e).value;
      return 2, 1;
    }
    if e == APOSTROPHE {
      if cfg.allowSingleQuotes {
        out[at] := e;
        return 2, 1;
      }
    } else if e == LOWER_U {
      var (r, n) := DecodeUnicode(s);
      if n == -1 {
        return -1, -1;
      }
      EncodeShort(s);
      var o := EncodeRune(r);
      Copy(out, at, o);
      return n, |o|;
    }
    if cfg.allowUnknownEscapes {
      out[at] := s[1];
      return 2, 1;
    }
    return -1, -1;
  }

  /** What unescaping writes before it ends or meets an invalid escape. */
  function Emitted(cfg: Config, s: Bytes): (r: Bytes)
    ensures |r| <= |s|
    ensures Unescaped(cfg, s).Some? ==> r == Unescaped(cfg, s).value
  {
    if s == [] then []
    else if s[0] != BACKSLASH then [s[0]] + Emitted(cfg, s[1..])
    else match UnescapeOne(cfg, s)
      case None => []
      case Some((n, o)) => o + Emitted(cfg, s[n..])
  }

  lemma {:induction false} EmittedPlain(cfg: Config, s: Bytes, k: nat)
    requires k <= |s| && Plain(s[..k])
    ensures Emitted(cfg, s) == s[..k] + Emitted(cfg, s[k..])
  {
    hide UnescapeOne, Unescaped;
    if k == 0 {
      assert s[0..] == s;
    } else {
      assert s[..k][0] == s[0];
      assert s[1..][..k - 1] == s[..k][1..];
      EmittedPlain(cfg, s[1..], k - 1);
      assert s[1..][k - 1..] == s[k..];
      Associate([s[0]], s[..k][1..], Emitted(cfg, s[k..]));
      assert [s[0]] + s[..k][1..] == s[..k];
    }
  }

  /** An escape followed by k plain bytes. */
  lemma UnescapedRound(cfg: Config, s: Bytes, k: nat)
    requires s != [] && s[0] == BACKSLASH && UnescapeOne(cfg, s).Some?
    requires UnescapeOne(cfg, s).value.0 + k <= |s|
    requires Plain(s[UnescapeOne(cfg, s).value.0..][..k])
    ensures var (n, o) := UnescapeOne(cfg, s).value;
            && Unescaped(cfg, s) == Prepend(o + s[n..][..k], Unescaped(cfg, s[n..][k..]))
            && Emitted(cfg, s) == (o + s[n..][..k]) + Emitted(cfg, s[n..][k..])
  {
    var (n, o) := UnescapeOne(cfg, s).value;
    UnescapedPlain(cfg, s[n..], k);
    EmittedPlain(cfg, s[n..], k);
    PrependTwice(o, s[n..][..k], Unescaped(cfg, s[n..][k..]));
    Associate(o, s[n..][..k], Emitted(cfg, s[n..][k..]));
  }

  lemma BadEscape(cfg: Config, s: Bytes)
    requires s != [] && s[0] == BACKSLASH && UnescapeOne(cfg, s).None?
    ensures Unescaped(cfg, s) == None && Emitted(cfg, s) == []
  {
  }

  /** One round of Unescape's loop: the escape at the start of s, then everything up to the next backslash. */
  method UnescapeRound(cfg: Config, s: Bytes, buf: array<byte>, w: nat)
    returns (ok: bool, rest: Bytes, w': nat, ghost emitted: Bytes)
    requires s != [] && s[0] == BACKSLASH && w + |s| <= buf.Length
    modifies buf
    ensures !ok ==> Unescaped(cfg, s) == None && Emitted(cfg, s) == [] && buf[..] == old(buf[..])
    ensures ok ==> Unescaped(cfg, s) == Prepend(emitted, Unescaped(cfg, rest))
    ensures ok ==> Emitted(cfg, s) == emitted + Emitted(cfg, rest)
    ensures ok ==> |rest| < |s| && (rest == [] || rest[0] == BACKSLASH)
    ensures ok ==> w' + |rest| <= w + |s| && buf[..w'] == old(buf[..w]) + emitted && buf[w'..] == old(buf[w'..])
  {
    hide Unescaped, UnescapeOne, Emitted;
    ghost var done := buf[..w];
    var inLen, outLen := UnescapeToUTF8(cfg, s, buf, w);
    if inLen == -1 {
      BadEscape(cfg, s);
      return false, [], w, [];
    }
    ghost var o := UnescapeOne(cfg, s).value.1;
    var next := IndexBackslash(s[inLen..]);
    var k := if next == -1 then |s| - inLen else next;
    assert s[inLen..][..|s| - inLen] == s[inLen..];
    UnescapedRound(cfg, s, k);
    ghost var mid, tail := buf[..w + outLen], buf[w + outLen..];
    assert mid == done + o;
    Copy(buf, w + outLen, s[inLen..][..k]);
    assert buf[..w + outLen + k] == mid + s[inLen..][..k];
    Associate(done, o, s[inLen..][..k]);
    assert tail[k..] == old(buf[w + outLen + k..]);
    return true, s[inLen..][k..], w + outLen + k, o + s[inLen..][..k];
  }

  /** The loop of Unescape: buf[..w] is written, s is what remains and starts with a backslash. */
  method UnescapeLoop(cfg: Config, input: Bytes, first: nat, buf: array<byte>) returns (r: Option<Bytes>)
    requires first < |input| <= buf.Length && input[first] == BACKSLASH && Plain(input[..first])
    requires buf[..first] == input[..first]
    modifies buf
    ensures r == Unescaped(cfg, input)
    ensures buf[..] == Overwrite(old(buf[..]), Emitted(cfg, input))
  {
    hide Unescaped, UnescapeOne, Emitted;
    UnescapedPlain(cfg, input, first);
    EmittedPlain(cfg, input, first);
    var w: nat := first;
    var s := input[first..];
    while s != []
      invariant s != [] ==> s[0] == BACKSLASH
      invariant w + |s| <= |input|
      invariant Unescaped(cfg, input) == Prepend(buf[..w], Unescaped(cfg, s))
      invariant Emitted(cfg, input) == buf[..w] + Emitted(cfg, s)
      invariant buf[w..] == old(buf[w..])
      decreases |s|
    {
      ghost var done, start := buf[..w], w;
      ghost var emitted;
      var ok: bool;
      ok, s, w, emitted := UnescapeRound(cfg, s, buf, w);
      if !ok {
        Written(old(buf[..]), buf[..], done, start);
        return None;
      }
      PrependTwice(done, emitted, Unescaped(cfg, s));
      Associate(done, emitted, Emitted(cfg, s));
    }
    NothingLeft(cfg);
    assert buf[..w] + [] == buf[..w];
    Written(old(buf[..]), buf[..], buf[..w], w);
    return Some(buf[..w]);
  }

  lemma NothingLeft(cfg: Config)
    ensures Unescaped(cfg, []) == Some([]) && Emitted(cfg, []) == []
  {
  }

  /** The front of a buffer replaced by s, as far as it goes. */
  function Overwrite(buf: Bytes, s: Bytes): (r: Bytes)
    ensures |r| == |buf|
  {
    if |s| <= |buf| then s + buf[|s|..] else s[..|buf|]
  }

  lemma Written(before: Bytes, after: Bytes, done: Bytes, w: nat)
    requires w <= |after| == |before| && done == after[..w] && after[w..] == before[w..]
    ensures after == Overwrite(before, done) && done + [] == done
  {
    assert after == after[..w] + after[w..];
  }

  /**
   * Unescape of in using the scratch buffer out; in is returned as it is when it holds no backslash. The front of
   * a buffer that is large enough is overwritten by what is emitted, even when an invalid escape follows.
   */
  method Unescape(cfg: Config, input: Bytes, out: array<byte>) returns (r: Option<Bytes>)
    modifies out
    ensures r == Unescaped(cfg, input)
    ensures out[..] == if Plain(input) || out.Length < |input| then old(out[..])
                       else Overwrite(old(out[..]), Emitted(cfg, input))
  {
    var first := IndexBackslash(input);
    if first == -1 {
      UnescapedIdentity(cfg, input);
      return Some(input);
    }
    var buf := out;
    if out.Length < |input| {
      buf := new byte[|input|](_ => 0);
    }
    ghost var before := buf[..];
    Copy(buf, 0, input[..first]);
    EmittedPlain(cfg, input, first);
    Written(before, buf[..], input[..first], first);
    ghost var mid := buf[..];
    r := UnescapeLoop(cfg, input, first, buf);
    OverwriteTwice(before, input[..first], Emitted(cfg, input));
  }

  /** Writing a front part first makes no difference. */
  lemma OverwriteTwice(buf: Bytes, a: Bytes, s: Bytes)
    requires a <= s
    ensures Overwrite(Overwrite(buf, a), s) == Overwrite(buf, s)
  {
  }

  // ---- Escape and its round trips ----

  function LowerHex(n: int): (c: byte)
    requires 0 <= n < 16
    ensures H2I(c) == n
  {
    if n < 10 then 48 + n else 97 + (n - 10)
  }

  predicate NeedsEscape(c: byte) {
    c < 0x20 || c == QUOTE || c == BACKSLASH
  }

  function EscapeByte(c: byte): Bytes {
    if !NeedsEscape(c) then [c]
    else if c == QUOTE || c == BACKSLASH then [BACKSLASH, c]
    else if c == 8 then [BACKSLASH, LOWER_B]
    else if c == 12 then [BACKSLASH, LOWER_F]
    else if c == 10 then [BACKSLASH, LOWER_N]
    else if c == 13 then [BACKSLASH, LOWER_R]
    else if c == 9 then [BACKSLASH, LOWER_T]
    else [BACKSLASH, LOWER_U, ZERO, ZERO, LowerHex(c / 16), LowerHex(c % 16)]
  }

  function EscapeBody(s: Bytes): Bytes {
    if s == [] then [] else EscapeByte(s[0]) + EscapeBody(s[1..])
  }

  function Escaped(s: Bytes): Bytes {
    [QUOTE] + EscapeBody(s) + [QUOTE]
  }

  lemma {:induction false} EscapeBodySplit(a: Bytes, b: Bytes)
    ensures EscapeBody(a + b) == EscapeBody(a) + EscapeBody(b)
  {
    if a == [] {
      assert a + b == b;
    } else {
      assert (a + b)[1..] == a[1..] + b;
      EscapeBodySplit(a[1..], b);
    }
  }

  lemma {:induction false} EscapeBodyPlain(s: Bytes)
    requires forall k :: 0 <= k < |s| ==> !NeedsEscape(s[k])
    ensures EscapeBody(s) == s
  {
    if s != [] {
      EscapeBodyPlain(s[1..]);
    }
  }

  /** The switch of Escape: the replacement of one byte that may not stand in a string. */
  method AppendEscape(out: Bytes, c: byte) returns (r: Bytes)
    requires NeedsEscape(c)
    ensures r == out + EscapeByte(c)
  {
    if c == QUOTE || c == BACKSLASH {
      r := out + [BACKSLASH, c];
    } else if c == 8 {
      r := out + [BACKSLASH, LOWER_B];
    } else if c == 12 {
      r := out + [BACKSLASH, LOWER_F];
    } else if c == 10 {
      r := out + [BACKSLASH, LOWER_N];
    } else if c == 13 {
      r := out + [BACKSLASH, LOWER_R];
    } else if c == 9 {
      r := out + [BACKSLASH, LOWER_T];
    } else {
      r := out + [BACKSLASH, LOWER_U, ZERO, ZERO, LowerHex(c / 16), LowerHex(c % 16)];
    }
  }

  /** The literal for in: plain runs are copied whole, every other byte is escaped on its own. */
  method Escape(input: Bytes) returns (out: Bytes)
    ensures out == Escaped(input)
  {
    out := [QUOTE];
    var start, i := 0, 0;
    while i < |input|
      invariant 0 <= start <= i <= |input|
      invariant out == [QUOTE] + EscapeBody(input[..start])
      invariant forall k :: start <= k < i ==> !NeedsEscape(input[k])
    {
      var c := input[i];
      if c >= 0x20 && c != QUOTE && c != BACKSLASH {
        i := i + 1;
        continue;
      }
      EscapeThrough(input, start, i);
      out := out + input[start..i];
      out := AppendEscape(out, c);
      i := i + 1;
      start := i;
    }
    EscapeRest(input, start);
    out := out + input[start..];
    out := out + [QUOTE];
  }

  /** Escaping up to and including the byte at i, when everything between start and i is plain. */
  lemma EscapeThrough(s: Bytes, start: nat, i: nat)
    requires start <= i < |s| && forall k :: start <= k < i ==> !NeedsEscape(s[k])
    ensures [QUOTE] + EscapeBody(s[..i + 1]) == [QUOTE] + EscapeBody(s[..start]) + s[start..i] + EscapeByte(s[i])
  {
    hide EscapeByte, EscapeBody;
    var a, b, c := s[..start], s[start..i], [s[i]];
    assert s[..i + 1] == a + b + c;
    EscapeBodySplit(a + b, c);
    EscapeBodySplit(a, b);
    EscapeBodyPlain(b);
    EscapeSingle(s[i]);
    Regroup([QUOTE], EscapeBody(a), b, EscapeByte(s[i]));
  }

  lemma EscapeSingle(c: byte)
    ensures EscapeBody([c]) == EscapeByte(c)
  {
    assert [c][1..] == [] && EscapeByte(c) + [] == EscapeByte(c);
  }

  lemma Regroup(a: Bytes, b: Bytes, c: Bytes, d: Bytes)
    ensures a + (b + c + d) == a + b + c + d
  {
  }

  lemma EscapeRest(s: Bytes, start: nat)
    requires start <= |s| && forall k :: start <= k < |s| ==> !NeedsEscape(s[k])
    ensures [QUOTE] + EscapeBody(s[..start]) + s[start..] + [QUOTE] == Escaped(s)
  {
    hide EscapeByte, EscapeBody;
    var a, b := s[..start], s[start..];
    EscapeBodySplit(a, b);
    assert a + b == s;
    EscapeBodyPlain(b);
    Regroup([QUOTE], EscapeBody(a), b, [QUOTE]);
    Regroup([QUOTE], EscapeBody(a) + b, [], [QUOTE]);
    assert EscapeBody(a) + b + [] == EscapeBody(a) + b;
  }

  /** Unescaping one escaped byte in front of any text. */
  lemma UnescapeByte(cfg: Config, c: byte, t: Bytes)
    ensures Unescaped(cfg, EscapeByte(c) + t) == Prepend([c], Unescaped(cfg, t))
  {
    hide DecodeUnicode, EncodeRune, LowerHex;
    var e := EscapeByte(c);
    var s := e + t;
    assert s[|e|..] == t && s[0] == e[0] && (|e| > 1 ==> s[1] == e[1]);
    if |e| == 6 {
      ControlDecodes(c, t);
    }
  }

  lemma ControlDecodes(c: byte, t: Bytes)
    requires c < 0x20 && |EscapeByte(c)| == 6
    ensures DecodeUnicode(EscapeByte(c) + t) == (c as int, 6) && EncodeRune(c) == [c]
  {
    hide DecodeSingle, H2I, LowerHex;
    var e := EscapeByte(c);
    assert H2I(ZERO) == 0 by { ZeroDigit(); }
    DecodesTo(e + t, 0, 0, c / 16, c % 16);
  }

  lemma ZeroDigit()
    ensures H2I(ZERO) == 0
  {
  }

  /** Unescaping the body of an escaped text gives the text back, whatever the configuration. */
  lemma {:induction false} EscapeRoundTrip(cfg: Config, s: Bytes)
    ensures Unescaped(cfg, EscapeBody(s)) == Some(s)
  {
    if s != [] {
      UnescapeByte(cfg, s[0], EscapeBody(s[1..]));
      EscapeRoundTrip(cfg, s[1..]);
      assert [s[0]] + s[1..] == s;
    }
  }

  lemma StrEndEscapedByte(data: Bytes, i: nat, c: byte)
    requires 0 <= i && At(data, i, EscapeByte(c))
    ensures StrEnd(data, i, QUOTE) == StrEnd(data, i + |EscapeByte(c)|, QUOTE)
  {
    var e := EscapeByte(c);
    assert data[i] == e[0];
    assert |e| >= 2 ==> StrEnd(data, i, QUOTE) == StrEndFrom(data, i + 1, true, QUOTE) == StrEnd(data, i + 2, QUOTE);
    if |e| >= 2 { assert data[i + 1] == e[1]; }
    if |e| == 6 {
      assert data[i + 2] == e[2] && data[i + 3] == e[3] && data[i + 4] == e[4] && data[i + 5] == e[5];
      SkipPlain(data, i + 2, i + 6, QUOTE);
    }
  }

  lemma {:induction false} StrEndEscaped(data: Bytes, i: nat, s: Bytes)
    requires At(data, i, EscapeBody(s))
    ensures StrEnd(data, i, QUOTE) == StrEnd(data, i + |EscapeBody(s)|, QUOTE)
    decreases |s|
  {
    if s != [] {
      AtSplit(data, i, EscapeByte(s[0]), EscapeBody(s[1..]));
      StrEndEscapedByte(data, i, s[0]);
      StrEndEscaped(data, i + |EscapeByte(s[0])|, s[1..]);
    }
  }

  /** The string scan that starts after the opening quote of an escaped text stops at its very last byte. */
  lemma EscapedEnds(s: Bytes)
    ensures StrEnd(Escaped(s), 1, QUOTE) == |Escaped(s)|
  {
    var d := Escaped(s);
    AtSplit(d, 0, [QUOTE], EscapeBody(s) + [QUOTE]);
    assert d == [QUOTE] + (EscapeBody(s) + [QUOTE]);
    AtSplit(d, 1, EscapeBody(s), [QUOTE]);
    StrEndEscaped(d, 1, s);
  }

  // ---- Unicode ----

  function HighOf(r: int): int {
    HIGH_SURROGATE + (r - SUPPLEMENTAL) / 1024
  }

  function LowOf(r: int): int {
    LOW_SURROGATE + (r - SUPPLEMENTAL) % 1024
  }

  /** Pairs of a high and a low surrogate are in bijection with U+10000 to U+10FFFF (section 2.2 of RFC 2781). */
  lemma SurrogateBijection(high: int, low: int, r: int)
    requires HIGH_SURROGATE <= high < LOW_SURROGATE <= low <= LAST_SURROGATE
    requires SUPPLEMENTAL <= r <= 0x10FFFF
    ensures SUPPLEMENTAL <= CombineSurrogates(high, low) <= 0x10FFFF
    ensures HighOf(CombineSurrogates(high, low)) == high && LowOf(CombineSurrogates(high, low)) == low
    ensures HIGH_SURROGATE <= HighOf(r) < LOW_SURROGATE <= LowOf(r) <= LAST_SURROGATE
    ensures CombineSurrogates(HighOf(r), LowOf(r)) == r
  {
    var n := (high - HIGH_SURROGATE) * 1024 + (low - LOW_SURROGATE);
    assert n / 1024 == high - HIGH_SURROGATE && n % 1024 == low - LOW_SURROGATE;
  }

  /** Every accepted Unicode escape denotes a scalar value; a lone surrogate denotes U+FFFD and takes six bytes. */
  lemma DecodedScalar(s: Bytes)
    ensures DecodeUnicode(s).1 != -1 ==> IsScalar(DecodeUnicode(s).0)
    ensures DecodeUnicode(s).1 in {-1, 6, 12}
    ensures DecodeUnicode(s).1 == 12
       <==> |s| >= 12 && DecodeSingle(s).Some? && HIGH_SURROGATE <= DecodeSingle(s).value < LOW_SURROGATE
            && s[6] == BACKSLASH && s[7] == LOWER_U
            && DecodeSingle(s[6..]).Some? && LOW_SURROGATE <= DecodeSingle(s[6..]).value <= LAST_SURROGATE
    ensures DecodeUnicode(s).1 == 6 && IsSurrogate(DecodeSingle(s).value) ==> DecodeUnicode(s).0 == RUNE_ERROR
  {
  }

  /** The hexadecimal digit for n in either case. */
  function HexDigit(n: int, upper: bool): byte
    requires 0 <= n < 16
  {
    (if upper then "0123456789ABCDEF" else "0123456789abcdef")[n] as int
  }

  /** The two spellings of n are read as n, and no other byte is. */
  lemma HexDigitRead(c: byte, n: int)
    requires 0 <= n < 16
    ensures H2I(c) == n <==> c == HexDigit(n, false) || c == HexDigit(n, true)
  {
  }

  /** The four digits of a code unit, each in the case asked for. */
  function HexDigits(u: int, upper: seq<bool>): (s: Bytes)
    requires 0 <= u <= 0xFFFF && |upper| == 4
    ensures |s| == 4
    ensures H2I(s[0]) == u / 4096 && H2I(s[1]) == u / 256 % 16 && H2I(s[2]) == u / 16 % 16 && H2I(s[3]) == u % 16
  {
    HexDigitRead(HexDigit(u / 4096, upper[0]), u / 4096);
    HexDigitRead(HexDigit(u / 256 % 16, upper[1]), u / 256 % 16);
    HexDigitRead(HexDigit(u / 16 % 16, upper[2]), u / 16 % 16);
    HexDigitRead(HexDigit(u % 16, upper[3]), u % 16);
    [HexDigit(u / 4096, upper[0]), HexDigit(u / 256 % 16, upper[1]), HexDigit(u / 16 % 16, upper[2]), HexDigit(u % 16, upper[3])]
  }

  /** A code unit written as a \u escape. */
  function HexEscape(u: int, upper: seq<bool>): (s: Bytes)
    requires 0 <= u <= 0xFFFF && |upper| == 4
    ensures |s| == 6 && s[0] == BACKSLASH && s[1] == LOWER_U
  {
    [BACKSLASH, LOWER_U] + HexDigits(u, upper)
  }

  /** A scalar value written with \u escapes, as a surrogate pair above the basic plane, with digits in any case. */
  function HexEscapeScalar(r: int, upper: seq<bool>): (s: Bytes)
    requires IsScalar(r) && |upper| == 8
    ensures |s| >= 6 && s[0] == BACKSLASH && s[1] == LOWER_U
  {
    if r <= 0xFFFF then HexEscape(r, upper[..4]) else HexEscape(HighOf(r), upper[..4]) + HexEscape(LowOf(r), upper[4..])
  }

  lemma HexSum(u: int)
    requires 0 <= u <= 0xFFFF
    ensures u == u / 4096 * 4096 + u / 256 % 16 * 256 + u / 16 % 16 * 16 + u % 16
  {
    var a := u / 16;
    var b := a / 16;
    assert u == a * 16 + u % 16 && a == b * 16 + a % 16 && b == b / 16 * 16 + b % 16;
    assert u / 256 == b && u / 4096 == b / 16;
  }

  lemma DecodesTo(s: Bytes, a: nat, b: nat, c: nat, d: nat)
    requires |s| >= 6 && H2I(s[2]) == a && H2I(s[3]) == b && H2I(s[4]) == c && H2I(s[5]) == d
    ensures DecodeSingle(s) == Some(a * 4096 + b * 256 + c * 16 + d)
  {
    hide H2I;
  }

  lemma HexEscapeDecodes(u: int, upper: seq<bool>, t: Bytes)
    requires 0 <= u <= 0xFFFF && |upper| == 4
    ensures DecodeSingle(HexEscape(u, upper) + t) == Some(u)
  {
    hide HexDigits, DecodeSingle, H2I;
    var s := HexEscape(u, upper) + t;
    var h := HexDigits(u, upper);
    assert s[2] == h[0] && s[3] == h[1] && s[4] == h[2] && s[5] == h[3];
    DecodesTo(s, u / 4096, u / 256 % 16, u / 16 % 16, u % 16);
    HexSum(u);
  }

  /** The escapes of a scalar value decode to it and to nothing but themselves. */
  lemma ScalarDecodes(r: int, upper: seq<bool>, t: Bytes)
    requires IsScalar(r) && |upper| == 8
    ensures DecodeUnicode(HexEscapeScalar(r, upper) + t) == (r, |HexEscapeScalar(r, upper)|)
  {
    hide HexEscape, DecodeSingle, H2I;
    if r <= 0xFFFF {
      HexEscapeDecodes(r, upper[..4], t);
    } else {
      SurrogateBijection(HIGH_SURROGATE, LOW_SURROGATE, r);
      var high, low := HexEscape(HighOf(r), upper[..4]), HexEscape(LowOf(r), upper[4..]);
      var s := high + low + t;
      assert s == high + (low + t) && s[6..] == low + t && s[6] == low[0] && s[7] == low[1];
      HexEscapeDecodes(HighOf(r), upper[..4], low + t);
      HexEscapeDecodes(LowOf(r), upper[4..], t);
    }
  }

  /** Writing any scalar value with \u escapes, every digit in either case, and unescaping it yields its UTF-8 form. */
  lemma UnicodeRoundTrip(cfg: Config, r: int, upper: seq<bool>, t: Bytes)
    requires IsScalar(r) && |upper| == 8
    ensures Unescaped(cfg, HexEscapeScalar(r, upper) + t) == Prepend(EncodeRune(r), Unescaped(cfg, t))
  {
    hide HexEscapeScalar, DecodeUnicode, EncodeRune;
    var e := HexEscapeScalar(r, upper);
    var s := e + t;
    ScalarDecodes(r, upper, t);
    assert s[|e|..] == t && s[0] == e[0] && s[1] == e[1];
  }

  /** The payload of a UTF-8 continuation byte. */
  function Tail(b: byte): int { b - 0x80 }

  /** Reads back one UTF-8 sequence. */
  function DecodeRune(s: Bytes): int
    requires 1 <= |s| <= 4
  {
    if |s| == 1 then s[0]
    else if |s| == 2 then Join((s[0] as int) - 0xC0, Tail(s[1]))
    else if |s| == 3 then Join(Join((s[0] as int) - 0xE0, Tail(s[1])), Tail(s[2]))
    else Join(Join(Join((s[0] as int) - 0xF0, Tail(s[1])), Tail(s[2])), Tail(s[3]))
  }

  function Join(high: int, low: int): int { high * 64 + low }

  lemma SplitJoin(r: nat)
    ensures Join(r / 64, r % 64) == r && r / 4096 == r / 64 / 64 && r / 262144 == r / 4096 / 64
  {
  }

  /** UTF-8 loses nothing: every scalar value can be read back from its encoding. */
  lemma EncodeRuneInvertible(r: int)
    requires IsScalar(r)
    ensures DecodeRune(EncodeRune(r)) == r
  {
    SplitJoin(r);
    SplitJoin(r / 64);
    SplitJoin(r / 4096);
  }
}
