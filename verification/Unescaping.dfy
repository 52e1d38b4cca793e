/**
 * What unescaping means. A string body is a sequence of pieces, each with a text and the bytes it stands for; unescaping
 * succeeds exactly on the texts of such sequences. Scalar values are written in UTF-8 as its grammar has it.
 */
module Unescaping {
  import opened Bytes
  import opened Escapes

  // ---- UTF-8 ----

  predicate IsTail(b: byte) { 0x80 <= b <= 0xBF }

  /** Section 4 of RFC 3629: one character, in its only form. */
  predicate IsUtf8Char(s: Bytes) {
    if |s| == 1 then s[0] <= 0x7F
    else if |s| == 2 then 0xC2 <= s[0] <= 0xDF && IsTail(s[1])
    else if |s| == 3 then
      && IsTail(s[1]) && IsTail(s[2])
      && (if s[0] == 0xE0 then s[1] >= 0xA0 else if s[0] == 0xED then s[1] <= 0x9F else 0xE1 <= s[0] <= 0xEF)
    else
      && |s| == 4 && IsTail(s[1]) && IsTail(s[2]) && IsTail(s[3])
      && (if s[0] == 0xF0 then s[1] >= 0x90 else if s[0] == 0xF4 then s[1] <= 0x8F else 0xF1 <= s[0] <= 0xF3)
  }

  /** The scalar values are in bijection with the characters of UTF-8, by EncodeRune one way and DecodeRune the other. */
  lemma Utf8Bijection(r: int, s: Bytes)
    ensures IsScalar(r) ==> IsUtf8Char(EncodeRune(r)) && DecodeRune(EncodeRune(r)) == r
    ensures IsUtf8Char(s) ==> IsScalar(DecodeRune(s)) && EncodeRune(DecodeRune(s)) == s
  {
    if IsScalar(r) {
      EncodeRuneInvertible(r);
      EncodedForm(r);
    }
    if IsUtf8Char(s) { DecodedForm(s); }
  }

  lemma EncodedForm(r: int)
    requires IsScalar(r)
    ensures IsUtf8Char(EncodeRune(r))
  {
    hide DecodeRune;
  }

  lemma DecodedForm(s: Bytes)
    requires IsUtf8Char(s)
    ensures IsScalar(DecodeRune(s)) && EncodeRune(DecodeRune(s)) == s
  {
    if |s| == 3 { ThreeBytes(s); } else if |s| == 4 { FourBytes(s); }
  }

  lemma ThreeBytes(s: Bytes)
    requires |s| == 3 && IsUtf8Char(s)
    ensures IsScalar(DecodeRune(s)) && EncodeRune(DecodeRune(s)) == s
  {
    hide Join;
    var a, b, c := s[0] - 0xE0, Tail(s[1]), Tail(s[2]);
    JoinIs(a, b);
    JoinIs(Join(a, b), c);
    JoinSplit(Join(a, b), c);
    JoinSplit(a, b);
  }

  lemma FourBytes(s: Bytes)
    requires |s| == 4 && IsUtf8Char(s)
    ensures IsScalar(DecodeRune(s)) && EncodeRune(DecodeRune(s)) == s
  {
    hide Join;
    var a, b, c, d := s[0] - 0xF0, Tail(s[1]), Tail(s[2]), Tail(s[3]);
    JoinIs(a, b);
    JoinIs(Join(a, b), c);
    JoinIs(Join(Join(a, b), c), d);
    JoinSplit(Join(Join(a, b), c), d);
    JoinSplit(Join(a, b), c);
    JoinSplit(a, b);
  }

  lemma JoinIs(high: int, low: int)
    ensures Join(high, low) == high * 64 + low
  {
  }

  lemma JoinSplit(high: nat, low: nat)
    requires low < 64
    ensures Join(high, low) / 64 == high && Join(high, low) % 64 == low && Join(high, low) / 4096 == high / 64
    ensures Join(high, low) / 262144 == high / 4096
  {
  }

  // ---- pieces ----

  datatype Piece =
    | Raw(c: byte)                          // stands for itself
    | Short(i: nat)                         // one of the eight escapes of two bytes
    | Loose(c: byte)                        // a backslash in front of a byte that needs none
    | Code(r: int, upper: seq<bool>)        // a scalar value as one or two \u escapes
    | Lone(u: int, upper: seq<bool>)        // half of a surrogate pair

  const SHORT_NAMES := "\"\\/bfnrt"
  const SHORT_BYTES := "\"\\/\U{0008}\U{000C}\n\r\t"

  predicate WfPiece(cfg: Config, p: Piece) {
    match p
    case Raw(c) => c != BACKSLASH
    case Short(i) => i < 8
    case Loose(c) =>
      && (forall i :: 0 <= i < 8 ==> c != SHORT_NAMES[i] as int) && c != 'u' as int
      && ((c == '\'' as int && cfg.allowSingleQuotes) || cfg.allowUnknownEscapes)
    case Code(r, upper) => IsScalar(r) && |upper| == 8
    case Lone(u, upper) => IsSurrogate(u) && |upper| == 4
  }

  function Text(cfg: Config, p: Piece): (s: Bytes)
    requires WfPiece(cfg, p)
    ensures s != []
  {
    match p
    case Raw(c) => [c]
    case Short(i) => [BACKSLASH, SHORT_NAMES[i] as int]
    case Loose(c) => [BACKSLASH, c]
    case Code(r, upper) => HexEscapeScalar(r, upper)
    case Lone(u, upper) => HexEscape(u, upper)
  }

  function Meaning(cfg: Config, p: Piece): Bytes
    requires WfPiece(cfg, p)
  {
    match p
    case Raw(c) => [c]
    case Short(i) => [SHORT_BYTES[i] as int]
    case Loose(c) => [c]
    case Code(r, _) => EncodeRune(r)
    case Lone(_, _) => [0xEF, 0xBF, 0xBD]
  }

  predicate IsLow(u: int) { LOW_SURROGATE <= u <= LAST_SURROGATE }

  /** A code unit that is no low surrogate is escaped at the start of t. */
  ghost predicate NoPartner(t: Bytes) {
    exists u: int, upper: seq<bool> :: 0 <= u <= 0xFFFF && |upper| == 4 && !IsLow(u) && HexEscape(u, upper) <= t
  }

  /** A first half is alone only where no \u follows, or the escape of another code unit than a second half. */
  ghost predicate MayPrecede(p: Piece, t: Bytes) {
    p.Lone? && !IsLow(p.u) ==> !([BACKSLASH, LOWER_U] <= t) || NoPartner(t)
  }

  /** The text s splits into the pieces ps, which stand for the bytes t. */
  ghost predicate Reads(cfg: Config, ps: seq<Piece>, s: Bytes, t: Bytes)
    decreases |ps|
  {
    if ps == [] then s == [] && t == []
    else
      && WfPiece(cfg, ps[0])
      && Text(cfg, ps[0]) <= s && Meaning(cfg, ps[0]) <= t
      && var rest := s[|Text(cfg, ps[0])|..];
         MayPrecede(ps[0], rest) && Reads(cfg, ps[1..], rest, t[|Meaning(cfg, ps[0])|..])
  }

  // ---- from pieces to unescaping ----

  lemma ShortRead(i: nat)
    requires i < 8
    ensures SimpleEscape(SHORT_NAMES[i] as int) == Some(SHORT_BYTES[i] as int)
  {
  }

  lemma ShortFound(e: byte) returns (i: nat)
    requires SimpleEscape(e).Some?
    ensures i < 8 && SHORT_NAMES[i] as int == e && SHORT_BYTES[i] as int == SimpleEscape(e).value
  {
    i := if e == QUOTE then 0 else if e == BACKSLASH then 1 else if e == SLASH then 2 else if e == LOWER_B then 3
         else if e == LOWER_F then 4 else if e == LOWER_N then 5 else if e == LOWER_R then 6 else 7;
  }

  /** A \u escape is read as the code unit it was written for. */
  lemma UnitRead(s: Bytes, u: int, upper: seq<bool>)
    requires 0 <= u <= 0xFFFF && |upper| == 4 && HexEscape(u, upper) <= s
    ensures DecodeSingle(s) == Some(u)
  {
    hide HexEscape, DecodeSingle;
    HexEscapeDecodes(u, upper, s[6..]);
    assert s == HexEscape(u, upper) + s[6..];
  }

  /** A code unit that is read was written by a \u escape. */
  lemma UnitFound(s: Bytes) returns (upper: seq<bool>)
    requires [BACKSLASH, LOWER_U] <= s && DecodeSingle(s).Some?
    ensures |upper| == 4 && HexEscape(DecodeSingle(s).value, upper) <= s
  {
    hide HexDigit, H2I;
    var u := DecodeSingle(s).value;
    var a, b, c, d := H2I(s[2]), H2I(s[3]), H2I(s[4]), H2I(s[5]);
    HexRange(s[2]);
    HexRange(s[3]);
    HexRange(s[4]);
    HexRange(s[5]);
    DigitsOf(a, b, c, d);
    HexDigitRead(s[2], a);
    HexDigitRead(s[3], b);
    HexDigitRead(s[4], c);
    HexDigitRead(s[5], d);
    upper := [s[2] == HexDigit(a, true), s[3] == HexDigit(b, true), s[4] == HexDigit(c, true), s[5] == HexDigit(d, true)];
    assert HexDigits(u, upper) == s[2..6];
  }

  lemma HexRange(c: byte)
    ensures IsHex(c) ==> 0 <= H2I(c) < 16
  {
  }

  lemma DigitsOf(a: nat, b: nat, c: nat, d: nat)
    requires a < 16 && b < 16 && c < 16 && d < 16
    ensures var u := a * 4096 + b * 256 + c * 16 + d;
            u / 4096 == a && u / 256 % 16 == b && u / 16 % 16 == c && u % 16 == d
  {
    LastDigit(a * 256 + b * 16 + c, d);
    LastDigit(a * 16 + b, c);
    LastDigit(a, b);
    var u := a * 4096 + b * 256 + c * 16 + d;
    assert u / 256 == u / 16 / 16 && u / 4096 == u / 256 / 16;
  }

  lemma LastDigit(n: nat, d: nat)
    requires d < 16
    ensures (n * 16 + d) / 16 == n && (n * 16 + d) % 16 == d
  {
  }

  lemma LoneRead(s: Bytes, u: int, upper: seq<bool>)
    requires IsSurrogate(u) && |upper| == 4 && HexEscape(u, upper) <= s && MayPrecede(Lone(u, upper), s[6..])
    ensures DecodeUnicode(s) == (RUNE_ERROR, 6)
  {
    hide DecodeSingle, HexEscape;
    UnitRead(s, u, upper);
    if |s| >= 8 && s[6] == BACKSLASH && s[7] == LOWER_U && !IsLow(u) {
      var v: int, up: seq<bool> :| 0 <= v <= 0xFFFF && |up| == 4 && !IsLow(v) && HexEscape(v, up) <= s[6..];
      UnitRead(s[6..], v, up);
    }
  }

  lemma CodeRead(s: Bytes, r: int, upper: seq<bool>)
    requires IsScalar(r) && |upper| == 8 && HexEscapeScalar(r, upper) <= s
    ensures DecodeUnicode(s) == (r, |HexEscapeScalar(r, upper)|)
  {
    hide HexEscapeScalar, DecodeUnicode;
    var e := HexEscapeScalar(r, upper);
    ScalarDecodes(r, upper, s[|e|..]);
    assert s == e + s[|e|..];
  }

  lemma ErrorRune()
    ensures EncodeRune(RUNE_ERROR) == [0xEF, 0xBF, 0xBD]
  {
  }

  /** The escape at the start of a text whose first piece is not raw. */
  lemma PieceRead(cfg: Config, p: Piece, s: Bytes)
    requires WfPiece(cfg, p) && !p.Raw? && Text(cfg, p) <= s && MayPrecede(p, s[|Text(cfg, p)|..])
    ensures s[0] == BACKSLASH && UnescapeOne(cfg, s) == Some((|Text(cfg, p)|, Meaning(cfg, p)))
  {
    hide DecodeUnicode, EncodeRune, HexEscape, HexEscapeScalar, MayPrecede;
    match p
    case Short(i) => ShortRead(i);
    case Loose(c) => if SimpleEscape(c).Some? { var i := ShortFound(c); }
    case Code(r, upper) => CodeRead(s, r, upper);
    case Lone(u, upper) =>
      LoneRead(s, u, upper);
      ErrorRune();
  }

  lemma {:induction false} ReadsUnescape(cfg: Config, ps: seq<Piece>, s: Bytes, t: Bytes)
    requires Reads(cfg, ps, s, t)
    ensures Unescaped(cfg, s) == Some(t)
    decreases |ps|
  {
    hide UnescapeOne, Text, Meaning, MayPrecede;
    if ps != [] {
      var p := ps[0];
      var m := Meaning(cfg, p);
      ReadsUnescape(cfg, ps[1..], s[|Text(cfg, p)|..], t[|m|..]);
      assert m + t[|m|..] == t;
      if p.Raw? { RawText(cfg, p); } else { PieceRead(cfg, p, s); }
    }
  }

  lemma RawText(cfg: Config, p: Piece)
    requires p.Raw? && WfPiece(cfg, p)
    ensures Text(cfg, p) == Meaning(cfg, p) == [p.c] && p.c != BACKSLASH
  {
  }

  // ---- from unescaping to pieces ----

  /** An accepted escape is a piece. */
  lemma PieceFound(cfg: Config, s: Bytes) returns (p: Piece)
    requires UnescapeOne(cfg, s).Some?
    ensures var (n, o) := UnescapeOne(cfg, s).value;
            WfPiece(cfg, p) && Text(cfg, p) == s[..n] && Meaning(cfg, p) == o && MayPrecede(p, s[n..])
  {
    hide EncodeRune, HexEscape, HexEscapeScalar, DecodeUnicode, NoPartner;
    var (n, o) := UnescapeOne(cfg, s).value;
    if SimpleEscape(s[1]).Some? {
      var i := ShortFound(s[1]);
      p := Short(i);
    } else if s[1] == LOWER_U {
      p := UnicodeFound(cfg, s);
    } else {
      forall i | 0 <= i < 8 ensures s[1] != SHORT_NAMES[i] as int { ShortRead(i); }
      p := Loose(s[1]);
    }
  }

  lemma UnicodeFound(cfg: Config, s: Bytes) returns (p: Piece)
    requires [BACKSLASH, LOWER_U] <= s && DecodeUnicode(s).1 != -1
    ensures DecodeUnicode(s).1 <= |s|
    ensures var (r, n) := DecodeUnicode(s);
            WfPiece(cfg, p) && Text(cfg, p) == s[..n] && Meaning(cfg, p) == EncodeRune(r) && MayPrecede(p, s[n..])
  {
    hide HexEscape, EncodeRune, DecodeSingle;
    var upper := UnitFound(s);
    var u := DecodeSingle(s).value;
    if !IsSurrogate(u) {
      p := Code(u, upper + [false, false, false, false]);
      assert (upper + [false, false, false, false])[..4] == upper;
    } else if DecodeUnicode(s).1 == 12 {
      p := PairFound(cfg, s, upper);
    } else {
      ErrorRune();
      p := Lone(u, upper);
      if !IsLow(u) && [BACKSLASH, LOWER_U] <= s[6..] {
        assert |s| >= 8 && s[6] == s[6..][0] && s[7] == s[6..][1];
        var second := UnitFound(s[6..]);
      }
    }
  }

  lemma PairFound(cfg: Config, s: Bytes, upper: seq<bool>) returns (p: Piece)
    requires [BACKSLASH, LOWER_U] <= s && DecodeUnicode(s).1 == 12 && |upper| == 4 && HexEscape(DecodeSingle(s).value, upper) <= s
    ensures |s| >= 12 && WfPiece(cfg, p) && p.Code? && Text(cfg, p) == s[..12] && Meaning(cfg, p) == EncodeRune(DecodeUnicode(s).0)
  {
    hide HexEscape, EncodeRune, DecodeSingle;
    assert s[6..][0] == s[6] && s[6..][1] == s[7];
    var second := UnitFound(s[6..]);
    var high, low := DecodeSingle(s).value, DecodeSingle(s[6..]).value;
    SurrogateBijection(high, low, SUPPLEMENTAL);
    p := Code(CombineSurrogates(high, low), upper + second);
    assert (upper + second)[..4] == upper && (upper + second)[4..] == second;
    assert s[..12] == s[..6] + s[6..][..6];
  }

  lemma {:induction false} PiecesFound(cfg: Config, s: Bytes) returns (ps: seq<Piece>)
    requires Unescaped(cfg, s).Some?
    ensures Reads(cfg, ps, s, Unescaped(cfg, s).value)
    decreases |s|
  {
    hide UnescapeOne, Text, Meaning, MayPrecede;
    if s == [] {
      ps := [];
    } else {
      var p: Piece;
      if s[0] != BACKSLASH {
        p := Raw(s[0]);
        RawText(cfg, p);
        NothingToPrecede(p, s[1..]);
      } else {
        p := PieceFound(cfg, s);
      }
      var n, m := |Text(cfg, p)|, Meaning(cfg, p);
      var rest := PiecesFound(cfg, s[n..]);
      ps := [p] + rest;
      assert ps[1..] == rest && (m + Unescaped(cfg, s[n..]).value)[|m|..] == Unescaped(cfg, s[n..]).value;
    }
  }

  lemma NothingToPrecede(p: Piece, t: Bytes)
    requires p.Raw?
    ensures MayPrecede(p, t)
  {
  }

  /**
   * Unescaping yields t if and only if the text splits into pieces that stand for t: the short escapes with their bytes,
   * \u escapes with digits in any case, pairs, halves without a partner, what the two switches let through, and nothing else.
   */
  lemma UnescapedIs(cfg: Config, s: Bytes, t: Bytes)
    ensures Unescaped(cfg, s) == Some(t) <==> exists ps :: Reads(cfg, ps, s, t)
  {
    hide Reads;
    if Unescaped(cfg, s) == Some(t) {
      var ps := PiecesFound(cfg, s);
      assert Reads(cfg, ps, s, t);
    }
    if exists ps :: Reads(cfg, ps, s, t) {
      var ps :| Reads(cfg, ps, s, t);
      ReadsUnescape(cfg, ps, s, t);
    }
  }

  // ---- Escape ----

  /** The piece may stand in a JSON string: no bare quote and no control byte. */
  predicate InString(p: Piece) {
    p.Raw? ==> p.c != '"' as int && p.c >= 0x20
  }

  /**
   * Escape writes every byte in its shortest form: no piece that means the same is shorter, and one of the same length is
   * the same text, but for the case of the digits, which Escape writes in lower case.
   */
  lemma EscapeShortest(c: byte, p: Piece)
    requires WfPiece(STRICT, p) && InString(p) && Meaning(STRICT, p) == [c]
    ensures |EscapeByte(c)| <= |Text(STRICT, p)|
    ensures |EscapeByte(c)| == |Text(STRICT, p)| ==>
              || EscapeByte(c) == Text(STRICT, p)
              || exists upper: seq<bool> ::
                   && |upper| == 4 && Text(STRICT, p) == HexEscape(c, upper)
                   && EscapeByte(c) == HexEscape(c, [false, false, false, false])
  {
    hide HexEscapeScalar;
    match p
    case Raw(_) =>
    case Short(_) =>
    case Loose(_) =>
    case Lone(_, _) =>
    case Code(r, upper) =>
      OneByteRune(r, c);
      OneUnit(r, upper);
      if |EscapeByte(c)| == 6 { LowerCase(c); }
  }

  lemma OneByteRune(r: int, c: byte)
    requires IsScalar(r) && EncodeRune(r) == [c]
    ensures r == c && c <= 0x7F
  {
  }

  lemma OneUnit(r: int, upper: seq<bool>)
    requires IsScalar(r) && r <= 0xFFFF && |upper| == 8
    ensures HexEscapeScalar(r, upper) == HexEscape(r, upper[..4])
  {
  }

  lemma LowerCase(c: byte)
    requires |EscapeByte(c)| == 6
    ensures EscapeByte(c) == HexEscape(c, [false, false, false, false])
  {
    hide HexDigit, LowerHex;
    var lower := [false, false, false, false];
    ControlByte(c);
    SameDigit(0);
    SameDigit(c / 16);
    SameDigit(c % 16);
    assert c / 4096 == 0 && c / 256 % 16 == 0 && c / 16 % 16 == c / 16;
    assert HexDigits(c, lower) == [LowerHex(0), LowerHex(0), LowerHex(c / 16), LowerHex(c % 16)];
  }

  lemma ControlByte(c: byte)
    requires |EscapeByte(c)| == 6
    ensures c < 0x20 && LowerHex(0) == ZERO
  {
  }

  lemma SameDigit(n: nat)
    requires n < 16
    ensures LowerHex(n) == HexDigit(n, false)
  {
  }
}
