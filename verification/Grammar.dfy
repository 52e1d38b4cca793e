/** The tokens of RFC 8259, written down a second time: from character literals, decimal numerals and the pieces of a string. */
module Grammar {
  import opened Bytes
  import opened Escapes
  import opened Syntax
  import opened Decimals
  import opened Unescaping

  // ---- characters ----

  lemma Characters()
    ensures [TAB, NEWLINE, RETURN, SPACE, QUOTE, DOLLAR, APOSTROPHE, STAR, PLUS, COMMA] == Ascii("\t\n\r \"$'*+,")
    ensures [MINUS, DOT, SLASH, ZERO, NINE, COLON, LBRACKET, BACKSLASH, RBRACKET, LBRACE, RBRACE] == Ascii("-./09:[\\]{}")
    ensures TRUE == Ascii("true") && FALSE == Ascii("false") && NULL == Ascii("null")
  {
  }

  /** Section 2 of RFC 8259: space, tab, line feed and carriage return, and nothing else. */
  lemma Whitespace(b: byte)
    ensures IsSpace(b) <==> b in Ascii(" \t\n\r")
  {
    var w := Ascii(" \t\n\r");
    assert w == [SPACE, TAB, NEWLINE, RETURN];
  }

  // ---- numbers ----

  /** An exponent: the letter in either case, an optional sign, digits. */
  predicate IsExponent(s: Bytes) {
    exists n: nat | 1 <= n <= 2 && n < |s| ::
      && s[..n] in [Ascii("e"), Ascii("E"), Ascii("e+"), Ascii("E+"), Ascii("e-"), Ascii("E-")] && AllDigits(s[n..])
  }

  /** A number: an optional minus, an integer without leading zeros, an optional fraction and an optional exponent. */
  ghost predicate WritesNumber(s: Bytes, minus: bool, n: nat, fraction: Bytes, exponent: Bytes) {
    && s == (if minus then Ascii("-") else []) + Decimal(n)
            + (if fraction != [] then Ascii(".") + fraction else []) + exponent
    && AllDigits(fraction) && (exponent != [] ==> IsExponent(exponent))
  }

  /** Section 6 of RFC 8259. */
  lemma NumbersAre(s: Bytes)
    ensures IsNumber(s) <==> exists minus, n, fraction, exponent :: WritesNumber(s, minus, n, fraction, exponent)
  {
    hide Decimal, AllDigits, IsExponent;
    if IsNumber(s) {
      var a: nat, b: nat, c: nat :| NumberParts(s, a, b, c);
      var n := IntFound(s[a..b]);
      NumberJoined(s, a, b, c, n);
    }
    if exists minus, n, fraction, exponent :: WritesNumber(s, minus, n, fraction, exponent) {
      var minus, n, fraction, exponent :| WritesNumber(s, minus, n, fraction, exponent);
      NumberCut(s, minus, n, fraction, exponent);
    }
  }

  lemma NumberJoined(s: Bytes, a: nat, b: nat, c: nat, n: nat)
    requires NumberParts(s, a, b, c) && s[a..b] == Decimal(n)
    ensures exists minus, m, fraction, exponent :: WritesNumber(s, minus, m, fraction, exponent)
  {
    hide Decimal, AllDigits, IsExponent, IsExp, IsFrac, IsInt;
    NoDigits();
    FractionFound(s[b..c]);
    ExponentIs(s[c..]);
    SignFound(s, a);
    var fraction := DotFound(s[b..c]);
    FourParts(s, a, b, c);
    assert WritesNumber(s, a == 1, n, fraction, s[c..]);
  }

  lemma FourParts(s: Bytes, a: nat, b: nat, c: nat)
    requires a <= b <= c <= |s|
    ensures s == s[..a] + s[a..b] + s[b..c] + s[c..]
  {
  }

  lemma SignFound(s: Bytes, a: nat)
    requires a <= |s| && (a == 0 || (a == 1 && s[0] == MINUS))
    ensures s[..a] == if a == 1 then Ascii("-") else []
  {
    if a == 1 { assert s[..1] == [s[0]] && Ascii("-") == [MINUS]; }
  }

  lemma DotFound(s: Bytes) returns (fraction: Bytes)
    requires s != [] ==> s[0] == DOT && s[1..] != [] && AllDigits(s[1..])
    ensures s == if fraction != [] then Ascii(".") + fraction else []
    ensures AllDigits(fraction)
  {
    fraction := if s == [] then [] else s[1..];
    if s != [] { assert s == [s[0]] + s[1..] && Ascii(".") == [DOT]; }
  }

  /** An integer part is a decimal numeral without leading zeros. */
  lemma IntFound(s: Bytes) returns (n: nat)
    requires IsInt(s)
    ensures s == Decimal(n)
  {
    hide Decimal, Zeros;
    DigitsWrite(s);
    n := Integers.Nat(s);
    var k: nat :| s == Zeros(k) + Decimal(n);
    assert k == 0 by {
      if k > 0 { FirstZero(k); }
    }
    NoZeros();
  }

  lemma NoDigits()
    ensures AllDigits([])
  {
  }

  lemma NoZeros()
    ensures Zeros(0) == []
  {
  }

  lemma {:induction false} FirstZero(k: nat)
    requires k > 0
    ensures Zeros(k)[0] == ZERO
  {
    if k > 1 { FirstZero(k - 1); } else { assert Zeros(0) == []; }
  }

  lemma {:induction false} DecimalIsInt(n: nat)
    ensures IsInt(Decimal(n)) && (n > 0 ==> Decimal(n)[0] != ZERO)
  {
    if n < 10 {
      DigitIs(n);
    } else {
      DecimalIsInt(n / 10);
      DigitIs(n % 10);
    }
  }

  lemma FractionFound(s: Bytes)
    requires IsFrac(s)
    ensures s != [] ==> s[0] == DOT && s[1..] != [] && AllDigits(s[1..])
  {
    hide AllDigits;
  }

  lemma ExponentIs(s: Bytes)
    ensures IsExp(s) <==> s == [] || IsExponent(s)
  {
    hide AllDigits;
    var e1, e2 := Ascii("e"), Ascii("E");
    var p1, p2, m1, m2 := Ascii("e+"), Ascii("E+"), Ascii("e-"), Ascii("E-");
    assert e1 == [LOWER_E] && e2 == [UPPER_E];
    assert p1 == [LOWER_E, PLUS] && p2 == [UPPER_E, PLUS] && m1 == [LOWER_E, MINUS] && m2 == [UPPER_E, MINUS];
    if |s| >= 2 { assert s[..1] == [s[0]]; }
    if |s| >= 3 { assert s[..2] == [s[0], s[1]]; }
  }

  lemma NumberCut(s: Bytes, minus: bool, n: nat, fraction: Bytes, exponent: Bytes)
    requires WritesNumber(s, minus, n, fraction, exponent)
    ensures IsNumber(s)
  {
    hide Decimal, AllDigits, IsExponent, IsExp, IsInt;
    var sign := if minus then Ascii("-") else [];
    var tail := if fraction != [] then Ascii(".") + fraction else [];
    var a := |sign|;
    var b := a + |Decimal(n)|;
    var c := b + |tail|;
    DecimalIsInt(n);
    ExponentIs(exponent);
    assert s[a..b] == Decimal(n) && s[b..c] == tail && s[c..] == exponent;
    assert minus ==> s[0] == MINUS by { if minus { assert s[0] == sign[0]; } }
    if fraction != [] { assert tail[0] == DOT && tail[1..] == fraction; }
    assert NumberParts(s, a, b, c);
  }

  // ---- strings ----

  /** A piece of a string as it may stand between the quotes: any escape of a code unit counts, with a partner or without. */
  predicate BodyPiece(p: Piece) {
    WfPiece(STRICT, p) && !p.Loose? && (p.Raw? ==> p.c != '"' as int) && (p.Code? ==> p.r <= 0xFFFF)
  }

  function BodyText(ps: seq<Piece>): Bytes
    requires forall k :: 0 <= k < |ps| ==> BodyPiece(ps[k])
  {
    if ps == [] then []
    else
      assert BodyPiece(ps[0]);
      Text(STRICT, ps[0]) + BodyText(ps[1..])
  }

  ghost predicate Spelled(s: Bytes, ps: seq<Piece>) {
    (forall k :: 0 <= k < |ps| ==> BodyPiece(ps[k])) && s == BodyText(ps)
  }

  /** Section 7 of RFC 8259, control bytes let through: bytes other than quote and backslash, short escapes, and \u escapes. */
  lemma BodiesAre(s: Bytes)
    ensures IsStringBody(s) <==> exists ps :: Spelled(s, ps)
  {
    hide IsStringBody, Spelled;
    if IsStringBody(s) {
      var ps := BodyPieces(s);
      assert Spelled(s, ps);
    }
    if exists ps :: Spelled(s, ps) {
      var ps :| Spelled(s, ps);
      BodyOf(s, ps);
    }
  }

  lemma {:induction false} BodyOf(s: Bytes, ps: seq<Piece>)
    requires Spelled(s, ps)
    ensures IsStringBody(s)
    decreases |ps|
  {
    hide Text, IsHex;
    if ps != [] {
      var rest := BodyText(ps[1..]);
      BodyOf(rest, ps[1..]);
      PieceStarts(ps[0], rest);
    }
  }

  lemma PieceStarts(p: Piece, rest: Bytes)
    requires BodyPiece(p) && IsStringBody(rest)
    ensures IsStringBody(Text(STRICT, p) + rest)
  {
    hide HexDigits;
    var s := Text(STRICT, p) + rest;
    match p
    case Raw(c) => assert s[1..] == rest;
    case Short(i) =>
      ShortRead(i);
      assert s[2..] == rest;
    case Code(r, upper) =>
      UnitStarts(r, upper[..4], rest);
      OneUnit(r, upper);
    case Lone(u, upper) => UnitStarts(u, upper, rest);
    case Loose(_) =>
  }

  lemma UnitStarts(u: int, upper: seq<bool>, rest: Bytes)
    requires 0 <= u <= 0xFFFF && |upper| == 4 && IsStringBody(rest)
    ensures IsStringBody(HexEscape(u, upper) + rest)
  {
    hide HexDigits, H2I;
    var s := HexEscape(u, upper) + rest;
    var h := HexDigits(u, upper);
    assert s[2] == h[0] && s[3] == h[1] && s[4] == h[2] && s[5] == h[3] && s[6..] == rest;
  }

  lemma {:induction false} BodyPieces(s: Bytes) returns (ps: seq<Piece>)
    requires IsStringBody(s)
    ensures Spelled(s, ps)
    decreases |s|
  {
    hide Text, H2I, HexEscape;
    if s == [] {
      ps := [];
    } else {
      var p, n := FirstPiece(s);
      var rest := BodyPieces(s[n..]);
      ps := [p] + rest;
      assert ps[1..] == rest && s == s[..n] + s[n..];
    }
  }

  lemma FirstPiece(s: Bytes) returns (p: Piece, n: nat)
    requires IsStringBody(s) && s != []
    ensures BodyPiece(p) && 1 <= n <= |s| && Text(STRICT, p) == s[..n] && IsStringBody(s[n..])
  {
    hide H2I, HexEscape, HexEscapeScalar;
    if s[0] != BACKSLASH {
      p, n := Raw(s[0]), 1;
    } else if s[1] != LOWER_U {
      var i := ShortFound(s[1]);
      p, n := Short(i), 2;
    } else {
      assert DecodeSingle(s).Some?;
      var upper := UnitFound(s);
      var u := DecodeSingle(s).value;
      n := 6;
      if IsSurrogate(u) {
        p := Lone(u, upper);
      } else {
        var both := upper + [false, false, false, false];
        assert both[..4] == upper;
        OneUnit(u, both);
        p := Code(u, both);
      }
    }
  }
}
