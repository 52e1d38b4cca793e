/** Documents from which Delete does not remove the member that Get finds. */
module DeleteExamples {
  import opened Bytes
  import opened Escapes
  import opened Scanners
  import opened Syntax
  import opened Layout
  import opened Lookup
  import opened TreeValues
  import opened TreeLookup
  import opened Growth
  import opened Deleting
  import opened DeleteNames
  import opened DeleteLaws
  import opened DeleteLimits

  const ZEROTH: Bytes := [LBRACKET, ZERO, RBRACKET]

  /** The document {"[0]":1}. */
  const BRACKET_DOC := Doc([], Node(true, [], [Bare(ZEROTH, Prim([0x31]))]), [])

  /** {"[0]":1} and the name [0]: Get finds the 1, but Delete takes the name for an index and leaves {"[0]":}. */
  lemma DeleteBracketExample(cfg: Config)
    ensures WfDoc(BRACKET_DOC) && GetSpec(cfg, PrintDoc(BRACKET_DOC), [ZEROTH]) == GotAt(BRACKET_DOC, [0])
    ensures DeleteSpec(cfg, PrintDoc(BRACKET_DOC), [ZEROTH])
         == ([LBRACE, QUOTE] + ZEROTH + [QUOTE, COLON, RBRACE], true)
  {
    hide PrintDoc, GetSpec, GotAt, DeleteSpec, CutTo, Leads, Designates;
    var d, root := BRACKET_DOC, BRACKET_DOC.root;
    BracketLeads();
    DesignatesGot(cfg, d, [] + [0], [ZEROTH]);
    DeleteBracketName(cfg, d, [ZEROTH], [], 0);
    BracketText();
  }

  lemma BracketLeads()
    ensures WfDoc(BRACKET_DOC) && ValidLoc(BRACKET_DOC.root, []) && ValidLoc(BRACKET_DOC.root, [0]) && [] + [0] == [0]
    ensures Sub(BRACKET_DOC.root, []) == BRACKET_DOC.root && Designates(BRACKET_DOC.root, [0], [ZEROTH])
  {
    assert IsPrimitive([0x31]) by { assert NumberParts([0x31], 0, 1, 1); }
    PlainBody(ZEROTH);
    assert Wf(Prim([0x31])) && WfEntry(true, Bare(ZEROTH, Prim([0x31])));
    assert [0][1..] == [] && [ZEROTH][1..] == [];
    assert Leads(Prim([0x31]), [], []);
  }

  /** What stays of {"[0]":1}: everything but the 1. */
  lemma BracketText()
    ensures var d := BRACKET_DOC;
            var n := d.root;
            var c := Start(n, 0) + |KeyPart(true, n.es[0])|;
            && c <= |PrintDoc(d)| && CutTo(n, 0) <= |PrintDoc(d)| && OffOf(n, []) == 0
            && PrintDoc(d)[..c] + PrintDoc(d)[CutTo(n, 0)..] == [LBRACE, QUOTE] + ZEROTH + [QUOTE, COLON, RBRACE]
  {
    var n := BRACKET_DOC.root;
    var e := n.es[0];
    PrintAlone(n) by { BracketLeads(); }
    PrintFirst(true, [], e);
    assert KeyPart(true, e) == [QUOTE] + ZEROTH + [QUOTE, COLON];
    assert PrintEntry(true, e) == KeyPart(true, e) + [0x31];
    var head: Bytes := [LBRACE, QUOTE] + ZEROTH + [QUOTE, COLON];
    assert Print(n) == head + [0x31, RBRACE];
    assert Print(n)[..|head|] == head && Print(n)[|head| + 1..] == [RBRACE];
  }

  const NAME_A: Bytes := [0x61]
  const NAME_B: Bytes := [0x62]

  /** The document {"a":{},"a":{"b":1}}. */
  const TWICE_DOC :=
    Doc([], Node(true, [], [Bare(NAME_A, Node(true, [], [])), Bare(NAME_A, Node(true, [], [Bare(NAME_B, Prim([0x31]))]))]), [])

  /** {"a":{},"a":{"b":1}} and the path a, b: Get finds the 1 in the second a, Delete looks into the first one only. */
  lemma DeleteTwiceExample(cfg: Config)
    ensures WfDoc(TWICE_DOC) && ValidLoc(TWICE_DOC.root, [1, 0])
    ensures GetSpec(cfg, PrintDoc(TWICE_DOC), [NAME_A, NAME_B]) == GotAt(TWICE_DOC, [1, 0])
    ensures DeleteSpec(cfg, PrintDoc(TWICE_DOC), [NAME_A, NAME_B]) == (PrintDoc(TWICE_DOC), false)
  {
    hide PrintDoc, GetSpec, GotAt, DeleteSpec, Unescaped, Wf, Locate;
    TwiceWf();
    TwiceLocated();
    assert [NAME_A, NAME_B][..1] == [NAME_A];
    GetIsTreeLookup(cfg, TWICE_DOC, [NAME_A, NAME_B]);
    DeleteEarlier(cfg, TWICE_DOC, [NAME_A, NAME_B]);
  }

  lemma TwiceWf()
    ensures WfDoc(TWICE_DOC)
  {
    assert IsPrimitive([0x31]) by { assert NumberParts([0x31], 0, 1, 1); }
    PlainBody(NAME_A);
    PlainBody(NAME_B);
    assert Wf(Prim([0x31])) && WfEntry(true, Bare(NAME_B, Prim([0x31])));
    assert WfEntry(true, TWICE_DOC.root.es[0]) && WfEntry(true, TWICE_DOC.root.es[1]);
  }

  lemma TwiceLocated()
    ensures var v := TWICE_DOC.root;
            && Locate(v, [NAME_A, NAME_B]) == Some([1, 0]) && ValidLoc(v, [1, 0]) && Locate(v, [NAME_A]) == Some([0])
            && Locate(Sub(v, LocOf(v, [NAME_A])), [NAME_B]) == None
  {
    hide Unescaped;
    PlainBody(NAME_A);
    PlainBody(NAME_B);
    var v := TWICE_DOC.root;
    var one := Prim([0x31]);
    var inner := v.es[1].v;
    assert [NAME_A, NAME_B][1..] == [NAME_B] && [NAME_B][1..] == [] && [NAME_A][1..] == [];
    assert Locate(one, []) == Some([]) && [0] + [] == [0];
    assert LocateMember(inner.es, [NAME_B], 0) == Under(0, Locate(one, []));
    assert Locate(inner, [NAME_B]) == Some([0]);
    assert Locate(v.es[0].v, [NAME_B]) == None && Locate(v.es[0].v, []) == Some([]);
    assert LocateMember(v.es, [NAME_A, NAME_B], 1) == Under(1, Locate(inner, [NAME_B]));
    assert LocateMember(v.es, [NAME_A, NAME_B], 0) == Some([1] + [0]) && [1] + [0] == [1, 0];
    assert LocateMember(v.es, [NAME_A], 0) == Under(0, Locate(v.es[0].v, []));
    assert [0][1..] == [] && [1, 0][1..] == [0] && Sub(v, [0]) == v.es[0].v && ValidLoc(inner, [0]);
  }

  function Bare(key: Bytes, v: JVal): Entry { Entry([], key, [], [], v, []) }

  const BACKSLASH_B: Bytes := [0x61, BACKSLASH, 0x62]

  /** The name a\\b, which decodes to the bytes of BACKSLASH_B. */
  const A_B := Bare([0x61, BACKSLASH, BACKSLASH, 0x62], Prim([0x32]))

  const N_NAME: Bytes := [BACKSLASH, BACKSLASH, LOWER_N]

  /** The document {"a\\b":2}. */
  const ALONE_DOC := Doc([], Node(true, [], [A_B]), [])

  /** Bytes that stand for themselves in a string: they make a name longer, and nothing else. */
  predicate Padding(pad: Bytes) {
    forall k :: 0 <= k < |pad| ==> !NeedsEscape(pad[k])
  }

  /** The document {"\\n":1,"a\\b":2}, with both names padded. */
  function PairDoc(pad: Bytes): Doc {
    Doc([], Node(true, [], [Bare(N_NAME + pad, Prim([0x31])), Bare(A_B.key + pad, Prim([0x32]))]), [])
  }

  lemma EscapeTwo(a: byte, b: byte)
    ensures EscapeBody([a, b]) == EscapeByte(a) + EscapeByte(b)
  {
    assert [a, b] == [a] + [b];
    EscapeBodySplit([a], [b]);
    EscapeSingle(a);
    EscapeSingle(b);
  }

  /** All three names are what Escape writes for a shorter one. */
  lemma ExampleNames(cfg: Config)
    ensures Unescaped(STRICT, A_B.key) == Some(BACKSLASH_B) && IsStringBody(A_B.key)
    ensures Unescaped(STRICT, N_NAME) == Some([BACKSLASH, LOWER_N]) && IsStringBody(N_NAME)
    ensures Unescaped(cfg, BACKSLASH_B) == Some([0x61, 8]) && Emitted(cfg, N_NAME) == [BACKSLASH, LOWER_N]
  {
    hide Unescaped, EscapeBody, IsStringBody;
    PaddedNames(cfg, []);
    var ab: Bytes := [0x61, 8];
    var bn: Bytes := [BACKSLASH, LOWER_N];
    assert A_B.key + [] == A_B.key && BACKSLASH_B + [] == BACKSLASH_B && N_NAME + [] == N_NAME && ab + [] == ab && bn + [] == bn;
  }

  lemma ExampleBodies(ab: Bytes, bn: Bytes)
    requires ab == [0x61, 8] && bn == [BACKSLASH, LOWER_N]
    ensures BACKSLASH_B == EscapeBody(ab) && N_NAME == EscapeBody(bn) && A_B.key == EscapeBody(BACKSLASH_B)
  {
    hide EscapeBody;
    EscapeTwo(0x61, 8);
    EscapeTwo(BACKSLASH, LOWER_N);
    assert BACKSLASH_B == EscapeBody(ab) && N_NAME == EscapeBody(bn);
    assert BACKSLASH_B == [0x61, BACKSLASH] + [0x62];
    EscapeBodySplit([0x61, BACKSLASH], [0x62]);
    EscapeTwo(0x61, BACKSLASH);
    EscapeSingle(0x62);
    assert A_B.key == EscapeBody(BACKSLASH_B);
  }

  /** The padded names. */
  lemma PaddedNames(cfg: Config, pad: Bytes)
    requires Padding(pad)
    ensures Unescaped(STRICT, A_B.key + pad) == Some(BACKSLASH_B + pad) && IsStringBody(A_B.key + pad)
    ensures Unescaped(STRICT, N_NAME + pad) == Some([BACKSLASH, LOWER_N] + pad) && IsStringBody(N_NAME + pad)
    ensures Unescaped(cfg, BACKSLASH_B + pad) == Some([0x61, 8] + pad) && Emitted(cfg, N_NAME + pad) == [BACKSLASH, LOWER_N] + pad
  {
    hide Unescaped, EscapeBody, IsStringBody;
    var ab: Bytes := [0x61, 8];
    var bn: Bytes := [BACKSLASH, LOWER_N];
    ExampleBodies(ab, bn);
    PaddedBody(ab, pad);
    PaddedBody(bn, pad);
    PaddedBody(BACKSLASH_B, pad);
    EscapeRoundTrip(cfg, ab + pad);
    EscapeRoundTrip(cfg, bn + pad);
    EscapeRoundTrip(STRICT, bn + pad);
    EscapeRoundTrip(STRICT, BACKSLASH_B + pad);
    EscapedIsBody(BACKSLASH_B + pad);
    EscapedIsBody(bn + pad);
  }

  lemma PaddedBody(s: Bytes, pad: Bytes)
    requires Padding(pad)
    ensures EscapeBody(s + pad) == EscapeBody(s) + pad
  {
    EscapeBodySplit(s, pad);
    EscapeBodyPlain(pad);
  }

  lemma ExampleWf(pad: Bytes)
    requires Padding(pad)
    ensures WfDoc(ALONE_DOC) && WfDoc(PairDoc(pad))
  {
    ExampleNames(STRICT);
    PaddedNames(STRICT, pad);
    assert IsPrimitive([0x31]) && IsPrimitive([0x32]) by {
      assert NumberParts([0x31], 0, 1, 1) && NumberParts([0x32], 0, 1, 1);
    }
    assert Wf(Prim([0x31])) && Wf(Prim([0x32]));
  }

  /** {"a\\b":2} and the name a\b: Get finds the 2, but Delete decodes the name, finds no such member and removes nothing. */
  lemma DeleteNothingExample(cfg: Config)
    ensures WfDoc(ALONE_DOC) && GetSpec(cfg, PrintDoc(ALONE_DOC), [BACKSLASH_B]) == GotAt(ALONE_DOC, [0])
    ensures DeleteSpec(cfg, PrintDoc(ALONE_DOC), [BACKSLASH_B]) == (PrintDoc(ALONE_DOC), false)
  {
    hide Unescaped, PrintDoc, GetSpec, Print, GotAt;
    ExampleNames(cfg);
    ExampleWf([]);
    var root := ALONE_DOC.root;
    assert FirstNamed(root, 0, BACKSLASH_B);
    LocateFirstNamed(root, 0, BACKSLASH_B);
    GetIsTreeLookup(cfg, ALONE_DOC, [BACKSLASH_B]);
    DocAt(ALONE_DOC);
    var m := ObjectHits(cfg, PrintDoc(ALONE_DOC), 0, root, BACKSLASH_B);
    WholeSlice(PrintDoc(ALONE_DOC));
  }

  /** A first name that decodes over the wanted one, and then equals what is in the buffer. */
  lemma OverwrittenHits(cfg: Config, data: Bytes, n: JVal, pad: Bytes)
    requires Wf(n) && n.Node? && n.obj && n.es != [] && At(data, 0, Print(n)) && n.es[0].w1 == [] && n.es[0].key == N_NAME + pad
    requires Padding(pad) && |pad| <= 61
    ensures KeyStartSpec(cfg, data, BACKSLASH_B + pad) == 1
  {
    hide Unescaped, Emitted, Print, KeyStartFrom, KeyAfter, NextTok, PrintEntry, PrintEntries, KeyPart, Wf, At, WfEntry, Padding;
    PaddedNames(cfg, pad);
    NodeAt(data, 0, n);
    NextTokSkips(data, 0, 0);
    Buffered(cfg, pad);
    EntryPosZero(n.obj, n.es);
    ChildAt(data, 0, n, 0);
    KeyAtName(cfg, data, 1, n.es[0], [0x61, 8] + pad, true);
  }

  lemma Buffered(cfg: Config, pad: Bytes)
    requires Padding(pad)
    ensures WantedName(cfg, BACKSLASH_B + pad) == [0x61, 8] + pad && (Shared(cfg, BACKSLASH_B + pad) <==> |pad| <= 61)
    ensures |pad| <= 61 ==> KeyAfter(cfg, N_NAME + pad, [0x61, 8] + pad, true) == [BACKSLASH, LOWER_N] + pad
  {
    hide Unescaped, Emitted;
    PaddedNames(cfg, pad);
    assert (BACKSLASH_B + pad)[1] == BACKSLASH && (N_NAME + pad)[0] == BACKSLASH;
  }

  /** Cutting from the name of the first of two members to the end of the second leaves the brackets. */
  lemma CutBoth(data: Bytes, n: JVal)
    requires Wf(n) && n.Node? && n.obj && |n.es| == 2 && n.es[0].w1 == [] && n.es[1].w4 == [] && data == Print(n)
    ensures var eo := ValueStart(n, 1) + |Print(n.es[1].v)|;
            eo <= |data| && 1 <= |data| && CutSpec(data, 1, eo, RBRACE) == Some([LBRACE, RBRACE])
  {
    hide Print, PrintEntry, PrintEntries, KeyPart, NextTok, LastTok, TokEnd, CommaBefore, Wf, CutSpec, At;
    AtWhole(data);
    NodeAt(data, 0, n);
    EntryPosZero(n.obj, n.es);
    TokensBefore(data, 0, n, 0, 1);
    TokensAfter(data, 0, n, 1);
    EntryAt(data, 0, n, 1);
    var eo := ValueStart(n, 1) + |Print(n.es[1].v)|;
    CutAlone(data, 1, eo, RBRACE, 1, End(n, 1));
    assert data[..1] == [LBRACE];
    assert data[eo..] == [RBRACE];
    assert [LBRACE] + [RBRACE] == [LBRACE, RBRACE];
  }

  /**
   * The same name in {"\\n":1,"a\\b":2}, all names padded in the same way: Get finds the 2. As long as the name fits the scratch
   * buffer of 64 bytes, Delete leaves nothing of either member; a longer one is not found, and nothing is removed.
   */
  lemma DeleteBothExample(cfg: Config, pad: Bytes)
    requires Padding(pad)
    ensures var d, name := PairDoc(pad), BACKSLASH_B + pad;
            && WfDoc(d) && GetSpec(cfg, PrintDoc(d), [name]) == GotAt(d, [1])
            && DeleteSpec(cfg, PrintDoc(d), [name]) == if |name| <= 64 then ([LBRACE, RBRACE], true) else (PrintDoc(d), false)
  {
    hide Unescaped, GetSpec, Print, PrintDoc, GotAt, DeleteSpec, CutSpec, KeyStartSpec, ValueStart, Start, Wf, Literal, Padding;
    var d, name := PairDoc(pad), BACKSLASH_B + pad;
    PaddedNames(cfg, pad);
    ExampleWf(pad);
    var root := d.root;
    PrintAlone(root);
    AtWhole(Print(root));
    PaddedDiffer(pad);
    assert FirstNamed(root, 1, name);
    LocateFirstNamed(root, 1, name);
    GetIsTreeLookup(cfg, d, [name]);
    if |pad| <= 61 {
      DeleteCuts(cfg, d, [name], [], 1);
      OverwrittenHits(cfg, Print(root), root, pad);
      CutBoth(Print(root), root);
    } else {
      NothingHits(cfg, d, pad);
    }
  }

  lemma PaddedDiffer(pad: Bytes)
    ensures [BACKSLASH, LOWER_N] + pad != BACKSLASH_B + pad
    ensures [BACKSLASH, LOWER_N] + pad != [0x61, 8] + pad && BACKSLASH_B + pad != [0x61, 8] + pad
  {
    assert ([BACKSLASH, LOWER_N] + pad)[0] == BACKSLASH && ([0x61, 8] + pad)[0] == 0x61;
    assert |BACKSLASH_B + pad| == 3 + |pad|;
  }

  /** A longer name is decoded outside the buffer, and no member has the decoded name. */
  lemma NothingHits(cfg: Config, d: Doc, pad: Bytes)
    requires Padding(pad) && |pad| > 61 && d == PairDoc(pad) && WfDoc(d)
    ensures DeleteSpec(cfg, PrintDoc(d), [BACKSLASH_B + pad]) == (PrintDoc(d), false)
  {
    hide Unescaped, GetSpec, Print, PrintDoc, GotAt, Padding, KeyStartSpec, CutSpec, Wf;
    var name := BACKSLASH_B + pad;
    PaddedNames(cfg, pad);
    PaddedDiffer(pad);
    Buffered(cfg, pad);
    DocAt(d);
    var m := ObjectHits(cfg, PrintDoc(d), 0, d.root, name);
    assert m == 2;
    assert name[0] != LBRACKET;
    WholeSlice(PrintDoc(d));
  }
}
