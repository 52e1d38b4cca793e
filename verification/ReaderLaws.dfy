/** On well-formed documents the streaming parser is tree lookup, and so agrees with the in-memory parser. */
module ReaderLaws {
  import opened Bytes
  import opened Strings
  import opened Escapes
  import opened Scanners
  import opened Syntax
  import opened Layout
  import opened Blocks
  import opened Lookup
  import opened TreeValues
  import opened TreeLookup
  import opened MixedPaths
  import opened Streams

  /** The value at l, as a hit of the streaming search. */
  function HitAt(v: JVal, l: Loc, i: nat): (r: Find)
    requires ValidLoc(v, l)
    ensures r.Hit?
  {
    Hit(i + OffOf(v, l), i + OffOf(v, l) + |Print(Sub(v, l))|)
  }

  /** A chain of the tree is hit; no chain means a miss that ends where the searched value ends. */
  predicate Answers(r: Find, v: JVal, l: Option<Loc>, i: nat) {
    match l
    case None => r == Miss(i + |Print(v)|)
    case Some(loc) => ValidLoc(v, loc) && r == HitAt(v, loc, i)
  }

  /** The end of the value can be told from what follows it: only a number or literal at the very end of the stream cannot. */
  predicate Settled(data: Bytes, final: ReadError, i: nat, v: JVal) {
    final == EOF || !v.Prim? || i + |Print(v)| < |data|
  }

  lemma ValueEndAt(cfg: Config, data: Bytes, final: ReadError, i: nat, v: JVal)
    requires Wf(v) && At(data, i, Print(v)) && Bounded(data, i + |Print(v)|) && Settled(data, final, i, v)
    ensures i < |data| && !IsSpace(data[i]) && data[i] != RBRACKET && data[i] != RBRACE
    ensures data[i] == LBRACE <==> (v.Node? && v.obj)
    ensures data[i] == LBRACKET <==> (v.Node? && !v.obj)
    ensures ValueEnd(cfg, data, final, i) == Ended(i + |Print(v)|)
  {
    hide StackFrom, BlockFrom, StrEndFrom, TokEnd, IsPrimitive, TypeOf;
    ValueTyped(cfg, data, i, v);
    match v
    case Prim(t) =>
      PrimAt(data, i, t);
      TokEndPrim(data, i, i + |t|);
    case Str(b) =>
      StrAt(data, i, b);
    case Node(_, _, _) =>
      NodeEnds(cfg, data, i, v);
  }

  lemma SeparatorIs(data: Bytes, final: ReadError, p: nat, close: byte, own: Error)
    requires p <= |data| && NextTok(data, p) != -1 && close != COMMA
    ensures var q := NextTok(data, p);
            && (data[q] == close ==> SeparatorAt(data, final, p, close, own) == Closed(q + 1))
            && (data[q] == COMMA && NextTok(data, q + 1) != -1 && data[NextTok(data, q + 1)] != close ==>
                  SeparatorAt(data, final, p, close, own) == Next(NextTok(data, q + 1)))
  {
    hide NextTok;
  }

  /** Behind the value of entry k comes the end of the node, or the first token of the next entry. */
  lemma SeparatorFinds(cfg: Config, data: Bytes, final: ReadError, i: nat, v: JVal, k: nat, own: Error)
    requires Wf(v) && v.Node? && At(data, i, Print(v)) && k < |v.es|
    ensures i + |Print(v)| <= |data| && ValueStart(v, k) + |Print(v.es[k].v)| <= |Print(v)|
    ensures SeparatorAt(data, final, i + ValueStart(v, k) + |Print(v.es[k].v)|, Close(v.obj), own)
         == if k == |v.es| - 1 then Closed(i + |Print(v)|) else Next(i + FirstOf(v, k + 1))
  {
    hide Print, PrintEntry, PrintEntries, KeyPart, FirstOf, At, SeparatorAt, NextTok, Start, ValueStart;
    ChildAt(data, i, v, k);
    var p := i + ValueStart(v, k) + |Print(v.es[k].v)|;
    DelimitedBounds(data, p, i + End(v, k));
    SeparatorIs(data, final, p, Close(v.obj), own);
    if k < |v.es| - 1 { FirstTokenOf(data, i, v, k + 1); }
  }

  /** Reading a printed member up to its colon. */
  lemma ColonRead(cfg: Config, data: Bytes, final: ReadError, p: nat, e: Entry)
    requires At(data, p, KeyPart(true, e)) && WfEntry(true, e)
    ensures p + |e.w1| < |data| && Unescaped(STRICT, e.key).Some?
    ensures ColonAt(cfg, data, final, p + |e.w1|) == Named(Name(e), p + |KeyPart(true, e)|)
  {
    hide At, SpaceRun, NextTok, Unescaped, StrEndFrom, KeyPart, IsStringBody;
    KeyPlaces(data, p, e);
    BodyDecodes(cfg, e.key);
  }

  lemma ColonFound(cfg: Config, data: Bytes, final: ReadError, i: nat, v: JVal, k: nat)
    requires Wf(v) && v.Node? && v.obj && At(data, i, Print(v)) && k < |v.es|
    ensures i + FirstOf(v, k) < |data| && Unescaped(STRICT, v.es[k].key).Some?
    ensures ColonAt(cfg, data, final, i + FirstOf(v, k)) == Named(Name(v.es[k]), i + Start(v, k) + |KeyPart(true, v.es[k])|)
  {
    hide ColonAt, Unescaped, Print, PrintEntry, PrintEntries, KeyPart, Start, At;
    EntryAt(data, i, v, k);
    EntryParts(data, i + Start(v, k), true, v.es[k]);
    ColonRead(cfg, data, final, i + Start(v, k), v.es[k]);
  }

  lemma HitBelow(v: JVal, k: nat, l: Loc, i: nat)
    requires v.Node? && k < |v.es| && ValidLoc(v.es[k].v, l)
    ensures ValidLoc(v, [k] + l) && HitAt(v, [k] + l, i) == HitAt(v.es[k].v, l, i + ValueStart(v, k))
  {
    assert ([k] + l)[1..] == l;
  }

  /** The streaming search of a printed value, started in the whitespace before it, is the search in its tree. */
  lemma {:induction false} FindIsLocate(cfg: Config, data: Bytes, final: ReadError, keys: Path, p: nat, i: nat, v: JVal)
    requires Wf(v) && At(data, i, Print(v)) && Bounded(data, i + |Print(v)|) && Settled(data, final, i, v) && SpaceRun(data, p, i)
    ensures Answers(FindValue(cfg, data, final, keys, p), v, Locate(v, keys), i)
    decreases v, 1, 0
  {
    hide Print, PrintEntries, PrintEntry, ValueEnd, At, LocateMember, FindMember, FindElement, IndexOf, Wf, Bounded, Settled, FirstOf;
    ValueEndAt(cfg, data, final, i, v);
    NextTokSkips(data, p, i);
    if keys != [] && v.Node? {
      FirstInside(data, i, v);
      if v.es != [] { FirstInside(data, i, v); }
      if v.obj {
        if v.es != [] { MembersAre(cfg, data, final, keys, i, v, 0); }
      } else if IndexOf(keys[0]).Some? {
        if v.es != [] { ElementsAre(cfg, data, final, keys, i, v, 0); }
      }
    }
  }

  /** What one entry contributes, when the search looks into it (some keys) or passes it (none). */
  lemma {:induction false} EntryIs(cfg: Config, data: Bytes, final: ReadError, keys: Option<Path>, i: nat, v: JVal, k: nat, p: nat)
    requires Wf(v) && v.Node? && At(data, i, Print(v)) && k < |v.es|
    requires SpaceRun(data, p, i + ValueStart(v, k))
    ensures var e := v.es[k].v;
            var j := i + ValueStart(v, k);
            && (keys.Some? ==> Answers(FindValue(cfg, data, final, keys.value, p), e, Locate(e, keys.value), j))
            && (keys.None? ==> PassValue(cfg, data, final, p) == Miss(j + |Print(e)|))
            && (keys.None? && p == j ==> p < |data| && PassElement(cfg, data, final, p) == Miss(j + |Print(e)|))
    decreases v, 0, 0
  {
    hide Print, PrintEntries, PrintEntry, ValueEnd, At, Locate, FindValue, ValueStart, End, Delimited;
    var e := v.es[k].v;
    var j := i + ValueStart(v, k);
    ChildAt(data, i, v, k);
    DelimitedBounds(data, j + |Print(e)|, i + End(v, k));
    match keys
    case Some(ks) => FindIsLocate(cfg, data, final, ks, p, j, e);
    case None =>
      ValueEndAt(cfg, data, final, j, e);
      NextTokSkips(data, p, j);
  }

  lemma {:induction false} MembersAre(cfg: Config, data: Bytes, final: ReadError, keys: Path, i: nat, v: JVal, k: nat)
    requires Wf(v) && v.Node? && v.obj && At(data, i, Print(v)) && keys != [] && k < |v.es|
    ensures i + FirstOf(v, k) < |data|
    ensures Answers(FindMember(cfg, data, final, keys, i + FirstOf(v, k)), v, LocateMember(v.es, keys, k), i)
    decreases v, 0, |v.es| - k
  {
    hide Print, PrintEntries, PrintEntry, ValueEnd, At, KeyPart, ColonAt, Locate, FindValue, PassValue, SeparatorAt, HitAt, FirstOf,
         ValueStart, Start, End, Unescaped, Delimited;
    var e := v.es[k];
    ColonFound(cfg, data, final, i, v, k);
    ChildAt(data, i, v, k);
    var c := i + Start(v, k) + |KeyPart(true, e)|;
    EntryIs(cfg, data, final, if Name(e) == keys[0] then Some(keys[1..]) else None, i, v, k, c);
    SeparatorFinds(cfg, data, final, i, v, k, MalformedObject);
    if KeyIs(e, keys[0]) && Locate(e.v, keys[1..]).Some? {
      HitBelow(v, k, Locate(e.v, keys[1..]).value, i);
    } else if k < |v.es| - 1 {
      MembersAre(cfg, data, final, keys, i, v, k + 1);
    }
  }

  lemma {:induction false} ElementsAre(cfg: Config, data: Bytes, final: ReadError, keys: Path, i: nat, v: JVal, k: nat)
    requires Wf(v) && v.Node? && !v.obj && At(data, i, Print(v)) && k < |v.es|
    requires keys != [] && IndexOf(keys[0]).Some?
    ensures i + FirstOf(v, k) < |data|
    ensures var n := IndexOf(keys[0]).value;
            Answers(FindElement(cfg, data, final, keys, i + FirstOf(v, k), k), v,
                    if k <= n < |v.es| then Under(n, Locate(v.es[n].v, keys[1..])) else None, i)
    decreases v, 0, |v.es| - k
  {
    hide Print, PrintEntries, PrintEntry, ValueEnd, At, Locate, FindValue, PassElement, PassValue, SeparatorAt, HitAt,
         ValueStart, Start, End, IndexOf, Delimited, NextTok, Wf;
    var n := IndexOf(keys[0]).value;
    FirstTokenOf(data, i, v, k);
    var e := v.es[k].v;
    EntryIs(cfg, data, final, if k == n then Some(keys[1..]) else None, i, v, k, i + ValueStart(v, k));
    SeparatorFinds(cfg, data, final, i, v, k, MalformedArray);
    if k == n && Locate(e, keys[1..]).Some? {
      HitBelow(v, k, Locate(e, keys[1..]).value, i);
    } else if k < |v.es| - 1 {
      ElementsAre(cfg, data, final, keys, i, v, k + 1);
    }
  }

  // ---- whole documents ----

  /** The in-memory Get's results in the streaming parser's terms. */
  function InMemory(g: Got): Answer {
    Answer(g.value, g.t, OptionalFailure(g.err))
  }

  lemma TypedAlone(cfg: Config, v: JVal)
    requires Wf(v)
    ensures Typing(cfg, Print(v)) == Answer(Content(v), TypeOf(v), None)
  {
    hide Print, Content, TypeOf, GetFrom;
    AtWhole(Print(v));
    GetValue(cfg, Print(v), 0, 0, v);
  }

  /** The text ends with a number or literal, and the stream does not end there: more of it might have come. */
  predicate OpenEnded(d: Doc, final: ReadError) {
    final != EOF && d.root.Prim? && d.trail == []
  }

  lemma DocSearched(cfg: Config, d: Doc, final: ReadError, keys: Path)
    requires WfDoc(d) && !OpenEnded(d, final)
    ensures NextTok(PrintDoc(d), 0) != -1
    ensures Answers(FindValue(cfg, PrintDoc(d), final, keys, 0), d.root, Locate(d.root, keys), |d.lead|)
  {
    hide Print, PrintDoc, FindValue, Locate, ValueEnd, EndsPrimitive, Answers;
    var data := PrintDoc(d);
    DocAt(d);
    TrailBounded(d);
    ValueEndAt(cfg, data, final, |d.lead|, d.root);
    NextTokSkips(data, 0, |d.lead|);
    FindIsLocate(cfg, data, final, keys, 0, |d.lead|, d.root);
  }

  /** The bytes of the value at l, cut out of the document and typed on their own. */
  lemma SubTyped(cfg: Config, d: Doc, l: Loc)
    requires WfDoc(d) && ValidLoc(d.root, l)
    ensures match HitAt(d.root, l, |d.lead|)
            case Hit(from, to) =>
              from <= to <= |PrintDoc(d)|
              && Typing(cfg, PrintDoc(d)[from..to]) == Answer(Content(Sub(d.root, l)), TypeOf(Sub(d.root, l)), None)
            case _ => false
  {
    hide Print, PrintDoc, Typing, Content, TypeOf, OffOf, Bounded, SpaceRun, SlotOf, Sub;
    SubPlace(d, l);
    AtSlice(PrintDoc(d), |d.lead| + OffOf(d.root, l), Print(Sub(d.root, l)));
    TypedAlone(cfg, Sub(d.root, l));
  }

  /** A root scalar that may not have ended yet: the error of the stream. */
  lemma DocUnsettled(cfg: Config, d: Doc, final: ReadError, keys: Path)
    requires WfDoc(d) && OpenEnded(d, final)
    ensures NextTok(PrintDoc(d), 0) != -1 && FindValue(cfg, PrintDoc(d), final, keys, 0) == Fail(Reading(final))
  {
    hide PrintDoc, TokEnd;
    var data, i := PrintDoc(d), |d.lead|;
    DocAt(d);
    PrimAt(data, i, d.root.text);
    TokEndPrim(data, i, |data|);
    NextTokSkips(data, 0, i);
  }

  /**
   * What the streaming Get returns for every path on every well-formed document and every end of the stream, duplicates and
   * indexes included.
   */
  lemma StreamGetIsTreeLookup(cfg: Config, d: Doc, final: ReadError, keys: Path)
    requires WfDoc(d)
    ensures StreamGet(cfg, PrintDoc(d), final, keys)
         == if [] in keys then Missing(PATH_NOT_FOUND)
            else if OpenEnded(d, final) then Missing(Reading(final))
            else if Locate(d.root, keys).None? then Missing(PATH_NOT_FOUND)
            else var v := Sub(d.root, LocOf(d.root, keys)); Answer(Content(v), TypeOf(v), None)
  {
    hide Print, PrintDoc, FindValue, Locate, Typing, Content, TypeOf, HitAt, Sub, WfDoc;
    if OpenEnded(d, final) {
      DocUnsettled(cfg, d, final, keys);
    } else {
      DocSearched(cfg, d, final, keys);
      if Locate(d.root, keys).Some? { SubTyped(cfg, d, LocOf(d.root, keys)); }
    }
  }

  /**
   * Agreement with the in-memory Get for paths of plain keys: value, type and found or not found, duplicates
   * included. The two differ exactly on a path with an empty component that the document has, and on a root scalar that a
   * stream breaks off behind.
   */
  lemma StreamAgrees(cfg: Config, d: Doc, final: ReadError, keys: Path)
    requires WfDoc(d) && PlainPath(keys)
    ensures StreamGet(cfg, PrintDoc(d), final, keys) == InMemory(GetSpec(cfg, PrintDoc(d), keys))
       <==> if [] in keys then Locate(d.root, keys).None? else !OpenEnded(d, final)
  {
    hide Print, PrintDoc, StreamGet, GetSpec, Locate, Content, TypeOf;
    StreamGetIsTreeLookup(cfg, d, final, keys);
    GetIsTreeLookup(cfg, d, keys);
  }

  /** The document {"":1}. */
  const NAMELESS_DOC := Doc([], Node(true, [], [Plainly([], ONE)]), [])

  /** {"":1} and the path of one empty component: the in-memory Get finds the 1, the streaming Get refuses the path. */
  lemma EmptyComponentExample(cfg: Config)
    ensures StreamGet(cfg, PrintDoc(NAMELESS_DOC), EOF, [[]]) == Missing(PATH_NOT_FOUND)
    ensures InMemory(GetSpec(cfg, PrintDoc(NAMELESS_DOC), [[]])) == Answer([0x31], Number, None)
  {
    hide PrintDoc, StreamGet, GetSpec;
    var d := NAMELESS_DOC;
    var keys: Path := [[]];
    assert IsPrimitive([0x31]) by { assert NumberParts([0x31], 0, 1, 1); }
    assert Wf(ONE) && WfEntry(true, d.root.es[0]) && WfDoc(d);
    assert keys[1..] == [] && KeyIs(d.root.es[0], []);
    assert Locate(d.root, keys) == Some([0] + []) && [0] + [] == [0];
    assert Sub(d.root, [0]) == ONE by { assert [0][1..] == []; }
    StreamGetIsTreeLookup(cfg, d, EOF, keys);
    GetIsTreeLookup(cfg, d, keys);
  }

  /**
   * Agreement for paths that mix keys and indexes, without duplicate names: exactly when the in-memory search does not stray
   * and the end of the document can be told.
   */
  lemma StreamAgreesUnlessStray(cfg: Config, d: Doc, final: ReadError, keys: Path)
    requires WfDoc(d) && DupFree(d.root) && keys != [] && [] !in keys
    ensures StreamGet(cfg, PrintDoc(d), final, keys) == InMemory(GetSpec(cfg, PrintDoc(d), keys))
       <==> !OpenEnded(d, final) && !Strays(d.root, keys)
  {
    hide Print, PrintDoc, StreamGet, GetSpec, Locate, Content, TypeOf, Strays, Seek;
    StreamGetIsTreeLookup(cfg, d, final, keys);
    GetIsLookupUnlessStray(cfg, d, keys);
  }

  /** The call the streaming ArrayEach makes for each element from k on. */
  function CallsOf(v: JVal, k: nat): (s: seq<Answer>)
    requires v.Node? && k <= |v.es|
    ensures |s| == |v.es| - k
    ensures forall j :: 0 <= j < |s| ==> s[j] == CallOf(v.es[k + j].v)
  {
    seq(|v.es| - k, j requires 0 <= j < |v.es| - k => CallOf(v.es[k + j].v))
  }

  function CallOf(v: JVal): Answer {
    Answer(Content(v), TypeOf(v), None)
  }

  lemma CallsAll(v: JVal, k: nat)
    requires v.Node? && k <= |v.es|
    ensures k == |v.es| ==> CallsOf(v, k) == []
    ensures k < |v.es| ==> CallsOf(v, k) == [CallOf(v.es[k].v)] + CallsOf(v, k + 1)
  {
    hide CallOf;
    if k < |v.es| {
      var all, rest := CallsOf(v, k), CallsOf(v, k + 1);
      forall j | 0 <= j < |all| ensures all[j] == ([CallOf(v.es[k].v)] + rest)[j] {
        if j > 0 { assert rest[j - 1] == CallOf(v.es[k + 1 + (j - 1)].v); }
      }
    }
  }

  /** Element k is captured whole and typed. */
  lemma ElementCaptured(cfg: Config, data: Bytes, final: ReadError, i: nat, v: JVal, k: nat)
    requires Wf(v) && v.Node? && !v.obj && At(data, i, Print(v)) && k < |v.es|
    ensures var e := v.es[k].v;
            var j := i + ValueStart(v, k);
            && j + |Print(e)| <= |data|
            && FindValue(cfg, data, final, [], j) == Hit(j, j + |Print(e)|)
            && Typing(cfg, data[j..j + |Print(e)|]) == CallOf(e) && CallOf(e).err.None?
  {
    hide Print, PrintEntries, PrintEntry, ValueEnd, At, ValueStart, Start, End, Delimited, Typing, Content, TypeOf, FindInArray,
         FindInObject;
    ChildAt(data, i, v, k);
    var e := v.es[k].v;
    var j := i + ValueStart(v, k);
    DelimitedBounds(data, j + |Print(e)|, i + End(v, k));
    ValueEndAt(cfg, data, final, j, e);
    AtSlice(data, j, Print(e));
    TypedAlone(cfg, e);
  }

  lemma {:induction false} CallsAre(cfg: Config, data: Bytes, final: ReadError, i: nat, v: JVal, k: nat)
    requires Wf(v) && v.Node? && !v.obj && At(data, i, Print(v)) && k < |v.es|
    ensures i + FirstOf(v, k) < |data|
    ensures CallsFrom(cfg, data, final, i + FirstOf(v, k)) == Calls(CallsOf(v, k), None)
    decreases |v.es| - k
  {
    hide Print, PrintEntries, PrintEntry, At, SeparatorAt, ValueStart, Typing, Content, TypeOf, CallsFrom, FindValue, Wf, NextTok, Start,
         CallOf, CallsOf;
    CallsAll(v, k);
    CallsAll(v, k + 1);
    FirstTokenOf(data, i, v, k);
    ElementCaptured(cfg, data, final, i, v, k);
    SeparatorFinds(cfg, data, final, i, v, k, MalformedArray);
    CallsStep(cfg, data, final, i + FirstOf(v, k), []);
    var all := CallsFrom(cfg, data, final, i + FirstOf(v, k));
    assert [] + all.made == all.made;
    if k < |v.es| - 1 { CallsAre(cfg, data, final, i, v, k + 1); }
  }

  /** The streaming ArrayEach calls back once for every element of a root array, in order, without an error. */
  lemma StreamEachElements(cfg: Config, d: Doc, final: ReadError)
    requires WfDoc(d) && d.root.Node? && !d.root.obj
    ensures StreamEach(cfg, PrintDoc(d), final) == Calls(CallsOf(d.root, 0), None)
  {
    hide Print, PrintDoc, CallsFrom, FirstOf, TypeOf, Content, At, PrintEntries;
    var data := PrintDoc(d);
    DocAt(d);
    RootBracket(data, |d.lead|, d.root);
    FirstInside(data, |d.lead|, d.root);
    if d.root.es != [] {
      FirstInside(data, |d.lead|, d.root);
      CallsAre(cfg, data, final, |d.lead|, d.root, 0);
    }
  }

  lemma RootBracket(data: Bytes, i: nat, v: JVal)
    requires v.Node? && At(data, i, Print(v)) && SpaceRun(data, 0, i)
    ensures i < |data| && data[i] == Open(v.obj) && NextTok(data, 0) == i
  {
    hide PrintEntries;
    NodeAt(data, i, v);
    NextTokSkips(data, 0, i);
  }
}
