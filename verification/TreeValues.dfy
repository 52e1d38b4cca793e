/** Get and ArrayEach on printed trees: the value found is the text of a subtree, typed by its shape. */
module TreeValues {
  import opened Bytes
  import opened Strings
  import opened Scanners
  import opened Syntax
  import opened Layout
  import opened Blocks
  import opened Lookup

  function TypeOf(v: JVal): ValueType {
    match v
    case Prim(t) => if t == TRUE || t == FALSE then Boolean else if t == NULL then NullType else Number
    case Str(_) => String
    case Node(obj, _, _) => if obj then Object else Array
  }

  /** What Get returns for a value: a string without its quotes, anything else as it stands in the text. */
  function Content(v: JVal): Bytes {
    if v.Str? then v.body else Print(v)
  }

  /** The value ends at a delimiter or at the end of the text. */
  predicate Bounded(data: Bytes, j: nat) {
    j == |data| || (j < |data| && EndsPrimitive(data[j]))
  }

  lemma PrimTyped(cfg: Config, data: Bytes, i: nat, t: Bytes)
    requires IsPrimitive(t) && At(data, i, t) && Bounded(data, i + |t|)
    ensures i < |data| && TypeAt(cfg, data, i) == Typed(TypeOf(Prim(t)), i + |t|, None)
  {
    PrimAt(data, i, t);
    PrimShape(t);
    TokEndPrim(data, i, i + |t|);
    AtSlice(data, i, t);
    assert data[i] == t[0] by { assert data[i + 0] == t[0]; }
  }

  lemma ValueTyped(cfg: Config, data: Bytes, i: nat, v: JVal)
    requires Wf(v) && At(data, i, Print(v)) && Bounded(data, i + |Print(v)|)
    ensures i < |data| && !IsSpace(data[i]) && data[i] != RBRACKET && data[i] != RBRACE
    ensures TypeAt(cfg, data, i) == Typed(TypeOf(v), i + |Print(v)|, None)
  {
    hide BlockFrom, StackFrom, StrEndFrom, TokEnd, IsPrimitive;
    match v
    case Prim(t) =>
      PrimTyped(cfg, data, i, t);
      PrimAt(data, i, t);
    case Str(b) =>
      StrAt(data, i, b);
    case Node(_, _, _) =>
      NodeEnds(cfg, data, i, v);
  }

  /** Get at or before a value, with only whitespace in between, returns that value. */
  lemma GetValue(cfg: Config, data: Bytes, r: nat, i: nat, v: JVal)
    requires Wf(v) && At(data, i, Print(v)) && Bounded(data, i + |Print(v)|) && SpaceRun(data, r, i)
    ensures GetFrom(cfg, data, r) == Got(Content(v), TypeOf(v), i, i + |Print(v)|, None)
  {
    hide TypeAt, TypeOf;
    ValueTyped(cfg, data, i, v);
    NextTokSkips(data, r, i);
    AtSlice(data, i, Print(v));
    assert TypeOf(v) == String <==> v.Str? by { OnlyStrings(v); }
    if v.Str? {
      StrAt(data, i, v.body);
      AtSlice(data, i + 1, v.body);
    }
  }

  lemma OnlyStrings(v: JVal)
    ensures TypeOf(v) == String <==> v.Str?
  {
  }

  /** Offset, inside Print(v), of the first token of entry k. */
  function FirstOf(v: JVal, k: nat): nat
    requires v.Node? && k < |v.es|
  {
    if v.obj then Start(v, k) + |v.es[k].w1| else ValueStart(v, k)
  }

  /** From the start of a member, whitespace leads to the quote of its name. */
  lemma FirstOfMember(data: Bytes, i: nat, v: JVal, k: nat)
    requires Wf(v) && v.Node? && v.obj && At(data, i, Print(v)) && k < |v.es|
    ensures i + FirstOf(v, k) < |data| && NextTok(data, i + Start(v, k)) == i + FirstOf(v, k)
    ensures data[i + FirstOf(v, k)] == QUOTE
  {
    hide Print, PrintEntry, PrintEntries, Start, End, KeyPart, At, NextTok, Wf, IsStringBody;
    ChildAt(data, i, v, k);
    EntryParts(data, i + Start(v, k), true, v.es[k]);
    KeyPlaces(data, i + Start(v, k), v.es[k]);
  }

  /** From the start of an element, whitespace leads to the first byte of its value. */
  lemma FirstOfElement(data: Bytes, i: nat, v: JVal, k: nat)
    requires Wf(v) && v.Node? && !v.obj && At(data, i, Print(v)) && k < |v.es|
    ensures i + Start(v, k) <= i + FirstOf(v, k) < |data| && NextTok(data, i + Start(v, k)) == i + FirstOf(v, k)
    ensures data[i + FirstOf(v, k)] != RBRACE && data[i + FirstOf(v, k)] != RBRACKET
  {
    hide Print, PrintEntry, PrintEntries, Start, End, KeyPart, At, NextTok, Wf, ValueStart;
    var e := v.es[k];
    ChildAt(data, i, v, k);
    FirstValue(data, i + ValueStart(v, k), e.v);
    NoKeyPart(e);
    NextTokSkips(data, i + Start(v, k), i + ValueStart(v, k));
  }

  /** From the start of an entry, whitespace leads to its first token, which is no closing bracket. */
  lemma FirstTokenOf(data: Bytes, i: nat, v: JVal, k: nat)
    requires Wf(v) && v.Node? && At(data, i, Print(v)) && k < |v.es|
    ensures i + Start(v, k) <= i + FirstOf(v, k) < |data|
    ensures NextTok(data, i + Start(v, k)) == i + FirstOf(v, k)
    ensures data[i + FirstOf(v, k)] != RBRACE && data[i + FirstOf(v, k)] != RBRACKET
  {
    hide Print, PrintEntry, PrintEntries, Start, KeyPart, At, NextTok, Wf, ValueStart;
    if v.obj { FirstOfMember(data, i, v, k); } else { FirstOfElement(data, i, v, k); }
  }

  lemma NoKeyPart(e: Entry)
    ensures KeyPart(false, e) == []
  {
  }

  /** The first byte of a value is a token, and no closing bracket. */
  lemma FirstValue(data: Bytes, p: nat, v: JVal)
    requires Wf(v) && At(data, p, Print(v))
    ensures p < |data| && !IsSpace(data[p]) && data[p] != RBRACE && data[p] != RBRACKET
  {
    hide PrintEntries;
    match v
    case Prim(t) => PrimAt(data, p, t);
    case Str(b) => StrAt(data, p, b);
    case Node(_, _, _) => NodeAt(data, p, v);
  }

  /** Get behind the colon of member k returns its value. */
  lemma MemberGot(cfg: Config, data: Bytes, i: nat, v: JVal, k: nat)
    requires Wf(v) && v.Node? && v.obj && At(data, i, Print(v)) && k < |v.es|
    ensures var e := v.es[k].v;
            var j := i + ValueStart(v, k);
            && i + Start(v, k) + |KeyPart(true, v.es[k])| <= |data|
            && GetFrom(cfg, data, i + Start(v, k) + |KeyPart(true, v.es[k])|) == Got(Content(e), TypeOf(e), j, j + |Print(e)|, None)
  {
    hide GetFrom, Print, PrintEntry, PrintEntries, KeyPart, Start, End, At, Content, TypeOf, Bounded;
    ChildAt(data, i, v, k);
    DelimitedBounds(data, i + ValueStart(v, k) + |Print(v.es[k].v)|, i + End(v, k));
    GetValue(cfg, data, i + Start(v, k) + |KeyPart(true, v.es[k])|, i + ValueStart(v, k), v.es[k].v);
  }

  /** The callback ArrayEach makes for element k of the array printed at i. */
  function ElementAt(i: nat, v: JVal, k: nat): Event
    requires v.Node? && k < |v.es|
  {
    var e := v.es[k].v;
    Event(Content(e), TypeOf(e), i + ValueStart(v, k) + |Print(e)| - |Content(e)|, None)
  }

  function ElementsFrom(i: nat, v: JVal, k: nat): (s: seq<Event>)
    requires v.Node? && k <= |v.es|
    ensures |s| == |v.es| - k
    ensures forall j :: 0 <= j < |s| ==> s[j] == ElementAt(i, v, k + j)
  {
    seq(|v.es| - k, j requires 0 <= j < |v.es| - k => ElementAt(i, v, k + j))
  }

  lemma ElementsStep(i: nat, v: JVal, k: nat)
    requires v.Node? && k <= |v.es|
    ensures k == |v.es| ==> ElementsFrom(i, v, k) == []
    ensures k < |v.es| ==> ElementsFrom(i, v, k) == [ElementAt(i, v, k)] + ElementsFrom(i, v, k + 1)
  {
    hide ElementAt;
    if k < |v.es| {
      var all, rest := ElementsFrom(i, v, k), ElementsFrom(i, v, k + 1);
      forall j | 0 <= j < |all| ensures all[j] == ([ElementAt(i, v, k)] + rest)[j] {
        if j > 0 { assert rest[j - 1] == ElementAt(i, v, k + 1 + (j - 1)); }
      }
    }
  }

  lemma DelimitedBounds(data: Bytes, i: nat, q: nat)
    requires Delimited(data, i, q)
    ensures Bounded(data, i) && NextTok(data, i) == q
  {
    NextTokSkips(data, i, q);
  }

  /** What the element loop sees at or before element k. */
  lemma ElementGot(cfg: Config, data: Bytes, i: nat, v: JVal, k: nat, r: nat)
    requires Wf(v) && v.Node? && !v.obj && At(data, i, Print(v)) && k < |v.es|
    requires r <= i + ValueStart(v, k) && SpaceRun(data, r, i + ValueStart(v, k))
    ensures i + |Print(v)| <= |data| && r <= |data| && ValueStart(v, k) + |Print(v.es[k].v)| <= |Print(v)|
    ensures var g := GetFrom(cfg, data, r);
            && g.err.None? && ElementEvent(g, r) == ElementAt(i, v, k)
            && g.end == i + ValueStart(v, k) + |Print(v.es[k].v)| && r < g.end
            && NextTok(data, g.end) == i + End(v, k)
    ensures data[i + End(v, k)] == if k == |v.es| - 1 then RBRACKET else COMMA
    ensures if k == |v.es| - 1 then End(v, k) + 1 == |Print(v)|
            else Start(v, k + 1) == End(v, k) + 1 && Start(v, k + 1) <= ValueStart(v, k + 1)
                 && SpaceRun(data, i + Start(v, k + 1), i + ValueStart(v, k + 1))
    ensures End(v, k) < |Print(v)|
  {
    hide GetFrom, NextTok, Print, PrintEntry, PrintEntries, TypeOf, Content, At;
    var e := v.es[k];
    ChildAt(data, i, v, k);
    DelimitedBounds(data, i + ValueStart(v, k) + |Print(e.v)|, i + End(v, k));
    GetValue(cfg, data, r, i + ValueStart(v, k), e.v);
    PrintNonempty(e.v);
    if k < |v.es| - 1 { ChildAt(data, i, v, k + 1); }
  }

  /** The element loop, started at or before element k, calls back for every element from k on, and succeeds. */
  lemma {:induction false} EachElement(cfg: Config, data: Bytes, i: nat, v: JVal, k: nat, r: nat)
    requires Wf(v) && v.Node? && !v.obj && At(data, i, Print(v)) && k < |v.es|
    requires 1 <= r <= i + ValueStart(v, k) && SpaceRun(data, r, i + ValueStart(v, k))
    ensures EachFrom(cfg, data, r) == Each(ElementsFrom(i, v, k), i + |Print(v)| - 1, None)
    decreases |v.es| - k
  {
    hide EachFrom, GetFrom, NextTok, Print, ElementEvent, ElementAt, ValueStart, Start, End, At, SpaceRun;
    ElementsStep(i, v, k);
    ElementsStep(i, v, k + 1);
    ElementGot(cfg, data, i, v, k, r);
    EachLast(cfg, data, r, []);
    assert [] + EachFrom(cfg, data, r).events == EachFrom(cfg, data, r).events;
    if k < |v.es| - 1 {
      EachStep(cfg, data, r, []);
      EachElement(cfg, data, i, v, k + 1, i + Start(v, k + 1));
    }
  }

  lemma PrintNonempty(v: JVal)
    requires Wf(v)
    ensures Print(v) != []
  {
    if v.Prim? { PrimShape(v.text); }
  }

  /** Behind the opening bracket of a printed array: one error-free callback for every element, in order, and success. */
  lemma EachArrayAt(cfg: Config, data: Bytes, i: nat, v: JVal)
    requires Wf(v) && v.Node? && !v.obj && At(data, i, Print(v))
    ensures i + 1 <= |data| && data[i] == LBRACKET
    ensures EachInside(cfg, data, i + 1) == Each(ElementsFrom(i, v, 0), i + |Print(v)| - 1, None)
  {
    hide EachFrom, Print, PrintEntries, At, ElementAt;
    FirstToken(data, i, v);
    if v.es != [] {
      FirstElement(data, i, v);
      EachElement(cfg, data, i, v, 0, i + ValueStart(v, 0));
    }
  }

  /** ArrayEach over a text that starts with a printed array. */
  lemma EachArray(cfg: Config, data: Bytes, v: JVal)
    requires Wf(v) && v.Node? && !v.obj && At(data, 0, Print(v))
    ensures EachRoot(cfg, data) == Each(ElementsFrom(0, v, 0), |Print(v)| - 1, None)
  {
    hide EachInside, Print, At;
    EachArrayAt(cfg, data, 0, v);
  }

  lemma FirstToken(data: Bytes, i: nat, v: JVal)
    requires Wf(v) && v.Node? && !v.obj && At(data, i, Print(v))
    ensures 2 <= |Print(v)| && i + |Print(v)| <= |data| && data[i] == LBRACKET && NextTok(data, i) == i
    ensures v.es == [] ==> NextTok(data, i + 1) == i + |Print(v)| - 1 && data[i + |Print(v)| - 1] == RBRACKET
  {
    NodeAt(data, i, v);
    if v.es == [] {
      SpaceAt(data, i + 1, v.ews);
      NextTokSkips(data, i + 1, i + 1 + |v.ews|);
    }
  }

  lemma FirstElement(data: Bytes, i: nat, v: JVal)
    requires Wf(v) && v.Node? && !v.obj && At(data, i, Print(v)) && v.es != []
    ensures i + ValueStart(v, 0) < |data| && i + 1 <= i + ValueStart(v, 0)
    ensures NextTok(data, i + 1) == i + ValueStart(v, 0) && data[i + ValueStart(v, 0)] != RBRACKET
    ensures SpaceRun(data, i + ValueStart(v, 0), i + ValueStart(v, 0))
  {
    hide Print, PrintEntry, PrintEntries, EntryPos, At;
    FirstInside(data, i, v);
  }

  /** The first token inside a container: its closing bracket, or the first token of its first entry. */
  lemma FirstInside(data: Bytes, i: nat, v: JVal)
    requires Wf(v) && v.Node? && At(data, i, Print(v))
    ensures i + 1 < i + |Print(v)| <= |data| && data[i] == Open(v.obj)
    ensures i + 1 <= NextTok(data, i + 1) < |data|
    ensures data[NextTok(data, i + 1)] == Close(v.obj) <==> v.es == []
    ensures v.es == [] ==> NextTok(data, i + 1) == i + |Print(v)| - 1
    ensures v.es != [] ==> (NextTok(data, i + 1) == i + FirstOf(v, 0) && FirstOf(v, 0) < |Print(v)| - 1
                            && data[i + FirstOf(v, 0)] != RBRACE && data[i + FirstOf(v, 0)] != RBRACKET)
  {
    hide PrintEntry, PrintEntries, FirstOf, Print;
    NodeAt(data, i, v);
    if v.es == [] {
      SpaceAt(data, i + 1, v.ews);
      NextTokSkips(data, i + 1, i + 1 + |v.ews|);
    } else {
      hide At;
      EntryPosZero(v.obj, v.es);
      FirstTokenOf(data, i, v, 0);
      FirstBounds(v);
    }
  }

  lemma FirstBounds(v: JVal)
    requires Wf(v) && v.Node? && v.es != []
    ensures FirstOf(v, 0) < |Print(v)| - 1
  {
    hide PrintEntry, Print;
    AtWhole(Print(v));
    ChildAt(Print(v), 0, v, 0);
    PrintNonempty(v.es[0].v);
    assert WfEntry(v.obj, v.es[0]);
  }

  lemma EntryPosZero(obj: bool, es: seq<Entry>)
    requires es != []
    ensures EntryPos(obj, es, 0) == 0
  {
  }
}
