/** append.go: adding an element at the end of an array by splicing, with Set as the fallback. */
module Appending {
  import opened Bytes
  import opened Scanners
  import opened Syntax
  import opened Layout
  import opened Lookup
  import opened TreeValues
  import opened TreeLookup
  import opened Contexts
  import opened Insert
  import opened Setting
  import opened SetLaws
  import opened Growth

  function AppendSpec(data: Bytes, value: Bytes, keys: Path): Outcome {
    var g := GetSpec(STRICT, data, keys);
    if g.err.Some? then
      if g.err != Some(KeyPathNotFound) || keys == [] then Failed(g.err.value)
      else SetSpec(STRICT, data, [LBRACKET] + value + [RBRACKET], keys)
    else
      var close := g.end - 1;
      if g.t != Array || close <= g.off || data[close] != RBRACKET then Failed(MalformedArray)
      else
        var hasElements := NextTok(data[g.off + 1..close], 0) != -1;
        Done(Splice(data, close, close, (if hasElements then [COMMA] else []) + value))
  }

  method Append(data: Bytes, value: Bytes, keys: Path) returns (r: Outcome)
    ensures r == AppendSpec(data, value, keys)
  {
    hide GetSpec, SetSpec;
    var g := Get(STRICT, data, keys);
    if g.err.Some? {
      if g.err != Some(KeyPathNotFound) || |keys| == 0 {
        return Failed(g.err.value);
      }
      var arrayValue := new byte[|value| + 2](_ => 0);
      var offset := Write(arrayValue, 0, [LBRACKET]);
      assert arrayValue[..1] == [LBRACKET];
      offset := Write(arrayValue, offset, value);
      offset := Write(arrayValue, offset, [RBRACKET]);
      assert arrayValue[..offset] == arrayValue[..];
      r := Set(STRICT, data, arrayValue[..], keys);
      return;
    }
    if g.t != Array {
      return Failed(MalformedArray);
    }
    var closeOffset := g.end - 1;
    if closeOffset <= g.off || closeOffset >= |data| || data[closeOffset] != RBRACKET {
      return Failed(MalformedArray);
    }
    var token := NextToken(data[g.off + 1..closeOffset]);
    var result := InsertElement(data, closeOffset, token != -1, value);
    return Done(result[..]);
  }

  /** Builds the result: everything before the closing bracket, a comma if needed, the value, the rest. */
  method InsertElement(data: Bytes, closeOffset: nat, hasElements: bool, value: Bytes) returns (result: array<byte>)
    requires closeOffset <= |data|
    ensures fresh(result)
    ensures result[..] == Splice(data, closeOffset, closeOffset, (if hasElements then [COMMA] else []) + value)
  {
    var extraSpace := |value|;
    if hasElements {
      extraSpace := extraSpace + 1;
    }
    result := new byte[|data| + extraSpace](_ => 0);
    var offset := Write(result, 0, data[..closeOffset]);
    assert result[..offset] == data[..closeOffset];
    ghost var comma: Bytes := [];
    if hasElements {
      offset := Write(result, offset, [COMMA]);
      comma := [COMMA];
    }
    assert result[..offset] == data[..closeOffset] + comma;
    offset := Write(result, offset, value);
    Associate(data[..closeOffset], comma, value);
    offset := Write(result, offset, data[closeOffset..]);
    assert result[..offset] == result[..];
  }

  // ---- the splice Append makes in a well-formed document ----

  predicate IsArray(v: JVal) {
    v.Node? && !v.obj
  }

  /** The path designates l, and an array is there. */
  ghost predicate ArrayAt(d: Doc, keys: Path, l: Loc) {
    Designates(d.root, l, keys) && IsArray(Sub(d.root, l))
  }

  /** Between its brackets a printed array is blank exactly when it has no element. */
  lemma InsideArray(data: Bytes, i: nat, v: JVal)
    requires Wf(v) && v.Node? && !v.obj && At(data, i, Print(v))
    ensures var close := i + |Print(v)| - 1;
            && i < close < |data| && data[i] == LBRACKET && data[close] == RBRACKET
            && (NextTok(data[i + 1..close], 0) == -1 <==> v.es == [])
  {
    hide Print, PrintEntry, PrintEntries, At, FirstOf;
    FirstInside(data, i, v);
    NodeAt(data, i, v);
    var close := i + |Print(v)| - 1;
    var inside := data[i + 1..close];
    if v.es == [] {
      forall k | 0 <= k < |inside| ensures IsSpace(inside[k]) { assert inside[k] == data[i + 1 + k]; }
    } else {
      assert inside[NextTok(data, i + 1) - i - 1] == data[NextTok(data, i + 1)];
    }
  }

  function Comma(n: JVal): Bytes
    requires n.Node?
  {
    if n.es == [] then [] else [COMMA]
  }

  /** Append at an array inserts the value, after a comma if there are elements, before the closing bracket. */
  lemma AppendSplices(d: Doc, value: Bytes, keys: Path, l: Loc)
    requires WfDoc(d) && ArrayAt(d, keys, l)
    ensures var close := GotAt(d, l).end - 1;
            && 0 <= close < |PrintDoc(d)|
            && AppendSpec(PrintDoc(d), value, keys) == Done(Splice(PrintDoc(d), close, close, Comma(Sub(d.root, l)) + value))
  {
    hide Print, PrintDoc, GetSpec, SetSpec, OffOf, Leads, Content, At, Bounded, SpaceRun, SlotOf, Sub, Wf, NextTok, Locate;
    DesignatesGot(STRICT, d, l, keys);
    SubPlace(d, l);
    InsideArray(PrintDoc(d), GotAt(d, l).off, Sub(d.root, l));
  }

  // ---- Append and Set past the end ----

  lemma {:induction false} LeadsPrefix(v: JVal, l: Loc, keys: Path, m: nat)
    requires Leads(v, l, keys) && m <= |l|
    ensures Leads(v, l[..m], keys[..m])
    decreases m
  {
    if m > 0 {
      assert l[..m][1..] == l[1..][..m - 1] && keys[..m][1..] == keys[1..][..m - 1];
      LeadsPrefix(v.es[l[0]].v, l[1..], keys[1..], m - 1);
    }
  }

  /** An index component past the end of a non-empty array: not found itself, but all before it is. */
  lemma PastEndDepth(d: Doc, keys: Path, l: Loc, idx: Bytes)
    requires WfDoc(d) && ArrayAt(d, keys, l) && Leads(d.root, l, keys)
    requires IndexOf(idx).Some? && IndexOf(idx).value >= |Sub(d.root, l).es|
    ensures GetSpec(STRICT, PrintDoc(d), keys + [idx]) == NOT_FOUND
    ensures PrefixDepth(STRICT, PrintDoc(d), keys + [idx], 0) == |keys|
    ensures GetSpec(STRICT, PrintDoc(d), keys) == GotAt(d, l)
  {
    hide Leads, GotAt, Print, PrintDoc, Sub, PrefixDepth, IndexOf, Wf, SearchKeysSpec;
    var all := keys + [idx];
    assert |l| == |keys| by { LeadsLength(d.root, l, keys); }
    assert all[..|l|] == keys;
    if !IsIndexKey(idx) { NotIndex(idx); }
    SearchMissesPastEnd(STRICT, d, all, l);
    hide GetSpec;
    assert all[..|keys| + 1] == all;
    GetFindsLeading(STRICT, d, keys, l);
    forall j | 0 < j <= |keys| ensures GetSpec(STRICT, PrintDoc(d), all[..j]).err.None? {
      assert all[..j] == keys[..j];
      PrefixFound(d, keys, l, j);
    }
    DepthIs(STRICT, PrintDoc(d), all, 0, |keys|);
  }

  lemma PrefixFound(d: Doc, keys: Path, l: Loc, j: nat)
    requires WfDoc(d) && Leads(d.root, l, keys) && j <= |l| == |keys|
    ensures GetSpec(STRICT, PrintDoc(d), keys[..j]).err.None?
  {
    hide Leads, GotAt, GetSpec, PrintDoc;
    LeadsPrefix(d.root, l, keys, j);
    GetFindsLeading(STRICT, d, keys[..j], l[..j]);
    GotAtOk(d, l[..j]);
  }

  lemma IndexComponent(idx: Bytes, value: Bytes)
    requires IsIndexKey(idx)
    ensures Component([idx], value, true, false) == [COMMA] + value
  {
    assert [idx][1..] == [];
    assert [COMMA] + [] + [] + value + [] + [] == [COMMA] + value;
  }

  /** The last token inside a non-empty printed array is not a comma. */
  lemma LastInside(data: Bytes, i: nat, v: JVal)
    requires Wf(v) && v.Node? && !v.obj && At(data, i, Print(v)) && v.es != []
    ensures var close := i + |Print(v)| - 1;
            var inside := data[i + 1..close];
            && LastTok(inside, |inside|) != -1 && inside[LastTok(inside, |inside|)] != COMMA
  {
    hide Print, PrintEntry, PrintEntries, Start, ValueStart, End, LastTok;
    var k := |v.es| - 1;
    var e := v.es[k].v;
    var close := i + |Print(v)| - 1;
    var inside := data[i + 1..close];
    ChildAt(data, i, v, k);
    var j := i + ValueStart(v, k) + |Print(e)|;
    LastByte(data, i + ValueStart(v, k), e);
    assert 1 <= ValueStart(v, k) by { StartPositive(v, k); }
    assert forall m :: j - i - 1 <= m < |inside| ==> inside[m] == data[m + i + 1];
    LastTokSkips(inside, j - i - 1, |inside|);
    assert inside[j - i - 2] == data[j - 1];
    LastTokHere(inside, j - i - 1);
  }

  lemma LastTokHere(data: Bytes, n: nat)
    requires 0 < n <= |data| && !IsSpace(data[n - 1])
    ensures LastTok(data, n) == n - 1
  {
  }

  lemma StartPositive(v: JVal, k: nat)
    requires v.Node? && k < |v.es|
    ensures 1 <= Start(v, k) <= ValueStart(v, k)
  {
  }

  /** A printed value ends with a byte that is neither whitespace nor a comma. */
  lemma LastByte(data: Bytes, i: nat, v: JVal)
    requires Wf(v) && At(data, i, Print(v))
    ensures 0 < |Print(v)| && i + |Print(v)| <= |data|
    ensures !IsSpace(data[i + |Print(v)| - 1]) && data[i + |Print(v)| - 1] != COMMA
  {
    match v
    case Prim(t) => PrimAt(data, i, t);
    case Str(b) => StrAt(data, i, b);
    case Node(_, _, _) => NodeAt(data, i, v);
  }

  /**
   * Appending to a non-empty array is, byte for byte, setting any index past its end: whatever the value's
   * bytes, whatever the index, and at any depth including a root array.
   */
  lemma AppendIsSetPastEnd(d: Doc, value: Bytes, keys: Path, l: Loc, idx: Bytes)
    requires WfDoc(d) && ArrayAt(d, keys, l) && Leads(d.root, l, keys) && Sub(d.root, l).es != []
    requires IndexOf(idx).Some? && IndexOf(idx).value >= |Sub(d.root, l).es|
    ensures SetSpec(STRICT, PrintDoc(d), value, keys + [idx]) == AppendSpec(PrintDoc(d), value, keys)
    ensures AppendSpec(PrintDoc(d), value, keys).Done?
  {
    hide Print, PrintDoc, GetSpec, PrefixDepth, OffOf, Leads, Component, PlanTop, PlanBelow, AppendSpec, Content, TypeOf;
    AppendSplices(d, value, keys, l);
    PastEndDepth(d, keys, l, idx);
    IndexComponent(idx, value);
    var all := keys + [idx];
    assert all[..|keys|] == keys && all[|keys|..] == [idx];
    if keys == [] {
      assert all == [idx] && all[0..] == all;
      LeadsLength(d.root, l, keys);
      assert l == [] && Sub(d.root, l) == d.root;
      RootArrayPlan(STRICT, d, all);
    } else {
      ArrayPlan(d, idx, l);
    }
  }

  lemma RootArrayPlan(cfg: Config, d: Doc, keys: Path)
    requires WfDoc(d) && d.root.Node? && !d.root.obj && d.root.es != [] && keys != [] && IsIndexKey(keys[0])
    ensures ValidLoc(d.root, [])
    ensures var close := GotAt(d, []).end - 1;
            PlanTop(cfg, PrintDoc(d), keys) == Planned(Plan(close, close, true, false))
  {
    hide Print, PrintDoc, NextTok, LastTok, BlockFrom, Content, TypeOf;
    RootTokens(d);
    OffOfRoot(d.root);
    assert Sub(d.root, []) == d.root;
    BlockOfRoot(cfg, d);
    LastInside(PrintDoc(d), |d.lead|, d.root);
  }

  lemma BlockOfRoot(cfg: Config, d: Doc)
    requires WfDoc(d) && d.root.Node?
    ensures |d.lead| + |Print(d.root)| <= |PrintDoc(d)|
    ensures BlockEndAt(cfg, PrintDoc(d), |d.lead|, Open(d.root.obj), Close(d.root.obj)) == |d.lead| + |Print(d.root)|
  {
    hide Print, PrintDoc;
    DocAt(d);
    Blocks.NodeEnds(cfg, PrintDoc(d), |d.lead|, d.root);
  }

  lemma ArrayPlan(d: Doc, idx: Bytes, l: Loc)
    requires WfDoc(d) && ValidLoc(d.root, l) && IsIndexKey(idx)
    requires Sub(d.root, l).Node? && !Sub(d.root, l).obj && Sub(d.root, l).es != []
    ensures var g := GotAt(d, l);
            && 0 <= g.off < g.end <= |PrintDoc(d)|
            && PlanBelow(PrintDoc(d), idx, g) == Plan(g.end - 1, g.end - 1, true, false)
  {
    hide Print, PrintDoc, NextTok, OffOf, Content, TypeOf;
    SubPlace(d, l);
    var n := Sub(d.root, l);
    var i := GotAt(d, l).off;
    PrintNonempty(n);
    FirstElement(PrintDoc(d), i, n);
    NodeAt(PrintDoc(d), i, n);
  }

  // ---- runs of Append ----

  /** The array with one more element. */
  function Longer(n: JVal, w: JVal): JVal
    requires n.Node?
  {
    if n.es == [] then Node(n.obj, [], [Elem(n.ews, w)]) else Grown(n, Elem([], w))
  }

  lemma PrintLonger(n: JVal, w: JVal)
    requires n.Node? && !n.obj
    ensures var p := Print(n);
            Print(Longer(n, w)) == p[..|p| - 1] + (Comma(n) + Print(w)) + p[|p| - 1..]
  {
    hide PrintEntry, PrintEntries, Print;
    if n.es == [] {
      PrintFirst(false, [], Elem(n.ews, w));
      PrintElem(n.ews, w);
      PrintEmpty(n);
      FirstText(n.ews, Print(w));
    } else {
      PrintGrown(n, Elem([], w));
      PrintElem([], w);
      assert [] + Print(w) == Print(w);
    }
  }

  lemma PrintEmpty(n: JVal)
    requires n.Node? && !n.obj && n.es == []
    ensures Print(n) == [LBRACKET] + (n.ews + [RBRACKET])
  {
  }

  lemma FirstText(ews: Bytes, x: Bytes)
    ensures var p := [LBRACKET] + (ews + [RBRACKET]);
            [LBRACKET] + ((ews + x) + [RBRACKET]) == p[..|p| - 1] + ([] + x) + p[|p| - 1..]
  {
    var p := [LBRACKET] + (ews + [RBRACKET]);
    assert p[..|p| - 1] == [LBRACKET] + ews && p[|p| - 1..] == [RBRACKET];
    assert [] + x == x;
  }

  lemma LongerWf(d: Doc, w: JVal, l: Loc)
    requires WfDoc(d) && Wf(w) && ValidLoc(d.root, l) && Sub(d.root, l).Node? && !Sub(d.root, l).obj
    ensures var n := Longer(Sub(d.root, l), w); Wf(n) && n.Node? && !n.obj
  {
    SubWf(d.root, l);
  }

  lemma AppendText(d: Doc, w: JVal, keys: Path, l: Loc)
    requires WfDoc(d) && ArrayAt(d, keys, l)
    ensures AppendSpec(PrintDoc(d), Print(w), keys) == Done(PrintDoc(ReplaceDoc(d, l, Longer(Sub(d.root, l), w))))
  {
    hide Print, PrintDoc, AppendSpec, OffOf, Leads, ReplaceAt, Content, TypeOf, Longer, Wf;
    var n := Sub(d.root, l);
    AppendSplices(d, Print(w), keys, l);
    PrintLonger(n, w);
    NodeSize(n);
    SpliceWithin(d, l, |Print(n)| - 1, |Print(n)| - 1, Comma(n) + Print(w), Longer(n, w));
  }

  /** One Append of a well-formed value: the array at the path gets it as its last element. */
  lemma AppendGrows(d: Doc, w: JVal, keys: Path, l: Loc)
    requires WfDoc(d) && Wf(w) && ArrayAt(d, keys, l)
    ensures var d' := ReplaceDoc(d, l, Longer(Sub(d.root, l), w));
            && AppendSpec(PrintDoc(d), Print(w), keys) == Done(PrintDoc(d'))
            && WfDoc(d') && ArrayAt(d', keys, l) && Sub(d'.root, l) == Longer(Sub(d.root, l), w)
            && (ControlFree(d.root) && ControlFree(w) ==> ControlFree(d'.root))
  {
    hide ControlFree, Print, PrintDoc, AppendSpec, OffOf, Leads, ReplaceAt, Content, TypeOf, Longer, Wf;
    var n := Sub(d.root, l);
    AppendText(d, w, keys, l);
    if ControlFree(d.root) && ControlFree(w) { LongerControlFree(d, w, l); }
    LongerWf(d, w, l);
    ReplaceWf(d.root, l, Longer(n, w));
    ReplaceDesignates(d.root, l, Longer(n, w), keys);
    ReplaceKeepsContext(d.root, l, Longer(n, w));
  }

  lemma LongerControlFree(d: Doc, w: JVal, l: Loc)
    requires ValidLoc(d.root, l) && Sub(d.root, l).Node? && !Sub(d.root, l).obj && ControlFree(d.root) && ControlFree(w)
    ensures ControlFree(ReplaceAt(d.root, l, Longer(Sub(d.root, l), w)))
  {
    SubControlFree(d.root, l);
    ReplaceControlFree(d.root, l, Longer(Sub(d.root, l), w));
  }

  lemma NodeSize(n: JVal)
    requires n.Node?
    ensures |Print(n)| >= 2
  {
  }

  /** Appends the printed values one after the other; stops at the first failure. */
  function AppendAll(data: Bytes, ws: seq<JVal>, keys: Path): Outcome
    decreases |ws|
  {
    if ws == [] then Done(data)
    else match AppendSpec(data, Print(ws[0]), keys)
      case Failed(e) => Failed(e)
      case Done(data') => AppendAll(data', ws[1..], keys)
  }

  function Values(n: JVal): (s: seq<JVal>)
    requires n.Node?
    ensures |s| == |n.es| && forall k :: 0 <= k < |s| ==> s[k] == n.es[k].v
  {
    seq(|n.es|, k requires 0 <= k < |n.es| => n.es[k].v)
  }

  lemma {:induction false} AppendRun(d: Doc, ws: seq<JVal>, keys: Path, l: Loc) returns (d': Doc)
    requires WfDoc(d) && ArrayAt(d, keys, l) && forall k :: 0 <= k < |ws| ==> Wf(ws[k])
    ensures AppendAll(PrintDoc(d), ws, keys) == Done(PrintDoc(d'))
    ensures WfDoc(d') && ArrayAt(d', keys, l)
    ensures Values(Sub(d'.root, l)) == Values(Sub(d.root, l)) + ws
    decreases |ws|
  {
    hide AppendSpec, PrintDoc, Print, Wf, Leads, ReplaceAt;
    if ws == [] {
      d' := d;
    } else {
      AppendGrows(d, ws[0], keys, l);
      var d1 := ReplaceDoc(d, l, Longer(Sub(d.root, l), ws[0]));
      d' := AppendRun(d1, ws[1..], keys, l);
      assert Values(Sub(d1.root, l)) == Values(Sub(d.root, l)) + [ws[0]];
      assert Values(Sub(d.root, l)) + [ws[0]] + ws[1..] == Values(Sub(d.root, l)) + ws;
    }
  }

  /** ArrayEach at a path that designates an array calls back once for every element. */
  lemma EachDesignated(cfg: Config, d: Doc, keys: Path, l: Loc)
    requires WfDoc(d) && ArrayAt(d, keys, l)
    ensures var n := Sub(d.root, l);
            var i := |d.lead| + OffOf(d.root, l);
            EachSpec(cfg, PrintDoc(d), keys) == Each(ElementsFrom(i, n, 0), i + |Print(n)| - 1, None)
  {
    hide Print, PrintDoc, OffOf, SlotOf, Leads, SearchKeysSpec, EachInside, ElementsFrom, Wf, At, Bounded, Sub;
    var data := PrintDoc(d);
    var n := Sub(d.root, l);
    var i := |d.lead| + OffOf(d.root, l);
    SubPlace(d, l);
    EachArrayAt(cfg, data, i, n);
    FirstToken(data, i, n);
    DocToken(d);
    if keys == [] {
      assert l == [] by { DesignatesLocates(d.root, l, keys); }
      NextTokSkips(data, 0, i);
    } else {
      SearchDesignated(cfg, d, keys, l);
      NextTokSkips(data, |d.lead| + SlotOf(d.root, l), i);
    }
  }

  /** A document is not blank. */
  lemma DocToken(d: Doc)
    requires WfDoc(d)
    ensures PrintDoc(d) != [] && NextTok(PrintDoc(d), 0) != -1
  {
    hide Print, PrintDoc;
    DocAt(d);
    LastByte(PrintDoc(d), |d.lead|, d.root);
  }

  /** Whatever is appended to an empty array, one value after the other, is read back in order, exactly once each. */
  lemma AppendsReadBack(cfg: Config, d: Doc, ws: seq<JVal>, keys: Path, l: Loc)
    requires WfDoc(d) && ArrayAt(d, keys, l) && Sub(d.root, l).es == []
    requires forall k :: 0 <= k < |ws| ==> Wf(ws[k])
    ensures AppendAll(PrintDoc(d), ws, keys).Done?
    ensures var each := EachSpec(cfg, AppendAll(PrintDoc(d), ws, keys).data, keys);
            && each.err.None? && |each.events| == |ws|
            && forall k :: 0 <= k < |ws| ==>
                 each.events[k].value == Content(ws[k]) && each.events[k].t == TypeOf(ws[k]) && each.events[k].err.None?
  {
    hide AppendAll, PrintDoc, Print, Wf, Leads, EachSpec, Content, TypeOf, OffOf;
    var d' := AppendRun(d, ws, keys, l);
    EachDesignated(cfg, d', keys, l);
    assert Values(Sub(d'.root, l)) == ws;
  }
}
