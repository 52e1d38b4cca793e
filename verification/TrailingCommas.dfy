/** Set at a missing index of an array that ends in a comma: the comma makes no difference to the result. */
module TrailingCommas {
  import opened Bytes
  import opened Scanners
  import opened Syntax
  import opened Layout
  import opened Blocks
  import opened Lookup
  import opened TreeValues
  import opened TreeLookup
  import opened Insert
  import opened Setting
  import opened Growth
  import opened Coercion
  import opened Appending
  import opened SetPaths

  /** What stands between the brackets. */
  function Inner(v: JVal): Bytes
    requires v.Node?
  {
    if v.es == [] then v.ews else PrintEntries(v.obj, v.es)
  }

  /** The text up to the last byte inside a root array, and the text from its closing bracket on. */
  function Front(d: Doc): Bytes
    requires IsArray(d.root)
  {
    d.lead + ([LBRACKET] + Inner(d.root))
  }

  function Back(d: Doc): Bytes {
    [RBRACKET] + d.trail
  }

  /** The document with a comma behind its last element, and whitespace behind the comma. */
  function Ragged(d: Doc, ws: Bytes): Bytes
    requires IsArray(d.root)
  {
    Front(d) + ([COMMA] + ws) + Back(d)
  }

  lemma CleanText(d: Doc)
    requires IsArray(d.root)
    ensures PrintDoc(d) == Front(d) + Back(d)
  {
    hide PrintEntries;
    var a := Inner(d.root);
    assert Print(d.root) == [LBRACKET] + (a + [RBRACKET]);
    assert d.lead + (([LBRACKET] + (a + [RBRACKET])) + d.trail) == d.lead + ([LBRACKET] + a) + ([RBRACKET] + d.trail);
  }

  /** Where things are in the ragged text. */
  ghost predicate RaggedAt(data: Bytes, i: nat, v: JVal, comma: nat, close: nat) {
    && Wf(v) && IsArray(v) && comma == i + 1 + |Inner(v)| && comma < close < |data|
    && data[i] == LBRACKET && At(data, i + 1, Inner(v)) && data[comma] == COMMA && SpaceRun(data, comma + 1, close)
    && data[close] == RBRACKET
  }

  /** Where the pieces of a bracketed text are. */
  lemma PiecesAt(lead: Bytes, x: Bytes, ws: Bytes, trail: Bytes)
    ensures var data := (lead + ([LBRACKET] + x)) + ([COMMA] + ws) + ([RBRACKET] + trail);
            var i, comma := |lead|, |lead| + 1 + |x|;
            var close := comma + 1 + |ws|;
            && |data| == close + 1 + |trail| && data[i] == LBRACKET && data[comma] == COMMA && data[close] == RBRACKET
            && At(data, 0, lead) && At(data, i + 1, x) && At(data, comma + 1, ws) && At(data, close + 1, trail)
  {
  }

  lemma RaggedPlaces(d: Doc, ws: Bytes)
    requires WfDoc(d) && IsArray(d.root) && AllSpace(ws)
    ensures var data, i, comma := Ragged(d, ws), |d.lead|, |Front(d)|;
            && RaggedAt(data, i, d.root, comma, comma + 1 + |ws|) && SpaceRun(data, 0, i)
            && SpaceRun(data, comma + 2 + |ws|, |data|)
  {
    hide PrintEntries, Inner, Wf, At, AllSpace, SpaceRun;
    var data, i, comma := Ragged(d, ws), |d.lead|, |Front(d)|;
    PiecesAt(d.lead, Inner(d.root), ws, d.trail);
    SpaceAt(data, 0, d.lead);
    SpaceAt(data, comma + 1, ws);
    SpaceAt(data, comma + 2 + |ws|, d.trail);
  }

  // ---- the iteration sees no element more ----

  lemma NoValueAt(cfg: Config, data: Bytes, r: nat, q: nat)
    requires r <= q < |data| && SpaceRun(data, r, q) && (data[q] == RBRACKET || data[q] == COMMA)
    ensures GetFrom(cfg, data, r) == Got([], Unknown, q, q, Some(UnknownValueType))
  {
    NextTokSkips(data, r, q);
    assert TokEnd(data, q) == q;
  }

  /** One callback for every element, and at most one more, with an error. */
  predicate NoMore(r: Each, n: nat) {
    |r.events| <= n || (|r.events| == n + 1 && r.events[n].err.Some? && r.events[n].t != String)
  }

  /** Behind the last comma: no callback, or one with an error. */
  lemma NothingBehind(cfg: Config, data: Bytes, r: nat, q: nat)
    requires 1 <= r <= q < |data| && SpaceRun(data, r, q) && (data[q] == RBRACKET || data[q] == COMMA)
    ensures NoMore(EachFrom(cfg, data, r), 0)
  {
    hide EachFrom, GetFrom;
    NoValueAt(cfg, data, r, q);
    EachLast(cfg, data, r, []);
    NothingBefore(EachFrom(cfg, data, r));
  }

  lemma OneMore(ev: Event, r: Each, r': Each, n: nat)
    requires NoMore(r, n) && r'.events == [ev] + r.events
    ensures NoMore(r', n + 1)
  {
  }

  /** The element loop from the first element of es on, entered at r in the whitespace before its value. */
  lemma {:induction false} EachRagged(cfg: Config, data: Bytes, p: nat, r: nat, es: seq<Entry>, comma: nat, close: nat)
    requires es != [] && (forall k :: 0 <= k < |es| ==> WfEntry(false, es[k])) && At(data, p, PrintEntries(false, es))
    requires 1 <= p <= r <= p + |es[0].w3| && comma == p + |PrintEntries(false, es)| && comma < close < |data|
    requires data[comma] == COMMA && SpaceRun(data, comma + 1, close) && data[close] == RBRACKET
    ensures r <= |data| && NoMore(EachFrom(cfg, data, r), |es|)
    decreases |es|
  {
    hide EachFrom, GetFrom, PrintEntry, Print, NextTok, ElementEvent, WfEntry, NoMore;
    var e := es[0];
    var q := p + |PrintEntry(false, e)|;
    var rest := es[1..];
    if rest == [] {
      assert q == comma;
      NothingBehind(cfg, data, comma + 1, close);
    } else {
      AtSplit(data, p, PrintEntry(false, e), [COMMA] + PrintEntries(false, rest));
      AtSplit(data, q, [COMMA], PrintEntries(false, rest));
      assert data[q + 0] == [COMMA][0];
      EachRagged(cfg, data, q + 1, q + 1, rest, comma, close);
    }
    ElementRead(cfg, data, p, r, e, q);
    EachOnce(cfg, data, r, q);
    OneMore(ElementEvent(GetFrom(cfg, data, r), r), EachFrom(cfg, data, q + 1), EachFrom(cfg, data, r), |rest|);
  }

  lemma EachOnce(cfg: Config, data: Bytes, r: nat, q: nat)
    requires 1 <= r <= |data| && GetFrom(cfg, data, r).err.None? && NextTok(data, GetFrom(cfg, data, r).end) == q && data[q] == COMMA
    ensures EachFrom(cfg, data, r).events == [ElementEvent(GetFrom(cfg, data, r), r)] + EachFrom(cfg, data, q + 1).events
  {
    hide EachFrom, GetFrom, NextTok, ElementEvent;
    EachStep(cfg, data, r, []);
    NothingBefore(EachFrom(cfg, data, r));
    assert [] + [ElementEvent(GetFrom(cfg, data, r), r)] == [ElementEvent(GetFrom(cfg, data, r), r)];
  }

  lemma NothingBefore(r: Each)
    ensures After([], r) == r
  {
    assert [] + r.events == r.events;
  }

  /** An element that a comma follows. */
  lemma ElementRead(cfg: Config, data: Bytes, p: nat, r: nat, e: Entry, q: nat)
    requires WfEntry(false, e) && At(data, p, PrintEntry(false, e)) && q == p + |PrintEntry(false, e)| < |data| && data[q] == COMMA
    requires p <= r <= p + |e.w3|
    ensures r <= |data|
    ensures var g := GetFrom(cfg, data, r); g.err.None? && r <= g.end <= q && NextTok(data, g.end) == q
  {
    hide GetFrom, Print, PrintEntry, TypeOf;
    EntryParts(data, p, false, e);
    NoKeyPart(e);
    var i := p + |e.w3|;
    DelimitedBounds(data, i + |Print(e.v)|, q);
    GetValue(cfg, data, r, i, e.v);
  }

  /** The element loop over the whole array. */
  lemma RootRagged(cfg: Config, arr: Bytes, v: JVal, comma: nat, close: nat)
    requires RaggedAt(arr, 0, v, comma, close)
    ensures NoMore(EachRoot(cfg, arr), |v.es|)
  {
    hide EachFrom, NextTok, PrintEntry, PrintEntries, Print, GetFrom;
    TokenHere(arr, 0);
    if v.es == [] {
      SpaceAt(arr, 1, v.ews);
      NextTokSkips(arr, 1, comma);
      NoValueAt(cfg, arr, comma, comma);
      EachLast(cfg, arr, comma, []);
      NothingBefore(EachFrom(cfg, arr, comma));
    } else {
      EachFirst(cfg, arr, v, comma, close);
    }
  }

  lemma EachFirst(cfg: Config, arr: Bytes, v: JVal, comma: nat, close: nat)
    requires RaggedAt(arr, 0, v, comma, close) && v.es != []
    ensures NoMore(EachInside(cfg, arr, 1), |v.es|)
  {
    hide EachFrom, PrintEntry, Print, GetFrom, NextTok;
    var e := v.es[0];
    FirstEntryAt(arr, 1, v.es);
    EntryParts(arr, 1, false, e);
    NoKeyPart(e);
    FirstValue(arr, 1 + |e.w3|, e.v);
    NextTokSkips(arr, 1, 1 + |e.w3|);
    EachRagged(cfg, arr, 1, 1 + |e.w3|, v.es, comma, close);
  }

  lemma FirstEntryAt(data: Bytes, p: nat, es: seq<Entry>)
    requires es != [] && At(data, p, PrintEntries(false, es))
    ensures At(data, p, PrintEntry(false, es[0])) && |PrintEntry(false, es[0])| <= |PrintEntries(false, es)|
  {
    if |es| > 1 { AtSplit(data, p, PrintEntry(false, es[0]), [COMMA] + PrintEntries(false, es[1..])); }
  }

  // ---- nothing is found ----

  /** The component selects no element of the array. */
  predicate Selectless(v: JVal, key: Bytes)
    requires v.Node?
  {
    IsIndexKey(key) && (IndexOf(key).Some? ==> IndexOf(key).value >= |v.es|)
  }

  lemma RaggedMisses(cfg: Config, arr: Bytes, v: JVal, comma: nat, close: nat, key: Bytes, rest: Path, base: nat)
    requires RaggedAt(arr, 0, v, comma, close) && Selectless(v, key)
    ensures SearchIndex(cfg, arr, key, rest, base) == -1
  {
    hide EachRoot, SearchRun, Atoi, RaggedAt;
    RootRagged(cfg, arr, v, comma, close);
  }

  lemma RaggedSlide(data: Bytes, i: nat, v: JVal, comma: nat, close: nat)
    requires RaggedAt(data, i, v, comma, close)
    ensures RaggedAt(data[i..], 0, v, comma - i, close - i)
  {
    hide Inner, Wf;
    var arr := data[i..];
    forall k | 0 <= k < |Inner(v)| ensures arr[1 + k] == Inner(v)[k] { assert data[i + 1 + k] == Inner(v)[k]; }
  }

  lemma RaggedUnfound(cfg: Config, d: Doc, ws: Bytes, keys: Path)
    requires WfDoc(d) && IsArray(d.root) && AllSpace(ws) && keys != [] && Selectless(d.root, keys[0])
    ensures GetSpec(cfg, Ragged(d, ws), keys) == NOT_FOUND
  {
    hide SearchRun, SearchIndex, RaggedAt, Ragged, Front, GetFrom;
    var data, i, comma := Ragged(d, ws), |d.lead|, |Front(d)|;
    RaggedPlaces(d, ws);
    RaggedSlide(data, i, d.root, comma, comma + 1 + |ws|);
    RaggedOpens(data, i, d.root, comma, comma + 1 + |ws|);
    SearchQuiet(cfg, data, keys, 0, i, 0, 0, true);
    StepBracket(cfg, data, keys, i, 0, 0, true);
    RaggedMisses(cfg, data[i..], d.root, comma - i, comma + 1 + |ws| - i, keys[0], keys[1..], i);
  }

  lemma RaggedOpens(data: Bytes, i: nat, v: JVal, comma: nat, close: nat)
    requires RaggedAt(data, i, v, comma, close)
    ensures i < comma < close < |data| && data[i] == LBRACKET && data[comma] == COMMA && data[close] == RBRACKET
    ensures SpaceRun(data, comma + 1, close)
  {
    hide Inner, Wf;
  }

  // ---- the plan ----

  lemma {:induction false} StackRagged(cfg: Config, data: Bytes, p: nat, es: seq<Entry>, stack: seq<byte>)
    requires (forall k :: 0 <= k < |es| ==> WfEntry(false, es[k])) && At(data, p, PrintEntries(false, es)) && stack != []
    ensures StackFrom(cfg, data, p, stack) == StackFrom(cfg, data, p + |PrintEntries(false, es)|, stack)
    decreases |es|
  {
    hide StackFrom, PrintEntry;
    if es != [] {
      FirstEntryAt(data, p, es);
      StackEntry(cfg, data, p, false, es[0], stack);
      if |es| > 1 {
        var q := p + |PrintEntry(false, es[0])|;
        AtSplit(data, p, PrintEntry(false, es[0]), [COMMA] + PrintEntries(false, es[1..]));
        AtSplit(data, q, [COMMA], PrintEntries(false, es[1..]));
        assert data[q + 0] == [COMMA][0];
        StackSkips(cfg, data, q, q + 1, stack);
        StackRagged(cfg, data, q + 1, es[1..], stack);
      }
    }
  }

  lemma RaggedBlock(cfg: Config, data: Bytes, i: nat, v: JVal, comma: nat, close: nat)
    requires RaggedAt(data, i, v, comma, close)
    ensures BlockEndAt(cfg, data, i, LBRACKET, RBRACKET) == close + 1
  {
    hide PrintEntries, BlockFrom;
    var stack := [RBRACKET];
    if v.es == [] {
      SpaceAt(data, i + 1, v.ews);
      StackSkips(cfg, data, i + 1, comma, stack);
    } else {
      StackRagged(cfg, data, i + 1, v.es, stack);
    }
    StackSkips(cfg, data, comma, close, stack);
    StackPops(cfg, data, close, stack);
    assert stack[..0] == [];
    StackEndIsBlockEnd(cfg, data, i, false);
  }

  /** The last token between the brackets is the comma; before it there is one exactly when there are elements. */
  lemma RaggedInside(data: Bytes, i: nat, v: JVal, comma: nat, close: nat)
    requires RaggedAt(data, i, v, comma, close)
    ensures var inside := data[i + 1..close];
            && LastTok(inside, |inside|) == comma - i - 1
            && (LastTok(inside, comma - i - 1) == -1 <==> v.es == [])
  {
    hide Inner, Wf, LastTok;
    var inside := data[i + 1..close];
    var m := comma - i - 1;
    assert inside[m] == data[comma];
    forall k | m < k < |inside| ensures IsSpace(inside[k]) { assert inside[k] == data[i + 1 + k]; }
    LastTokSkips(inside, m + 1, |inside|);
    LastTokHere(inside, m + 1);
    if v.es == [] {
      InnerBlank(data, i, v, comma, close);
      BlankTok(inside, m);
    } else {
      var k := InnerToken(data, i, v, comma, close);
      assert inside[k] == data[i + 1 + k];
      SomeTok(inside, m, k);
    }
  }

  lemma InnerBlank(data: Bytes, i: nat, v: JVal, comma: nat, close: nat)
    requires RaggedAt(data, i, v, comma, close) && v.es == []
    ensures var inside := data[i + 1..close]; forall k :: 0 <= k < comma - i - 1 ==> IsSpace(inside[k])
  {
    SpaceAt(data, i + 1, v.ews);
    var inside := data[i + 1..close];
    forall k | 0 <= k < comma - i - 1 ensures IsSpace(inside[k]) { assert inside[k] == data[i + 1 + k]; }
  }

  lemma InnerToken(data: Bytes, i: nat, v: JVal, comma: nat, close: nat) returns (k: nat)
    requires RaggedAt(data, i, v, comma, close) && v.es != []
    ensures k < comma - i - 1 && !IsSpace(data[i + 1 + k])
  {
    hide PrintEntry, PrintEntries, Print;
    var e := v.es[0];
    FirstEntryAt(data, i + 1, v.es);
    assert WfEntry(false, e);
    EntryParts(data, i + 1, false, e);
    NoKeyPart(e);
    FirstValue(data, i + 1 + |e.w3|, e.v);
    PrintNonempty(e.v);
    k := |e.w3|;
  }

  lemma BlankTok(data: Bytes, n: nat)
    requires n <= |data| && forall k :: 0 <= k < n ==> IsSpace(data[k])
    ensures LastTok(data, n) == -1
  {
    LastTokSkips(data, 0, n);
  }

  lemma SomeTok(data: Bytes, n: nat, k: nat)
    requires k < n <= |data| && !IsSpace(data[k])
    ensures LastTok(data, n) != -1
  {
  }

  lemma RaggedPlan(cfg: Config, d: Doc, ws: Bytes, keys: Path)
    requires WfDoc(d) && IsArray(d.root) && AllSpace(ws) && keys != [] && IsIndexKey(keys[0])
    ensures var i, comma := |d.lead|, |Front(d)|;
            PlanTop(cfg, Ragged(d, ws), keys)
            == Planned(if d.root.es == [] then Plan(i, comma + 2 + |ws|, false, false) else Plan(comma, comma + 1 + |ws|, true, false))
  {
    hide NextTok, LastTok, BlockFrom, Ragged, Front, RaggedAt;
    var data, i, comma := Ragged(d, ws), |d.lead|, |Front(d)|;
    var close := comma + 1 + |ws|;
    RaggedPlaces(d, ws);
    RaggedOpens(data, i, d.root, comma, close);
    NextTokSkips(data, 0, i);
    LastTokSkips(data, close + 1, |data|);
    RaggedBlock(cfg, data, i, d.root, comma, close);
    RaggedInside(data, i, d.root, comma, close);
    assert data[i + 1..close][comma - i - 1] == data[comma];
  }

  // ---- the law ----

  lemma CleanPlan(cfg: Config, d: Doc, keys: Path)
    requires WfDoc(d) && IsArray(d.root) && keys != [] && Selectless(d.root, keys[0])
    ensures GetSpec(cfg, PrintDoc(d), keys) == NOT_FOUND
    ensures PrefixDepth(cfg, PrintDoc(d), keys, 0) == 0
    ensures var i, close := |d.lead|, |Front(d)|;
            PlanTop(cfg, PrintDoc(d), keys)
            == Planned(if d.root.es == [] then Plan(i, close + 1, false, false) else Plan(close, close, true, false))
  {
    hide PrintDoc, Print, GetSpec, PlanTop, PrefixDepth, Content, TypeOf;
    assert Leads(d.root, [], []) && Sub(d.root, []) == d.root;
    assert keys[..0] == [] && keys[..1][..0] == [];
    EndOfRoot(d);
    Unselected(cfg, d, keys);
    Unselected(cfg, d, keys[..1]);
    FirstPrefix(cfg, PrintDoc(d), keys);
    if d.root.es == [] {
      PlanRootFresh(cfg, d, keys);
    } else {
      RootArrayPlan(cfg, d, keys);
      OffOfRoot(d.root);
    }
  }

  lemma Unselected(cfg: Config, d: Doc, keys: Path)
    requires WfDoc(d) && IsArray(d.root) && keys != [] && Selectless(d.root, keys[0])
    ensures GetSpec(cfg, PrintDoc(d), keys) == NOT_FOUND
  {
    hide PrintDoc, SearchKeysSpec;
    assert keys[..0] == [] && Leads(d.root, [], []) && Sub(d.root, []) == d.root;
    SearchMissesPastEnd(cfg, d, keys, []);
  }

  lemma EndOfRoot(d: Doc)
    requires IsArray(d.root)
    ensures |d.lead| + |Print(d.root)| == |Front(d)| + 1
  {
    hide PrintEntries;
  }

  lemma SameSplice(a: Bytes, mid: Bytes, b: Bytes, x: Bytes)
    ensures Splice(a + mid + b, |a|, |a + mid|, x) == a + x + b
  {
    var s := a + mid + b;
    assert s[..|a|] == a && s[|a + mid|..] == b;
  }

  /** Set at an index that a root array does not have: a comma behind the last element makes no difference. */
  lemma CommaIgnored(cfg: Config, d: Doc, ws: Bytes, value: Bytes, keys: Path)
    requires WfDoc(d) && IsArray(d.root) && AllSpace(ws) && keys != [] && Selectless(d.root, keys[0])
    ensures SetSpec(cfg, Ragged(d, ws), value, keys).Done?
    ensures SetSpec(cfg, Ragged(d, ws), value, keys) == SetSpec(cfg, PrintDoc(d), value, keys)
  {
    hide PrintDoc, Print, GetSpec, PlanTop, PrefixDepth, Component, Inner;
    var data := Ragged(d, ws);
    RaggedUnfound(cfg, d, ws, keys);
    RaggedUnfound(cfg, d, ws, keys[..1]);
    FirstPrefix(cfg, data, keys);
    RaggedPlan(cfg, d, ws, keys);
    CleanPlan(cfg, d, keys);
    CleanText(d);
    assert keys[0..] == keys;
    var a, mid, b := Front(d), [COMMA] + ws, Back(d);
    var c := Component(keys, value, d.root.es != [], false);
    if d.root.es == [] {
      WholeArray(d.lead, [LBRACKET] + Inner(d.root), mid, d.trail, c);
      WholeArray(d.lead, [LBRACKET] + Inner(d.root), [], d.trail, c);
      assert a + [] + b == a + b;
    } else {
      SameSplice(a, mid, b, c);
      SameSplice(a, [], b, c);
      assert a + [] + b == a + b;
    }
  }

  lemma WholeArray(lead: Bytes, open: Bytes, mid: Bytes, trail: Bytes, x: Bytes)
    ensures var s := (lead + open) + mid + ([RBRACKET] + trail);
            Splice(s, |lead|, |lead + open| + |mid| + 1, x) == lead + x + trail
  {
    var s := (lead + open) + mid + ([RBRACKET] + trail);
    assert s[..|lead|] == lead;
    assert s[|lead + open| + |mid| + 1..] == trail;
  }
}
