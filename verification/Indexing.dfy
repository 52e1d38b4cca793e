/** "[n]" behind a path that leads to an array: its element number n, from the in-memory and the streaming parser. */
module Indexing {
  import opened Bytes
  import opened Integers
  import opened Syntax
  import opened Lookup
  import opened TreeValues
  import opened TreeLookup
  import opened Appending
  import opened Streams
  import opened ReaderLaws
  import opened Decimals

  /** The number is that of an element, and a 64-bit int can hold it. */
  predicate Selects(v: JVal, n: nat)
    requires v.Node?
  {
    n < |v.es| && n <= MAX_INT64
  }

  lemma {:induction false} LeadsToElement(v: JVal, l: Loc, keys: Path, n: nat)
    requires Leads(v, l, keys) && ValidLoc(v, l) && Sub(v, l).Node? && !Sub(v, l).obj
    ensures var all := keys + [Index(n)];
            && Locate(v, all) == (if Selects(Sub(v, l), n) then Some(l + [n]) else None)
            && (Selects(Sub(v, l), n) ==> Leads(v, l + [n], all))
    decreases |l|
  {
    hide KeyIs, Index, IndexOf;
    var all := keys + [Index(n)];
    if l == [] {
      IndexRead(n);
      assert all == [Index(n)] && all[1..] == [] && [n][1..] == [] && [] + [n] == [n] && [n] + [] == [n];
    } else {
      LeadsToElement(v.es[l[0]].v, l[1..], keys[1..], n);
      assert all[0] == keys[0] && all[1..] == keys[1..] + [Index(n)];
      assert (l + [n])[0] == l[0] && (l + [n])[1..] == l[1..] + [n] && [l[0]] + (l[1..] + [n]) == l + [n];
      if v.obj { MemberShape(v.es, all, 0); }
    }
  }

  /** An index that selects no element: no value, and the search ends there. */
  lemma ReachesNothing(d: Doc, keys: Path, l: Loc, n: nat)
    requires Leads(d.root, l, keys) && ArrayAt(d, keys, l) && !Selects(Sub(d.root, l), n)
    ensures |l| == |keys| && Reaches(d.root, l, keys + [Index(n)])
  {
    hide Leads, Index, IndexOf;
    IndexRead(n);
    LeadsLength(d.root, l, keys);
    assert (keys + [Index(n)])[..|l|] == keys && (keys + [Index(n)])[|l|] == Index(n);
  }

  /** Get at an index behind a path that leads to an array: the element with that number, or not found. */
  lemma GetElement(cfg: Config, d: Doc, keys: Path, l: Loc, n: nat)
    requires WfDoc(d) && Leads(d.root, l, keys) && ArrayAt(d, keys, l)
    ensures Selects(Sub(d.root, l), n) ==> ValidLoc(d.root, l + [n])
    ensures GetSpec(cfg, PrintDoc(d), keys + [Index(n)])
         == if Selects(Sub(d.root, l), n) then GotAt(d, l + [n]) else NOT_FOUND
  {
    hide Leads, Index, IndexOf, Print, PrintDoc, SearchKeysSpec, Content, TypeOf, GotAt;
    var all := keys + [Index(n)];
    if Selects(Sub(d.root, l), n) {
      LeadsToElement(d.root, l, keys, n);
      GetFindsLeading(cfg, d, all, l + [n]);
    } else {
      ReachesNothing(d, keys, l, n);
      SearchMissesPastEnd(cfg, d, all, l);
    }
  }

  lemma {:induction false} SubElement(v: JVal, l: Loc, n: nat)
    requires ValidLoc(v, l) && Sub(v, l).Node? && n < |Sub(v, l).es|
    ensures ValidLoc(v, l + [n]) && Sub(v, l + [n]) == Sub(v, l).es[n].v
    decreases |l|
  {
    if l == [] {
      assert l + [n] == [n] && [n][1..] == [];
    } else {
      assert (l + [n])[0] == l[0] && (l + [n])[1..] == l[1..] + [n];
      SubElement(v.es[l[0]].v, l[1..], n);
    }
  }

  /** The streaming Get at such a path. */
  lemma StreamElement(cfg: Config, d: Doc, final: ReadError, keys: Path, l: Loc, n: nat)
    requires WfDoc(d) && Leads(d.root, l, keys) && ArrayAt(d, keys, l) && [] !in keys
    ensures StreamGet(cfg, PrintDoc(d), final, keys + [Index(n)])
         == if Selects(Sub(d.root, l), n)
            then var v := Sub(d.root, l).es[n].v; Answer(Content(v), TypeOf(v), None)
            else Missing(PATH_NOT_FOUND)
  {
    hide Leads, Index, IndexOf, Print, PrintDoc, Content, TypeOf, StreamGet, Locate;
    var all := keys + [Index(n)];
    LeadsToElement(d.root, l, keys, n);
    IndexRead(n);
    StreamGetIsTreeLookup(cfg, d, final, all);
    if Selects(Sub(d.root, l), n) { SubElement(d.root, l, n); }
  }

  /** "[n]" on a document that is an array: the value and type of element n, or not found, in memory and streaming. */
  lemma RootElement(cfg: Config, d: Doc, final: ReadError, n: nat)
    requires WfDoc(d) && d.root.Node? && !d.root.obj
    ensures var es := d.root.es;
            var g := GetSpec(cfg, PrintDoc(d), [Index(n)]);
            var s := StreamGet(cfg, PrintDoc(d), final, [Index(n)]);
            if n < |es| && n <= MAX_INT64 then
              && g.err.None? && g.value == Content(es[n].v) && g.t == TypeOf(es[n].v)
              && s == Answer(Content(es[n].v), TypeOf(es[n].v), None)
            else
              g == NOT_FOUND && s == Missing(PATH_NOT_FOUND)
  {
    hide Index, PrintDoc, Content, TypeOf, StreamGet, GetSpec, OffOf;
    assert Sub(d.root, []) == d.root && Leads(d.root, [], []);
    assert [] + [Index(n)] == [Index(n)] && [] + [n] == [n];
    GetElement(cfg, d, [], [], n);
    StreamElement(cfg, d, final, [], [], n);
    if n < |d.root.es| { SubElement(d.root, [], n); }
  }
}
