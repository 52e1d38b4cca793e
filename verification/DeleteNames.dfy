/** What the name search of Delete finds in a printed object, scratch buffer included. */
module DeleteNames {
  import opened Bytes
  import opened Strings
  import opened Escapes
  import opened Scanners
  import opened Syntax
  import opened Layout
  import opened Blocks
  import opened TreeValues
  import opened Deleting

  /** A byte at which the name search does nothing. */
  predicate IsNameless(c: byte) {
    c != QUOTE && c != APOSTROPHE && c != LBRACKET && c != LBRACE
  }

  lemma {:induction false} KeyQuiet(cfg: Config, data: Bytes, i: nat, j: nat, key: Bytes, shared: bool)
    requires i <= j <= |data| && forall m :: i <= m < j ==> IsNameless(data[m])
    ensures KeyStartFrom(cfg, data, i, key, shared) == KeyStartFrom(cfg, data, j, key, shared)
    decreases j - i
  {
    hide KeyStartFrom;
    if i < j {
      KeyStartStep(cfg, data, i, key, shared);
      KeyQuiet(cfg, data, i + 1, j, key, shared);
    }
  }

  /** Nothing but whitespace and closing brackets is left. */
  lemma KeyNoMore(cfg: Config, data: Bytes, i: nat, key: Bytes, shared: bool)
    requires i <= |data| && forall m :: i <= m < |data| ==> IsNameless(data[m])
    ensures KeyStartFrom(cfg, data, i, key, shared) == -1
  {
    KeyQuiet(cfg, data, i, |data|, key, shared);
    KeyStartPast(cfg, data, |data|, key, shared);
  }

  /**
   * A value and the comma or bracket behind it are stepped over, its strings and nested names included. A string with
   * escapes overwrites a wanted name that shares the buffer.
   */
  lemma KeyPastValue(cfg: Config, data: Bytes, a: nat, v: JVal, q: nat, key: Bytes, shared: bool) returns (key': Bytes)
    requires Wf(v) && At(data, a, Print(v)) && Delimited(data, a + |Print(v)|, q)
    ensures |key'| == |key| && (!shared ==> key' == key)
    ensures KeyStartFrom(cfg, data, a, key, shared) == KeyStartFrom(cfg, data, q + 1, key', shared)
  {
    hide KeyStartFrom, KeyAfter, NextTok, BlockFrom, StackFrom, StrEndFrom, Unescaped;
    var end := a + |Print(v)|;
    key' := key;
    match v
    case Prim(t) =>
      PrimAt(data, a, t);
      KeyQuiet(cfg, data, a, q + 1, key, shared);
    case Str(b) =>
      StrAt(data, a, b);
      DelimitedBounds(data, end, q);
      KeyStartStep(cfg, data, a, key, shared);
      key' := KeyAfter(cfg, data[a + 1..end - 1], key, shared);
    case Node(_, _, _) =>
      NodeEnds(cfg, data, a, v);
      KeyStartStep(cfg, data, a, key, shared);
      KeyQuiet(cfg, data, end + 1, q + 1, key, shared);
  }

  /** Reading the name of a member: a hit, or on behind its colon. Its own text may overwrite the wanted name first. */
  lemma KeyAtName(cfg: Config, data: Bytes, p: nat, e: Entry, key: Bytes, shared: bool)
    requires At(data, p, PrintEntry(true, e)) && WfEntry(true, e)
    ensures var key' := KeyAfter(cfg, e.key, key, shared);
            KeyStartFrom(cfg, data, p, key, shared) ==
            if KeyIs(e, key') then p + |e.w1|
            else KeyStartFrom(cfg, data, p + |KeyPart(true, e)| + |e.w3|, key', shared)
    ensures SpaceRun(data, p, p + |e.w1|)
  {
    hide KeyStartFrom, KeyAfter, NextTok, StrEndFrom, Unescaped, PrintEntry, KeyPart, IsStringBody, At;
    EntryParts(data, p, true, e);
    KeyPlaces(data, p, e);
    BodyDecodes(cfg, e.key);
    var c := p + |KeyPart(true, e)|;
    LastColon(data, c - 1);
    KeyQuiet(cfg, data, p, p + |e.w1|, key, shared);
    KeyStartStep(cfg, data, p + |e.w1|, key, shared);
    KeyQuiet(cfg, data, c, c + |e.w3|, KeyAfter(cfg, e.key, key, shared), shared);
  }

  lemma LastColon(data: Bytes, c: nat)
    requires c < |data| && data[c] == COLON
    ensures NextTok(data, c) == c
  {
  }

  /** Where the search stands before entry j of the object, or behind the object. */
  function EntryFrom(i: nat, n: JVal, j: nat): nat
    requires n.Node? && j <= |n.es|
  {
    if j < |n.es| then i + Start(n, j) else i + |Print(n)|
  }

  /** The search from entry j on stops at the name of entry m, or nowhere when m is past the last entry. */
  ghost predicate StopsAt(cfg: Config, data: Bytes, i: nat, n: JVal, j: nat, m: nat, key: Bytes, shared: bool)
    requires n.Node? && j <= |n.es|
  {
    && j <= m <= |n.es|
    && KeyStartFrom(cfg, data, EntryFrom(i, n, j), key, shared) == (if m == |n.es| then -1 else i + Start(n, m) + |n.es[m].w1|)
    && (m < |n.es| ==> Unescaped(STRICT, n.es[m].key).Some? && |Unescaped(STRICT, n.es[m].key).value| == |key|)
    && (!shared ==> (m < |n.es| ==> KeyIs(n.es[m], key)) && forall x :: j <= x < m ==> !KeyIs(n.es[x], key))
  }

  /**
   * The name search only ever stops at the name of a member, and only at one whose decoded length is that of the wanted
   * name. Unless the wanted name shares the buffer, it stops at the first member of that name.
   */
  lemma {:induction false} NameHits(cfg: Config, data: Bytes, i: nat, n: JVal, j: nat, key: Bytes, shared: bool) returns (m: nat)
    requires Wf(n) && n.Node? && n.obj && At(data, i, Print(n)) && j <= |n.es| && SpaceRun(data, i + |Print(n)|, |data|)
    ensures StopsAt(cfg, data, i, n, j, m, key, shared)
    decreases |n.es| - j
  {
    hide KeyStartFrom, KeyAfter, Print, PrintEntry, PrintEntries, KeyPart, Start, End, At, Unescaped;
    m := j;
    if j == |n.es| {
      KeyNoMore(cfg, data, i + |Print(n)|, key, shared);
    } else {
      ChildAt(data, i, n, j);
      KeyAtName(cfg, data, i + Start(n, j), n.es[j], key, shared);
      var key' := KeyAfter(cfg, n.es[j].key, key, shared);
      if !KeyIs(n.es[j], key') {
        var key'' := KeyPastValue(cfg, data, i + ValueStart(n, j), n.es[j].v, i + End(n, j), key', shared);
        m := NameHits(cfg, data, i, n, j + 1, key'', shared);
      }
    }
  }

  /** The whole search of an object that stands between whitespace. */
  lemma ObjectHits(cfg: Config, data: Bytes, i: nat, n: JVal, wanted: Bytes) returns (m: nat)
    requires Wf(n) && n.Node? && n.obj && At(data, i, Print(n)) && SpaceRun(data, 0, i) && SpaceRun(data, i + |Print(n)|, |data|)
    ensures m <= |n.es|
    ensures KeyStartSpec(cfg, data, wanted) == if m == |n.es| then -1 else i + Start(n, m) + |n.es[m].w1|
    ensures m < |n.es| ==> var name := Unescaped(STRICT, n.es[m].key); name.Some? && |name.value| == |WantedName(cfg, wanted)|
    ensures !Shared(cfg, wanted) && m < |n.es| ==> KeyIs(n.es[m], WantedName(cfg, wanted))
    ensures !Shared(cfg, wanted) ==> forall x :: 0 <= x < m ==> !KeyIs(n.es[x], WantedName(cfg, wanted))
  {
    hide KeyStartFrom, Print, PrintEntry, PrintEntries, KeyPart, Unescaped, WantedName, Shared;
    NodeAt(data, i, n);
    NextTokSkips(data, 0, i);
    var key, shared := WantedName(cfg, wanted), Shared(cfg, wanted);
    if n.es == [] {
      m := 0;
      SpaceAt(data, i + 1, n.ews);
      KeyNoMore(cfg, data, i + 1, key, shared);
    } else {
      EntryPosZero(n.obj, n.es);
      m := NameHits(cfg, data, i, n, 0, key, shared);
    }
  }

  /** For a name that does not share the buffer: the quote of the first member of that name. */
  lemma KeyFound(cfg: Config, data: Bytes, i: nat, n: JVal, k: nat, wanted: Bytes)
    requires Wf(n) && n.Node? && n.obj && At(data, i, Print(n)) && SpaceRun(data, 0, i) && SpaceRun(data, i + |Print(n)|, |data|)
    requires !Shared(cfg, wanted) && k < |n.es| && KeyIs(n.es[k], WantedName(cfg, wanted))
    requires forall m :: 0 <= m < k ==> !KeyIs(n.es[m], WantedName(cfg, wanted))
    ensures KeyStartSpec(cfg, data, wanted) == i + Start(n, k) + |n.es[k].w1|
  {
    hide KeyStartSpec, Print, KeyIs, WantedName, Shared, Start;
    var m := ObjectHits(cfg, data, i, n, wanted);
  }
}
