/** Delete removes exactly one member or element, whatever the whitespace and wherever it stands. */
module DeleteLaws {
  import opened Bytes
  import opened Strings
  import opened Escapes
  import opened Scanners
  import opened Syntax
  import opened Layout
  import opened Lookup
  import opened TreeValues
  import opened TreeLookup
  import opened Contexts
  import opened Growth
  import opened Appending
  import opened Deleting
  import opened DeleteNames

  // ---- the tree without entry k ----

  /**
   * The node without entry k. The layout is the one Delete leaves: the last entry's trailing whitespace goes to
   * its predecessor, unless there is none, in which case the predecessor's own is dropped as well.
   */
  function Without(n: JVal, k: nat): JVal
    requires n.Node? && k < |n.es|
  {
    if k < |n.es| - 1 then n.(es := n.es[..k] + n.es[k + 1..])
    else if k == 0 then Node(n.obj, n.es[0].w4, [])
    else
      var p := n.es[k - 1];
      var w := if n.es[k].w4 == [] then [] else p.w4 + n.es[k].w4;
      n.(es := n.es[..k - 1] + [p.(w4 := w)])
  }

  /** A value without its layout: what the text denotes. Strings and names are decoded, numbers are kept as they stand. */
  datatype AVal = APrim(text: Bytes) | AStr(text: Bytes) | ANode(obj: bool, entries: seq<(Bytes, AVal)>)

  function Decoded(body: Bytes): Bytes {
    match Unescaped(STRICT, body) case None => body case Some(text) => text
  }

  function Abs(v: JVal): AVal
    decreases v
  {
    match v
    case Prim(t) => APrim(t)
    case Str(b) => AStr(Decoded(b))
    case Node(obj, _, es) => ANode(obj, seq(|es|, k requires 0 <= k < |es| => (if obj then Decoded(es[k].key) else [], Abs(es[k].v))))
  }

  lemma AbsNode(v: JVal)
    requires v.Node?
    ensures Abs(v).ANode? && Abs(v).obj == v.obj && |Abs(v).entries| == |v.es|
    ensures forall j :: 0 <= j < |v.es| ==> Abs(v).entries[j] == (if v.obj then Decoded(v.es[j].key) else [], Abs(v.es[j].v))
  {
  }

  /** Without removes entry k from what the node denotes and changes nothing else. */
  lemma WithoutDenotes(n: JVal, k: nat)
    requires n.Node? && k < |n.es|
    ensures Abs(Without(n, k)).ANode? && Abs(n).ANode? && Abs(Without(n, k)).obj == n.obj
    ensures Abs(Without(n, k)).entries == Abs(n).entries[..k] + Abs(n).entries[k + 1..]
  {
    hide Abs;
    var m := Without(n, k);
    AbsNode(n);
    AbsNode(m);
    var after, wanted := Abs(m).entries, Abs(n).entries[..k] + Abs(n).entries[k + 1..];
    forall j | 0 <= j < |after| ensures after[j] == wanted[j] {
      var was := if j < k then j else j + 1;
      assert m.es[j].key == n.es[was].key && m.es[j].v == n.es[was].v;
    }
  }

  /** What a text denotes once entry k of the container at l is gone and nothing else has changed. */
  function Dropped(a: AVal, l: Loc, k: nat): AVal
    decreases |l|
  {
    if !a.ANode? then a
    else if l == [] then (if k < |a.entries| then a.(entries := a.entries[..k] + a.entries[k + 1..]) else a)
    else if l[0] < |a.entries| then
      var (key, v) := a.entries[l[0]];
      a.(entries := a.entries[l[0] := (key, Dropped(v, l[1..], k))])
    else a
  }

  /** Without at l removes one entry from what the whole document denotes. */
  lemma {:induction false} DropDenotes(v: JVal, l: Loc, k: nat)
    requires ValidLoc(v, l) && Sub(v, l).Node? && k < |Sub(v, l).es|
    ensures Abs(ReplaceAt(v, l, Without(Sub(v, l), k))) == Dropped(Abs(v), l, k)
    decreases |l|
  {
    hide Abs, Without;
    if l == [] {
      WithoutDenotes(v, k);
      AbsNode(v);
    } else {
      var w := Without(Sub(v, l), k);
      var e := v.es[l[0]];
      DropDenotes(e.v, l[1..], k);
      AbsNode(v);
      AbsNode(ReplaceAt(v, l, w));
      assert Abs(ReplaceAt(v, l, w)).entries == Dropped(Abs(v), l, k).entries;
    }
  }

  lemma DropControlFree(v: JVal, l: Loc, k: nat)
    requires ValidLoc(v, l) && Sub(v, l).Node? && k < |Sub(v, l).es| && ControlFree(v)
    ensures ControlFree(ReplaceAt(v, l, Without(Sub(v, l), k)))
  {
    hide NoControl;
    SubControlFree(v, l);
    ReplaceControlFree(v, l, Without(Sub(v, l), k));
  }

  lemma WithoutWf(n: JVal, k: nat)
    requires n.Node? && k < |n.es| && Wf(n)
    ensures Wf(Without(n, k))
  {
    assert WfEntry(n.obj, n.es[k]);
    if 0 < k { assert WfEntry(n.obj, n.es[k - 1]); }
  }

  /** Where the text that stays begins and ends, inside the printed node. */
  function CutFrom(n: JVal, k: nat): nat
    requires n.Node? && k < |n.es|
  {
    if k < |n.es| - 1 || k == 0 then Start(n, k)
    else if n.es[k].w4 == [] then ValueStart(n, k - 1) + |Print(n.es[k - 1].v)|
    else End(n, k - 1)
  }

  function CutTo(n: JVal, k: nat): nat
    requires n.Node? && k < |n.es|
  {
    if k < |n.es| - 1 then End(n, k) + 1 else ValueStart(n, k) + |Print(n.es[k].v)|
  }

  // Facts about concatenations, kept free of trees.

  lemma InnerBytes(o: Bytes, a: Bytes, x: Bytes, rest: Bytes, z: Bytes)
    ensures var t := o + ((a + (x + ([COMMA] + rest))) + z);
            t[..|o| + |a|] + t[|o| + |a| + |x| + 1..] == o + ((a + rest) + z)
            && |t| == |o| + |a| + |x| + 1 + |rest| + |z|
  {
    var t := o + ((a + (x + ([COMMA] + rest))) + z);
    assert t[..|o| + |a|] == o + a;
    assert t[|o| + |a| + |x| + 1..] == rest + z;
  }

  lemma OnlyBytes(o: Bytes, y: Bytes, w: Bytes, z: Bytes)
    ensures var t := o + ((y + w) + z);
            t[..|o|] + t[|o| + |y|..] == o + (w + z) && |t| == |o| + |y| + |w| + |z|
  {
    var t := o + ((y + w) + z);
    assert t[..|o|] == o;
    assert t[|o| + |y|..] == w + z;
  }

  lemma LastBytes(o: Bytes, a: Bytes, y: Bytes, pw: Bytes, x: Bytes, w: Bytes, z: Bytes, kept: Bytes)
    requires kept == [] || kept == pw
    ensures var t := o + ((a + ((y + pw) + ([COMMA] + (x + w)))) + z);
            var i := |o| + |a| + |y| + |kept|;
            var j := |o| + |a| + |y| + |pw| + 1 + |x|;
            && t[..i] + t[j..] == o + ((a + (y + (kept + w))) + z)
            && |t| == j + |w| + |z|
  {
    var t := o + ((a + ((y + pw) + ([COMMA] + (x + w)))) + z);
    var h, m, tail := o + (a + y), [COMMA] + x, w + z;
    LastRegrouped(o, a, y, pw, x, w, z);
    RestRegrouped(o, a, y, kept, w, z);
    FourParts(h, pw, m, tail);
    assert t[..|h| + |kept|] == h + kept by { assert h + [] == h; }
  }

  lemma LastRegrouped(o: Bytes, a: Bytes, y: Bytes, pw: Bytes, x: Bytes, w: Bytes, z: Bytes)
    ensures o + ((a + ((y + pw) + ([COMMA] + (x + w)))) + z) == (o + (a + y)) + (pw + (([COMMA] + x) + (w + z)))
  {
  }

  lemma RestRegrouped(o: Bytes, a: Bytes, y: Bytes, kept: Bytes, w: Bytes, z: Bytes)
    ensures o + ((a + (y + (kept + w))) + z) == (o + (a + y) + kept) + (w + z)
  {
  }

  lemma FourParts(h: Bytes, p: Bytes, m: Bytes, tail: Bytes)
    ensures var t := h + (p + (m + tail));
            t[..|h|] == h && t[..|h| + |p|] == h + p && t[|h| + |p| + |m|..] == tail
  {
  }

  lemma PrintOf(n: JVal)
    requires n.Node? && n.es != []
    ensures Print(n) == [Open(n.obj)] + (PrintEntries(n.obj, n.es) + [Close(n.obj)])
  {
  }

  lemma TailText(obj: bool, es: seq<Entry>)
    requires es != []
    ensures PrintTail(obj, es) == [COMMA] + PrintEntries(obj, es)
  {
    TailSplit(obj, es);
  }

  /** An entry up to the end of its value, and its trailing whitespace. */
  function Body(obj: bool, e: Entry): Bytes {
    KeyPart(obj, e) + (e.w3 + Print(e.v))
  }

  lemma EntryText(obj: bool, e: Entry)
    ensures PrintEntry(obj, e) == Body(obj, e) + e.w4
    ensures |Body(obj, e)| == |KeyPart(obj, e)| + |e.w3| + |Print(e.v)|
  {
    hide KeyPart, Print;
    assert KeyPart(obj, e) + (e.w3 + (Print(e.v) + e.w4)) == (KeyPart(obj, e) + (e.w3 + Print(e.v))) + e.w4;
  }

  lemma SameBody(obj: bool, e: Entry, w: Bytes)
    ensures Body(obj, e.(w4 := w)) == Body(obj, e)
  {
    assert KeyPart(obj, e.(w4 := w)) == KeyPart(obj, e);
  }

  lemma InnerText(n: JVal, k: nat)
    requires n.Node? && k < |n.es| - 1
    ensures var a, x, rest := PrintLead(n.obj, n.es[..k]), PrintEntry(n.obj, n.es[k]), PrintEntries(n.obj, n.es[k + 1..]);
            && Print(n) == [Open(n.obj)] + ((a + (x + ([COMMA] + rest))) + [Close(n.obj)])
            && Print(Without(n, k)) == [Open(n.obj)] + ((a + rest) + [Close(n.obj)])
            && |a| == EntryPos(n.obj, n.es, k)
  {
    hide PrintEntry, PrintLead, PrintTail, PrintEntries, Print, EntryPos;
    var es' := n.es[..k] + n.es[k + 1..];
    EntriesSplit(n.obj, n.es, k);
    EntriesSplit(n.obj, es', k);
    assert es'[..k] == n.es[..k] && es'[k] == n.es[k + 1] && es'[k + 1..] == n.es[k + 2..];
    TailSplit(n.obj, n.es[k + 1..]);
    assert n.es[k + 1..][0] == n.es[k + 1] && n.es[k + 1..][1..] == n.es[k + 2..];
    TailText(n.obj, n.es[k + 1..]);
    PrintOf(n);
    PrintOf(Without(n, k));
  }

  /** An entry that is followed by others: what stays is the entries before and the entries after. */
  lemma CutInner(n: JVal, k: nat)
    requires n.Node? && k < |n.es| - 1
    ensures CutFrom(n, k) <= CutTo(n, k) <= |Print(n)|
    ensures Print(n)[..CutFrom(n, k)] + Print(n)[CutTo(n, k)..] == Print(Without(n, k))
  {
    hide PrintEntry, PrintLead, PrintTail, PrintEntries, Print, Without, EntryPos;
    InnerText(n, k);
    InnerBytes([Open(n.obj)], PrintLead(n.obj, n.es[..k]), PrintEntry(n.obj, n.es[k]), PrintEntries(n.obj, n.es[k + 1..]),
               [Close(n.obj)]);
  }

  /** The only entry: its trailing whitespace is all that stays between the brackets. */
  lemma CutOnly(n: JVal)
    requires n.Node? && |n.es| == 1
    ensures CutFrom(n, 0) <= CutTo(n, 0) <= |Print(n)|
    ensures Print(n)[..CutFrom(n, 0)] + Print(n)[CutTo(n, 0)..] == Print(Without(n, 0))
  {
    var e := n.es[0];
    PrintOf(n);
    EntryText(n.obj, e);
    assert PrintEntries(n.obj, n.es) == PrintEntry(n.obj, e);
    assert EntryPos(n.obj, n.es, 0) == 0;
    OnlyBytes([Open(n.obj)], Body(n.obj, e), e.w4, [Close(n.obj)]);
    hide PrintEntry, PrintEntries, Body, KeyPart;
    assert Print(Without(n, 0)) == [Open(n.obj)] + (e.w4 + [Close(n.obj)]);
  }

  /** The predecessor of the last entry, with the whitespace it has when it becomes the last one. */
  function Kept(n: JVal, k: nat): Bytes
    requires n.Node? && 0 < k == |n.es| - 1
  {
    if n.es[k].w4 == [] then [] else n.es[k - 1].w4
  }

  lemma LastText(n: JVal, k: nat)
    requires n.Node? && 0 < k == |n.es| - 1
    ensures var p, e := n.es[k - 1], n.es[k];
            var a := PrintLead(n.obj, n.es[..k - 1]);
            && Print(n) == [Open(n.obj)] + ((a + ((Body(n.obj, p) + p.w4) + ([COMMA] + (Body(n.obj, e) + e.w4)))) + [Close(n.obj)])
            && |a| == EntryPos(n.obj, n.es, k - 1)
  {
    hide PrintEntry, PrintLead, PrintTail, PrintEntries, Print, Body, KeyPart, EntryPos;
    EntriesSplit(n.obj, n.es, k - 1);
    LastTail(n, k);
    EntryText(n.obj, n.es[k - 1]);
    EntryText(n.obj, n.es[k]);
    PrintOf(n);
  }

  lemma LastWithout(n: JVal, k: nat)
    requires n.Node? && 0 < k == |n.es| - 1
    ensures var p := n.es[k - 1];
            var a := PrintLead(n.obj, n.es[..k - 1]);
            Print(Without(n, k)) == [Open(n.obj)] + ((a + (Body(n.obj, p) + (Kept(n, k) + n.es[k].w4))) + [Close(n.obj)])
  {
    hide PrintEntry, PrintLead, PrintTail, PrintEntries, Print, Body, KeyPart, EntryPos;
    var p := n.es[k - 1];
    var w := Kept(n, k) + n.es[k].w4;
    var p' := p.(w4 := w);
    var es' := n.es[..k - 1] + [p'];
    assert Without(n, k) == n.(es := es') by { assert [] + n.es[k].w4 == n.es[k].w4; }
    EntriesSplit(n.obj, es', k - 1);
    assert es'[..k - 1] == n.es[..k - 1] && es'[k - 1] == p' && es'[k..] == [];
    NoTail(n.obj);
    EntryText(n.obj, p');
    SameBody(n.obj, p, w);
    PrintOf(n.(es := es'));
    assert PrintEntry(n.obj, p') + [] == PrintEntry(n.obj, p');
  }

  /** The last of several entries: its predecessor becomes the last one. */
  lemma CutLast(n: JVal, k: nat)
    requires n.Node? && 0 < k == |n.es| - 1
    ensures CutFrom(n, k) <= CutTo(n, k) <= |Print(n)|
    ensures Print(n)[..CutFrom(n, k)] + Print(n)[CutTo(n, k)..] == Print(Without(n, k))
  {
    hide PrintLead, Print, Body, EntryPos, Without, CutFrom, CutTo;
    LastText(n, k);
    LastWithout(n, k);
    LastPlaces(n, k);
    LastBytes([Open(n.obj)], PrintLead(n.obj, n.es[..k - 1]), Body(n.obj, n.es[k - 1]), n.es[k - 1].w4,
              Body(n.obj, n.es[k]), n.es[k].w4, [Close(n.obj)], Kept(n, k));
  }

  lemma LastTail(n: JVal, k: nat)
    requires n.Node? && 0 < k == |n.es| - 1
    ensures PrintTail(n.obj, n.es[k..]) == [COMMA] + PrintEntry(n.obj, n.es[k])
  {
    TailText(n.obj, n.es[k..]);
  }

  lemma NoTail(obj: bool)
    ensures PrintTail(obj, []) == []
  {
  }

  /** The cut of a last entry, counted from the start of its predecessor. */
  lemma LastPlaces(n: JVal, k: nat)
    requires n.Node? && 0 < k == |n.es| - 1
    ensures var p, e := n.es[k - 1], n.es[k];
            var s := 1 + EntryPos(n.obj, n.es, k - 1) + |Body(n.obj, p)|;
            && CutFrom(n, k) == s + (if e.w4 == [] then 0 else |p.w4|)
            && CutTo(n, k) == s + |p.w4| + 1 + |Body(n.obj, e)|
  {
    hide PrintEntry, Print, KeyPart, PrintEntries;
    EntriesNext(n, k - 1);
    EntryText(n.obj, n.es[k - 1]);
    EntryText(n.obj, n.es[k]);
  }

  /** Entry k + 1 starts one byte behind the end of entry k. */
  lemma EntriesNext(n: JVal, k: nat)
    requires n.Node? && k < |n.es| - 1
    ensures Start(n, k + 1) == End(n, k) + 1 && End(n, k) == ValueStart(n, k) + |Print(n.es[k].v)| + |n.es[k].w4|
  {
    hide PrintEntry, Print, PrintEntries, KeyPart;
    AtWhole(Print(n));
    EntryAt(Print(n), 0, n, k);
    EntryText(n.obj, n.es[k]);
  }

  /** In every comma case the bytes that stay are the printed node without the entry. */
  lemma CutText(n: JVal, k: nat)
    requires n.Node? && k < |n.es|
    ensures CutFrom(n, k) <= CutTo(n, k) <= |Print(n)|
    ensures Print(n)[..CutFrom(n, k)] + Print(n)[CutTo(n, k)..] == Print(Without(n, k))
  {
    if k < |n.es| - 1 {
      CutInner(n, k);
    } else if k == 0 {
      CutOnly(n);
    } else {
      CutLast(n, k);
    }
  }

  // ---- what the cut sees in a document ----

  /** The byte before an entry, the whitespace and tokens around it. */
  ghost predicate Around(data: Bytes, i: nat, n: JVal, k: nat, ko: nat)
    requires n.Node? && k < |n.es|
  {
    var p := i + Start(n, k);
    && 0 < p <= ko && SpaceRun(data, p, ko)
    && data[p - 1] == (if k == 0 then Open(n.obj) else COMMA)
  }

  lemma EntryBefore(data: Bytes, i: nat, n: JVal, k: nat)
    requires Wf(n) && n.Node? && At(data, i, Print(n)) && k < |n.es|
    ensures 0 < i + Start(n, k) < |data|
    ensures data[i + Start(n, k) - 1] == if k == 0 then Open(n.obj) else COMMA
  {
    hide Print, PrintEntry, PrintEntries, KeyPart;
    NodeAt(data, i, n);
    ChildAt(data, i, n, k);
    if k > 0 { EntryAt(data, i, n, k - 1); } else { EntryPosZero(n.obj, n.es); }
  }

  lemma {:induction false} CommaSkips(data: Bytes, p: nat, ko: nat)
    requires SpaceRun(data, p, ko)
    ensures CommaBefore(data, ko) == CommaBefore(data, p)
    decreases ko
  {
    if p < ko { CommaSkips(data, p, ko - 1); }
  }

  /** The last token and the nearest comma before an entry. */
  lemma TokensBefore(data: Bytes, i: nat, n: JVal, k: nat, ko: nat)
    requires n.Node? && k < |n.es| && Around(data, i, n, k, ko)
    ensures LastTok(data, ko) == i + Start(n, k) - 1
    ensures CommaBefore(data, ko) == if k == 0 then 0 else i + Start(n, k) - 1
  {
    hide Start, LastTok;
    var p := i + Start(n, k);
    LastTokSkips(data, p, ko);
    CommaSkips(data, p, ko);
    LastTokHere(data, p);
  }

  /** The token behind the comma of an entry that has a successor does not close the container. */
  lemma TokenAfter(data: Bytes, i: nat, n: JVal, k: nat)
    requires Wf(n) && n.Node? && At(data, i, Print(n)) && k < |n.es| - 1
    ensures i + End(n, k) + 1 <= |data|
    ensures var r := NextTok(data, i + End(n, k) + 1);
            r != -1 && data[r] != RBRACE && data[r] != RBRACKET
  {
    hide Print, PrintEntry, PrintEntries, NextTok, At, FirstOf, Start;
    EntryAt(data, i, n, k);
    FirstTokenOf(data, i, n, k + 1);
  }

  /** Tokens at the end of an entry's value. */
  lemma TokensAfter(data: Bytes, i: nat, n: JVal, k: nat)
    requires Wf(n) && n.Node? && At(data, i, Print(n)) && k < |n.es|
    ensures var eo := i + ValueStart(n, k) + |Print(n.es[k].v)|;
            && eo <= i + End(n, k) < |data|
            && TokEnd(data, eo) == eo && NextTok(data, eo) == i + End(n, k)
            && data[i + End(n, k)] == (if k == |n.es| - 1 then Close(n.obj) else COMMA)
            && (n.es[k].w4 == [] <==> eo == i + End(n, k))
            && (n.es[k].w4 != [] ==> IsSpace(data[eo]))
  {
    hide Print, PrintEntry, PrintEntries, KeyPart, NextTok;
    ChildAt(data, i, n, k);
    EntryText(n.obj, n.es[k]);
    DelimitedBounds(data, i + ValueStart(n, k) + |Print(n.es[k].v)|, i + End(n, k));
  }

  /** The last token of the predecessor's value, seen from the comma behind it. */
  lemma TokenOfPrevious(data: Bytes, i: nat, n: JVal, k: nat)
    requires Wf(n) && n.Node? && At(data, i, Print(n)) && 0 < k < |n.es|
    ensures var pe := i + ValueStart(n, k - 1) + |Print(n.es[k - 1].v)|;
            && 0 < pe && i + Start(n, k) - 1 == i + End(n, k - 1) < |data|
            && LastTok(data, i + End(n, k - 1)) == pe - 1 && data[pe - 1] != COMMA
  {
    hide Print, PrintEntry, PrintEntries, KeyPart, LastTok;
    EntryAt(data, i, n, k - 1);
    ChildAt(data, i, n, k - 1);
    var p := n.es[k - 1];
    var pe := i + ValueStart(n, k - 1) + |Print(p.v)|;
    LastByte(data, i + ValueStart(n, k - 1), p.v);
    LastTokSkips(data, pe, i + End(n, k - 1));
    LastTokHere(data, pe);
  }

  // The four outcomes of the cut, from the tokens around the deleted bytes.

  lemma CutFollowed(data: Bytes, ko: nat, eo: nat, close: byte, p: nat, q: nat)
    requires 0 < p <= |data| && ko <= |data| && eo <= q < |data| && LastTok(data, ko) == p - 1
    requires TokEnd(data, eo) == eo && NextTok(data, eo) == q && data[q] == COMMA
    requires var r := NextTok(data, q + 1); r != -1 && data[r] != RBRACE && data[r] != RBRACKET
    ensures CutSpec(data, ko, eo, close) == Some(data[..p] + data[q + 1..])
  {
    hide NextTok, LastTok, TokEnd, CommaBefore;
  }

  lemma CutAlone(data: Bytes, ko: nat, eo: nat, close: byte, p: nat, q: nat)
    requires 0 < p <= |data| && ko <= |data| && eo <= q < |data| && LastTok(data, ko) == p - 1
    requires TokEnd(data, eo) == eo && NextTok(data, eo) == q && data[q] != COMMA
    requires data[CommaBefore(data, ko)] != COMMA && data[p - 1] != COMMA
    ensures CutSpec(data, ko, eo, close) == Some(data[..p] + data[eo..])
  {
    hide NextTok, LastTok, TokEnd, CommaBefore;
  }

  lemma CutLastTight(data: Bytes, ko: nat, eo: nat, close: byte, p: nat, pe: nat)
    requires 0 < p <= |data| && ko <= |data| && eo < |data| && 0 < pe <= |data|
    requires TokEnd(data, eo) == eo && NextTok(data, eo) == eo && data[eo] == close && close != COMMA
    requires CommaBefore(data, ko) == p - 1 && data[p - 1] == COMMA
    requires LastTok(data, p - 1) == pe - 1 && data[pe - 1] != COMMA
    ensures CutSpec(data, ko, eo, close) == Some(data[..pe] + data[eo..])
  {
    hide NextTok, LastTok, TokEnd, CommaBefore;
  }

  lemma CutLastLoose(data: Bytes, ko: nat, eo: nat, close: byte, p: nat, q: nat)
    requires 0 < p <= |data| && ko <= |data| && eo < q < |data| && LastTok(data, ko) == p - 1 && data[p - 1] == COMMA
    requires TokEnd(data, eo) == eo && NextTok(data, eo) == q && IsSpace(data[eo])
    requires data[q] == close && (close == RBRACE || close == RBRACKET)
    ensures CutSpec(data, ko, eo, close) == Some(data[..p - 1] + data[eo..])
  {
    hide NextTok, LastTok, TokEnd, CommaBefore;
  }

  /** The data, offset, node and start the cut lemmas share. */
  ghost predicate CutSite(data: Bytes, i: nat, n: JVal, k: nat, ko: nat) {
    && Wf(n) && n.Node? && At(data, i, Print(n)) && k < |n.es|
    && i + Start(n, k) <= ko && SpaceRun(data, i + Start(n, k), ko) && |data| > 0 && data[0] != COMMA
  }

  lemma CutLookupInner(cfg: Config, data: Bytes, i: nat, n: JVal, k: nat, ko: nat)
    requires CutSite(data, i, n, k, ko) && k < |n.es| - 1
    ensures i + ValueStart(n, k) + |Print(n.es[k].v)| <= |data| && i + End(n, k) < |data|
    ensures CutSpec(data, ko, i + ValueStart(n, k) + |Print(n.es[k].v)|, Close(n.obj))
         == Some(data[..i + Start(n, k)] + data[i + End(n, k) + 1..])
  {
    hide Wf, Print, At, NextTok, LastTok, TokEnd, CommaBefore, Start, End, ValueStart, CutSpec;
    EntryBefore(data, i, n, k);
    TokensBefore(data, i, n, k, ko);
    TokensAfter(data, i, n, k);
    TokenAfter(data, i, n, k);
    CutFollowed(data, ko, i + ValueStart(n, k) + |Print(n.es[k].v)|, Close(n.obj), i + Start(n, k), i + End(n, k));
  }

  lemma CutLookupOnly(data: Bytes, i: nat, n: JVal, ko: nat)
    requires CutSite(data, i, n, 0, ko) && |n.es| == 1
    ensures var eo := i + ValueStart(n, 0) + |Print(n.es[0].v)|;
            eo <= |data| && CutSpec(data, ko, eo, Close(n.obj)) == Some(data[..i + Start(n, 0)] + data[eo..])
  {
    hide Wf, Print, At, NextTok, LastTok, TokEnd, CommaBefore, Start, End, ValueStart, CutSpec;
    EntryBefore(data, i, n, 0);
    TokensBefore(data, i, n, 0, ko);
    TokensAfter(data, i, n, 0);
    CutAlone(data, ko, i + ValueStart(n, 0) + |Print(n.es[0].v)|, Close(n.obj), i + Start(n, 0), i + End(n, 0));
  }

  lemma CutLookupLast(data: Bytes, i: nat, n: JVal, k: nat, ko: nat)
    requires CutSite(data, i, n, k, ko) && 0 < k == |n.es| - 1
    ensures var eo := i + ValueStart(n, k) + |Print(n.es[k].v)|;
            var cut := if n.es[k].w4 == [] then i + ValueStart(n, k - 1) + |Print(n.es[k - 1].v)| else i + End(n, k - 1);
            eo <= |data| && cut <= |data| && CutSpec(data, ko, eo, Close(n.obj)) == Some(data[..cut] + data[eo..])
  {
    hide Wf, Print, At, NextTok, LastTok, TokEnd, CommaBefore, Start, End, ValueStart, CutSpec, IsSpace;
    EntryBefore(data, i, n, k);
    TokensBefore(data, i, n, k, ko);
    TokensAfter(data, i, n, k);
    TokenOfPrevious(data, i, n, k);
    var eo := i + ValueStart(n, k) + |Print(n.es[k].v)|;
    if n.es[k].w4 == [] {
      CutLastTight(data, ko, eo, Close(n.obj), i + Start(n, k), i + ValueStart(n, k - 1) + |Print(n.es[k - 1].v)|);
    } else {
      CutLastLoose(data, ko, eo, Close(n.obj), i + Start(n, k), i + End(n, k));
    }
  }

  /** The cut of a printed entry, for any start between its first byte and its first token. */
  lemma CutLookup(cfg: Config, data: Bytes, i: nat, n: JVal, k: nat, ko: nat)
    requires CutSite(data, i, n, k, ko)
    ensures i + CutFrom(n, k) <= |data| && i + CutTo(n, k) <= |data|
    ensures i + ValueStart(n, k) + |Print(n.es[k].v)| <= |data|
    ensures CutSpec(data, ko, i + ValueStart(n, k) + |Print(n.es[k].v)|, Close(n.obj))
         == Some(data[..i + CutFrom(n, k)] + data[i + CutTo(n, k)..])
  {
    hide CutSpec, Print, Start, End, ValueStart;
    if k < |n.es| - 1 {
      CutLookupInner(cfg, data, i, n, k, ko);
    } else if k == 0 {
      CutLookupOnly(data, i, n, ko);
    } else {
      CutLookupLast(data, i, n, k, ko);
    }
  }

  // ---- the theorems ----

  /** k is the first member of the object that has the wanted name. */
  ghost predicate FirstNamed(n: JVal, k: nat, key: Bytes) {
    n.Node? && n.obj && k < |n.es| && KeyIs(n.es[k], key) && forall m :: 0 <= m < k ==> !KeyIs(n.es[m], key)
  }

  lemma LocateFirstNamed(n: JVal, k: nat, key: Bytes)
    requires FirstNamed(n, k, key)
    ensures Locate(n, [key]) == Some([k]) && ValidLoc(n, [k])
    ensures OffOf(n, [k]) == ValueStart(n, k) && Sub(n, [k]) == n.es[k].v
  {
    assert [key][1..] == [];
    assert Locate(n.es[k].v, []) == Some([]);
    MemberOnly(n.es, [key], k);
    assert [k] + [] == [k] && [k][1..] == [];
  }

  /** Both searches of Delete, run inside the object alone or in a document whose root it is. */
  lemma NameAndValue(cfg: Config, d: Doc, k: nat, key: Bytes)
    requires WfDoc(d) && FirstNamed(d.root, k, key) && !IsIndexKey(key)
    ensures Literal(cfg, key) ==> KeyStartSpec(cfg, PrintDoc(d), key) == |d.lead| + Start(d.root, k) + |d.root.es[k].w1|
    ensures var g := GetSpec(cfg, PrintDoc(d), [key]);
            g.err.None? && g.end == |d.lead| + ValueStart(d.root, k) + |Print(d.root.es[k].v)|
  {
    hide Print, PrintDoc, GetSpec, KeyStartSpec, Start, ValueStart, OffOf, KeyIs, Content, TypeOf, Literal, WantedName;
    DocAt(d);
    if Literal(cfg, key) {
      LiteralIsWanted(cfg, key);
      KeyFound(cfg, PrintDoc(d), |d.lead|, d.root, k, key);
    }
    LocateFirstNamed(d.root, k, key);
    GetIsTreeLookup(cfg, d, [key]);
  }

  /** The first byte of a document with a container root is no comma. */
  lemma FirstByte(d: Doc)
    requires WfDoc(d) && d.root.Node?
    ensures |PrintDoc(d)| > 0 && PrintDoc(d)[0] != COMMA
  {
    hide Print, PrintDoc;
    DocAt(d);
    NodeAt(PrintDoc(d), |d.lead|, d.root);
  }

  lemma RootIsNode(v: JVal, l: Loc)
    requires ValidLoc(v, l) && Sub(v, l).Node?
    ensures v.Node?
  {
  }

  /** Cutting entry k of the container at l gives the text of the document without it. */
  lemma CutInDoc(cfg: Config, d: Doc, l: Loc, k: nat, ko: nat)
    requires WfDoc(d) && ValidLoc(d.root, l)
    requires var n := Sub(d.root, l);
             var i := |d.lead| + OffOf(d.root, l);
             && n.Node? && k < |n.es| && i + Start(n, k) <= ko && SpaceRun(PrintDoc(d), i + Start(n, k), ko)
    ensures var n := Sub(d.root, l);
            var eo := |d.lead| + OffOf(d.root, l) + ValueStart(n, k) + |Print(n.es[k].v)|;
            && eo <= |PrintDoc(d)|
            && CutSpec(PrintDoc(d), ko, eo, Close(n.obj)) == Some(PrintDoc(ReplaceDoc(d, l, Without(n, k))))
            && WfDoc(ReplaceDoc(d, l, Without(n, k)))
  {
    hide Print, PrintDoc, OffOf, Start, ValueStart, CutFrom, CutTo, CutSpec, ReplaceAt, Without, At, Bounded, Wf;
    var n := Sub(d.root, l);
    var i := |d.lead| + OffOf(d.root, l);
    SubPlace(d, l);
    RootIsNode(d.root, l);
    FirstByte(d);
    CutLookup(cfg, PrintDoc(d), i, n, k, ko);
    CutText(n, k);
    assert Print(n)[..CutFrom(n, k)] + [] + Print(n)[CutTo(n, k)..] == Print(n)[..CutFrom(n, k)] + Print(n)[CutTo(n, k)..];
    SpliceWithin(d, l, CutFrom(n, k), CutTo(n, k), [], Without(n, k));
    var data := PrintDoc(d);
    assert data[..i + CutFrom(n, k)] + [] + data[i + CutTo(n, k)..] == data[..i + CutFrom(n, k)] + data[i + CutTo(n, k)..];
    WithoutWf(n, k);
    ReplaceWf(d.root, l, Without(n, k));
  }

  /**
   * Deleting a member by a name that is not decoded: the result is the text of the document in which the first
   * member of that name is gone, in every position and with any whitespace around it.
   */
  lemma DeleteMember(cfg: Config, d: Doc, keys: Path, l: Loc, k: nat)
    requires WfDoc(d) && keys != [] && Designates(d.root, l, keys[..|keys| - 1])
    requires var last := keys[|keys| - 1]; !IsIndexKey(last) && Literal(cfg, last) && FirstNamed(Sub(d.root, l), k, last)
    ensures DeleteSpec(cfg, PrintDoc(d), keys) == (PrintDoc(ReplaceDoc(d, l, Without(Sub(d.root, l), k))), true)
    ensures WfDoc(ReplaceDoc(d, l, Without(Sub(d.root, l), k)))
    ensures Abs(ReplaceAt(d.root, l, Without(Sub(d.root, l), k))) == Dropped(Abs(d.root), l, k)
    ensures ControlFree(d.root) ==> ControlFree(ReplaceAt(d.root, l, Without(Sub(d.root, l), k)))
  {
    hide ControlFree, Print, PrintDoc, OffOf, Start, ValueStart, CutSpec, ReplaceAt, Without, GetSpec, KeyStartSpec, Leads, Locate, Content, TypeOf,
         KeyIs, Literal, DeleteSpec, Abs, Dropped;
    var n := Sub(d.root, l);
    var last := keys[|keys| - 1];
    var i := |d.lead| + OffOf(d.root, l);
    SubPlace(d, l);
    NameBlank(PrintDoc(d), i, n, k);
    CutInDoc(cfg, d, l, k, i + Start(n, k) + |n.es[k].w1|);
    DeleteCuts(cfg, d, keys, l, k);
    NameAndValue(cfg, InnerDoc(d, keys, l), k, last);
    if ControlFree(d.root) { DropControlFree(d.root, l, k); }
    DropDenotes(d.root, l, k);
  }

  lemma LiteralIsWanted(cfg: Config, key: Bytes)
    requires Literal(cfg, key)
    ensures WantedName(cfg, key) == key && !Shared(cfg, key)
  {
    if Plain(key) { UnescapedIdentity(cfg, key); }
  }

  /** Deleting by name, once the container and the value are found. */
  lemma DeleteByName(cfg: Config, data: Bytes, keys: Path, start: nat, end: nat)
    requires keys != [] && !IsIndexKey(keys[|keys| - 1]) && start <= end <= |data|
    requires var outer := GetSpec(cfg, data, keys[..|keys| - 1]);
             if |keys| == 1 then start == 0 && end == |data| else outer.err.None? && outer.off == start && outer.end == end
    requires GetSpec(cfg, data[start..end], [keys[|keys| - 1]]).err.None?
    ensures var r := KeyStartSpec(cfg, data[start..end], keys[|keys| - 1]);
            var g := GetSpec(cfg, data[start..end], [keys[|keys| - 1]]);
            DeleteSpec(cfg, data, keys)
            == if r == -1 then (data, false) else Removed(data, CutSpec(data, start + r, start + g.end, RBRACE))
  {
    hide GetSpec, KeyStartSpec, CutSpec;
  }

  /** Deleting by index, once the element is found. */
  lemma DeleteByIndex(cfg: Config, data: Bytes, keys: Path)
    requires keys != [] && IsIndexKey(keys[|keys| - 1]) && GetSpec(cfg, data, keys).err.None?
    ensures var g := GetSpec(cfg, data, keys);
            DeleteSpec(cfg, data, keys) == Removed(data, CutSpec(data, g.off, g.end, RBRACKET))
  {
    hide GetSpec, KeyStartSpec, CutSpec;
  }

  /** The two ranges Delete works with: the container it looks into, and the value of the wanted member in it. */
  lemma DeleteCuts(cfg: Config, d: Doc, keys: Path, l: Loc, k: nat)
    requires WfDoc(d) && keys != [] && Designates(d.root, l, keys[..|keys| - 1])
    requires var last := keys[|keys| - 1]; !IsIndexKey(last) && FirstNamed(Sub(d.root, l), k, last)
    ensures var n := Sub(d.root, l);
            var i := |d.lead| + OffOf(d.root, l);
            var eo := i + ValueStart(n, k) + |Print(n.es[k].v)|;
            var o := InnerDoc(d, keys, l);
            var r := KeyStartSpec(cfg, PrintDoc(o), keys[|keys| - 1]);
            && WfDoc(o) && o.root == n && |o.lead| <= i && i - |o.lead| + |PrintDoc(o)| <= |PrintDoc(d)| && eo <= |PrintDoc(d)|
            && DeleteSpec(cfg, PrintDoc(d), keys)
            == if r == -1 then (PrintDoc(d), false) else Removed(PrintDoc(d), CutSpec(PrintDoc(d), i - |o.lead| + r, eo, RBRACE))
  {
    hide Print, PrintDoc, OffOf, Start, ValueStart, CutSpec, GetSpec, KeyStartSpec, Leads, Locate, Content, TypeOf, KeyIs, DeleteSpec,
         Wf, At, Bounded, Removed, Literal;
    var n := Sub(d.root, l);
    var last := keys[|keys| - 1];
    var i := |d.lead| + OffOf(d.root, l);
    var data := PrintDoc(d);
    SubPlace(d, l);
    DesignatesGot(cfg, d, l, keys[..|keys| - 1]);
    if |keys| == 1 {
      OffOfRoot(d.root);
      assert Sub(d.root, l) == d.root;
      WholeSlice(data);
      NameAndValue(cfg, d, k, last);
      DeleteByName(cfg, data, keys, 0, |data|);
    } else {
      PrintAlone(n);
      PlaceOf(data, i, n);
      NameAndValue(cfg, Doc([], n, []), k, last);
      DeleteByName(cfg, data, keys, i, i + |Print(n)|);
    }
  }

  lemma WholeSlice(data: Bytes)
    ensures data[0..|data|] == data
  {
  }

  lemma PlaceOf(data: Bytes, i: nat, n: JVal)
    requires At(data, i, Print(n))
    ensures i + |Print(n)| <= |data| && data[i..i + |Print(n)|] == Print(n)
  {
    AtSlice(data, i, Print(n));
  }

  /** The text Delete looks for the last name in: the whole document, or the container the other names lead to. */
  function InnerDoc(d: Doc, keys: Path, l: Loc): Doc
    requires ValidLoc(d.root, l)
  {
    if |keys| == 1 then d else Doc([], Sub(d.root, l), [])
  }

  lemma PrintAlone(n: JVal)
    requires Wf(n)
    ensures PrintDoc(Doc([], n, [])) == Print(n) && WfDoc(Doc([], n, []))
  {
    assert [] + (Print(n) + []) == Print(n);
  }

  lemma NameBlank(data: Bytes, i: nat, n: JVal, k: nat)
    requires Wf(n) && n.Node? && n.obj && At(data, i, Print(n)) && k < |n.es|
    ensures SpaceRun(data, i + Start(n, k), i + Start(n, k) + |n.es[k].w1|)
  {
    hide Print, PrintEntry, Start, KeyPart;
    ChildAt(data, i, n, k);
    EntryParts(data, i + Start(n, k), true, n.es[k]);
    KeyPlaces(data, i + Start(n, k), n.es[k]);
  }

  /** An entry of the container at l. */
  lemma {:induction false} SubInto(v: JVal, l: Loc, k: nat)
    requires ValidLoc(v, l) && Sub(v, l).Node? && k < |Sub(v, l).es|
    ensures ValidLoc(v, l + [k]) && Sub(v, l + [k]) == Sub(v, l).es[k].v
    ensures OffOf(v, l + [k]) == OffOf(v, l) + ValueStart(Sub(v, l), k)
    decreases |l|
  {
    hide EntryPos, KeyPart;
    if l == [] {
      assert l + [k] == [k] && [k][1..] == [];
    } else {
      SubInto(v.es[l[0]].v, l[1..], k);
      TailOfSum(l, [k]);
    }
  }

  lemma {:induction false} LeadsInto(v: JVal, l: Loc, keys: Path, k: nat, key: Bytes)
    requires Leads(v, l, keys) && ValidLoc(v, l)
    requires var n := Sub(v, l); n.Node? && !n.obj && k < |n.es| && IndexOf(key) == Some(k)
    ensures Leads(v, l + [k], keys + [key])
    decreases |l|
  {
    hide IndexOf, Unescaped, EntryPos, KeyPart;
    if l == [] {
      assert l + [k] == [k] && keys + [key] == [key];
      assert [k][1..] == [] && [key][1..] == [];
    } else {
      LeadsInto(v.es[l[0]].v, l[1..], keys[1..], k, key);
      TailOfSum(l, [k]);
      TailOfSum(keys, [key]);
    }
  }

  lemma TailOfSum<T>(a: seq<T>, b: seq<T>)
    requires a != []
    ensures (a + b)[0] == a[0] && (a + b)[1..] == a[1..] + b
  {
  }

  lemma ElementBlank(data: Bytes, i: nat, n: JVal, k: nat)
    requires Wf(n) && n.Node? && !n.obj && At(data, i, Print(n)) && k < |n.es|
    ensures i + Start(n, k) <= i + ValueStart(n, k) && SpaceRun(data, i + Start(n, k), i + ValueStart(n, k))
  {
    hide Print, PrintEntry, Start;
    ChildAt(data, i, n, k);
  }

  /** Deleting an array element: the result is the text of the document in which exactly that element is gone. */
  lemma DeleteElement(cfg: Config, d: Doc, keys: Path, l: Loc, k: nat)
    requires WfDoc(d) && keys != [] && Leads(d.root, l, keys[..|keys| - 1]) && ValidLoc(d.root, l)
    requires var n := Sub(d.root, l); n.Node? && !n.obj && k < |n.es| && IndexOf(keys[|keys| - 1]) == Some(k)
    ensures DeleteSpec(cfg, PrintDoc(d), keys) == (PrintDoc(ReplaceDoc(d, l, Without(Sub(d.root, l), k))), true)
    ensures WfDoc(ReplaceDoc(d, l, Without(Sub(d.root, l), k)))
    ensures Abs(ReplaceAt(d.root, l, Without(Sub(d.root, l), k))) == Dropped(Abs(d.root), l, k)
    ensures ControlFree(d.root) ==> ControlFree(ReplaceAt(d.root, l, Without(Sub(d.root, l), k)))
  {
    hide ControlFree, Print, PrintDoc, OffOf, Start, ValueStart, CutSpec, ReplaceAt, Without, GetSpec, Leads, Content, TypeOf, Abs, Dropped,
         DeleteSpec, Wf, At, Bounded;
    var n := Sub(d.root, l);
    var i := |d.lead| + OffOf(d.root, l);
    SubPlace(d, l);
    if ControlFree(d.root) { DropControlFree(d.root, l, k); }
    DropDenotes(d.root, l, k);
    ElementBlank(PrintDoc(d), i, n, k);
    CutInDoc(cfg, d, l, k, i + ValueStart(n, k));
    assert keys == keys[..|keys| - 1] + [keys[|keys| - 1]];
    LeadsInto(d.root, l, keys[..|keys| - 1], k, keys[|keys| - 1]);
    SubInto(d.root, l, k);
    GetFindsLeading(cfg, d, keys, l + [k]);
    DeleteByIndex(cfg, PrintDoc(d), keys);
  }
}
