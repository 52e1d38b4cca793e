/** The text around a value, and tree edits seen as splices of that text. */
module Contexts {
  import opened Bytes
  import opened Syntax

  /** Entries each followed by a comma. */
  function PrintLead(obj: bool, es: seq<Entry>): Bytes {
    if es == [] then [] else PrintLead(obj, es[..|es| - 1]) + (PrintEntry(obj, es[|es| - 1]) + [COMMA])
  }

  /** Entries each preceded by a comma. */
  function PrintTail(obj: bool, es: seq<Entry>): Bytes {
    if es == [] then [] else [COMMA] + (PrintEntry(obj, es[0]) + PrintTail(obj, es[1..]))
  }

  lemma {:induction false} TailSplit(obj: bool, es: seq<Entry>)
    requires es != []
    ensures PrintEntries(obj, es) == PrintEntry(obj, es[0]) + PrintTail(obj, es[1..])
    decreases |es|
  {
    if |es| > 1 {
      TailSplit(obj, es[1..]);
      assert es[1..][1..] == es[2..];
    } else {
      assert es[1..] == [];
      assert PrintEntry(obj, es[0]) + [] == PrintEntry(obj, es[0]);
    }
  }

  lemma {:induction false} LeadStep(obj: bool, es: seq<Entry>)
    requires es != []
    ensures PrintLead(obj, es) == PrintEntry(obj, es[0]) + [COMMA] + PrintLead(obj, es[1..])
    decreases |es|
  {
    hide PrintEntry;
    var n := |es| - 1;
    if n > 0 {
      LeadStep(obj, es[..n]);
      assert es[..n][1..] == es[1..][..n - 1];
      assert es[1..][n - 1] == es[n];
      Associate(PrintEntry(obj, es[0]) + [COMMA], PrintLead(obj, es[1..][..n - 1]), PrintEntry(obj, es[n]) + [COMMA]);
    } else {
      assert es[1..] == [] && es[..0] == [];
      assert PrintLead(obj, es) == [] + (PrintEntry(obj, es[0]) + [COMMA]);
      assert PrintEntry(obj, es[0]) + [COMMA] + [] == [] + (PrintEntry(obj, es[0]) + [COMMA]);
    }
  }

  /** The printed entries around entry k. */
  lemma {:induction false} EntriesSplit(obj: bool, es: seq<Entry>, k: nat)
    requires k < |es|
    ensures PrintEntries(obj, es) == PrintLead(obj, es[..k]) + (PrintEntry(obj, es[k]) + PrintTail(obj, es[k + 1..]))
    ensures |PrintLead(obj, es[..k])| == EntryPos(obj, es, k)
    decreases k
  {
    hide PrintEntry;
    if k == 0 {
      TailSplit(obj, es);
      assert es[..0] == [];
      assert [] + (PrintEntry(obj, es[0]) + PrintTail(obj, es[1..])) == PrintEntry(obj, es[0]) + PrintTail(obj, es[1..]);
    } else {
      EntriesSplit(obj, es[1..], k - 1);
      LeadStep(obj, es[..k]);
      assert es[..k][1..] == es[1..][..k - 1] && es[1..][k - 1] == es[k] && es[1..][k..] == es[k + 1..];
      var rest := PrintEntry(obj, es[k]) + PrintTail(obj, es[k + 1..]);
      Associate(PrintEntry(obj, es[0]), [COMMA], PrintLead(obj, es[1..][..k - 1]) + rest);
      Associate(PrintEntry(obj, es[0]) + [COMMA], PrintLead(obj, es[1..][..k - 1]), rest);
    }
  }

  /** Everything a printed value has before and after the value at l. */
  function Pre(v: JVal, l: Loc): Bytes
    requires ValidLoc(v, l)
    decreases |l|
  {
    if l == [] then []
    else
      var e := v.es[l[0]];
      [Open(v.obj)] + (PrintLead(v.obj, v.es[..l[0]]) + (KeyPart(v.obj, e) + (e.w3 + Pre(e.v, l[1..]))))
  }

  function Post(v: JVal, l: Loc): Bytes
    requires ValidLoc(v, l)
    decreases |l|
  {
    if l == [] then []
    else
      var e := v.es[l[0]];
      Post(e.v, l[1..]) + (e.w4 + (PrintTail(v.obj, v.es[l[0] + 1..]) + [Close(v.obj)]))
  }

  function ReplaceAt(v: JVal, l: Loc, w: JVal): (r: JVal)
    requires ValidLoc(v, l)
    ensures l != [] ==> r.Node? && v.Node? && r.obj == v.obj && |r.es| == |v.es|
    decreases |l|
  {
    if l == [] then w
    else
      var e := v.es[l[0]];
      v.(es := v.es[l[0] := e.(v := ReplaceAt(e.v, l[1..], w))])
  }

  lemma Regroup(a: Bytes, b: Bytes, c: Bytes, d: Bytes, p: Bytes, s: Bytes, q: Bytes, f: Bytes, g: Bytes, h: Bytes)
    ensures a + ((b + ((c + (d + ((p + (s + q)) + f))) + g)) + h) == (a + (b + (c + (d + p)))) + (s + (q + (f + (g + h))))
  {
  }

  lemma NodeText(v: JVal, k: nat)
    requires v.Node? && k < |v.es|
    ensures var e := v.es[k];
            Print(v) == [Open(v.obj)] + ((PrintLead(v.obj, v.es[..k])
                        + ((KeyPart(v.obj, e) + (e.w3 + (Print(e.v) + e.w4))) + PrintTail(v.obj, v.es[k + 1..])))
                        + [Close(v.obj)])
  {
    hide PrintLead, PrintTail, KeyPart, PrintEntries;
    EntriesSplit(v.obj, v.es, k);
  }

  /** A printed value is the printed value at l between its context. */
  lemma {:induction false} InContext(v: JVal, l: Loc)
    requires ValidLoc(v, l)
    ensures Print(v) == Pre(v, l) + (Print(Sub(v, l)) + Post(v, l))
    ensures |Pre(v, l)| == OffOf(v, l)
    decreases |l|
  {
    if l == [] {
      assert [] + (Print(v) + []) == Print(v);
    } else {
      hide PrintEntries, PrintEntry, PrintLead, PrintTail, KeyPart, Print, EntryPos;
      var k := l[0];
      var e := v.es[k];
      InContext(e.v, l[1..]);
      NodeText(v, k);
      EntriesSplit(v.obj, v.es, k);
      Regroup([Open(v.obj)], PrintLead(v.obj, v.es[..k]), KeyPart(v.obj, e), e.w3, Pre(e.v, l[1..]),
              Print(Sub(v, l)), Post(e.v, l[1..]), e.w4, PrintTail(v.obj, v.es[k + 1..]), [Close(v.obj)]);
    }
  }

  /** Replacing the value at l leaves its context alone. */
  lemma {:induction false} ReplaceKeepsContext(v: JVal, l: Loc, w: JVal)
    requires ValidLoc(v, l)
    ensures var r := ReplaceAt(v, l, w);
            ValidLoc(r, l) && Sub(r, l) == w && Pre(r, l) == Pre(v, l) && Post(r, l) == Post(v, l)
    decreases |l|
  {
    hide PrintLead, PrintTail, KeyPart;
    if l != [] {
      var k := l[0];
      var e := v.es[k];
      var r := ReplaceAt(v, l, w);
      ReplaceKeepsContext(e.v, l[1..], w);
      assert r.es[..k] == v.es[..k] && r.es[k + 1..] == v.es[k + 1..];
      SameKeyPart(v.obj, e, ReplaceAt(e.v, l[1..], w));
    }
  }

  lemma SameKeyPart(obj: bool, e: Entry, w: JVal)
    ensures KeyPart(obj, e.(v := w)) == KeyPart(obj, e)
  {
  }

  lemma {:induction false} ReplaceWf(v: JVal, l: Loc, w: JVal)
    requires ValidLoc(v, l) && Wf(v) && Wf(w)
    ensures Wf(ReplaceAt(v, l, w))
    decreases |l|
  {
    if l != [] { ReplaceWf(v.es[l[0]].v, l[1..], w); }
  }

  lemma {:induction false} SubControlFree(v: JVal, l: Loc)
    requires ValidLoc(v, l) && ControlFree(v)
    ensures ControlFree(Sub(v, l))
    decreases |l|
  {
    if l != [] { SubControlFree(v.es[l[0]].v, l[1..]); }
  }

  lemma {:induction false} ReplaceControlFree(v: JVal, l: Loc, w: JVal)
    requires ValidLoc(v, l) && ControlFree(v) && ControlFree(w)
    ensures ControlFree(ReplaceAt(v, l, w))
    decreases |l|
  {
    hide NoControl;
    if l != [] { ReplaceControlFree(v.es[l[0]].v, l[1..], w); }
  }

  function ReplaceDoc(d: Doc, l: Loc, w: JVal): Doc
    requires ValidLoc(d.root, l)
  {
    d.(root := ReplaceAt(d.root, l, w))
  }

  /** Bytes before and after the value at l of a document. */
  function PreDoc(d: Doc, l: Loc): Bytes
    requires ValidLoc(d.root, l)
  {
    d.lead + Pre(d.root, l)
  }

  function PostDoc(d: Doc, l: Loc): Bytes
    requires ValidLoc(d.root, l)
  {
    Post(d.root, l) + d.trail
  }

  lemma DocContext(d: Doc, l: Loc)
    requires ValidLoc(d.root, l)
    ensures PrintDoc(d) == PreDoc(d, l) + (Print(Sub(d.root, l)) + PostDoc(d, l))
    ensures |PreDoc(d, l)| == |d.lead| + OffOf(d.root, l)
  {
    hide Pre, Post, Print, Sub, OffOf;
    InContext(d.root, l);
    Between(d.lead, Pre(d.root, l), Print(Sub(d.root, l)), Post(d.root, l), d.trail);
  }

  lemma Between(lead: Bytes, p: Bytes, s: Bytes, q: Bytes, trail: Bytes)
    ensures lead + ((p + (s + q)) + trail) == (lead + p) + (s + (q + trail))
  {
  }

  /** The text of a document with the value at l replaced: everything around it is kept byte for byte. */
  lemma PrintReplaced(d: Doc, l: Loc, w: JVal)
    requires ValidLoc(d.root, l)
    ensures var i := |d.lead| + OffOf(d.root, l);
            var j := i + |Print(Sub(d.root, l))|;
            && i <= j <= |PrintDoc(d)|
            && PrintDoc(d)[..i] == PreDoc(d, l) && PrintDoc(d)[j..] == PostDoc(d, l)
            && PrintDoc(ReplaceDoc(d, l, w)) == PrintDoc(d)[..i] + Print(w) + PrintDoc(d)[j..]
  {
    hide Pre, Post, Print, PrintDoc;
    DocContext(d, l);
    ReplaceKeepsContext(d.root, l, w);
    DocContext(ReplaceDoc(d, l, w), l);
  }
}
