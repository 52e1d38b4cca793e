/** A text that breaks off inside its string, array or object: the kind of the value, and the error for that kind. */
module Truncation {
  import opened Bytes
  import opened Strings
  import opened Scanners
  import opened Syntax
  import opened Layout
  import opened Blocks
  import opened Lookup
  import opened TreeValues
  import opened TreeLookup
  import opened Streams
  import opened BrokenStreams
  import opened Containers
  import opened ContainerLaws

  function BrokenError(v: JVal): Error {
    if v.Str? then MalformedString else if v.Node? && v.obj then MalformedObject else MalformedArray
  }

  /** The first n bytes of a document, of which at least one and not all belong to its root. */
  predicate CutInside(d: Doc, n: nat) {
    !d.root.Prim? && |d.lead| < n < |d.lead| + |Print(d.root)|
  }

  /** A scan that ends on the shorter text ends there on the longer one as well: it cannot end before it should. */
  lemma NoEarlyEnd(cfg: Config, data: Bytes, n: nat, i: nat, v: JVal)
    requires Wf(v) && !v.Prim? && At(data, i, Print(v)) && i < n < i + |Print(v)|
    ensures i + |Print(v)| <= |data| && IsQuote(cfg, QUOTE)
    ensures v.Str? ==> data[i] == QUOTE && StrEnd(data[..n], i + 1, QUOTE) == -1
    ensures v.Node? ==> data[i] == Open(v.obj) && BlockEndAt(cfg, data[..n], i, Open(v.obj), Close(v.obj)) == -1
    ensures v.Node? ==> !StackFrom(cfg, data[..n], i + 1, [Close(v.obj)]).Found?
  {
    hide StrEndFrom, BlockFrom, StackFrom, PrintEntries;
    var cut := data[..n];
    if v.Str? {
      StrAt(data, i, v.body);
      if StrEnd(cut, i + 1, QUOTE) != -1 { StrEndStable(cut, data, i + 1, false, QUOTE); }
    } else {
      NodeEnds(cfg, data, i, v);
      var e := BlockEndAt(cfg, cut, i, Open(v.obj), Close(v.obj));
      if e != -1 { BlockStable(cfg, cut, data, i, 0, Open(v.obj), Close(v.obj)); }
      if StackFrom(cfg, cut, i + 1, [Close(v.obj)]).Found? {
        assert cut[i] == data[i];
        StackEndIsBlockEnd(cfg, cut, i, v.obj);
      }
    }
  }

  /** Get without a path. */
  lemma TruncatedGet(cfg: Config, d: Doc, n: nat)
    requires WfDoc(d) && CutInside(d, n)
    ensures n <= |PrintDoc(d)|
    ensures GetSpec(cfg, PrintDoc(d)[..n], []) == Got([], TypeOf(d.root), |d.lead|, |d.lead|, Some(BrokenError(d.root)))
  {
    hide Print, PrintDoc, StrEndFrom, BlockFrom, StackFrom, NextTok;
    var data, i := PrintDoc(d), |d.lead|;
    DocAt(d);
    FirstValue(data, i, d.root);
    NoEarlyEnd(cfg, data, n, i, d.root);
    var cut := data[..n];
    assert cut[i] == data[i];
    NextTokSkips(cut, 0, i);
  }

  /** The streaming Get: the end of the stream is the fault of the stream, or else the value or a string in it is malformed. */
  lemma TruncatedStream(cfg: Config, d: Doc, final: ReadError, n: nat)
    requires WfDoc(d) && CutInside(d, n)
    ensures n <= |PrintDoc(d)|
    ensures var r := StreamGet(cfg, PrintDoc(d)[..n], final, []);
            r == Missing(RanOut(final, BrokenError(d.root))) || (d.root.Node? && r == Missing(RanOut(final, MalformedString)))
  {
    hide Print, PrintDoc, StrEndFrom, BlockFrom, StackFrom, NextTok;
    var data, i := PrintDoc(d), |d.lead|;
    DocAt(d);
    FirstValue(data, i, d.root);
    NoEarlyEnd(cfg, data, n, i, d.root);
    NoMismatch(cfg, data, n, i, d.root);
    var cut := data[..n];
    assert cut[i] == data[i];
    NextTokSkips(cut, 0, i);
  }

  /** The bytes that are there match. */
  lemma NoMismatch(cfg: Config, data: Bytes, n: nat, i: nat, v: JVal)
    requires Wf(v) && At(data, i, Print(v)) && i < n <= |data|
    ensures v.Node? ==> !StackFrom(cfg, data[..n], i + 1, [Close(v.obj)]).Mismatch?
  {
    hide BlockFrom, StackFrom, Print;
    if v.Node? {
      NodeEnds(cfg, data, i, v);
      if StackFrom(cfg, data[..n], i + 1, [Close(v.obj)]).Mismatch? { StackMore(cfg, data[..n], data, i + 1, [Close(v.obj)]); }
    }
  }

  /** ArrayEach on an array that breaks off before its first element, or before the bracket that would close it empty. */
  lemma TruncatedArray(cfg: Config, d: Doc, n: nat)
    requires WfDoc(d) && CutInside(d, n) && d.root.Node? && !d.root.obj && n <= |PrintDoc(d)| && SpaceRun(PrintDoc(d), |d.lead| + 1, n)
    ensures EachSpec(cfg, PrintDoc(d)[..n], []) == Each([], |d.lead| + 1, Some(MalformedJson))
  {
    hide Print, PrintDoc, EachFrom, NextTok, BlockFrom, StackFrom;
    var data, i := PrintDoc(d), |d.lead|;
    DocAt(d);
    NodeEnds(cfg, data, i, d.root);
    var cut := data[..n];
    assert cut[i] == data[i];
    NextTokSkips(cut, 0, i);
    NextTokSkips(cut, i + 1, n);
  }

  /** A container that breaks off has no length. */
  lemma TruncatedLen(d: Doc, n: nat)
    requires WfDoc(d) && CutInside(d, n) && d.root.Node?
    ensures n <= |PrintDoc(d)|
    ensures LenSpec(PrintDoc(d)[..n], d.root.obj, []) == (0, Some(BrokenError(d.root)))
  {
    hide Print, PrintDoc, StackFrom, ItemFrom, NextTok, BlockFrom;
    var data, i := PrintDoc(d), |d.lead|;
    DocAt(d);
    NoEarlyEnd(STRICT, data, n, i, d.root);
    var cut := data[..n];
    assert cut[i] == data[i];
    NextTokSkips(cut, 0, i);
    if LenSpec(cut, d.root.obj, []).1.None? { LenIsMatched(cut, d.root.obj, []); }
  }
}
