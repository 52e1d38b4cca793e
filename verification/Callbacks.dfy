/** Callbacks that can stop an iteration by returning an error, and which calls are then made. */
module Callbacks {
  /** What a callback returns: nil, io.EOF, or another error. */
  datatype Verdict = Continue | Finish | Abort

  /** A callback, given by what it returns at the last of the calls made to it so far. */
  type Callback<-T> = seq<T> -> Verdict

  /** None of the calls stops the scan. */
  ghost predicate Quiet<T>(cb: Callback<T>, calls: seq<T>) {
    forall m :: 0 < m <= |calls| ==> cb(calls[..m]) == Continue
  }

  /** Of all calls, those up to and including the first one that stops the scan were made; v is what the last one returned. */
  ghost predicate Cuts<T>(cb: Callback<T>, calls: seq<T>, all: seq<T>, v: Verdict) {
    && calls <= all
    && (if v == Continue then calls == all && Quiet(cb, calls)
        else calls != [] && v == cb(calls) && Quiet(cb, calls[..|calls| - 1]))
  }

  lemma QuietStep<T>(cb: Callback<T>, calls: seq<T>, c: T)
    requires Quiet(cb, calls)
    ensures var more := calls + [c];
            && more[..|more| - 1] == calls
            && (cb(more) == Continue ==> Quiet(cb, more))
            && (cb(more) != Continue ==> Cuts(cb, more, more, cb(more)))
  {
    var more := calls + [c];
    assert more[..|more| - 1] == calls;
    forall m | 0 < m <= |more| && cb(more) == Continue ensures cb(more[..m]) == Continue {
      if m == |more| { assert more[..m] == more; } else { assert more[..m] == calls[..m]; }
    }
  }

  lemma CutsNothing<T>(cb: Callback<T>, calls: seq<T>)
    requires Quiet(cb, calls)
    ensures Cuts(cb, calls, calls, Continue)
  {
  }

  lemma CutsMore<T>(cb: Callback<T>, calls: seq<T>, all: seq<T>, more: seq<T>, v: Verdict)
    requires Cuts(cb, calls, all, v) && v != Continue && all <= more
    ensures Cuts(cb, calls, more, v)
  {
  }

  /** No call before the last one stops the scan. */
  lemma EarlierQuiet<T>(cb: Callback<T>, calls: seq<T>, all: seq<T>, v: Verdict, m: nat)
    requires Cuts(cb, calls, all, v) && 0 < m < |calls|
    ensures cb(all[..m]) == Continue
  {
    assert v != Continue ==> calls[..|calls| - 1][..m] == calls[..m];
    assert calls[..m] == all[..m];
  }

  lemma NotShorter<T>(cb: Callback<T>, a: seq<T>, b: seq<T>, all: seq<T>, v: Verdict, v': Verdict)
    requires Cuts(cb, a, all, v) && Cuts(cb, b, all, v')
    ensures |b| <= |a|
  {
    hide Quiet;
    assert all[..|a|] == a;
    if 0 < |a| < |b| { EarlierQuiet(cb, b, all, v', |a|); }
  }

  /** Which calls are made, and what the last one returned, is settled by the callback. */
  lemma CutsOnce<T>(cb: Callback<T>, a: seq<T>, b: seq<T>, all: seq<T>, v: Verdict, v': Verdict)
    requires Cuts(cb, a, all, v) && Cuts(cb, b, all, v')
    ensures a == b && v == v'
  {
    NotShorter(cb, a, b, all, v, v');
    NotShorter(cb, b, a, all, v', v);
    assert a == all[..|a|] && b == all[..|b|];
    SameVerdict(cb, a, all, v, v');
  }

  lemma SameVerdict<T>(cb: Callback<T>, calls: seq<T>, all: seq<T>, v: Verdict, v': Verdict)
    requires Cuts(cb, calls, all, v) && Cuts(cb, calls, all, v')
    ensures v == v'
  {
    assert calls[..|calls|] == calls;
  }

  lemma QuietStart<T>(cb: Callback<T>)
    ensures Quiet(cb, [])
  {
  }

  lemma CutsAll<T>(cb: Callback<T>, calls: seq<T>, all: seq<T>)
    requires Cuts(cb, calls, all, Continue)
    ensures calls == all && Quiet(cb, calls)
  {
  }
}
