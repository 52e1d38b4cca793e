/**
 * parser.go: EachKeyErr, a loop of its own beside EachKey, and arrayEachErr, through which it goes over arrays. Both stop
 * when a callback returns an error.
 */
module EachKeysErr {
  import opened Bytes
  import opened Scanners
  import opened Syntax
  import opened Lookup
  import opened Callbacks
  import opened EachKeys

  // ---- arrays ----

  lemma {:induction false} ArrayCallsOneMore(paths: seq<Path>, w: seq<Option<int>>, level: nat, events: seq<Event>, ev: Event, cur: nat)
    requires |w| == |paths| && cur <= |events|
    ensures ArrayCalls(paths, w, level, events + [ev], cur)
         == ArrayCalls(paths, w, level, events, cur) + ElementCalls(paths, w, level, ev, |events|, 0)
    decreases |events| - cur
  {
    hide ElementCalls;
    var more := events + [ev];
    var last := ElementCalls(paths, w, level, ev, |events|, 0);
    if cur == |events| {
      assert ArrayCalls(paths, w, level, more, cur + 1) == [];
      assert last + [] == last && [] + last == last;
    } else {
      ArrayCallsOneMore(paths, w, level, events, ev, cur + 1);
      var here := ElementCalls(paths, w, level, events[cur], cur, 0);
      assert more[cur] == events[cur];
      assert here + (ArrayCalls(paths, w, level, events, cur + 1) + last) == here + ArrayCalls(paths, w, level, events, cur + 1) + last;
    }
  }

  /** The calls for the first elements come first. */
  lemma {:induction false} ArrayCallsPrefix(paths: seq<Path>, w: seq<Option<int>>, level: nat, seen: seq<Event>, events: seq<Event>)
    requires |w| == |paths| && seen <= events
    ensures ArrayCalls(paths, w, level, seen, 0) <= ArrayCalls(paths, w, level, events, 0)
    decreases |events|
  {
    hide ArrayCalls;
    if |seen| < |events| {
      var n := |events| - 1;
      ArrayCallsPrefix(paths, w, level, seen, events[..n]);
      ArrayCallsOneMore(paths, w, level, events[..n], events[n], 0);
      assert events[..n] + [events[n]] == events;
    } else {
      assert seen == events;
    }
  }

  /**
   * A function passed to arrayEachErr: the one that EachKeyErr passes, with the variables it captures, or one of the
   * caller's own, for which there are no paths to look for.
   */
  class ElementCallback {
    const user: Option<Callback<Event>>
    const cb: Callback<EachKeys.Call>
    const paths: seq<Path>
    const pathFlags: array<bool>
    const w: seq<Option<int>>
    const level: nat
    var curIdx: nat
    var calls: seq<Call>
    var pathsMatched: nat

    /** The elements seen so far; the calls and flags before the array. */
    var seen: seq<Event>
    ghost const made: seq<Call>
    ghost const flags: seq<bool>

    ghost predicate Fits() {
      && pathFlags.Length == |paths| == |w| == |flags| && (user.Some? ==> paths == [])
      && forall k :: 0 <= k < |paths| && w[k].Some? ==> !flags[k] && level <= |paths[k]|
    }

    /** The calls that belong to the elements seen so far. */
    ghost function Due(): seq<Call>
      reads this
      requires |w| == |paths|
    {
      made + ArrayCalls(paths, w, level, seen, 0)
    }

    /** No call has stopped the scan so far. */
    ghost predicate Running()
      reads this, pathFlags
    {
      && Fits() && curIdx == |seen| && calls == Due() && Quiet(cb, calls)
      && pathsMatched == Count(pathFlags[..]) && Settled(paths, flags, w, level, seen, |seen|, 0, pathFlags[..])
      && (user.Some? ==> Quiet(user.value, seen))
    }

    /** The last element seen has stopped the iteration. */
    ghost predicate Stopped(v: Verdict)
      reads this
      requires |w| == |paths|
    {
      && v != Continue && Cuts(cb, calls, Due(), if user.Some? then Continue else v)
      && (user.Some? ==> Cuts(user.value, seen, seen, v))
    }

    /** A caller's own function. */
    constructor Of(user: Callback<Event>)
      ensures this.user == Some(user) && seen == [] && Running() && fresh(pathFlags)
    {
      this.user, cb, paths, w, level := Some(user), _ => Continue, [], [], 0;
      pathFlags := new bool[0];
      made, flags, seen, curIdx, calls, pathsMatched := [], [], [], 0, [], 0;
      new;
      QuietStart(user);
      assert pathFlags[..] == [] && [] + ArrayCalls([], [], 0, [], 0) == [];
    }

    constructor (cb: Callback<EachKeys.Call>, paths: seq<Path>, pathFlags: array<bool>, w: seq<Option<int>>, level: nat, made: seq<Call>,
                 matched: nat)
      requires pathFlags.Length == |paths| == |w| && matched == Count(pathFlags[..]) && Quiet(cb, made)
      requires forall k :: 0 <= k < |paths| && w[k].Some? ==> !pathFlags[k] && level <= |paths[k]|
      ensures this.cb == cb && this.paths == paths && this.pathFlags == pathFlags && this.w == w && this.level == level
      ensures user == None && this.made == made && flags == pathFlags[..] && seen == [] && Running()
    {
      user := None;
      this.cb, this.paths, this.pathFlags, this.w, this.level := cb, paths, pathFlags, w, level;
      this.made, flags, seen := made, pathFlags[..], [];
      curIdx, calls, pathsMatched := 0, made, matched;
      assert made + [] == made;
    }

    /** The same within an element: the paths from pi on have still to be looked at. */
    ghost predicate Within(pi: nat)
      reads this, pathFlags
    {
      && Fits() && pi <= |paths| && |seen| == curIdx + 1
      && Due() == calls + ElementCalls(paths, w, level, seen[curIdx], curIdx, pi) && Quiet(cb, calls)
      && pathsMatched == Count(pathFlags[..]) && Settled(paths, flags, w, level, seen, curIdx, pi, pathFlags[..])
    }

    /** Path pi, if it asks for this element and is not found yet. */
    method CallForPath(pi: nat, ev: Event) returns (v: Verdict)
      requires Within(pi) && pi < |paths| && ev == seen[curIdx]
      modifies this`calls, this`pathsMatched, pathFlags
      ensures v == Continue ==> Within(pi + 1)
      ensures v != Continue ==> Cuts(cb, calls, Due(), v)
    {
      hide ElementAnswer, ArrayCalls, Quiet, Cuts, Count;
      v := Continue;
      if pathFlags[pi] || w[pi] != Some(curIdx) {
        return;
      }
      var answer := AnswerOf(paths[pi], level, ev);
      if answer.None? {
        return;
      }
      var (value, t, err) := answer.value;
      pathsMatched := pathsMatched + 1;
      assert !pathFlags[..][pi];
      CountSet(pathFlags[..], pi);
      ghost var was := pathFlags[..];
      pathFlags[pi] := true;
      assert pathFlags[..] == was[pi := true];
      QuietStep(cb, calls, EachKeys.Call(pi, value, t, err));
      calls := calls + [EachKeys.Call(pi, value, t, err)];
      v := cb(calls);
      if v != Continue { CutsMore(cb, calls, calls, Due(), v); }
    }

    /** One element: the paths that ask for it are called back for in turn, until a call stops the scan. */
    method Call(ev: Event) returns (v: Verdict)
      requires Running()
      modifies this, pathFlags
      ensures seen == old(seen) + [ev] && (if v == Continue then Running() else Fits() && Stopped(v))
    {
      hide ArrayCalls, ElementCalls, Quiet, Cuts, Count, Answers, ArrayAnswers;
      ArrayCallsOneMore(paths, w, level, seen, ev, 0);
      SettledMore(seen, ev);
      Associate(made, ArrayCalls(paths, w, level, seen, 0), ElementCalls(paths, w, level, ev, curIdx, 0));
      seen := seen + [ev];
      var pi := 0;
      while pi < |paths|
        invariant Within(pi) && seen == old(seen) + [ev]
      {
        v := CallForPath(pi, ev);
        if v != Continue {
          return;
        }
        pi := pi + 1;
      }
      NoMoreCalls(ev);
      assert calls + [] == calls;
      curIdx := curIdx + 1;
      CutsNothing(cb, calls);
      v := Continue;
      if user.Some? {
        v := user.value(seen);
        QuietStep(user.value, old(seen), ev);
      }
    }

    lemma NoMoreCalls(ev: Event)
      requires |w| == |paths|
      ensures ElementCalls(paths, w, level, ev, curIdx, |paths|) == []
    {
    }

    lemma SettledMore(seen: seq<Event>, ev: Event)
      requires Fits() && Settled(paths, flags, w, level, seen, |seen|, 0, pathFlags[..])
      ensures Settled(paths, flags, w, level, seen + [ev], |seen|, 0, pathFlags[..])
    {
    }
  }

  /** What arrayEachErr, here VisitArray, has done when it returns: the elements of ArrayEach, all of them or up to the one that stopped it. */
  ghost predicate Visited(each: Each, f: ElementCallback, offset: int, count: nat, err: Option<Error>, v: Verdict)
    reads f, f.pathFlags
  {
    && f.Fits() && f.seen <= each.events && count == |f.seen|
    && (v == Continue ==> f.Running() && f.seen == each.events && offset == each.off && err == each.err)
    && (v != Continue ==> f.Stopped(v) && err == None)
  }

  /** The element loop of arrayEachErr. */
  method EachElementsErr(data: Bytes, start: nat, f: ElementCallback) returns (offset: int, count: nat, err: Option<Error>, v: Verdict)
    requires 1 <= start <= |data| && f.Running() && f.seen == []
    modifies f, f.pathFlags
    ensures Visited(EachFrom(STRICT, data, start), f, offset, count, err, v)
  {
    hide EachFrom, GetFrom, ArrayCalls, Settled;
    offset, count, v := start, 0, Continue;
    while true
      invariant v == Continue && 1 <= offset <= |data| && f.Running() && count == |f.seen|
      invariant EachFrom(STRICT, data, start) == After(f.seen, EachFrom(STRICT, data, offset))
      decreases |data| - offset
    {
      ghost var before, from := f.seen, offset;
      EachLast(STRICT, data, offset, before);
      var g := GetClosest(STRICT, data, offset);
      if g.end == offset {
        err := g.err;
        return;
      }
      count := count + 1;
      v := f.Call(ElementEvent(g, offset));
      if v != Continue {
        SeenPrefix(data, from, before);
        err := None;
        return;
      }
      if g.err.Some? {
        err := g.err;
        return;
      }
      offset := g.end;
      var skip := NextTokenFrom(data, offset);
      if skip == -1 {
        err := Some(MalformedArray);
        return;
      }
      offset := offset + skip;
      if data[offset] == RBRACKET {
        err := None;
        return;
      }
      if data[offset] != COMMA {
        err := Some(MalformedArray);
        return;
      }
      EachStep(STRICT, data, from, before);
      offset := offset + 1;
    }
  }

  /** The element just called back for is the next one of the iteration. */
  lemma SeenPrefix(data: Bytes, offset: nat, events: seq<Event>)
    requires 1 <= offset <= |data| && GetFrom(STRICT, data, offset).end != offset
    ensures events + [ElementEvent(GetFrom(STRICT, data, offset), offset)] <= After(events, EachFrom(STRICT, data, offset)).events
  {
    hide GetFrom;
  }

  /** The elements behind an opening bracket. */
  method EachInsideErr(data: Bytes, start: nat, f: ElementCallback) returns (offset: int, count: nat, err: Option<Error>, v: Verdict)
    requires 1 <= start <= |data| && f.Running() && f.seen == []
    modifies f, f.pathFlags
    ensures Visited(EachInside(STRICT, data, start), f, offset, count, err, v)
  {
    hide EachFrom;
    var nO := NextTokenFrom(data, start);
    if nO == -1 {
      return start, 0, Some(MalformedJson), Continue;
    }
    if data[start + nO] == RBRACKET {
      return start + nO, 0, None, Continue;
    }
    offset, count, err, v := EachElementsErr(data, start + nO, f);
  }

  /**
   * arrayEachErr: the callback gets the elements that ArrayEach visits, all of them, or those up to and including the first
   * one at which it returns an error; count is their number.
   */
  method VisitArray(data: Bytes, f: ElementCallback, keys: Path) returns (offset: int, count: nat, err: Option<Error>, v: Verdict)
    requires f.Running() && f.seen == []
    modifies f, f.pathFlags
    ensures Visited(EachSpec(STRICT, data, keys), f, offset, count, err, v)
  {
    hide SearchKeysSpec, EachInside;
    if |data| == 0 {
      return -1, 0, Some(MalformedObject), Continue;
    }
    var nT := NextToken(data);
    if nT == -1 {
      return -1, 0, Some(MalformedJson), Continue;
    }
    if |keys| == 0 && data[nT] != LBRACKET {
      return -1, 0, Some(MalformedArray), Continue;
    }
    offset := nT + 1;
    if |keys| > 0 {
      offset := SearchKeys(STRICT, data, keys);
      if offset == -1 {
        return offset, 0, Some(KeyPathNotFound), Continue;
      }
      var nO := NextTokenFrom(data, offset);
      if nO == -1 {
        return offset, 0, Some(MalformedJson), Continue;
      }
      offset := offset + nO;
      if data[offset] != LBRACKET {
        return offset, 0, Some(MalformedArray), Continue;
      }
      offset := offset + 1;
    }
    offset, count, err, v := EachInsideErr(data, offset, f);
  }

  /**
   * ArrayEachErr with any callback: the calls ArrayEach makes, all of them and with its error, or those up to and including
   * the first at which the callback returns an error, which is then returned unless it is io.EOF.
   */
  method ArrayEachErr(data: Bytes, keys: Path, user: Callback<Event>)
    returns (events: seq<Event>, count: nat, err: Option<Error>, v: Verdict)
    ensures var each := EachSpec(STRICT, data, keys);
            && Cuts(user, events, each.events, v) && count == |events|
            && err == (if v == Continue then each.err else None)
  {
    hide EachSpec, Quiet;
    var f := new ElementCallback.Of(user);
    var offset;
    offset, count, err, v := VisitArray(data, f, keys);
    events := f.seen;
    ghost var each := EachSpec(STRICT, data, keys);
    if v == Continue { CutsNothing(user, events); } else { CutsMore(user, events, events, each.events, v); }
  }

  // ---- the scan ----

  /** The loop over the paths at a key. */
  method CallForKeyErr(paths: seq<Path>, pathFlags: array<bool>, buf: seq<Bytes>, level: nat, g: Got, matchedBefore: nat,
                       made: seq<Call>, cb: Callback<Call>)
    returns (calls: seq<Call>, pathsMatched: nat, matched: bool, v: Verdict)
    requires pathFlags.Length == |paths| && 1 <= level <= |buf| && matchedBefore == Count(pathFlags[..])
    requires Quiet(cb, made)
    modifies pathFlags
    ensures Cuts(cb, calls, made + KeyCalls(paths, old(pathFlags[..]), buf, level, g, 0), v)
    ensures v == Continue ==>
              && pathFlags[..] == KeyFlags(paths, old(pathFlags[..]), buf, level) && pathsMatched == Count(pathFlags[..])
              && (matched <==> KeyCalls(paths, old(pathFlags[..]), buf, level, g, 0) != [])
  {
    hide Quiet, Cuts, AllTrue;
    calls, pathsMatched, matched, v := made, matchedBefore, false, Continue;
    ghost var flags := pathFlags[..];
    ghost var all := made + KeyCalls(paths, flags, buf, level, g, 0);
    var pi := 0;
    while pi < |paths|
      invariant pi <= |paths| && v == Continue && Quiet(cb, calls)
      invariant all == calls + KeyCalls(paths, flags, buf, level, g, pi)
      invariant matched <==> |calls| > |made|
      invariant |calls| >= |made|
      invariant pathsMatched == Count(pathFlags[..])
      invariant forall k :: 0 <= k < pi ==> pathFlags[k] == (flags[k] || WantsKey(paths[k], flags[k], buf, level))
      invariant forall k :: pi <= k < |paths| ==> pathFlags[k] == flags[k]
    {
      var same := IsSameTree(paths[pi], buf[..level]);
      if |paths[pi]| != level || pathFlags[pi] || buf[level - 1] != paths[pi][level - 1] || !same {
        pi := pi + 1;
        continue;
      }
      matched := true;
      pathsMatched := pathsMatched + 1;
      CountSet(pathFlags[..], pi);
      ghost var was := pathFlags[..];
      pathFlags[pi] := true;
      assert pathFlags[..] == was[pi := true];
      QuietStep(cb, calls, Call(pi, g.value, g.t, g.err));
      calls := calls + [Call(pi, g.value, g.t, g.err)];
      v := cb(calls);
      if v != Continue {
        CutsMore(cb, calls, calls, all, v);
        return;
      }
      pi := pi + 1;
      if pathsMatched == |paths| {
        CountAll(pathFlags[..]);
        KeysDone(paths, flags, buf, level, g, pi, pathFlags[..]);
        assert all == calls + [] == calls;
        CutsNothing(cb, calls);
        return;
      }
    }
    assert pathFlags[..] == KeyFlags(paths, flags, buf, level);
    assert calls + [] == calls;
    CutsNothing(cb, calls);
  }

  /** With every path flagged the rest of the paths has nothing to ask for. */
  lemma KeysDone(paths: seq<Path>, flags: seq<bool>, buf: seq<Bytes>, level: nat, g: Got, pi: nat, now: seq<bool>)
    requires |flags| == |paths| == |now| && 1 <= level <= |buf| && pi <= |paths| && AllTrue(now)
    requires forall k :: 0 <= k < pi ==> now[k] == (flags[k] || WantsKey(paths[k], flags[k], buf, level))
    requires forall k :: pi <= k < |paths| ==> now[k] == flags[k]
    ensures KeyCalls(paths, flags, buf, level, g, pi) == [] && now == KeyFlags(paths, flags, buf, level)
  {
    NoKeyCalls(paths, flags, buf, level, g, pi);
  }

  /** The branch for a member name. */
  method EachKeyNameErr(data: Bytes, paths: seq<Path>, st: EachState, key: Bytes, colon: nat, pathFlags: array<bool>,
                        pathsBuf: array<Bytes>, matchedBefore: nat, made: seq<Call>, cb: Callback<Call>)
    returns (calls: seq<Call>, pathsMatched: nat, ended: bool, i: int, v: Verdict)
    requires st.flags == pathFlags[..] && st.buf == pathsBuf[..] && |st.flags| == |paths| && 0 < colon < |data|
    requires data[colon] == COLON && matchedBefore == Count(st.flags) && Quiet(cb, made)
    modifies pathFlags, pathsBuf
    ensures Cuts(cb, calls, made + KeyRound(data, paths, st, key, colon).calls, v)
    ensures v == Continue ==> InStep(KeyRound(data, paths, st, key, colon), ended, i, st.level, pathFlags, pathsBuf, pathsMatched)
  {
    hide KeyCalls, KeyFlags, AfterKey, GetFrom, Quiet, Cuts;
    calls, pathsMatched, v := made, matchedBefore, Continue;
    var matched := false;
    if pathsBuf.Length >= st.level {
      if st.level < 1 {
        QuietStep(cb, made, MALFORMED);
        calls := calls + [MALFORMED];
        ReportEnds(cb, made);
        return calls, pathsMatched, true, -1, cb(calls);
      }
      pathsBuf[st.level - 1] := key;
      var g := GetClosest(STRICT, data, colon + 1);
      ghost var buf := st.buf[st.level - 1 := key];
      assert pathsBuf[..] == buf;
      calls, pathsMatched, matched, v := CallForKeyErr(paths, pathFlags, pathsBuf[..], st.level, g, pathsMatched, calls, cb);
      if v != Continue {
        return calls, pathsMatched, true, -1, v;
      }
      CountAll(pathFlags[..]);
      if pathsMatched == |paths| {
        return calls, pathsMatched, true, colon, v;
      }
    } else {
      assert made + [] == made;
      CutsNothing(cb, made);
    }
    ended := false;
    i := ResumeAfterKey(data, colon, matched);
  }

  /** The report of a malformed document ends the scan, whatever the callback returns. */
  lemma ReportEnds(cb: Callback<Call>, made: seq<Call>)
    requires Quiet(cb, made)
    ensures Cuts(cb, made + [MALFORMED], made + [MALFORMED], cb(made + [MALFORMED]))
  {
    hide Quiet;
    QuietStep(cb, made, MALFORMED);
    if cb(made + [MALFORMED]) == Continue { CutsNothing(cb, made + [MALFORMED]); }
  }

  /** The variables of the loop after a round that made all its calls. */
  ghost predicate InStep(round: Round, ended: bool, i: int, level: int, pathFlags: array<bool>, pathsBuf: array<Bytes>,
                         pathsMatched: nat)
    reads pathFlags, pathsBuf
  {
    match round
    case Halt(_, _) => ended
    case Go(_, next) =>
      !ended && i == next.i && level == next.level
      && next.flags == pathFlags[..] && next.buf == pathsBuf[..] && pathsMatched == Count(next.flags)
  }

  /** The branch for an array. */
  method EachKeyArrayErr(data: Bytes, paths: seq<Path>, st: EachState, pathFlags: array<bool>, pathsBuf: array<Bytes>,
                         matchedBefore: nat, made: seq<Call>, cb: Callback<Call>)
    returns (calls: seq<Call>, pathsMatched: nat, ended: bool, i: int, level: int, v: Verdict)
    requires st.flags == pathFlags[..] && st.buf == pathsBuf[..] && |st.flags| == |paths| && st.i < |data|
    requires data[st.i] == LBRACKET && |st.buf| == MaxLen(paths) && matchedBefore == Count(st.flags) && Quiet(cb, made)
    modifies pathFlags
    ensures Cuts(cb, calls, made + ArrayRound(data, paths, st).calls, v)
    ensures v == Continue ==> InStep(ArrayRound(data, paths, st), ended, i, level, pathFlags, pathsBuf, pathsMatched)
  {
    hide ArrayCalls, ArrayFlags, EachRoot, EachSpec, BlockEndAt, Quiet, Cuts, Settled;
    calls, pathsMatched, level, v := made, matchedBefore, st.level, Continue;
    if st.level < 0 {
      calls := calls + [MALFORMED];
      ReportEnds(cb, made);
      return calls, pathsMatched, true, -1, level, cb(calls);
    }
    var w, any := WishesAt(paths, pathFlags, st.buf, st.level);
    if any {
      EachOffset(data[st.i..]);
      level := level + 1;
      WishesFit(paths, st.flags, st.buf, st.level);
      var f := new ElementCallback(cb, paths, pathFlags, w, level, made, matchedBefore);
      var arrOff, _, _, stopped := VisitArray(data[st.i..], f, []);
      ghost var events := EachRoot(STRICT, data[st.i..]).events;
      RootIsSpec(data[st.i..]);
      ArrayCallsPrefix(paths, w, level, f.seen, events);
      if stopped != Continue {
        CutsMore(cb, f.calls, f.Due(), made + ArrayCalls(paths, w, level, events, 0), stopped);
        return f.calls, f.pathsMatched, true, -1, level, stopped;
      }
      calls, pathsMatched := f.calls, f.pathsMatched;
      CutsNothing(cb, calls);
      AllSettled(paths, st.flags, w, level, events, pathFlags[..]);
      CountAll(pathFlags[..]);
      if pathsMatched == |paths| {
        return calls, pathsMatched, true, -1, level, v;
      }
      return calls, pathsMatched, false, st.i + arrOff, level, v;
    }
    assert made + [] == made;
    CutsNothing(cb, made);
    var arraySkip := BlockEndFrom(STRICT, data, st.i, LBRACKET, RBRACKET);
    if arraySkip == -1 {
      return calls, pathsMatched, true, -1, level, v;
    }
    return calls, pathsMatched, false, st.i + arraySkip, level, v;
  }

  lemma RootIsSpec(data: Bytes)
    ensures EachSpec(STRICT, data, []) == EachRoot(STRICT, data)
  {
    hide EachInside;
  }

  /** Behind the last element the flags are final. */
  lemma AllSettled(paths: seq<Path>, flags: seq<bool>, w: seq<Option<int>>, level: nat, events: seq<Event>, now: seq<bool>)
    requires |flags| == |paths| == |w| == |now| && Settled(paths, flags, w, level, events, |events|, 0, now)
    ensures now == ArrayFlags(paths, flags, w, level, events)
  {
    hide Answers;
  }

  /** One round of the scan: the switch on the current byte. */
  method EachKeyRoundErr(data: Bytes, paths: seq<Path>, st: EachState, pathFlags: array<bool>, pathsBuf: array<Bytes>,
                         matchedBefore: nat, made: seq<Call>, cb: Callback<Call>)
    returns (calls: seq<Call>, pathsMatched: nat, ended: bool, i: int, level: int, v: Verdict)
    requires st.flags == pathFlags[..] && st.buf == pathsBuf[..] && |st.flags| == |paths| && st.i < |data|
    requires |st.buf| == MaxLen(paths) && matchedBefore == Count(st.flags) && Quiet(cb, made)
    modifies pathFlags, pathsBuf
    ensures Cuts(cb, calls, made + RoundAt(data, paths, st).calls, v)
    ensures v == Continue ==> InStep(RoundAt(data, paths, st), ended, i, level, pathFlags, pathsBuf, pathsMatched)
  {
    hide RoundAt, KeyRound, ArrayRound, KeyScanAt, Quiet, Cuts;
    var c := data[st.i];
    calls, pathsMatched, level, v := made, matchedBefore, st.level, Continue;
    assert made + [] == made;
    CutsNothing(cb, made);
    if c == QUOTE {
      StepString(data, paths, st);
      var stackbuf := new byte[64](_ => 0);
      var scan := ScanKey(STRICT, data, st.i, stackbuf);
      match scan {
        case Stop => return calls, pathsMatched, true, -1, level, v;
        case NotKey(next) => return calls, pathsMatched, false, next, level, v;
        case KeyAt(key, colon) =>
          ScannedColon(data, st.i);
          calls, pathsMatched, ended, i, v := EachKeyNameErr(data, paths, st, key, colon, pathFlags, pathsBuf, pathsMatched, calls, cb);
      }
    } else if c == LBRACKET {
      StepArray(data, paths, st);
      calls, pathsMatched, ended, i, level, v := EachKeyArrayErr(data, paths, st, pathFlags, pathsBuf, pathsMatched, calls, cb);
    } else {
      StepPlain(data, paths, st);
      if c == LBRACE {
        level := level + 1;
      } else if c == RBRACE || c == RBRACKET {
        level := level - 1;
      }
      ended, i := false, st.i + 1;
    }
  }

  /**
   * EachKeyErr: the calls of EachKey, all of them, or those up to and including the first at which the callback returns an
   * error. That error is returned (Abort) unless it is io.EOF (Finish).
   */
  method EachKeyErr(data: Bytes, paths: seq<Path>, cb: Callback<Call>) returns (calls: seq<Call>, v: Verdict)
    ensures Cuts(cb, calls, EachKeySpec(data, paths).calls, v)
  {
    hide Run, RoundAt, Count, Quiet, Cuts;
    var maxPath := MaxLength(paths);
    var pathFlags := new bool[|paths|](_ => false);
    var pathsBuf := new Bytes[maxPath](_ => []);
    calls, v := [], Continue;
    var pathsMatched: nat := 0;
    var i: nat, level: int := 0, 0;
    ghost var all := EachKeySpec(data, paths);
    CountNone(|paths|);
    assert pathFlags[..] == seq(|paths|, _ => false);
    assert pathsBuf[..] == Initial(paths).buf && pathFlags[..] == Initial(paths).flags;
    assert [] + all.calls == all.calls;
    QuietStart(cb);
    while i < |data|
      invariant i <= |data| && pathsMatched == Count(pathFlags[..]) && v == Continue && Quiet(cb, calls)
      invariant all == Later(calls, Run(data, paths, EachState(i, level, pathsBuf[..], pathFlags[..])))
      decreases |data| - i
    {
      var st := EachState(i, level, pathsBuf[..], pathFlags[..]);
      RunStep(data, paths, st, calls);
      ghost var due := calls + RoundAt(data, paths, st).calls;
      var ended, next;
      calls, pathsMatched, ended, next, level, v := EachKeyRoundErr(data, paths, st, pathFlags, pathsBuf, pathsMatched, calls, cb);
      if v != Continue {
        CutsMore(cb, calls, due, all.calls, v);
        return;
      }
      CutsAll(cb, calls, due);
      if ended {
        return;
      }
      i := next;
    }
    RunEnd(data, paths, EachState(i, level, pathsBuf[..], pathFlags[..]));
    assert calls + [] == calls;
    CutsNothing(cb, calls);
  }

  /** With a callback that never fails the calls are those of EachKey. */
  lemma NeverFailing(cb: Callback<Call>, data: Bytes, paths: seq<Path>, calls: seq<Call>, v: Verdict)
    requires Cuts(cb, calls, EachKeySpec(data, paths).calls, v) && forall s :: cb(s) == Continue
    ensures calls == EachKeySpec(data, paths).calls && v == Continue
  {
  }
}
