/** EachKey reports no path twice, and on well-formed documents exactly what Get would return for each path. */
module EachKeyLaws {
  import opened Bytes
  import opened Strings
  import opened Escapes
  import opened Scanners
  import opened Syntax
  import opened Layout
  import opened Blocks
  import opened Lookup
  import opened TreeValues
  import opened TreeLookup
  import opened MixedPaths
  import opened EachKeys

  // ---- the callbacks of one path ----

  /** The callbacks carrying one path number. */
  function Only(calls: seq<Call>, pi: int): seq<Call> {
    if calls == [] then [] else (if calls[0].path == pi then [calls[0]] else []) + Only(calls[1..], pi)
  }

  lemma {:induction false} OnlyConcat(a: seq<Call>, b: seq<Call>, pi: int)
    ensures Only(a + b, pi) == Only(a, pi) + Only(b, pi)
  {
    if a == [] {
      assert a + b == b;
    } else {
      var head := if a[0].path == pi then [a[0]] else [];
      assert (a + b)[0] == a[0] && (a + b)[1..] == a[1..] + b;
      OnlyConcat(a[1..], b, pi);
      assert head + (Only(a[1..], pi) + Only(b, pi)) == head + Only(a[1..], pi) + Only(b, pi);
    }
  }

  lemma OnlyOne(c: Call, pi: int)
    ensures Only([c], pi) == if c.path == pi then [c] else []
  {
    assert [c][1..] == [];
  }

  lemma {:induction false} KeyOnly(paths: seq<Path>, flags: seq<bool>, buf: seq<Bytes>, level: nat, g: Got, from: nat, pi: int)
    requires |flags| == |paths| && 1 <= level <= |buf| && from <= |paths|
    ensures Only(KeyCalls(paths, flags, buf, level, g, from), pi)
         == if from <= pi < |paths| && WantsKey(paths[pi], flags[pi], buf, level) then [Call(pi, g.value, g.t, g.err)] else []
    decreases |paths| - from
  {
    hide WantsKey;
    if from < |paths| {
      KeyOnly(paths, flags, buf, level, g, from + 1, pi);
      var c := Call(from, g.value, g.t, g.err);
      OnlyOne(c, pi);
      OnlyConcat([c], KeyCalls(paths, flags, buf, level, g, from + 1), pi);
    }
  }

  function AnswerCall(paths: seq<Path>, level: nat, ev: Event, pi: nat): seq<Call>
    requires pi < |paths| && level <= |paths[pi]| && ElementAnswer(paths[pi], level, ev).Some?
  {
    var (value, t, err) := ElementAnswer(paths[pi], level, ev).value;
    [Call(pi, value, t, err)]
  }

  lemma {:induction false} ElementOnly(paths: seq<Path>, w: seq<Option<int>>, level: nat, ev: Event, cur: nat, from: nat, pi: int)
    requires |w| == |paths| && from <= |paths|
    ensures Only(ElementCalls(paths, w, level, ev, cur, from), pi)
         == if from <= pi < |paths| && Answers(paths, w, level, ev, cur, pi) then AnswerCall(paths, level, ev, pi) else []
    decreases |paths| - from
  {
    hide ElementAnswer;
    if from < |paths| {
      ElementOnly(paths, w, level, ev, cur, from + 1, pi);
      if Answers(paths, w, level, ev, cur, from) {
        var c := AnswerCall(paths, level, ev, from);
        OnlyOne(c[0], pi);
        OnlyConcat(c, ElementCalls(paths, w, level, ev, cur, from + 1), pi);
      }
    }
  }

  /** A path has at most one callback in an array: for the element it wants. */
  lemma {:induction false} ArrayOnly(paths: seq<Path>, w: seq<Option<int>>, level: nat, events: seq<Event>, cur: nat, pi: int)
    requires |w| == |paths| && cur <= |events|
    ensures Only(ArrayCalls(paths, w, level, events, cur), pi)
         == if 0 <= pi < |paths| && ArrayAnswers(paths, w, level, events, pi) && cur <= w[pi].value
            then AnswerCall(paths, level, events[w[pi].value], pi) else []
    decreases |events| - cur
  {
    hide ElementCalls, ElementAnswer, AnswerCall;
    if cur < |events| {
      ArrayOnly(paths, w, level, events, cur + 1, pi);
      ElementOnly(paths, w, level, events[cur], cur, 0, pi);
      OnlyConcat(ElementCalls(paths, w, level, events[cur], cur, 0), ArrayCalls(paths, w, level, events, cur + 1), pi);
    }
  }

  predicate WfState(data: Bytes, paths: seq<Path>, st: EachState) {
    |st.flags| == |paths| && st.i <= |data| && |st.buf| == MaxLen(paths)
  }

  /** What one round can contribute to a path: nothing once it is flagged, and a contribution flags it. */
  predicate OnceAtMost(paths: seq<Path>, flags: seq<bool>, round: Round, pi: int)
    requires |flags| == |paths| && (round.Go? ==> |round.next.flags| == |paths|)
  {
    var c := Only(round.calls, pi);
    && |c| <= 1
    && (0 <= pi < |paths| && flags[pi] ==> c == [])
    && (0 <= pi < |paths| && round.Go? ==> round.next.flags[pi] == (flags[pi] || c != []))
    && (!(0 <= pi < |paths|) && round.Go? ==> c == [])
  }

  lemma KeyOnce(data: Bytes, paths: seq<Path>, st: EachState, key: Bytes, n: nat, pi: int)
    requires WfState(data, paths, st) && 0 < n < |data|
    ensures OnceAtMost(paths, st.flags, KeyRound(data, paths, st, key, n), pi)
  {
    hide GetFrom, KeyCalls, AfterKey;
    OnlyOne(MALFORMED, pi);
    if 1 <= st.level <= |st.buf| {
      KeyOnly(paths, st.flags, st.buf[st.level - 1 := key], st.level, GetFrom(STRICT, data, n + 1), 0, pi);
    }
  }

  lemma NotAll(flags: seq<bool>, k: nat)
    requires k < |flags| && !flags[k]
    ensures !AllTrue(flags)
  {
  }

  lemma ArrayFlagAt(paths: seq<Path>, flags: seq<bool>, w: seq<Option<int>>, level: nat, events: seq<Event>, k: nat)
    requires |w| == |paths| && |flags| == |paths| && k < |paths|
    ensures ArrayFlags(paths, flags, w, level, events)[k] == (flags[k] || ArrayAnswers(paths, w, level, events, k))
  {
    hide ArrayAnswers;
  }

  /** What an array contributes to one path. */
  lemma WishOnce(paths: seq<Path>, flags: seq<bool>, w: seq<Option<int>>, level: nat, events: seq<Event>, pi: int)
    requires |w| == |paths| == |flags| && forall k :: 0 <= k < |paths| && w[k].Some? ==> !flags[k]
    ensures var c := Only(ArrayCalls(paths, w, level, events, 0), pi);
            && |c| <= 1
            && (!(0 <= pi < |paths|) ==> c == [])
            && (0 <= pi < |paths| ==>
                  (flags[pi] ==> c == []) && ArrayFlags(paths, flags, w, level, events)[pi] == (flags[pi] || c != []))
  {
    hide ArrayCalls, ArrayFlags, ArrayAnswers;
    ArrayOnly(paths, w, level, events, 0, pi);
    if 0 <= pi < |paths| {
      AnswersInRange(paths, w, level, events, pi);
      ArrayFlagAt(paths, flags, w, level, events, pi);
    }
  }

  lemma ArrayOnce(data: Bytes, paths: seq<Path>, st: EachState, pi: int)
    requires WfState(data, paths, st) && st.i < |data| && data[st.i] == LBRACKET
    ensures OnceAtMost(paths, st.flags, ArrayRound(data, paths, st), pi)
  {
    hide EachRoot, BlockEndAt, ArrayCalls, ArrayFlags, Wanted, AllTrue, AnyWanted;
    OnlyOne(MALFORMED, pi);
    if st.level >= 0 {
      var w := Wanted(paths, st.flags, st.buf, st.level);
      WishesFit(paths, st.flags, st.buf, st.level);
      WishOnce(paths, st.flags, w, st.level + 1, EachRoot(STRICT, data[st.i..]).events, pi);
    }
  }

  lemma AnswersInRange(paths: seq<Path>, w: seq<Option<int>>, level: nat, events: seq<Event>, pi: nat)
    requires |w| == |paths| && pi < |paths|
    ensures ArrayAnswers(paths, w, level, events, pi) ==> w[pi].Some? && 0 <= w[pi].value < |events|
  {
    hide Answers;
  }

  lemma RoundOnly(data: Bytes, paths: seq<Path>, st: EachState, pi: int)
    requires WfState(data, paths, st) && st.i < |data|
    ensures OnceAtMost(paths, st.flags, RoundAt(data, paths, st), pi)
  {
    hide KeyScanAt, KeyRound, ArrayRound, RoundAt;
    if data[st.i] == QUOTE {
      StepString(data, paths, st);
      var scan := KeyScanAt(STRICT, data, st.i);
      if scan.KeyAt? { KeyOnce(data, paths, st, scan.name, scan.colon, pi); }
    } else if data[st.i] == LBRACKET {
      StepArray(data, paths, st);
      ArrayOnce(data, paths, st, pi);
    } else {
      StepPlain(data, paths, st);
    }
  }

  /** What follows a round, seen from one path. */
  lemma RunOnly(data: Bytes, paths: seq<Path>, st: EachState, pi: int)
    requires WfState(data, paths, st) && st.i < |data|
    ensures var round := RoundAt(data, paths, st);
            Only(Run(data, paths, st).calls, pi)
            == Only(round.calls, pi) + (if round.Go? then Only(Run(data, paths, round.next).calls, pi) else [])
  {
    hide RoundAt;
    RunStep(data, paths, st, []);
    var round := RoundAt(data, paths, st);
    var all := Run(data, paths, st).calls;
    assert [] + all == all && [] + round.calls == round.calls;
    if round.Go? { OnlyConcat(round.calls, Run(data, paths, round.next).calls, pi); }
  }

  lemma {:induction false} RunOnce(data: Bytes, paths: seq<Path>, st: EachState, pi: int)
    requires WfState(data, paths, st)
    ensures |Only(Run(data, paths, st).calls, pi)| <= 1
    ensures 0 <= pi < |paths| && st.flags[pi] ==> Only(Run(data, paths, st).calls, pi) == []
    decreases |data| - st.i
  {
    hide RoundAt, Run;
    if st.i == |data| {
      RunEnd(data, paths, st);
    } else {
      RoundOnly(data, paths, st, pi);
      RunOnly(data, paths, st, pi);
      var round := RoundAt(data, paths, st);
      if round.Go? { RunOnce(data, paths, round.next, pi); }
    }
  }

  /** On any bytes no path number, and no error report, occurs in two callbacks. */
  lemma NoPathTwice(data: Bytes, paths: seq<Path>, pi: int)
    ensures |Only(EachKeySpec(data, paths).calls, pi)| <= 1
  {
    hide Run;
    RunOnce(data, paths, Initial(paths), pi);
  }

  // ---- printed trees: the scan as one path sees it ----

  /** The calls still to come for a path. */
  function Rest(data: Bytes, paths: seq<Path>, st: EachState, pi: nat): seq<Call>
    requires WfState(data, paths, st)
  {
    Only(Run(data, paths, st).calls, pi)
  }

  /** The path is not found yet. */
  predicate Unfound(paths: seq<Path>, st: EachState, pi: nat) {
    pi < |paths| == |st.flags| && |st.buf| == MaxLen(paths) && !st.flags[pi]
  }

  /** From st to st' the scan has passed something that concerns the path in no way; n names in buf are kept. */
  predicate Passes(data: Bytes, paths: seq<Path>, pi: nat, st: EachState, st': EachState, n: int) {
    && WfState(data, paths, st) && WfState(data, paths, st') && Unfound(paths, st, pi) && Unfound(paths, st', pi)
    && (forall k :: 0 <= k < n && k < |st.buf| ==> st'.buf[k] == st.buf[k])
    && Rest(data, paths, st, pi) == Rest(data, paths, st', pi)
  }

  /** A round without a call for an open path: it cannot be the last, and the path stays open. */
  lemma PassRound(data: Bytes, paths: seq<Path>, st: EachState, pi: nat)
    requires WfState(data, paths, st) && Unfound(paths, st, pi) && st.i < |data|
    requires RoundAt(data, paths, st).Go? && Only(RoundAt(data, paths, st).calls, pi) == []
    ensures var next := RoundAt(data, paths, st).next;
            WfState(data, paths, next) && Unfound(paths, next, pi) && Rest(data, paths, st, pi) == Rest(data, paths, next, pi)
  {
    hide Run, RoundAt;
    RoundOnly(data, paths, st, pi);
    RunOnly(data, paths, st, pi);
  }

  /** A round with the call for a path is the only one. */
  lemma HitRound(data: Bytes, paths: seq<Path>, st: EachState, pi: nat, c: Call)
    requires WfState(data, paths, st) && pi < |paths| && st.i < |data|
    requires Only(RoundAt(data, paths, st).calls, pi) == [c]
    ensures Rest(data, paths, st, pi) == [c]
  {
    hide Run, RoundAt;
    RoundOnly(data, paths, st, pi);
    RunOnly(data, paths, st, pi);
    var round := RoundAt(data, paths, st);
    if round.Go? { RunOnce(data, paths, round.next, pi); }
  }

  /** A byte the scan passes over. */
  predicate IsCalm(c: byte) {
    c != QUOTE && c != LBRACE && c != RBRACE && c != LBRACKET && c != RBRACKET
  }

  lemma {:induction false} PassCalm(data: Bytes, paths: seq<Path>, st: EachState, pi: nat, j: nat)
    requires WfState(data, paths, st) && Unfound(paths, st, pi) && st.i <= j <= |data|
    requires forall k :: st.i <= k < j ==> IsCalm(data[k])
    ensures Passes(data, paths, pi, st, st.(i := j), |st.buf|)
    decreases j - st.i
  {
    hide Run, RoundAt, Rest;
    if st.i < j {
      StepPlain(data, paths, st);
      PassRound(data, paths, st, pi);
      PassCalm(data, paths, st.(i := st.i + 1), pi, j);
    }
  }

  /** The names read so far are the first components of the path, and more follow. */
  predicate OnPath(buf: seq<Bytes>, level: int, p: Path) {
    0 <= level < |p| <= |buf| && buf[..level] == p[..level]
  }

  /** What a callback is told: value, type and error. */
  type Told = (Bytes, ValueType, Option<Error>)

  function Tells(v: JVal): Told { (Content(v), TypeOf(v), None) }

  function Telling(pi: nat, a: Told): Call { Call(pi, a.0, a.1, a.2) }

  /**
   * What EachKey tells about a path in a tree without duplicate names. Up to the first index it follows the tree; the rest
   * is searched for in the selected element on its own.
   */
  function Reported(v: JVal, p: Path): Option<Told>
    requires p != []
    decreases |p|
  {
    if !v.Node? then None
    else if v.obj then ReportedFrom(v.es, p, 0)
    else match IndexOf(p[0])
      case None => None
      case Some(n) => if n < |v.es| then Within(v.es[n].v, p[1..]) else None
  }

  function ReportedFrom(es: seq<Entry>, p: Path, k: nat): Option<Told>
    requires p != [] && k <= |es|
    decreases |p|, 0
  {
    match MemberNamed(es, p[0], k)
    case None => None
    case Some(m) => if |p| == 1 then Some(Tells(es[m].v)) else Reported(es[m].v, p[1..])
  }

  /** The selected element itself, or what the search finds in its tree; in a string, it goes through the bytes between the quotes. */
  function Within(e: JVal, rest: Path): Option<Told> {
    if rest == [] then Some(Tells(e))
    else if e.Str? then
      var of := SearchKeysSpec(STRICT, e.body, rest);
      if of == -1 then None
      else
        var g := GetFrom(STRICT, e.body, of);
        Some((g.value, g.t, g.err))
    else match Seek(e, rest)
      case None => None
      case Some(l) => Some(Tells(Sub(e, l)))
  }

  /** The value at a chain of the tree, if there is one. */
  predicate TellsAt(v: JVal, l: Option<Loc>, a: Option<Told>) {
    match l
    case None => a.None?
    case Some(loc) => ValidLoc(v, loc) && a == Some(Tells(Sub(v, loc)))
  }

  /** What a path is told about a value when its first components are spent. */
  ghost predicate Resolves(v: JVal, rest: Path, a: Option<Told>)
    requires rest != []
  {
    (PlainPath(rest) && TellsAt(v, Locate(v, rest), a)) || (DupFree(v) && a == Reported(v, rest))
  }

  /** What the path is to be called back with, if anything, inside v. */
  ghost predicate Awaits(buf: seq<Bytes>, level: int, p: Path, v: JVal, a: Option<Told>) {
    if OnPath(buf, level, p) then Resolves(v, p[level..], a) else a.None?
  }

  // ---- keys ----

  lemma WantsIsOnPath(p: Path, buf: seq<Bytes>, level: nat, key: Bytes)
    requires 1 <= level <= |buf| && |p| <= |buf|
    ensures WantsKey(p, false, buf[level - 1 := key], level) <==> OnPath(buf, level - 1, p) && |p| == level && p[level - 1] == key
    ensures level < |p| ==> (OnPath(buf[level - 1 := key], level, p) <==> OnPath(buf, level - 1, p) && p[level - 1] == key)
  {
    var buf' := buf[level - 1 := key];
    assert buf'[..level] == buf[..level - 1] + [key];
    if |p| >= level {
      assert p[..level] == p[..level - 1] + [p[level - 1]];
      if |p| == level {
        assert p[..level] == p;
        if SameTree(p, buf'[..level]) {
          forall k | 0 <= k < level ensures p[k] == buf'[..level][k] {}
          assert p == buf'[..level];
        }
      }
    }
  }

  /** The flags behind a key say whether the path is still open, and then the scan goes on. */
  lemma KeyGoes(data: Bytes, paths: seq<Path>, st: EachState, key: Bytes, n: nat, pi: nat)
    requires WfState(data, paths, st) && Unfound(paths, st, pi) && st.level >= 1 && 0 < n < |data|
    ensures var round := KeyRound(data, paths, st, key, n);
            var hit := OnPath(st.buf, st.level - 1, paths[pi]) && |paths[pi]| == st.level && paths[pi][st.level - 1] == key;
            var g := GetFrom(STRICT, data, n + 1);
            && Only(round.calls, pi) == (if hit then [Call(pi, g.value, g.t, g.err)] else [])
            && (!hit ==>
                  && round.Go? && round.next.level == st.level
                  && (round.next.i == n + 1 || round.next.i == AfterKey(data, n, false))
                  && round.next.buf == (if st.level <= |st.buf| then st.buf[st.level - 1 := key] else st.buf))
  {
    hide GetFrom, KeyCalls, NextTok, WantsKey;
    var p := paths[pi];
    if st.level <= |st.buf| {
      var buf := st.buf[st.level - 1 := key];
      WantsIsOnPath(p, st.buf, st.level, key);
      KeyOnly(paths, st.flags, buf, st.level, GetFrom(STRICT, data, n + 1), 0, pi);
      var flags := KeyFlags(paths, st.flags, buf, st.level);
      assert flags[pi] == WantsKey(p, false, buf, st.level);
      assert AllTrue(flags) ==> flags[pi];
    } else {
      assert KeyRound(data, paths, st, key, n) == Go([], st.(i := AfterKey(data, n, false)));
    }
  }

  lemma PassesOn(data: Bytes, paths: seq<Path>, pi: nat, a: EachState, b: EachState, c: EachState, m1: int, m2: int, n: int)
    requires Passes(data, paths, pi, a, b, m1) && Passes(data, paths, pi, b, c, m2)
    requires (n <= m1 || |a.buf| <= m1) && (n <= m2 || |a.buf| <= m2)
    ensures Passes(data, paths, pi, a, c, n)
  {
    hide Rest;
  }

  /** The path ends at this member. */
  predicate EndsHere(buf: seq<Bytes>, level: int, p: Path, name: Bytes) {
    level >= 1 && OnPath(buf, level - 1, p) && |p| == level && p[level - 1] == name
  }

  function WithName(buf: seq<Bytes>, level: int, name: Bytes): seq<Bytes>
    requires level >= 1
  {
    if level <= |buf| then buf[level - 1 := name] else buf
  }

  lemma KeyRoundSeen(data: Bytes, paths: seq<Path>, pi: nat, st: EachState, name: Bytes, colon: nat)
    returns (st': EachState)
    requires WfState(data, paths, st) && Unfound(paths, st, pi) && st.level >= 1 && st.i < |data| && data[st.i] == QUOTE
    requires KeyScanAt(STRICT, data, st.i) == KeyAt(name, colon)
    ensures 0 < colon < |data|
    ensures EndsHere(st.buf, st.level, paths[pi], name) ==>
              var g := GetFrom(STRICT, data, colon + 1); Rest(data, paths, st, pi) == [Call(pi, g.value, g.t, g.err)]
    ensures !EndsHere(st.buf, st.level, paths[pi], name) ==>
              && Passes(data, paths, pi, st, st', st.level - 1) && st'.level == st.level
              && (st'.i == colon + 1 || st'.i == AfterKey(data, colon, false)) && st'.buf == WithName(st.buf, st.level, name)
  {
    hide RoundAt, KeyScanAt, KeyRound, AfterKey, GetFrom, Rest, OnPath;
    StepString(data, paths, st);
    KeyGoes(data, paths, st, name, colon, pi);
    if EndsHere(st.buf, st.level, paths[pi], name) {
      var g := GetFrom(STRICT, data, colon + 1);
      HitRound(data, paths, st, pi, Call(pi, g.value, g.t, g.err));
      st' := st;
    } else {
      PassRound(data, paths, st, pi);
      st' := RoundAt(data, paths, st).next;
    }
  }

  lemma KeyCalm(data: Bytes, p: nat, e: Entry)
    requires At(data, p, PrintEntry(true, e)) && WfEntry(true, e)
    ensures Unescaped(STRICT, e.key).Some? && p + |e.w1| < |data| && data[p + |e.w1|] == QUOTE
    ensures forall k :: p <= k < p + |e.w1| ==> IsCalm(data[k])
    ensures KeyScanAt(STRICT, data, p + |e.w1|) == KeyAt(Name(e), p + |KeyPart(true, e)| - 1)
  {
    hide KeyScanAt, Unescaped, KeyPart, Print, PrintEntry;
    EntryParts(data, p, true, e);
    KeyScanned(STRICT, data, p, e);
    KeyParts(data, p, e);
  }

  lemma ResumesAt(data: Bytes, colon: nat, start: nat, v: JVal)
    requires 0 < colon < start <= |data| && SpaceRun(data, colon + 1, start) && Wf(v) && At(data, start, Print(v))
    ensures AfterKey(data, colon, false) == start
    ensures forall k :: colon < k < start ==> IsCalm(data[k])
  {
    hide Print;
    FirstValue(data, start, v);
    NextTokSkips(data, colon + 1, start);
  }

  /** The name of member k is read: the path ends there and is called back with the value, or the scan gets to the value. */
  lemma NameSeen(data: Bytes, paths: seq<Path>, pi: nat, st: EachState, i: nat, v: JVal, k: nat) returns (st': EachState)
    requires Wf(v) && v.Node? && v.obj && At(data, i, Print(v)) && k < |v.es|
    requires WfState(data, paths, st) && Unfound(paths, st, pi) && st.level >= 1 && st.i == i + Start(v, k)
    ensures Unescaped(STRICT, v.es[k].key).Some?
    ensures EndsHere(st.buf, st.level, paths[pi], Name(v.es[k])) ==> Rest(data, paths, st, pi) == [Telling(pi, Tells(v.es[k].v))]
    ensures !EndsHere(st.buf, st.level, paths[pi], Name(v.es[k])) ==>
              && Passes(data, paths, pi, st, st', st.level - 1) && st'.level == st.level
              && st'.i == i + ValueStart(v, k) && st'.buf == WithName(st.buf, st.level, Name(v.es[k]))
  {
    hide Run, RoundAt, KeyScanAt, AfterKey, GetFrom, Rest, OnPath, Print, PrintEntry, PrintEntries, KeyPart, Start, End, At, Content, TypeOf,
         EndsHere, WithName;
    var e := v.es[k];
    var p := i + Start(v, k);
    EntryAt(data, i, v, k);
    ChildAt(data, i, v, k);
    KeyCalm(data, p, e);
    var quote := p + |e.w1|;
    PassCalm(data, paths, st, pi, quote);
    var at := st.(i := quote);
    var colon := p + |KeyPart(true, e)| - 1;
    var next := KeyRoundSeen(data, paths, pi, at, Name(e), colon);
    MemberGot(STRICT, data, i, v, k);
    if EndsHere(st.buf, st.level, paths[pi], Name(e)) {
      st' := st;
    } else {
      ResumesAt(data, colon, i + ValueStart(v, k), e.v);
      PassCalm(data, paths, next, pi, i + ValueStart(v, k));
      st' := next.(i := i + ValueStart(v, k));
      PassesOn(data, paths, pi, st, at, next, |st.buf|, st.level - 1, st.level - 1);
      PassesOn(data, paths, pi, st, next, st', st.level - 1, |st.buf|, st.level - 1);
    }
  }

  // ---- arrays ----

  /** A path wants an element exactly when the scan is on it and its next component is an index. */
  lemma WishIs(p: Path, buf: seq<Bytes>, level: nat)
    requires |p| <= |buf|
    ensures var w := WantsElement(p, false, buf, level);
            w.Some? && w.value >= 0 <==> OnPath(buf, level, p) && IndexOf(p[level]).Some?
    ensures var w := WantsElement(p, false, buf, level);
            w.Some? && w.value >= 0 ==> w == Some(IndexOf(p[level]).value)
  {
    if level < |p| {
      if SameTree(p, buf[..level]) {
        forall k | 0 <= k < level ensures p[k] == buf[..level][k] {}
        assert p[..level] == buf[..level];
      }
      if OnPath(buf, level, p) {
        forall k | 0 <= k < level ensures p[k] == buf[..level][k] { assert p[..level][k] == p[k]; }
      }
    }
  }

  /** In an array: what the path is told is what it is told about the element it wants, and nothing without one. */
  lemma WishFor(p: Path, buf: seq<Bytes>, level: nat, v: JVal, a: Option<Told>)
    requires |p| <= |buf| && v.Node? && !v.obj && Awaits(buf, level, p, v, a)
    ensures var w := WantsElement(p, false, buf, level);
            if w.Some? && 0 <= w.value < |v.es| then
              level < |p| && DupFree(v) && a == Within(v.es[w.value].v, p[level + 1..])
            else a.None?
  {
    hide Within, WantsElement, DupFree;
    WishIs(p, buf, level);
    if OnPath(buf, level, p) {
      var rest := p[level..];
      assert rest[0] == p[level] && rest[1..] == p[level + 1..];
      if PlainPath(rest) && TellsAt(v, Locate(v, rest), a) { NotIndex(rest[0]); }
    }
  }

  /** The answer in an element: itself, or what is searched for in it. */
  lemma ElementAnswered(v: JVal, n: nat, p: Path, level: nat)
    requires Wf(v) && DupFree(v) && v.Node? && !v.obj && n < |v.es| && level <= |p|
    ensures ElementAnswer(p, level, ElementAt(0, v, n)) == Within(v.es[n].v, p[level..])
  {
    hide SearchKeysSpec, GetFrom, TypeOf, Print, SlotOf, OffOf, Seek;
    var e := v.es[n].v;
    var rest := p[level..];
    assert WfEntry(false, v.es[n]);
    if rest != [] && !e.Str? {
      var d := Doc([], e, []);
      DocIsRoot(d);
      SearchIsSeek(STRICT, d, rest);
      if Seek(e, rest).Some? { GetAtSlot(STRICT, d, Seek(e, rest).value); }
    }
  }

  lemma DocIsRoot(d: Doc)
    requires d.lead == [] && d.trail == []
    ensures PrintDoc(d) == Print(d.root)
  {
    hide Print;
    assert Print(d.root) + [] == Print(d.root);
  }

  lemma ArrayEvents(data: Bytes, i: nat, v: JVal)
    requires Wf(v) && v.Node? && !v.obj && At(data, i, Print(v))
    ensures i < |data| && data[i] == LBRACKET && 2 <= |Print(v)| && i + |Print(v)| <= |data|
    ensures EachRoot(STRICT, data[i..]) == Each(ElementsFrom(0, v, 0), |Print(v)| - 1, None)
    ensures BlockEndAt(STRICT, data, i, LBRACKET, RBRACKET) == i + |Print(v)| && data[i + |Print(v)| - 1] == RBRACKET
  {
    hide EachRoot, BlockEndAt, PrintEntries;
    NodeEnds(STRICT, data, i, v);
    NodeAt(data, i, v);
    AtSlide(data, i, Print(v));
    EachArray(STRICT, data[i..], v);
  }

  /** One array contributes to the path what it awaits there. */
  lemma ArrayTold(data: Bytes, paths: seq<Path>, pi: nat, st: EachState, v: JVal, a: Option<Told>)
    requires Wf(v) && v.Node? && !v.obj && At(data, st.i, Print(v))
    requires WfState(data, paths, st) && Unfound(paths, st, pi) && st.level >= 0 && Awaits(st.buf, st.level, paths[pi], v, a)
    ensures st.i < |data| && data[st.i] == LBRACKET
    ensures Only(ArrayRound(data, paths, st).calls, pi) == if a.Some? then [Telling(pi, a.value)] else []
  {
    hide Run, RoundAt, EachRoot, BlockEndAt, ElementAnswer, ArrayCalls, Print, OnPath, WantsElement, ElementAt, Locate,
         Wf, At, Awaits, Within, DupFree, Tells;
    ArrayEvents(data, st.i, v);
    WishFor(paths[pi], st.buf, st.level, v, a);
    var w := Wanted(paths, st.flags, st.buf, st.level);
    var wish := WantsElement(paths[pi], false, st.buf, st.level);
    assert w[pi] == wish && (wish.Some? ==> AnyWanted(w));
    var events := ElementsFrom(0, v, 0);
    ArrayOnly(paths, w, st.level + 1, events, 0, pi);
    if wish.Some? && 0 <= wish.value < |v.es| {
      assert events[wish.value] == ElementAt(0, v, 0 + wish.value);
      ElementAnswered(v, wish.value, paths[pi], st.level + 1);
    }
  }

  lemma ArrayHit(data: Bytes, paths: seq<Path>, pi: nat, st: EachState, v: JVal, a: Told)
    requires Wf(v) && v.Node? && !v.obj && At(data, st.i, Print(v))
    requires WfState(data, paths, st) && Unfound(paths, st, pi) && st.level >= 0 && Awaits(st.buf, st.level, paths[pi], v, Some(a))
    ensures Rest(data, paths, st, pi) == [Telling(pi, a)]
  {
    hide Run, RoundAt, ArrayRound, Print, Rest, Awaits, Wf, At;
    ArrayTold(data, paths, pi, st, v, Some(a));
    StepArray(data, paths, st);
    HitRound(data, paths, st, pi, Telling(pi, a));
  }

  /** An array that holds nothing for the path: the scan gets to its end, over its elements or past them. */
  lemma ArrayGoes(data: Bytes, paths: seq<Path>, pi: nat, st: EachState, v: JVal)
    requires Wf(v) && v.Node? && !v.obj && At(data, st.i, Print(v))
    requires WfState(data, paths, st) && Unfound(paths, st, pi) && st.level >= 0 && Awaits(st.buf, st.level, paths[pi], v, None)
    ensures st.i < |data| && data[st.i] == LBRACKET && 2 <= |Print(v)| && st.i + |Print(v)| <= |data|
    ensures data[st.i + |Print(v)| - 1] == RBRACKET
    ensures var round := ArrayRound(data, paths, st);
            && round.Go? && Only(round.calls, pi) == [] && round.next.buf == st.buf
            && ((round.next.i == st.i + |Print(v)| - 1 && round.next.level == st.level + 1)
                || (round.next.i == st.i + |Print(v)| && round.next.level == st.level))
  {
    hide Run, RoundAt, EachRoot, BlockEndAt, ArrayCalls, Print, OnPath, WantsElement, ElementAt, Locate, Wf, At, Awaits, AnyWanted,
         ArrayFlags;
    ArrayEvents(data, st.i, v);
    ArrayTold(data, paths, pi, st, v, None);
    var w := Wanted(paths, st.flags, st.buf, st.level);
    if AnyWanted(w) {
      WishesFit(paths, st.flags, st.buf, st.level);
      WishOnce(paths, st.flags, w, st.level + 1, ElementsFrom(0, v, 0), pi);
      var flags := ArrayFlags(paths, st.flags, w, st.level + 1, ElementsFrom(0, v, 0));
      NotAll(flags, pi);
    }
  }

  lemma ArrayPassed(data: Bytes, paths: seq<Path>, pi: nat, st: EachState, v: JVal) returns (st': EachState)
    requires Wf(v) && v.Node? && !v.obj && At(data, st.i, Print(v))
    requires WfState(data, paths, st) && Unfound(paths, st, pi) && st.level >= 0 && Awaits(st.buf, st.level, paths[pi], v, None)
    ensures Passes(data, paths, pi, st, st', |st.buf|)
    ensures st'.i == st.i + |Print(v)| && st'.level == st.level && st'.buf == st.buf
  {
    hide Run, RoundAt, ArrayRound, Print, Rest, Awaits, Wf;
    ArrayGoes(data, paths, pi, st, v);
    StepArray(data, paths, st);
    PassRound(data, paths, st, pi);
    st' := RoundAt(data, paths, st).next;
    if st'.i == st.i + |Print(v)| - 1 {
      var close := st';
      StepPlain(data, paths, close);
      PassRound(data, paths, close, pi);
      st' := RoundAt(data, paths, close).next;
    }
  }

  // ---- what a member awaits ----

  /** What the path is to be called back with among the members from k on. */
  ghost predicate AwaitsFrom(buf: seq<Bytes>, level: int, p: Path, v: JVal, k: nat, a: Option<Told>)
    requires v.Node? && k <= |v.es|
  {
    if OnPath(buf, level, p) then
      var rest := p[level..];
      (PlainPath(rest) && TellsAt(v, LocateMember(v.es, rest, k), a)) || (DupFree(v) && a == ReportedFrom(v.es, rest, k))
    else a.None?
  }

  lemma AwaitsFirst(buf: seq<Bytes>, level: int, p: Path, v: JVal, a: Option<Told>)
    requires v.Node? && v.obj && Awaits(buf, level, p, v, a)
    ensures AwaitsFrom(buf, level, p, v, 0, a)
  {
    hide DupFree;
  }

  /** The path ends at member k: that is what was awaited. */
  lemma EndsIsAwaited(buf: seq<Bytes>, level: nat, p: Path, v: JVal, k: nat, a: Option<Told>)
    requires v.Node? && v.obj && k < |v.es| && AwaitsFrom(buf, level, p, v, k, a) && Unescaped(STRICT, v.es[k].key).Some?
    requires EndsHere(buf, level + 1, p, Name(v.es[k]))
    ensures a == Some(Tells(v.es[k].v))
  {
    hide DupFree, Tells;
    var rest := p[level..];
    assert rest == [Name(v.es[k])] && rest[1..] == [];
    assert KeyIs(v.es[k], rest[0]);
    LocateNothing(v.es[k].v, rest[1..]);
    SubBelow(v, k, []);
    assert [k] + [] == [k];
    assert LocateMember(v.es, rest, k) == Some([k]);
    assert MemberNamed(v.es, rest[0], k) == Some(k);
  }

  /** What the value of member k awaits, and what is awaited behind it. */
  lemma MemberAwaits(buf: seq<Bytes>, level: nat, p: Path, v: JVal, k: nat, a: Option<Told>) returns (below: Option<Told>)
    requires v.Node? && v.obj && k < |v.es| && AwaitsFrom(buf, level, p, v, k, a) && Unescaped(STRICT, v.es[k].key).Some?
    requires |p| <= |buf| && !EndsHere(buf, level + 1, p, Name(v.es[k]))
    ensures Awaits(WithName(buf, level + 1, Name(v.es[k])), level + 1, p, v.es[k].v, below)
    ensures below.Some? ==> a == below
    ensures below.None? ==> AwaitsFrom(buf, level, p, v, k + 1, a)
  {
    hide Locate, WantsKey, Tells;
    var name := Name(v.es[k]);
    var buf' := WithName(buf, level + 1, name);
    if level + 1 <= |buf| { WantsIsOnPath(p, buf, level + 1, name); }
    below := None;
    if OnPath(buf, level, p) {
      var rest := p[level..];
      assert rest[0] == p[level] && rest[1..] == p[level + 1..];
      if name == p[level] {
        below := BelowAwaits(v, k, rest, a);
      }
    }
  }

  /** Member k has the next name on the way. */
  lemma BelowAwaits(v: JVal, k: nat, rest: Path, a: Option<Told>) returns (below: Option<Told>)
    requires v.Node? && v.obj && k < |v.es| && |rest| > 1 && KeyIs(v.es[k], rest[0])
    requires (PlainPath(rest) && TellsAt(v, LocateMember(v.es, rest, k), a)) || (DupFree(v) && a == ReportedFrom(v.es, rest, k))
    ensures Resolves(v.es[k].v, rest[1..], below)
    ensures below.Some? ==> a == below
    ensures below.None? ==>
              (PlainPath(rest) && TellsAt(v, LocateMember(v.es, rest, k + 1), a))
              || (DupFree(v) && a == ReportedFrom(v.es, rest, k + 1))
  {
    hide KeyIs, Tells;
    var e := v.es[k].v;
    if PlainPath(rest) && TellsAt(v, LocateMember(v.es, rest, k), a) {
      var l := Locate(e, rest[1..]);
      if l.Some? {
        LocateSound(e, rest[1..]);
        SubBelow(v, k, l.value);
        below := Some(Tells(Sub(e, l.value)));
      } else {
        below := None;
      }
    } else {
      below := Reported(e, rest[1..]);
      OneName(v, rest[0], k);
    }
  }

  // ---- the whole tree ----

  /** The scan of a value, from its first byte to the delimiter at q: the call awaited in it, or nothing for the path. */
  lemma {:induction false} SeesValue(data: Bytes, paths: seq<Path>, pi: nat, st: EachState, v: JVal, q: nat, a: Option<Told>)
    returns (st': EachState)
    requires Wf(v) && At(data, st.i, Print(v)) && Delimited(data, st.i + |Print(v)|, q)
    requires WfState(data, paths, st) && Unfound(paths, st, pi) && st.level >= 0 && Awaits(st.buf, st.level, paths[pi], v, a)
    ensures a.Some? ==> Rest(data, paths, st, pi) == [Telling(pi, a.value)]
    ensures a.None? ==> Passes(data, paths, pi, st, st', st.level) && st'.i == q && st'.level == st.level
    decreases v, 1, 0
  {
    hide Run, RoundAt, Rest, Print, PrintEntries, OnPath, StackFrom, BlockFrom, StrEndFrom, Content, TypeOf;
    if v.Node? {
      st' := SeesNode(data, paths, pi, st, v, a);
      if a.None? {
        var end := st';
        PassCalm(data, paths, end, pi, q);
        st' := end.(i := q);
        PassesOn(data, paths, pi, st, end, st', st.level, |st.buf|, st.level);
      }
    } else {
      ScalarAwaitsNothing(st.buf, st.level, paths[pi], v, a);
      st' := PassScalar(data, paths, pi, st, v, q);
    }
  }

  lemma ScalarAwaitsNothing(buf: seq<Bytes>, level: int, p: Path, v: JVal, a: Option<Told>)
    requires !v.Node? && Awaits(buf, level, p, v, a)
    ensures a.None?
  {
  }

  lemma PassScalar(data: Bytes, paths: seq<Path>, pi: nat, st: EachState, v: JVal, q: nat) returns (st': EachState)
    requires Wf(v) && !v.Node? && At(data, st.i, Print(v)) && Delimited(data, st.i + |Print(v)|, q)
    requires WfState(data, paths, st) && Unfound(paths, st, pi)
    ensures Passes(data, paths, pi, st, st', |st.buf|) && st'.i == q && st'.level == st.level
  {
    hide Run, RoundAt, Rest, StrEndFrom;
    match v
    case Prim(t) =>
      PrimAt(data, st.i, t);
      PassCalm(data, paths, st, pi, q);
      st' := st.(i := q);
    case Str(b) =>
      StrAt(data, st.i, b);
      DelimiterIsNext(data, st.i + |Print(v)|, q);
      StepString(data, paths, st);
      PassRound(data, paths, st, pi);
      st' := st.(i := q);
  }

  /** The scan of an object or array, from its opening to behind its closing bracket. */
  lemma {:induction false} SeesNode(data: Bytes, paths: seq<Path>, pi: nat, st: EachState, v: JVal, a: Option<Told>)
    returns (st': EachState)
    requires Wf(v) && v.Node? && At(data, st.i, Print(v))
    requires WfState(data, paths, st) && Unfound(paths, st, pi) && st.level >= 0 && Awaits(st.buf, st.level, paths[pi], v, a)
    ensures a.Some? ==> Rest(data, paths, st, pi) == [Telling(pi, a.value)]
    ensures a.None? ==> Passes(data, paths, pi, st, st', st.level) && st'.i == st.i + |Print(v)| && st'.level == st.level
    decreases v, 0, |v.es| + 2
  {
    hide Run, RoundAt, Rest, Print, PrintEntries, OnPath, Content, TypeOf, Awaits, Wf, OffOf;
    if !v.obj {
      if a.Some? { ArrayHit(data, paths, pi, st, v, a.value); st' := st; } else { st' := ArrayPassed(data, paths, pi, st, v); }
    } else {
      var inside := EntersObject(data, paths, pi, st, v);
      var close := SeesInside(data, paths, pi, inside, st.i, v, a);
      st' := close;
      if a.None? { st' := LeavesObject(data, paths, pi, inside, close, st.i, v); }
    }
  }

  lemma EntersObject(data: Bytes, paths: seq<Path>, pi: nat, st: EachState, v: JVal) returns (inside: EachState)
    requires v.Node? && v.obj && At(data, st.i, Print(v)) && WfState(data, paths, st) && Unfound(paths, st, pi)
    ensures Passes(data, paths, pi, st, inside, |st.buf|)
    ensures inside.i == st.i + 1 && inside.level == st.level + 1 && inside.buf == st.buf
  {
    hide Run, RoundAt, Rest, PrintEntries;
    NodeAt(data, st.i, v);
    StepPlain(data, paths, st);
    PassRound(data, paths, st, pi);
    inside := RoundAt(data, paths, st).next;
  }

  lemma LeavesObject(data: Bytes, paths: seq<Path>, pi: nat, inside: EachState, close: EachState, i: nat, v: JVal)
    returns (st': EachState)
    requires v.Node? && v.obj && At(data, i, Print(v)) && close.i == i + |Print(v)| - 1
    requires Passes(data, paths, pi, inside, close, inside.level - 1)
    ensures Passes(data, paths, pi, inside, st', inside.level - 1)
    ensures st'.i == i + |Print(v)| && st'.level == close.level - 1
  {
    hide Run, RoundAt, Rest, PrintEntries;
    NodeAt(data, i, v);
    StepPlain(data, paths, close);
    PassRound(data, paths, close, pi);
    st' := RoundAt(data, paths, close).next;
  }

  /** From behind an opening brace to the closing one. */
  lemma {:induction false} SeesInside(data: Bytes, paths: seq<Path>, pi: nat, st: EachState, i: nat, v: JVal, a: Option<Told>)
    returns (st': EachState)
    requires Wf(v) && v.Node? && v.obj && At(data, i, Print(v)) && st.i == i + 1
    requires WfState(data, paths, st) && Unfound(paths, st, pi) && st.level >= 1
    requires Awaits(st.buf, st.level - 1, paths[pi], v, a)
    ensures a.Some? ==> Rest(data, paths, st, pi) == [Telling(pi, a.value)]
    ensures a.None? ==>
              Passes(data, paths, pi, st, st', st.level - 1) && st'.i == i + |Print(v)| - 1 && st'.level == st.level
    decreases v, 0, |v.es| + 1
  {
    hide Run, RoundAt, Rest, Print, PrintEntries, OnPath, Content, TypeOf;
    AwaitsFirst(st.buf, st.level - 1, paths[pi], v, a);
    if v.es == [] {
      NodeAt(data, i, v);
      SpaceAt(data, i + 1, v.ews);
      PassCalm(data, paths, st, pi, i + 1 + |v.ews|);
      st' := st.(i := i + 1 + |v.ews|);
      EmptyAwaitsNothing(st.buf, st.level - 1, paths[pi], v, a);
    } else {
      EntryPosZero(v.obj, v.es);
      st' := SeesMembers(data, paths, pi, st, i, v, 0, a);
    }
  }

  lemma EmptyAwaitsNothing(buf: seq<Bytes>, level: int, p: Path, v: JVal, a: Option<Told>)
    requires v.Node? && v.obj && v.es == [] && AwaitsFrom(buf, level, p, v, 0, a)
    ensures a.None?
  {
  }

  /** The members from k on. */
  lemma {:induction false} SeesMembers(data: Bytes, paths: seq<Path>, pi: nat, st: EachState, i: nat, v: JVal, k: nat, a: Option<Told>)
    returns (st': EachState)
    requires Wf(v) && v.Node? && v.obj && At(data, i, Print(v)) && k < |v.es| && st.i == i + Start(v, k)
    requires WfState(data, paths, st) && Unfound(paths, st, pi) && st.level >= 1
    requires AwaitsFrom(st.buf, st.level - 1, paths[pi], v, k, a)
    ensures a.Some? ==> Rest(data, paths, st, pi) == [Telling(pi, a.value)]
    ensures a.None? ==>
              Passes(data, paths, pi, st, st', st.level - 1) && st'.i == i + |Print(v)| - 1 && st'.level == st.level
    decreases v, 0, |v.es| - k, 0
  {
    hide Run, RoundAt, Rest, Print, PrintEntry, PrintEntries, KeyPart, Start, OnPath, Content, TypeOf, EndsHere, WithName, AwaitsFrom,
         Awaits, Passes, At, Delimited;
    var e := v.es[k];
    var at := NameSeen(data, paths, pi, st, i, v, k);
    if EndsHere(st.buf, st.level, paths[pi], Name(e)) {
      EndsIsAwaited(st.buf, st.level - 1, paths[pi], v, k, a);
      st' := st;
    } else {
      var below := MemberAwaits(st.buf, st.level - 1, paths[pi], v, k, a);
      ChildAt(data, i, v, k);
      PassesMeans(data, paths, pi, st, at, st.level - 1);
      var next := SeesValue(data, paths, pi, at, e.v, i + End(v, k), below);
      if below.Some? {
        st' := st;
      } else {
        PassesMeans(data, paths, pi, at, next, at.level);
        st' := SeesLater(data, paths, pi, st, at, next, i, v, k, a);
      }
    }
  }

  lemma SubBelow(v: JVal, k: nat, l: Loc)
    requires v.Node? && k < |v.es| && ValidLoc(v.es[k].v, l)
    ensures ValidLoc(v, [k] + l) && Sub(v, [k] + l) == Sub(v.es[k].v, l)
  {
    assert ([k] + l)[1..] == l;
  }

  lemma PassesMeans(data: Bytes, paths: seq<Path>, pi: nat, st: EachState, st': EachState, n: int)
    requires Passes(data, paths, pi, st, st', n)
    ensures WfState(data, paths, st) && WfState(data, paths, st') && Unfound(paths, st', pi)
    ensures Rest(data, paths, st, pi) == Rest(data, paths, st', pi)
    ensures 0 <= n <= |st.buf| ==> st'.buf[..n] == st.buf[..n]
  {
    hide Rest;
  }

  /** Behind the value of member k: the closing brace, or a comma and the next member. */
  lemma {:induction false} SeesLater(data: Bytes, paths: seq<Path>, pi: nat, st: EachState, at: EachState, next: EachState, i: nat, v: JVal,
                                     k: nat, a: Option<Told>) returns (st': EachState)
    requires Wf(v) && v.Node? && v.obj && At(data, i, Print(v)) && k < |v.es|
    requires st.level >= 1 && at.level == next.level == st.level && next.i == i + End(v, k)
    requires Passes(data, paths, pi, st, at, st.level - 1) && Passes(data, paths, pi, at, next, st.level)
    requires AwaitsFrom(st.buf, st.level - 1, paths[pi], v, k + 1, a)
    ensures a.Some? ==> Rest(data, paths, st, pi) == [Telling(pi, a.value)]
    ensures a.None? ==>
              Passes(data, paths, pi, st, st', st.level - 1) && st'.i == i + |Print(v)| - 1 && st'.level == st.level
    decreases v, 0, |v.es| - k - 1, 1
  {
    hide Run, RoundAt, Rest, Print, PrintEntry, PrintEntries, KeyPart, Start, Content, TypeOf, At, Locate, AwaitsFrom, DupFree, Tells;
    ChildAt(data, i, v, k);
    PassesOn(data, paths, pi, st, at, next, st.level - 1, st.level, st.level - 1);
    st' := next;
    if k == |v.es| - 1 {
      NothingPastEnd(st.buf, st.level - 1, paths[pi], v, a);
    } else {
      PassCalm(data, paths, next, pi, next.i + 1);
      var first := next.(i := next.i + 1);
      PassesOn(data, paths, pi, st, next, first, st.level - 1, |st.buf|, st.level - 1);
      SameAwaits(st.buf, first.buf, st.level - 1, paths[pi], v, k + 1, a);
      st' := SeesMembers(data, paths, pi, first, i, v, k + 1, a);
      if a.None? { PassesOn(data, paths, pi, st, first, st', st.level - 1, st.level - 1, st.level - 1); }
    }
  }

  lemma NothingPastEnd(buf: seq<Bytes>, level: int, p: Path, v: JVal, a: Option<Told>)
    requires v.Node? && AwaitsFrom(buf, level, p, v, |v.es|, a)
    ensures a.None?
  {
  }

  /** Only the names on the way matter. */
  lemma SameAwaits(buf: seq<Bytes>, buf': seq<Bytes>, level: nat, p: Path, v: JVal, k: nat, a: Option<Told>)
    requires v.Node? && k <= |v.es| && |buf'| == |buf| && AwaitsFrom(buf, level, p, v, k, a)
    requires forall j :: 0 <= j < level && j < |buf| ==> buf'[j] == buf[j]
    ensures AwaitsFrom(buf', level, p, v, k, a)
  {
    hide LocateMember;
    if level <= |buf| { assert buf'[..level] == buf[..level]; }
  }

  // ---- documents ----

  lemma RootSeen(data: Bytes, paths: seq<Path>, pi: nat, d: Doc, a: Option<Told>)
    requires WfDoc(d) && data == PrintDoc(d) && pi < |paths|
    requires if paths[pi] == [] then a.None? else Resolves(d.root, paths[pi], a)
    ensures Only(EachKeySpec(data, paths).calls, pi) == if a.Some? then [Telling(pi, a.value)] else []
  {
    hide Run, RoundAt, Print, PrintDoc, Content, TypeOf, Locate, Resolves;
    DocAt(d);
    var st := Initial(paths);
    var i := |d.lead|;
    PassCalm(data, paths, st, pi, i);
    var at := st.(i := i);
    if paths[pi] != [] { assert paths[pi][0..] == paths[pi]; }
    assert Awaits(at.buf, 0, paths[pi], d.root, a);
    if d.root.Node? {
      var end := SeesNode(data, paths, pi, at, d.root, a);
      if a.None? { TrailSeen(data, paths, pi, end); }
    } else {
      ScalarAwaitsNothing(at.buf, 0, paths[pi], d.root, a);
      ScalarRoot(data, paths, pi, at, d.root);
    }
  }

  lemma TrailSeen(data: Bytes, paths: seq<Path>, pi: nat, st: EachState)
    requires WfState(data, paths, st) && Unfound(paths, st, pi) && SpaceRun(data, st.i, |data|)
    ensures Rest(data, paths, st, pi) == []
  {
    hide Run, RoundAt;
    PassCalm(data, paths, st, pi, |data|);
    RunEnd(data, paths, st.(i := |data|));
  }

  lemma ScalarRoot(data: Bytes, paths: seq<Path>, pi: nat, st: EachState, v: JVal)
    requires Wf(v) && !v.Node? && At(data, st.i, Print(v)) && SpaceRun(data, st.i + |Print(v)|, |data|)
    requires WfState(data, paths, st) && Unfound(paths, st, pi)
    ensures Rest(data, paths, st, pi) == []
  {
    hide Run, RoundAt, Rest, StrEndFrom;
    match v
    case Prim(t) =>
      PrimAt(data, st.i, t);
      PassCalm(data, paths, st, pi, st.i + |t|);
      TrailSeen(data, paths, pi, st.(i := st.i + |t|));
    case Str(b) =>
      StrAt(data, st.i, b);
      NextTokSkips(data, st.i + |Print(v)|, |data|);
      StepString(data, paths, st);
      LastRound(data, paths, pi, st);
  }

  lemma LastRound(data: Bytes, paths: seq<Path>, pi: nat, st: EachState)
    requires WfState(data, paths, st) && st.i < |data| && RoundAt(data, paths, st) == Halt([], -1)
    ensures Rest(data, paths, st, pi) == []
  {
    hide RoundAt;
    RunOnly(data, paths, st, pi);
  }

  /**
   * For every path on every document without duplicate names, whatever the other paths are: exactly the callback that
   * Reported says, or none. An empty path is never called back.
   */
  lemma EachKeyReports(d: Doc, paths: seq<Path>, pi: nat)
    requires WfDoc(d) && DupFree(d.root) && pi < |paths|
    ensures var calls := Only(EachKeySpec(PrintDoc(d), paths).calls, pi);
            var a := if paths[pi] == [] then None else Reported(d.root, paths[pi]);
            calls == if a.Some? then [Telling(pi, a.value)] else []
  {
    hide Run, PrintDoc, EachKeySpec, DupFree, Reported;
    RootSeen(PrintDoc(d), paths, pi, d, if paths[pi] == [] then None else Reported(d.root, paths[pi]));
  }

  /**
   * What EachKey finds of a path that has no value: behind the first index the search of the element strays, or the element is
   * a string and the search finds something in its bytes.
   */
  predicate EachStrays(v: JVal, p: Path)
    decreases |p|
  {
    |p| > 1 && v.Node?
    && if v.obj then
         match MemberNamed(v.es, p[0], 0)
         case None => false
         case Some(k) => EachStrays(v.es[k].v, p[1..])
       else
         match IndexOf(p[0])
         case None => false
         case Some(n) =>
           n < |v.es|
           && var e := v.es[n].v; if e.Str? then SearchKeysSpec(STRICT, e.body, p[1..]) != -1 else Strays(e, p[1..])
  }

  /** A path that resolves is reported with its value, one that does not exactly when EachKey strays with it. */
  lemma {:induction false} ReportedIsLocated(v: JVal, p: Path)
    requires DupFree(v) && p != []
    ensures TellsAt(v, Locate(v, p), Reported(v, p)) || (Locate(v, p).None? && EachStrays(v, p))
    ensures EachStrays(v, p) ==> Locate(v, p).None? && Reported(v, p).Some?
    decreases |p|
  {
    hide KeyIs, Tells, Unescaped, IndexOf, SearchKeysSpec;
    LocateSound(v, p);
    if v.Node? {
      if v.obj {
        LocateNamed(v.es, p, 0);
        if MemberNamed(v.es, p[0], 0).Some? { ReportedBelow(v, p); }
      } else if IndexOf(p[0]).Some? && IndexOf(p[0]).value < |v.es| {
        var n := IndexOf(p[0]).value;
        WithinIsLocated(v.es[n].v, p[1..]);
        Through(v, n, p[1..], Within(v.es[n].v, p[1..]));
      }
    }
  }

  /** The member that has the next name. */
  lemma {:induction false} ReportedBelow(v: JVal, p: Path)
    requires DupFree(v) && v.Node? && v.obj && p != [] && MemberNamed(v.es, p[0], 0).Some?
    requires Locate(v, p) == Under(MemberNamed(v.es, p[0], 0).value, Locate(v.es[MemberNamed(v.es, p[0], 0).value].v, p[1..]))
    ensures TellsAt(v, Locate(v, p), Reported(v, p)) || (Locate(v, p).None? && EachStrays(v, p))
    ensures EachStrays(v, p) ==> Locate(v, p).None? && Reported(v, p).Some?
    decreases |p|, 0
  {
    hide KeyIs, Tells, IndexOf, SearchKeysSpec, Within;
    var k := MemberNamed(v.es, p[0], 0).value;
    if |p| == 1 {
      LocateNothing(v.es[k].v, p[1..]);
      Through(v, k, [], Some(Tells(v.es[k].v)));
    } else {
      ReportedIsLocated(v.es[k].v, p[1..]);
      Through(v, k, p[1..], Reported(v.es[k].v, p[1..]));
    }
  }

  /** What is told below entry k is told from above. */
  lemma Through(v: JVal, k: nat, rest: Path, a: Option<Told>)
    requires v.Node? && k < |v.es|
    ensures TellsAt(v.es[k].v, Locate(v.es[k].v, rest), a) ==> TellsAt(v, Under(k, Locate(v.es[k].v, rest)), a)
  {
    hide Tells, Locate;
    var l := Locate(v.es[k].v, rest);
    if l.Some? && ValidLoc(v.es[k].v, l.value) { SubBelow(v, k, l.value); }
  }

  lemma WithinIsLocated(e: JVal, rest: Path)
    requires DupFree(e)
    ensures var strays := rest != [] && if e.Str? then SearchKeysSpec(STRICT, e.body, rest) != -1 else Strays(e, rest);
            && (strays ==> Locate(e, rest).None? && Within(e, rest).Some?)
            && (!strays ==> TellsAt(e, Locate(e, rest), Within(e, rest)))
  {
    hide Tells, Seek, Strays, SearchKeysSpec, GetFrom;
    if rest == [] {
      LocateNothing(e, rest);
    } else {
      LocateSound(e, rest);
      SeekIsLocate(e, rest);
    }
  }

  /**
   * A path that has no value gets no callback if and only if neither its search strays nor the bytes of a string are
   * searched with success; an index past the end is such a path.
   */
  lemma EachKeyMisses(d: Doc, paths: seq<Path>, pi: nat)
    requires WfDoc(d) && DupFree(d.root) && pi < |paths| && paths[pi] != [] && Locate(d.root, paths[pi]).None?
    ensures Only(EachKeySpec(PrintDoc(d), paths).calls, pi) == [] <==> !EachStrays(d.root, paths[pi])
  {
    hide Run, PrintDoc, EachKeySpec, DupFree, Reported, EachStrays, Locate;
    EachKeyReports(d, paths, pi);
    ReportedIsLocated(d.root, paths[pi]);
  }

  /** Get's results as a callback for path pi. */
  function GetCall(pi: nat, g: Got): Call {
    Call(pi, g.value, g.t, g.err)
  }

  /**
   * In a document without duplicate names every path that resolves gets exactly one callback, carrying the value and
   * type Get returns for it, whatever the other paths are and however they overlap.
   */
  lemma EachKeyFinds(d: Doc, paths: seq<Path>, pi: nat)
    requires WfDoc(d) && DupFree(d.root) && pi < |paths| && paths[pi] != [] && Locate(d.root, paths[pi]).Some?
    ensures var data := PrintDoc(d);
            var g := GetSpec(STRICT, data, paths[pi]);
            g.err.None? && Only(EachKeySpec(data, paths).calls, pi) == [GetCall(pi, g)]
  {
    hide Run, Print, PrintDoc, GetSpec, EachKeySpec, Content, TypeOf, Leads, OffOf, DupFree, Reported, EachStrays;
    DupFreeLeads(d.root, paths[pi]);
    EachKeyReports(d, paths, pi);
    ReportedIsLocated(d.root, paths[pi]);
    GetFindsLeading(STRICT, d, paths[pi], LocOf(d.root, paths[pi]));
  }

  /** For a path of plain keys, duplicates allowed: a callback exactly when Get finds it, with Get's value and type. */
  lemma EachKeyIsGet(d: Doc, paths: seq<Path>, pi: nat)
    requires WfDoc(d) && pi < |paths| && paths[pi] != [] && PlainPath(paths[pi])
    ensures var data := PrintDoc(d);
            var g := GetSpec(STRICT, data, paths[pi]);
            Only(EachKeySpec(data, paths).calls, pi) == if g == NOT_FOUND then [] else [GetCall(pi, g)]
  {
    hide Run, Print, PrintDoc, GetSpec, EachKeySpec, Content, TypeOf, OffOf;
    LocateSound(d.root, paths[pi]);
    var l := Locate(d.root, paths[pi]);
    RootSeen(PrintDoc(d), paths, pi, d, if l.Some? then Some(Tells(Sub(d.root, l.value))) else None);
    GetIsTreeLookup(STRICT, d, paths[pi]);
  }

  // ---- the result ----

  /** What a round that ends the scan says about the paths. */
  predicate EndsWell(data: Bytes, paths: seq<Path>, flags: seq<bool>, round: Round)
    requires |flags| == |paths| && (round.Go? ==> |round.next.flags| == |paths|)
  {
    match round
    case Go(_, next) => !AllTrue(next.flags)
    case Halt(calls, ret) =>
      && (ret == -1 || (0 <= ret < |data| && (data[ret] == COLON || data[ret] == LBRACKET)))
      && (ret != -1 <==> forall pi :: 0 <= pi < |paths| ==> flags[pi] || Only(calls, pi) != [])
  }

  lemma EndsUncalled(paths: seq<Path>, flags: seq<bool>, calls: seq<Call>)
    requires |flags| == |paths| && !AllTrue(flags) && (calls == [] || calls == [MALFORMED])
    ensures exists pi :: 0 <= pi < |paths| && !flags[pi] && Only(calls, pi) == []
  {
    var pi :| 0 <= pi < |flags| && !flags[pi];
    OnlyOne(MALFORMED, pi);
  }

  lemma FlagsEnd(paths: seq<Path>, flags: seq<bool>, now: seq<bool>, calls: seq<Call>)
    requires |flags| == |paths| == |now| && forall pi :: 0 <= pi < |paths| ==> now[pi] == (flags[pi] || Only(calls, pi) != [])
    ensures AllTrue(now) <==> forall pi :: 0 <= pi < |paths| ==> flags[pi] || Only(calls, pi) != []
  {
  }

  lemma KeyEnds(data: Bytes, paths: seq<Path>, st: EachState, key: Bytes, n: nat)
    requires WfState(data, paths, st) && 0 < n < |data| && data[n] == COLON && !AllTrue(st.flags)
    ensures EndsWell(data, paths, st.flags, KeyRound(data, paths, st, key, n))
  {
    hide GetFrom, KeyCalls, AfterKey, KeyFlags, AllTrue, Only;
    EndsUncalled(paths, st.flags, [MALFORMED]);
    if 1 <= st.level <= |st.buf| {
      var buf := st.buf[st.level - 1 := key];
      var g := GetFrom(STRICT, data, n + 1);
      var flags := KeyFlags(paths, st.flags, buf, st.level);
      forall pi | 0 <= pi < |paths| ensures flags[pi] == (st.flags[pi] || Only(KeyCalls(paths, st.flags, buf, st.level, g, 0), pi) != []) {
        KeyOnly(paths, st.flags, buf, st.level, g, 0, pi);
        KeyFlagAt(paths, st.flags, buf, st.level, pi);
      }
      FlagsEnd(paths, st.flags, flags, KeyCalls(paths, st.flags, buf, st.level, g, 0));
    }
  }

  lemma KeyFlagAt(paths: seq<Path>, flags: seq<bool>, buf: seq<Bytes>, level: nat, k: nat)
    requires |flags| == |paths| && 1 <= level <= |buf| && k < |paths|
    ensures KeyFlags(paths, flags, buf, level)[k] == (flags[k] || WantsKey(paths[k], flags[k], buf, level))
  {
    hide WantsKey;
  }

  lemma ArrayEnds(data: Bytes, paths: seq<Path>, st: EachState)
    requires WfState(data, paths, st) && st.i < |data| && data[st.i] == LBRACKET && !AllTrue(st.flags)
    ensures EndsWell(data, paths, st.flags, ArrayRound(data, paths, st))
  {
    hide EachRoot, BlockEndAt, ArrayCalls, ArrayFlags, Wanted, AllTrue, AnyWanted, Only;
    EndsUncalled(paths, st.flags, [MALFORMED]);
    EndsUncalled(paths, st.flags, []);
    if st.level >= 0 {
      var w := Wanted(paths, st.flags, st.buf, st.level);
      var events := EachRoot(STRICT, data[st.i..]).events;
      WishesFit(paths, st.flags, st.buf, st.level);
      var flags := ArrayFlags(paths, st.flags, w, st.level + 1, events);
      forall pi | 0 <= pi < |paths| ensures flags[pi] == (st.flags[pi] || Only(ArrayCalls(paths, w, st.level + 1, events, 0), pi) != []) {
        WishOnce(paths, st.flags, w, st.level + 1, events, pi);
      }
      FlagsEnd(paths, st.flags, flags, ArrayCalls(paths, w, st.level + 1, events, 0));
    }
  }

  /** A round ends the scan with an offset exactly when every path is called back by then. */
  lemma RoundEnds(data: Bytes, paths: seq<Path>, st: EachState)
    requires WfState(data, paths, st) && st.i < |data| && !AllTrue(st.flags)
    ensures EndsWell(data, paths, st.flags, RoundAt(data, paths, st))
  {
    hide KeyScanAt, KeyRound, ArrayRound, RoundAt, AllTrue, Only;
    if data[st.i] == QUOTE {
      StepString(data, paths, st);
      EndsUncalled(paths, st.flags, []);
      var scan := KeyScanAt(STRICT, data, st.i);
      if scan.KeyAt? {
        ScannedColon(data, st.i);
        KeyEnds(data, paths, st, scan.name, scan.colon);
      }
    } else if data[st.i] == LBRACKET {
      StepArray(data, paths, st);
      ArrayEnds(data, paths, st);
    } else {
      StepPlain(data, paths, st);
    }
  }

  /** The scan returns an offset exactly when the last open path has been called back; a colon or an array is there. */
  lemma {:induction false} RunReturns(data: Bytes, paths: seq<Path>, st: EachState)
    requires WfState(data, paths, st) && !AllTrue(st.flags)
    ensures var r := Run(data, paths, st);
            && (r.ret == -1 || (0 <= r.ret < |data| && (data[r.ret] == COLON || data[r.ret] == LBRACKET)))
            && (r.ret != -1 <==> forall pi :: 0 <= pi < |paths| ==> st.flags[pi] || Only(r.calls, pi) != [])
    decreases |data| - st.i
  {
    hide RoundAt, Run, AllTrue, Only;
    if st.i == |data| {
      RunEnd(data, paths, st);
      EndsUncalled(paths, st.flags, []);
    } else {
      var round := RoundAt(data, paths, st);
      RunStep(data, paths, st, []);
      RoundEnds(data, paths, st);
      var r := Run(data, paths, st);
      if round.Go? { RunReturns(data, paths, round.next); }
      forall pi | 0 <= pi < |paths|
        ensures st.flags[pi] || Only(r.calls, pi) != []
           <==> if round.Go? then round.next.flags[pi] || Only(Run(data, paths, round.next).calls, pi) != []
                else st.flags[pi] || Only(round.calls, pi) != []
      {
        RoundOnly(data, paths, st, pi);
        RunOnly(data, paths, st, pi);
      }
    }
  }

  /**
   * On any bytes: EachKey returns an offset if and only if every path has been called back, and then the byte there is the colon
   * of a member or the bracket of an array; otherwise it returns -1.
   */
  lemma EachKeyReturns(data: Bytes, paths: seq<Path>)
    requires paths != []
    ensures var r := EachKeySpec(data, paths);
            && (r.ret == -1 || (0 <= r.ret < |data| && (data[r.ret] == COLON || data[r.ret] == LBRACKET)))
            && (r.ret != -1 <==> forall pi :: 0 <= pi < |paths| ==> |Only(r.calls, pi)| == 1)
  {
    hide Run;
    assert !Initial(paths).flags[0];
    RunReturns(data, paths, Initial(paths));
    forall pi | 0 <= pi < |paths| { NoPathTwice(data, paths, pi); }
  }

  // ---- the order of the callbacks ----

  /** Every callback is for an earlier element than the next, or for the same element and an earlier path. */
  predicate Ascends(rank: seq<(int, int)>) {
    forall j, k :: 0 <= j < k < |rank| ==> rank[j].0 < rank[k].0 || (rank[j].0 == rank[k].0 && rank[j].1 < rank[k].1)
  }

  /** The element that a callback is for, by the wish of its path, and the number of the path. */
  function Ranks(w: seq<Option<int>>, calls: seq<Call>): (r: seq<(int, int)>)
    ensures |r| == |calls|
  {
    seq(|calls|, k requires 0 <= k < |calls| =>
      var pi := calls[k].path; (if 0 <= pi < |w| && w[pi].Some? then w[pi].value else -1, pi))
  }

  predicate From(rank: seq<(int, int)>, cur: int, pi: int) {
    forall k :: 0 <= k < |rank| ==> rank[k].0 > cur || (rank[k].0 == cur && rank[k].1 >= pi)
  }

  lemma RanksConcat(w: seq<Option<int>>, a: seq<Call>, b: seq<Call>)
    ensures Ranks(w, a + b) == Ranks(w, a) + Ranks(w, b)
  {
  }

  lemma AscendsConcat(a: seq<(int, int)>, b: seq<(int, int)>, cur: int, pi: int)
    requires Ascends(a) && Ascends(b) && From(b, cur, pi)
    requires forall k :: 0 <= k < |a| ==> a[k].0 < cur || (a[k].0 == cur && a[k].1 < pi)
    ensures Ascends(a + b)
  {
  }

  /** At one key the paths are called back in the order in which they were given. */
  lemma {:induction false} KeyCallsAscend(paths: seq<Path>, flags: seq<bool>, buf: seq<Bytes>, level: nat, g: Got, from: nat)
    requires |flags| == |paths| && 1 <= level <= |buf| && from <= |paths|
    ensures var r := Ranks([], KeyCalls(paths, flags, buf, level, g, from)); Ascends(r) && From(r, -1, from)
    decreases |paths| - from
  {
    hide WantsKey, Ascends;
    if from < |paths| {
      var rest := KeyCalls(paths, flags, buf, level, g, from + 1);
      KeyCallsAscend(paths, flags, buf, level, g, from + 1);
      var c := [Call(from, g.value, g.t, g.err)];
      OneRank([], c[0]);
      RanksConcat([], c, rest);
      AscendsConcat(Ranks([], c), Ranks([], rest), -1, from + 1);
    } else {
      NoRanks([]);
    }
  }

  lemma NoRanks(w: seq<Option<int>>)
    ensures Ranks(w, []) == [] && Ascends([])
  {
  }

  lemma OneRank(w: seq<Option<int>>, c: Call)
    ensures Ranks(w, [c]) == [(if 0 <= c.path < |w| && w[c.path].Some? then w[c.path].value else -1, c.path)]
    ensures Ascends(Ranks(w, [c]))
  {
  }

  lemma {:induction false} ElementCallsAscend(paths: seq<Path>, w: seq<Option<int>>, level: nat, ev: Event, cur: nat, from: nat)
    requires |w| == |paths| && from <= |paths|
    ensures var r := Ranks(w, ElementCalls(paths, w, level, ev, cur, from));
            Ascends(r) && From(r, cur, from) && forall k :: 0 <= k < |r| ==> r[k].0 == cur && r[k].1 < |paths|
    decreases |paths| - from
  {
    hide ElementAnswer, Ascends;
    if from < |paths| {
      var rest := ElementCalls(paths, w, level, ev, cur, from + 1);
      ElementCallsAscend(paths, w, level, ev, cur, from + 1);
      if Answers(paths, w, level, ev, cur, from) {
        var c := AnswerCall(paths, level, ev, from);
        OneRank(w, c[0]);
        RanksConcat(w, c, rest);
        AscendsConcat(Ranks(w, c), Ranks(w, rest), cur, from + 1);
      }
    } else {
      NoRanks(w);
    }
  }

  /** In an array the callbacks go from element to element, and at each element the paths take their turn in order. */
  lemma {:induction false} ArrayCallsAscend(paths: seq<Path>, w: seq<Option<int>>, level: nat, events: seq<Event>, cur: nat)
    requires |w| == |paths| && cur <= |events|
    ensures var r := Ranks(w, ArrayCalls(paths, w, level, events, cur)); Ascends(r) && From(r, cur, 0)
    decreases |events| - cur
  {
    hide ElementCalls, Ascends;
    if cur < |events| {
      var here, rest := ElementCalls(paths, w, level, events[cur], cur, 0), ArrayCalls(paths, w, level, events, cur + 1);
      ElementCallsAscend(paths, w, level, events[cur], cur, 0);
      ArrayCallsAscend(paths, w, level, events, cur + 1);
      RanksConcat(w, here, rest);
      AscendsConcat(Ranks(w, here), Ranks(w, rest), cur + 1, 0);
    } else {
      NoRanks(w);
    }
  }
}
