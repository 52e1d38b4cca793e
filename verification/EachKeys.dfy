/** parser.go: EachKey, which looks for many paths in one scan. */
module EachKeys {
  import opened Bytes
  import opened Scanners
  import opened Syntax
  import opened Lookup

  /** One callback; path is -1 for a malformed document. */
  datatype Call = Call(path: int, value: Bytes, t: ValueType, err: Option<Error>)

  /** The scan between two tokens: buf holds the names on the way to the current one, flags the paths already found. */
  datatype EachState = EachState(i: nat, level: int, buf: seq<Bytes>, flags: seq<bool>)

  /** One round of the scan: the callbacks made, then the end with its result or the next state. */
  datatype Round = Halt(calls: seq<Call>, ret: int) | Go(calls: seq<Call>, next: EachState)

  /** A whole scan: the callbacks in order and the integer returned. */
  datatype Ran = Ran(calls: seq<Call>, ret: int)

  const MALFORMED: Call := Call(-1, [], Unknown, Some(MalformedJson))

  function MaxLen(paths: seq<Path>): (n: nat)
    ensures forall k :: 0 <= k < |paths| ==> |paths[k]| <= n
  {
    if paths == [] then 0
    else
      var m := MaxLen(paths[1..]);
      assert forall k :: 1 <= k < |paths| ==> paths[k] == paths[1..][k - 1];
      if |paths[0]| > m then |paths[0]| else m
  }

  predicate AllTrue(flags: seq<bool>) {
    forall k :: 0 <= k < |flags| ==> flags[k]
  }

  function Count(flags: seq<bool>): (n: nat)
    ensures n <= |flags|
  {
    if flags == [] then 0 else (if flags[0] then 1 else 0) + Count(flags[1..])
  }

  lemma {:induction false} CountAll(flags: seq<bool>)
    ensures Count(flags) == |flags| <==> AllTrue(flags)
  {
    if flags != [] {
      CountAll(flags[1..]);
      assert AllTrue(flags) <==> flags[0] && AllTrue(flags[1..]) by {
        if flags[0] && AllTrue(flags[1..]) {
          forall k | 0 <= k < |flags| ensures flags[k] { if k > 0 { assert flags[1..][k - 1]; } }
        }
      }
    }
  }

  lemma {:induction false} CountSet(flags: seq<bool>, k: nat)
    requires k < |flags| && !flags[k]
    ensures Count(flags[k := true]) == Count(flags) + 1
  {
    if k > 0 {
      CountSet(flags[1..], k - 1);
      assert flags[k := true][1..] == flags[1..][k - 1 := true];
    } else {
      assert flags[0 := true][1..] == flags[1..];
    }
  }

  lemma {:induction false} CountNone(n: nat)
    ensures Count(seq(n, _ => false)) == 0
  {
    if n > 0 {
      CountNone(n - 1);
      assert seq(n, _ => false)[1..] == seq(n - 1, _ => false);
    }
  }

  /** The shorter of the two lists is a prefix of the other. */
  predicate SameTree(a: Path, b: Path) {
    forall k :: 0 <= k < |a| && k < |b| ==> a[k] == b[k]
  }

  // ---- keys ----

  /** Path p ends at the key just read at this level. */
  predicate WantsKey(p: Path, flag: bool, buf: seq<Bytes>, level: nat)
    requires 1 <= level <= |buf|
  {
    |p| == level && !flag && buf[level - 1] == p[level - 1] && SameTree(p, buf[..level])
  }

  /** The callbacks for a key, from path number pi on. */
  function KeyCalls(paths: seq<Path>, flags: seq<bool>, buf: seq<Bytes>, level: nat, g: Got, pi: nat): (calls: seq<Call>)
    requires |flags| == |paths| && 1 <= level <= |buf| && pi <= |paths|
    decreases |paths| - pi
  {
    if pi == |paths| then []
    else if WantsKey(paths[pi], flags[pi], buf, level) then
      [Call(pi, g.value, g.t, g.err)] + KeyCalls(paths, flags, buf, level, g, pi + 1)
    else KeyCalls(paths, flags, buf, level, g, pi + 1)
  }

  function KeyFlags(paths: seq<Path>, flags: seq<bool>, buf: seq<Bytes>, level: nat): (r: seq<bool>)
    requires |flags| == |paths| && 1 <= level <= |buf|
    ensures |r| == |paths|
  {
    seq(|paths|, k requires 0 <= k < |paths| => flags[k] || WantsKey(paths[k], flags[k], buf, level))
  }

  /** Where the scan goes on behind a key whose colon is at n. With nothing behind the colon it steps back. */
  function AfterKey(data: Bytes, n: nat, matched: bool): (r: nat)
    requires 0 < n < |data|
    ensures n - 1 <= r <= |data|
  {
    if matched then n + 1
    else
      var t := NextTok(data, n + 1);
      if t != -1 then t
      else if data[n - 1] == LBRACE || data[n - 1] == RBRACE || data[n - 1] == LBRACKET || data[n - 1] == QUOTE then n - 1
      else n
  }

  function KeyRound(data: Bytes, paths: seq<Path>, st: EachState, key: Bytes, n: nat): (r: Round)
    requires |st.flags| == |paths| && 0 < n < |data|
    ensures r.Go? ==> n - 1 <= r.next.i <= |data| && |r.next.flags| == |paths| && |r.next.buf| == |st.buf|
  {
    if |st.buf| < st.level then Go([], st.(i := AfterKey(data, n, false)))
    else if st.level < 1 then Halt([MALFORMED], -1)
    else
      var buf := st.buf[st.level - 1 := key];
      var calls := KeyCalls(paths, st.flags, buf, st.level, GetFrom(STRICT, data, n + 1), 0);
      var flags := KeyFlags(paths, st.flags, buf, st.level);
      if AllTrue(flags) then Halt(calls, n)
      else Go(calls, EachState(AfterKey(data, n, calls != []), st.level, buf, flags))
  }

  function StringRound(data: Bytes, paths: seq<Path>, st: EachState): (r: Round)
    requires |st.flags| == |paths| && st.i < |data|
    ensures r.Go? ==> st.i < r.next.i <= |data| && |r.next.flags| == |paths| && |r.next.buf| == |st.buf|
  {
    KeyBehindQuote(data, st.i);
    match KeyScanAt(STRICT, data, st.i)
    case Stop => Halt([], -1)
    case NotKey(n) => Go([], st.(i := n))
    case KeyAt(key, n) => KeyRound(data, paths, st, key, n)
  }

  /** A colon lies at least two bytes behind the opening quote of its key. */
  lemma KeyBehindQuote(data: Bytes, i: nat)
    requires i < |data|
    ensures KeyScanAt(STRICT, data, i).KeyAt? ==> i + 1 < KeyScanAt(STRICT, data, i).colon
  {
  }

  // ---- arrays ----

  /** The element number path p asks for in an array at this level. */
  function WantsElement(p: Path, flag: bool, buf: seq<Bytes>, level: nat): Option<int>
    requires |p| <= |buf|
  {
    if |p| < level + 1 || flag || !IsIndexKey(p[level]) || !SameTree(p, buf[..level]) then None
    else if |p[level]| < 3 || p[level][|p[level]| - 1] != RBRACKET then None
    else Atoi(p[level][1..|p[level]| - 1])
  }

  /** The wishes of all paths at an array. */
  function Wanted(paths: seq<Path>, flags: seq<bool>, buf: seq<Bytes>, level: nat): (w: seq<Option<int>>)
    requires |flags| == |paths| && |buf| == MaxLen(paths)
    ensures |w| == |paths|
  {
    seq(|paths|, k requires 0 <= k < |paths| => WantsElement(paths[k], flags[k], buf, level))
  }

  predicate AnyWanted(w: seq<Option<int>>) {
    exists k :: 0 <= k < |w| && w[k].Some?
  }

  /** What an element contributes to path p, of which the first level components are spent. */
  function ElementAnswer(p: Path, level: nat, ev: Event): Option<(Bytes, ValueType, Option<Error>)>
    requires level <= |p|
  {
    if level == |p| then Some((ev.value, ev.t, ev.err))
    else
      var of := SearchKeysSpec(STRICT, ev.value, p[level..]);
      if of == -1 then None
      else
        var g := GetFrom(STRICT, ev.value, of);
        Some((g.value, g.t, g.err))
  }

  predicate Answers(paths: seq<Path>, w: seq<Option<int>>, level: nat, ev: Event, cur: nat, pi: nat)
    requires |w| == |paths| && pi < |paths|
  {
    w[pi] == Some(cur) && level <= |paths[pi]| && ElementAnswer(paths[pi], level, ev).Some?
  }

  /** The callbacks for element number cur, from path number pi on. */
  function ElementCalls(paths: seq<Path>, w: seq<Option<int>>, level: nat, ev: Event, cur: nat, pi: nat): seq<Call>
    requires |w| == |paths| && pi <= |paths|
    decreases |paths| - pi
  {
    if pi == |paths| then []
    else if Answers(paths, w, level, ev, cur, pi) then
      var (value, t, err) := ElementAnswer(paths[pi], level, ev).value;
      [Call(pi, value, t, err)] + ElementCalls(paths, w, level, ev, cur, pi + 1)
    else ElementCalls(paths, w, level, ev, cur, pi + 1)
  }

  /** The callbacks for the elements from number cur on. */
  function ArrayCalls(paths: seq<Path>, w: seq<Option<int>>, level: nat, events: seq<Event>, cur: nat): seq<Call>
    requires |w| == |paths| && cur <= |events|
    decreases |events| - cur
  {
    if cur == |events| then []
    else ElementCalls(paths, w, level, events[cur], cur, 0) + ArrayCalls(paths, w, level, events, cur + 1)
  }

  predicate ArrayAnswers(paths: seq<Path>, w: seq<Option<int>>, level: nat, events: seq<Event>, pi: nat)
    requires |w| == |paths| && pi < |paths|
  {
    w[pi].Some? && 0 <= w[pi].value < |events| && Answers(paths, w, level, events[w[pi].value], w[pi].value, pi)
  }

  function ArrayFlags(paths: seq<Path>, flags: seq<bool>, w: seq<Option<int>>, level: nat, events: seq<Event>): (r: seq<bool>)
    requires |w| == |paths| && |flags| == |paths|
    ensures |r| == |paths|
  {
    seq(|paths|, k requires 0 <= k < |paths| => flags[k] || ArrayAnswers(paths, w, level, events, k))
  }

  function ArrayRound(data: Bytes, paths: seq<Path>, st: EachState): (r: Round)
    requires |st.flags| == |paths| && st.i < |data| && data[st.i] == LBRACKET && |st.buf| == MaxLen(paths)
    ensures r.Go? ==> st.i < r.next.i <= |data| && |r.next.flags| == |paths| && |r.next.buf| == |st.buf|
  {
    if st.level < 0 then Halt([MALFORMED], -1)
    else
      var w := Wanted(paths, st.flags, st.buf, st.level);
      if AnyWanted(w) then
        EachOffset(data[st.i..]);
        var each := EachRoot(STRICT, data[st.i..]);
        var calls := ArrayCalls(paths, w, st.level + 1, each.events, 0);
        var flags := ArrayFlags(paths, st.flags, w, st.level + 1, each.events);
        if AllTrue(flags) then Halt(calls, st.i)
        else Go(calls, EachState(st.i + each.off, st.level + 1, st.buf, flags))
      else
        var end := BlockEndAt(STRICT, data, st.i, LBRACKET, RBRACKET);
        if end == -1 then Halt([], -1) else Go([], st.(i := end))
  }

  lemma EachOffset(arr: Bytes)
    requires arr != [] && arr[0] == LBRACKET
    ensures 1 <= EachRoot(STRICT, arr).off <= |arr|
  {
    assert NextTok(arr, 0) == 0;
  }

  // ---- the scan ----

  function RoundAt(data: Bytes, paths: seq<Path>, st: EachState): (r: Round)
    requires |st.flags| == |paths| && st.i < |data| && |st.buf| == MaxLen(paths)
    ensures r.Go? ==> st.i < r.next.i <= |data| && |r.next.flags| == |paths| && |r.next.buf| == |st.buf|
  {
    var c := data[st.i];
    if c == QUOTE then StringRound(data, paths, st)
    else if c == LBRACE then Go([], st.(i := st.i + 1, level := st.level + 1))
    else if c == RBRACE || c == RBRACKET then Go([], st.(i := st.i + 1, level := st.level - 1))
    else if c == LBRACKET then ArrayRound(data, paths, st)
    else Go([], st.(i := st.i + 1))
  }

  /** The rest of the scan. Every round moves forward, even one that steps back behind a key. */
  function Run(data: Bytes, paths: seq<Path>, st: EachState): Ran
    requires |st.flags| == |paths| && st.i <= |data| && |st.buf| == MaxLen(paths)
    decreases |data| - st.i
  {
    if st.i == |data| then Ran([], -1)
    else match RoundAt(data, paths, st)
      case Halt(calls, ret) => Ran(calls, ret)
      case Go(calls, next) => Later(calls, Run(data, paths, next))
  }

  function Later(calls: seq<Call>, rest: Ran): Ran {
    Ran(calls + rest.calls, rest.ret)
  }

  function Initial(paths: seq<Path>): (st: EachState)
    ensures |st.flags| == |paths| && |st.buf| == MaxLen(paths)
  {
    EachState(0, 0, seq(MaxLen(paths), _ => []), seq(|paths|, _ => false))
  }

  function EachKeySpec(data: Bytes, paths: seq<Path>): Ran {
    Run(data, paths, Initial(paths))
  }

  // ---- the code ----

  method MaxLength(paths: seq<Path>) returns (maxPath: nat)
    ensures maxPath == MaxLen(paths)
  {
    maxPath := 0;
    for pi := 0 to |paths|
      invariant MaxLen(paths) == var rest := MaxLen(paths[pi..]); if rest > maxPath then rest else maxPath
    {
      assert paths[pi..][1..] == paths[pi + 1..] && paths[pi..][0] == paths[pi];
      if |paths[pi]| > maxPath {
        maxPath := |paths[pi]|;
      }
    }
  }

  method IsSameTree(a: Path, b: Path) returns (r: bool)
    ensures r == SameTree(a, b)
  {
    var minLen := if |b| < |a| then |b| else |a|;
    for i := 0 to minLen
      invariant forall k :: 0 <= k < i ==> a[k] == b[k]
    {
      if b[i] != a[i] {
        return false;
      }
    }
    return true;
  }

  /** The loop over the paths at a key. */
  method CallForKey(paths: seq<Path>, pathFlags: array<bool>, buf: seq<Bytes>, level: nat, g: Got, matchedBefore: nat,
                    made: seq<Call>)
    returns (calls: seq<Call>, pathsMatched: nat, matched: bool)
    requires pathFlags.Length == |paths| && 1 <= level <= |buf| && matchedBefore == Count(pathFlags[..])
    modifies pathFlags
    ensures calls == made + KeyCalls(paths, old(pathFlags[..]), buf, level, g, 0)
    ensures pathFlags[..] == KeyFlags(paths, old(pathFlags[..]), buf, level) && pathsMatched == Count(pathFlags[..])
    ensures matched <==> KeyCalls(paths, old(pathFlags[..]), buf, level, g, 0) != []
  {
    calls, pathsMatched, matched := made, matchedBefore, false;
    ghost var flags := pathFlags[..];
    ghost var all := made + KeyCalls(paths, flags, buf, level, g, 0);
    var pi := 0;
    while pi < |paths|
      invariant pi <= |paths|
      invariant all == calls + KeyCalls(paths, flags, buf, level, g, pi)
      invariant matched <==> |calls| > |made|
      invariant |calls| >= |made|
      invariant pathsMatched == Count(pathFlags[..])
      invariant forall k :: 0 <= k < pi ==> pathFlags[k] == (flags[k] || WantsKey(paths[k], flags[k], buf, level))
      invariant forall k :: pi <= k < |paths| ==> pathFlags[k] == flags[k]
    {
      var same := IsSameTree(paths[pi], buf[..level]);
      if |paths[pi]| != level || pathFlags[pi] || buf[level - 1] != paths[pi][level - 1] || !same {
        pi := pi + 1;
        continue;
      }
      matched := true;
      pathsMatched := pathsMatched + 1;
      CountSet(pathFlags[..], pi);
      ghost var was := pathFlags[..];
      pathFlags[pi] := true;
      assert pathFlags[..] == was[pi := true];
      calls := calls + [Call(pi, g.value, g.t, g.err)];
      pi := pi + 1;
      if pathsMatched == |paths| {
        CountAll(pathFlags[..]);
        assert AllTrue(pathFlags[..]);
        forall k | pi <= k < |paths| ensures flags[k] { assert pathFlags[..][k]; }
        NoKeyCalls(paths, flags, buf, level, g, pi);
        assert pathFlags[..] == KeyFlags(paths, flags, buf, level) by {
          forall k | 0 <= k < |paths| ensures pathFlags[k] == KeyFlags(paths, flags, buf, level)[k] { assert pathFlags[..][k]; }
        }
        assert calls + [] == calls;
        return;
      }
    }
    assert pathFlags[..] == KeyFlags(paths, flags, buf, level);
    assert calls + [] == calls;
  }

  lemma {:induction false} NoKeyCalls(paths: seq<Path>, flags: seq<bool>, buf: seq<Bytes>, level: nat, g: Got, pi: nat)
    requires |flags| == |paths| && 1 <= level <= |buf| && pi <= |paths|
    requires forall k :: pi <= k < |paths| ==> !WantsKey(paths[k], flags[k], buf, level)
    ensures KeyCalls(paths, flags, buf, level, g, pi) == []
    decreases |paths| - pi
  {
    if pi < |paths| { NoKeyCalls(paths, flags, buf, level, g, pi + 1); }
  }

  /** The wish of one path at an array. */
  method WishAt(p: Path, flag: bool, buf: seq<Bytes>, level: nat) returns (r: Option<int>)
    requires |p| <= |buf|
    ensures r == WantsElement(p, flag, buf, level)
  {
    if |p| < level + 1 || flag || |p[level]| == 0 || p[level][0] != LBRACKET {
      return None;
    }
    var same := IsSameTree(p, buf[..level]);
    if !same {
      return None;
    }
    var indexComponent := p[level];
    if |indexComponent| < 3 || indexComponent[|indexComponent| - 1] != RBRACKET {
      return None;
    }
    return Atoi(indexComponent[1..|indexComponent| - 1]);
  }

  method WishesAt(paths: seq<Path>, pathFlags: array<bool>, buf: seq<Bytes>, level: nat) returns (w: seq<Option<int>>, any: bool)
    requires pathFlags.Length == |paths| && |buf| == MaxLen(paths)
    ensures w == Wanted(paths, pathFlags[..], buf, level)
    ensures any <==> AnyWanted(w)
  {
    w, any := [], false;
    for pi := 0 to |paths|
      invariant |w| == pi && (any <==> AnyWanted(w))
      invariant forall k :: 0 <= k < pi ==> w[k] == WantsElement(paths[k], pathFlags[..][k], buf, level)
    {
      var wish := WishAt(paths[pi], pathFlags[pi], buf, level);
      ghost var before := w;
      w := w + [wish];
      assert AnyWanted(w) <==> AnyWanted(before) || wish.Some? by {
        if AnyWanted(before) {
          var k :| 0 <= k < |before| && before[k].Some?;
          assert w[k].Some?;
        }
        if wish.Some? { assert w[pi].Some?; }
      }
      any := any || wish.Some?;
    }
  }

  /** What an element holds for a path: itself, or what a search inside it finds. */
  method AnswerOf(p: Path, level: nat, ev: Event) returns (r: Option<(Bytes, ValueType, Option<Error>)>)
    requires level <= |p|
    ensures r == ElementAnswer(p, level, ev)
  {
    hide SearchRun;
    if level == |p| {
      return Some((ev.value, ev.t, ev.err));
    }
    var of := SearchKeys(STRICT, ev.value, p[level..]);
    if of == -1 {
      return None;
    }
    var g := GetClosest(STRICT, ev.value, of);
    return Some((g.value, g.t, g.err));
  }

  /** What is known of the flags while the callbacks of an array are made: those of settled paths are final. */
  ghost predicate Settled(paths: seq<Path>, flags: seq<bool>, w: seq<Option<int>>, level: nat, events: seq<Event>, cur: nat, pi: nat,
                          now: seq<bool>)
    requires |flags| == |paths| && |w| == |paths| && |now| == |paths|
  {
    forall k :: 0 <= k < |paths| ==>
      now[k] == (flags[k] || (w[k].Some? && (w[k].value < cur || (w[k].value == cur && k < pi)) && ArrayAnswers(paths, w, level, events, k)))
  }

  /** The loop over the paths at element number cur. */
  method CallForElement(paths: seq<Path>, pathFlags: array<bool>, w: seq<Option<int>>, level: nat, events: seq<Event>, cur: nat,
                        matchedBefore: nat, made: seq<Call>, ghost flags: seq<bool>)
    returns (calls: seq<Call>, pathsMatched: nat)
    requires pathFlags.Length == |paths| == |w| == |flags| && cur < |events| && matchedBefore == Count(pathFlags[..])
    requires forall k :: 0 <= k < |paths| && w[k].Some? ==> !flags[k] && level <= |paths[k]|
    requires Settled(paths, flags, w, level, events, cur, 0, pathFlags[..])
    modifies pathFlags
    ensures calls == made + ElementCalls(paths, w, level, events[cur], cur, 0)
    ensures Settled(paths, flags, w, level, events, cur + 1, 0, pathFlags[..]) && pathsMatched == Count(pathFlags[..])
  {
    hide ElementAnswer;
    calls, pathsMatched := made, matchedBefore;
    ghost var all := made + ElementCalls(paths, w, level, events[cur], cur, 0);
    var pi := 0;
    while pi < |paths|
      invariant pi <= |paths|
      invariant all == calls + ElementCalls(paths, w, level, events[cur], cur, pi)
      invariant pathsMatched == Count(pathFlags[..])
      invariant Settled(paths, flags, w, level, events, cur, pi, pathFlags[..])
    {
      if pathFlags[pi] || w[pi] != Some(cur) {
        pi := pi + 1;
        continue;
      }
      var answer := AnswerOf(paths[pi], level, events[cur]);
      if answer.None? {
        pi := pi + 1;
        continue;
      }
      var (value, t, err) := answer.value;
      pathsMatched := pathsMatched + 1;
      assert !pathFlags[..][pi];
      CountSet(pathFlags[..], pi);
      ghost var was := pathFlags[..];
      pathFlags[pi] := true;
      assert pathFlags[..] == was[pi := true];
      calls := calls + [Call(pi, value, t, err)];
      pi := pi + 1;
    }
    assert calls + [] == calls;
  }

  /** All callbacks of an array, element after element. */
  method CallForArray(paths: seq<Path>, pathFlags: array<bool>, w: seq<Option<int>>, level: nat, events: seq<Event>,
                      matchedBefore: nat, made: seq<Call>)
    returns (calls: seq<Call>, pathsMatched: nat)
    requires pathFlags.Length == |paths| == |w| && matchedBefore == Count(pathFlags[..])
    requires forall k :: 0 <= k < |paths| && w[k].Some? ==> !pathFlags[k] && level <= |paths[k]|
    modifies pathFlags
    ensures calls == made + ArrayCalls(paths, w, level, events, 0)
    ensures pathFlags[..] == ArrayFlags(paths, old(pathFlags[..]), w, level, events) && pathsMatched == Count(pathFlags[..])
  {
    hide ElementAnswer, ElementCalls, Answers;
    calls, pathsMatched := made, matchedBefore;
    ghost var flags := pathFlags[..];
    ghost var all := made + ArrayCalls(paths, w, level, events, 0);
    var cur := 0;
    while cur < |events|
      invariant cur <= |events|
      invariant all == calls + ArrayCalls(paths, w, level, events, cur)
      invariant pathsMatched == Count(pathFlags[..])
      invariant Settled(paths, flags, w, level, events, cur, 0, pathFlags[..])
    {
      ghost var before := calls;
      ghost var rest := ArrayCalls(paths, w, level, events, cur + 1);
      ghost var here := ElementCalls(paths, w, level, events[cur], cur, 0);
      assert all == before + here + rest;
      calls, pathsMatched := CallForElement(paths, pathFlags, w, level, events, cur, pathsMatched, calls, flags);
      cur := cur + 1;
    }
    assert calls + [] == calls;
  }

  lemma RunStep(data: Bytes, paths: seq<Path>, st: EachState, made: seq<Call>)
    requires |st.flags| == |paths| && st.i < |data| && |st.buf| == MaxLen(paths)
    ensures var round := RoundAt(data, paths, st);
            Later(made, Run(data, paths, st))
            == if round.Halt? then Ran(made + round.calls, round.ret) else Later(made + round.calls, Run(data, paths, round.next))
  {
    hide RoundAt;
    match RoundAt(data, paths, st)
    case Halt(_, _) =>
    case Go(calls, next) =>
      var rest := Run(data, paths, next).calls;
      assert made + (calls + rest) == made + calls + rest;
  }

  lemma StepPlain(data: Bytes, paths: seq<Path>, st: EachState)
    requires |st.flags| == |paths| && st.i < |data| && |st.buf| == MaxLen(paths) && data[st.i] != QUOTE && data[st.i] != LBRACKET
    ensures RoundAt(data, paths, st)
         == Go([], st.(i := st.i + 1, level := if data[st.i] == LBRACE then st.level + 1
                                               else if data[st.i] == RBRACE || data[st.i] == RBRACKET then st.level - 1
                                               else st.level))
  {
  }

  lemma StepString(data: Bytes, paths: seq<Path>, st: EachState)
    requires |st.flags| == |paths| && st.i < |data| && |st.buf| == MaxLen(paths) && data[st.i] == QUOTE
    ensures var scan := KeyScanAt(STRICT, data, st.i);
            RoundAt(data, paths, st)
            == if scan.Stop? then Halt([], -1)
               else if scan.NotKey? then Go([], st.(i := scan.next))
               else KeyRound(data, paths, st, scan.name, scan.colon)
  {
    hide KeyScanAt, KeyRound;
  }

  lemma StepArray(data: Bytes, paths: seq<Path>, st: EachState)
    requires |st.flags| == |paths| && st.i < |data| && |st.buf| == MaxLen(paths) && data[st.i] == LBRACKET
    ensures RoundAt(data, paths, st) == ArrayRound(data, paths, st)
  {
    hide ArrayRound;
  }

  /** Where the scan resumes behind a key, with the step back when nothing follows the colon. */
  method ResumeAfterKey(data: Bytes, colon: nat, matched: bool) returns (r: nat)
    requires 0 < colon < |data| && data[colon] == COLON
    ensures r == AfterKey(data, colon, matched)
  {
    var i: int := colon;
    if !matched {
      var tokenOffset := NextTokenFrom(data, colon + 1);
      i := i + tokenOffset;
      if tokenOffset > 0 {
        assert IsSpace(data[i]);
      }
    }
    if data[i] == LBRACE || data[i] == RBRACE || data[i] == LBRACKET || data[i] == QUOTE {
      i := i - 1;
    }
    return i + 1;
  }

  /** The branch for a member name; the scan has not stopped, so some path is still unflagged or there are none. */
  method EachKeyName(data: Bytes, paths: seq<Path>, st: EachState, key: Bytes, colon: nat, pathFlags: array<bool>,
                     pathsBuf: array<Bytes>, matchedBefore: nat, made: seq<Call>)
    returns (calls: seq<Call>, pathsMatched: nat, ended: bool, result: int)
    requires st.flags == pathFlags[..] && st.buf == pathsBuf[..] && |st.flags| == |paths| && 0 < colon < |data|
    requires data[colon] == COLON && matchedBefore == Count(st.flags)
    modifies pathFlags, pathsBuf
    ensures var round := KeyRound(data, paths, st, key, colon);
            calls == made + round.calls
    ensures match KeyRound(data, paths, st, key, colon)
              case Halt(_, ret) => ended && result == ret
              case Go(_, next) =>
                && !ended && result == next.i && next.level == st.level
                && next.flags == pathFlags[..] && next.buf == pathsBuf[..] && pathsMatched == Count(next.flags)
  {
    hide KeyCalls, KeyFlags, AfterKey, GetFrom;
    calls, pathsMatched := made, matchedBefore;
    var matched := false;
    if pathsBuf.Length >= st.level {
      if st.level < 1 {
        calls := calls + [MALFORMED];
        return calls, pathsMatched, true, -1;
      }
      pathsBuf[st.level - 1] := key;
      var g := GetClosest(STRICT, data, colon + 1);
      ghost var buf := st.buf[st.level - 1 := key];
      assert pathsBuf[..] == buf;
      calls, pathsMatched, matched := CallForKey(paths, pathFlags, pathsBuf[..], st.level, g, pathsMatched, calls);
      CountAll(pathFlags[..]);
      if pathsMatched == |paths| {
        return calls, pathsMatched, true, colon;
      }
    }
    assert made + [] == made;
    ended := false;
    result := ResumeAfterKey(data, colon, matched);
  }

  /** The branch for an array. */
  method EachKeyArray(data: Bytes, paths: seq<Path>, st: EachState, pathFlags: array<bool>, matchedBefore: nat,
                      made: seq<Call>)
    returns (calls: seq<Call>, pathsMatched: nat, ended: bool, result: int, level: int)
    requires st.flags == pathFlags[..] && |st.flags| == |paths| && st.i < |data| && data[st.i] == LBRACKET
    requires |st.buf| == MaxLen(paths) && matchedBefore == Count(st.flags)
    modifies pathFlags
    ensures var round := ArrayRound(data, paths, st);
            calls == made + round.calls
    ensures match ArrayRound(data, paths, st)
              case Halt(_, ret) => ended && result == ret
              case Go(_, next) =>
                && !ended && result == next.i && next.level == level && next.buf == st.buf
                && next.flags == pathFlags[..] && pathsMatched == Count(next.flags)
  {
    hide ArrayCalls, ArrayFlags, EachRoot, BlockEndAt;
    calls, pathsMatched, level := made, matchedBefore, st.level;
    if st.level < 0 {
      calls := calls + [MALFORMED];
      return calls, pathsMatched, true, -1, level;
    }
    var w, any := WishesAt(paths, pathFlags, st.buf, st.level);
    if any {
      EachOffset(data[st.i..]);
      level := level + 1;
      var events, arrOff, _ := EachOfRoot(STRICT, data[st.i..]);
      WishesFit(paths, st.flags, st.buf, st.level);
      calls, pathsMatched := CallForArray(paths, pathFlags, w, level, events, pathsMatched, calls);
      CountAll(pathFlags[..]);
      if pathsMatched == |paths| {
        return calls, pathsMatched, true, st.i, level;
      }
      return calls, pathsMatched, false, st.i + arrOff, level;
    }
    assert made + [] == made;
    var arraySkip := BlockEndFrom(STRICT, data, st.i, LBRACKET, RBRACKET);
    if arraySkip == -1 {
      return calls, pathsMatched, true, -1, level;
    }
    return calls, pathsMatched, false, st.i + arraySkip, level;
  }

  lemma WishesFit(paths: seq<Path>, flags: seq<bool>, buf: seq<Bytes>, level: nat)
    requires |flags| == |paths| && |buf| == MaxLen(paths)
    ensures forall k :: 0 <= k < |paths| && Wanted(paths, flags, buf, level)[k].Some? ==> !flags[k] && level + 1 <= |paths[k]|
  {
    forall k | 0 <= k < |paths| && Wanted(paths, flags, buf, level)[k].Some? ensures !flags[k] && level + 1 <= |paths[k]| {
      assert WantsElement(paths[k], flags[k], buf, level).Some?;
    }
  }

  /** One round of the scan: the switch on the current byte. */
  method EachKeyRound(data: Bytes, paths: seq<Path>, st: EachState, pathFlags: array<bool>, pathsBuf: array<Bytes>,
                      matchedBefore: nat, made: seq<Call>)
    returns (calls: seq<Call>, pathsMatched: nat, ended: bool, result: int, level: int)
    requires st.flags == pathFlags[..] && st.buf == pathsBuf[..] && |st.flags| == |paths| && st.i < |data|
    requires |st.buf| == MaxLen(paths) && matchedBefore == Count(st.flags)
    modifies pathFlags, pathsBuf
    ensures var round := RoundAt(data, paths, st);
            calls == made + round.calls
    ensures match RoundAt(data, paths, st)
              case Halt(_, ret) => ended && result == ret
              case Go(_, next) =>
                && !ended && result == next.i && next.level == level
                && next.flags == pathFlags[..] && next.buf == pathsBuf[..] && pathsMatched == Count(next.flags)
  {
    hide RoundAt, KeyRound, ArrayRound, KeyScanAt;
    var c := data[st.i];
    calls, pathsMatched, level := made, matchedBefore, st.level;
    if c == QUOTE {
      StepString(data, paths, st);
      assert made + [] == made;
      var stackbuf := new byte[64](_ => 0);
      var scan := ScanKey(STRICT, data, st.i, stackbuf);
      match scan {
        case Stop => return calls, pathsMatched, true, -1, level;
        case NotKey(next) => return calls, pathsMatched, false, next, level;
        case KeyAt(key, colon) =>
          ScannedColon(data, st.i);
          calls, pathsMatched, ended, result :=
            EachKeyName(data, paths, st, key, colon, pathFlags, pathsBuf, pathsMatched, calls);
      }
    } else if c == LBRACKET {
      StepArray(data, paths, st);
      calls, pathsMatched, ended, result, level := EachKeyArray(data, paths, st, pathFlags, pathsMatched, calls);
    } else {
      StepPlain(data, paths, st);
      assert made + [] == made;
      if c == LBRACE {
        level := level + 1;
      } else if c == RBRACE || c == RBRACKET {
        level := level - 1;
      }
      ended, result := false, st.i + 1;
    }
  }

  method EachKey(data: Bytes, paths: seq<Path>) returns (calls: seq<Call>, ret: int)
    ensures Ran(calls, ret) == EachKeySpec(data, paths)
  {
    hide Run, RoundAt, Count;
    var maxPath := MaxLength(paths);
    var pathFlags := new bool[|paths|](_ => false);
    var pathsBuf := new Bytes[maxPath](_ => []);
    calls := [];
    var pathsMatched: nat := 0;
    var i: nat, level: int := 0, 0;
    ghost var all := EachKeySpec(data, paths);
    CountNone(|paths|);
    assert pathFlags[..] == seq(|paths|, _ => false);
    assert pathsBuf[..] == Initial(paths).buf && pathFlags[..] == Initial(paths).flags;
    assert [] + all.calls == all.calls;
    while i < |data|
      invariant i <= |data| && pathsMatched == Count(pathFlags[..])
      invariant all == Later(calls, Run(data, paths, EachState(i, level, pathsBuf[..], pathFlags[..])))
      decreases |data| - i
    {
      var st := EachState(i, level, pathsBuf[..], pathFlags[..]);
      RunStep(data, paths, st, calls);
      var ended, result;
      calls, pathsMatched, ended, result, level := EachKeyRound(data, paths, st, pathFlags, pathsBuf, pathsMatched, calls);
      if ended {
        return calls, result;
      }
      i := result;
    }
    RunEnd(data, paths, EachState(i, level, pathsBuf[..], pathFlags[..]));
    assert calls + [] == calls;
    return calls, -1;
  }

  lemma RunEnd(data: Bytes, paths: seq<Path>, st: EachState)
    requires |st.flags| == |paths| && st.i == |data| && |st.buf| == MaxLen(paths)
    ensures Run(data, paths, st) == Ran([], -1)
  {
  }

  lemma ScannedColon(data: Bytes, i: nat)
    requires i < |data| && KeyScanAt(STRICT, data, i).KeyAt?
    ensures data[KeyScanAt(STRICT, data, i).colon] == COLON
  {
  }
}
