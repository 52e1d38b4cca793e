/** parser.go: value typing, Get, ArrayEach and the flat key search, each with its reference function. */
module Lookup {
  import opened Bytes
  import opened Strings
  import opened Escapes
  import opened Scanners
  import opened Syntax

  datatype ValueType = NotExist | String | Number | Object | Array | Boolean | NullType | Unknown

  datatype Error =
    | KeyPathNotFound
    | UnknownValueType
    | MalformedJson
    | MalformedString
    | MalformedArray
    | MalformedObject
    | MalformedStringEscape

  // ---- typing and Get ----

  /** What getType finds at an offset: the value is data[offset..end] when err is None. */
  datatype Typed = Typed(t: ValueType, end: nat, err: Option<Error>)

  function BlockTyped(t: ValueType, offset: nat, end: int, err: Error): Typed {
    if end < 0 then Typed(t, offset, Some(err)) else Typed(t, end, None)
  }

  const LOWER_T_BYTE: byte := 0x74
  const LOWER_F_BYTE: byte := 0x66
  const LOWER_U_BYTE: byte := 0x75
  const LOWER_N_BYTE: byte := 0x6E

  function TypeAt(cfg: Config, data: Bytes, offset: nat): (r: Typed)
    requires offset < |data|
    ensures offset <= r.end <= |data|
    ensures r.err.None? ==> offset < r.end
    ensures r.err.Some? ==> r.end == offset
    ensures r.t == String ==> IsQuote(cfg, data[offset])
    ensures r.t == String && r.err.None? ==> offset + 2 <= r.end
  {
    var c := data[offset];
    if IsQuote(cfg, c) then BlockTyped(String, offset, StrEnd(data, offset + 1, c), MalformedString)
    else if c == LBRACKET then BlockTyped(Array, offset, BlockEndAt(cfg, data, offset, LBRACKET, RBRACKET), MalformedArray)
    else if c == LBRACE then BlockTyped(Object, offset, BlockEndAt(cfg, data, offset, LBRACE, RBRACE), MalformedObject)
    else
      var end := TokEnd(data, offset);
      var value := data[offset..end];
      if c == LOWER_T_BYTE || c == LOWER_F_BYTE then
        if value == TRUE || value == FALSE then Typed(Boolean, end, None) else Typed(Unknown, offset, Some(UnknownValueType))
      else if c == LOWER_U_BYTE || c == LOWER_N_BYTE then
        if value == NULL then Typed(NullType, end, None) else Typed(Unknown, offset, Some(UnknownValueType))
      else if IsDigit(c) || c == MINUS then Typed(Number, end, None)
      else Typed(Unknown, offset, Some(UnknownValueType))
  }

  /** Get's five results; the value is empty whenever there is an error. */
  datatype Got = Got(value: Bytes, t: ValueType, off: int, end: int, err: Option<Error>)

  /** The closest value at or after i: strings without their quotes. */
  function GetFrom(cfg: Config, data: Bytes, i: nat): (g: Got)
    requires i <= |data|
    ensures g.end == -1 ==> g.err.Some? && g.value == [] && g.t == NotExist
    ensures g.end != -1 ==> i <= g.off <= g.end <= |data|
    ensures g.err.Some? ==> g.value == [] && (g.end == -1 || g.end == g.off)
    ensures g.err.None? ==> g.off < g.end
    ensures g.err.None? && g.t != String ==> g.value == data[g.off..g.end]
    ensures g.err.None? && g.t == String ==> g.off + 2 <= g.end && g.value == data[g.off + 1..g.end - 1]
  {
    var n := NextTok(data, i);
    if n == -1 then Got([], NotExist, i, -1, Some(MalformedJson))
    else
      var r := TypeAt(cfg, data, n);
      if r.err.Some? then Got([], r.t, n, r.end, r.err)
      else if r.t == String then Got(data[n + 1..r.end - 1], String, n, r.end, None)
      else Got(data[n..r.end], r.t, n, r.end, None)
  }

  // ---- ArrayEach ----

  /** One callback: value, type, offset argument and error argument. */
  datatype Event = Event(value: Bytes, t: ValueType, off: int, err: Option<Error>)

  /** A whole iteration: the callbacks made, the offset returned and the error returned. */
  datatype Each = Each(events: seq<Event>, off: int, err: Option<Error>)

  predicate EventFits(data: Bytes, ev: Event) {
    && (ev.err.None? || ev.t == String ==> 1 <= ev.off && ev.off + |ev.value| <= |data|)
    && (ev.t == String ==> 2 <= ev.off)
  }

  /** The element loop, from the first byte of the next element on. */
  function EachFrom(cfg: Config, data: Bytes, offset: nat): (r: Each)
    requires 1 <= offset <= |data|
    ensures forall k :: 0 <= k < |r.events| ==> EventFits(data, r.events[k])
    ensures offset <= r.off <= |data|
    decreases |data| - offset
  {
    var g := GetFrom(cfg, data, offset);
    if g.end == offset then Each([], offset, g.err)
    else
      var end := if g.end == -1 then offset - 1 else g.end;
      var ev := Event(g.value, g.t, end - |g.value|, g.err);
      if g.err.Some? then Each([ev], offset, g.err)
      else
        var next := NextTok(data, g.end);
        if next == -1 then Each([ev], g.end, Some(MalformedArray))
        else if data[next] == RBRACKET then Each([ev], next, None)
        else if data[next] != COMMA then Each([ev], next, Some(MalformedArray))
        else
          var rest := EachFrom(cfg, data, next + 1);
          rest.(events := [ev] + rest.events)
  }

  /** After the opening bracket: nothing for an empty array, else the element loop. */
  function EachInside(cfg: Config, data: Bytes, offset: nat): (r: Each)
    requires 1 <= offset <= |data|
    ensures forall k :: 0 <= k < |r.events| ==> EventFits(data, r.events[k])
  {
    var n := NextTok(data, offset);
    if n == -1 then Each([], offset, Some(MalformedJson))
    else if data[n] == RBRACKET then Each([], n, None)
    else EachFrom(cfg, data, n)
  }

  /** Iteration over the array a text starts with. */
  function EachRoot(cfg: Config, data: Bytes): (r: Each)
    ensures forall k :: 0 <= k < |r.events| ==> EventFits(data, r.events[k])
  {
    if data == [] then Each([], -1, Some(MalformedObject))
    else
      var n := NextTok(data, 0);
      if n == -1 then Each([], -1, Some(MalformedJson))
      else if data[n] != LBRACKET then Each([], -1, Some(MalformedArray))
      else EachInside(cfg, data, n + 1)
  }

  // ---- the flat key search ----

  /** The element an index component picks out of the callbacks: its bytes with quotes, and its offset. */
  function Picked(data: Bytes, events: seq<Event>, index: int): (r: Option<(Bytes, nat)>)
    requires forall k :: 0 <= k < |events| ==> EventFits(data, events[k])
    ensures r.Some? ==> r.value.1 + |r.value.0| <= |data|
  {
    if index < 0 || index >= |events| then None
    else
      var ev := events[index];
      assert EventFits(data, ev);
      if ev.t == String then Some((data[ev.off - 2..ev.off + |ev.value|], ev.off - 2))
      else if ev.err.Some? then None
      else Some((ev.value, ev.off))
  }

  /** What is always true of the two level counters, on any bytes: it keeps every use of keys[level] in range. */
  predicate SafeLevels(level: int, keyLevel: int, n: nat) {
    keyLevel < n && (keyLevel < 0 ==> keyLevel < level)
  }

  lemma LevelInRange(level: int, keyLevel: int, n: nat)
    requires SafeLevels(level, keyLevel, n) && keyLevel == level
    ensures 0 <= level < n
  {
  }

  /** The search for keys in a value: offset 0 for no keys. */
  function SearchKeysSpec(cfg: Config, data: Bytes, keys: Path): (r: int)
    ensures r == -1 || 0 <= r <= |data|
    decreases |keys|, |data| + 1
  {
    if keys == [] then 0 else SearchRun(cfg, data, keys, 0, 0, 0, true)
  }

  /** The string branch: where the key's colon is, or what to do instead. */
  datatype KeyScan =
    | Stop                            // no end, no following token, or an undecodable key
    | NotKey(next: nat)               // a string value; scanning goes on at next
    | KeyAt(name: Bytes, colon: nat)  // a member name and the offset of its colon

  function KeyScanAt(cfg: Config, data: Bytes, i: nat): (r: KeyScan)
    requires i < |data|
    ensures r.NotKey? ==> i < r.next < |data|
    ensures r.KeyAt? ==> i < r.colon < |data|
  {
    var e := StrEnd(data, i + 1, data[i]);
    if e == -1 || NextTok(data, e) == -1 then Stop
    else
      var n := NextTok(data, e);
      if data[n] != COLON then NotKey(n)
      else match Unescaped(cfg, data[i + 1..e - 1])
        case None => Stop
        case Some(k) => KeyAt(k, n)
  }

  /** The search machine, one token at a time. */
  function SearchRun(cfg: Config, data: Bytes, keys: Path, i: nat, level: int, keyLevel: int, lastMatched: bool): (r: int)
    requires i <= |data| && SafeLevels(level, keyLevel, |keys|)
    ensures r == -1 || i <= r <= |data|
    decreases |keys|, |data| - i
  {
    if i == |data| then -1
    else
      var c := data[i];
      if IsQuote(cfg, c) then
        match KeyScanAt(cfg, data, i)
        case Stop => -1
        case NotKey(n) => SearchRun(cfg, data, keys, n, level, keyLevel, lastMatched)
        case KeyAt(k, n) =>
          if level < 1 || level > |keys| then -1
          else if k != keys[level - 1] then SearchRun(cfg, data, keys, n + 1, level, keyLevel, false)
          else if keyLevel != level - 1 then SearchRun(cfg, data, keys, n + 1, level, keyLevel, true)
          else if level == |keys| then n + 1
          else SearchRun(cfg, data, keys, n + 1, level, level, true)
      else if c == LBRACE then
        if lastMatched then SearchRun(cfg, data, keys, i + 1, level + 1, keyLevel, lastMatched)
        else
          var end := BlockEndAt(cfg, data, i, LBRACE, RBRACE);
          if end == -1 then -1 else SearchRun(cfg, data, keys, end, level, keyLevel, lastMatched)
      else if c == RBRACE then
        SearchRun(cfg, data, keys, i + 1, level - 1, if level - 1 == keyLevel then keyLevel - 1 else keyLevel, lastMatched)
      else if c == LBRACKET then
        if keyLevel == level && IsIndexKey(keys[level]) then
          SearchIndex(cfg, data[i..], keys[level], keys[level + 1..], i)
        else
          var end := BlockEndAt(cfg, data, i, LBRACKET, RBRACKET);
          if end == -1 then -1 else SearchRun(cfg, data, keys, end, level, keyLevel, lastMatched)
      else if c == COLON then -1
      else SearchRun(cfg, data, keys, i + 1, level, keyLevel, lastMatched)
  }

  /** An index component at an array: the answer is found inside the selected element or not at all. */
  function SearchIndex(cfg: Config, arr: Bytes, key: Bytes, rest: Path, base: nat): (r: int)
    ensures r == -1 || base <= r <= base + |arr|
    decreases |rest|, |arr| + 2
  {
    if |key| < 3 || key[|key| - 1] != RBRACKET then -1
    else match Atoi(key[1..|key| - 1])
      case None => -1
      case Some(index) =>
        match Picked(arr, EachRoot(cfg, arr).events, index)
        case None => -1
        case Some((value, off)) =>
          var sub := SearchKeysSpec(cfg, value, rest);
          if sub < 0 then -1 else base + off + sub
  }

  /** Get: the search, then the closest value. */
  function GetSpec(cfg: Config, data: Bytes, keys: Path): (g: Got)
    ensures g.err.None? ==> 0 <= g.off < g.end <= |data|
  {
    if keys == [] then GetFrom(cfg, data, 0)
    else
      var r := SearchKeysSpec(cfg, data, keys);
      if r == -1 then Got([], NotExist, -1, -1, Some(KeyPathNotFound)) else GetFrom(cfg, data, r)
  }

  // ---- the code ----

  method GetType(cfg: Config, data: Bytes, offset: nat) returns (value: Bytes, r: Typed)
    requires offset < |data|
    ensures r == TypeAt(cfg, data, offset)
    ensures value == if r.err.None? then data[offset..r.end] else []
  {
    if data[offset] == QUOTE || (cfg.allowSingleQuotes && data[offset] == APOSTROPHE) {
      var idx, _ := StringEndFrom(data, offset + 1, data[offset]);
      if idx == -1 {
        return [], Typed(String, offset, Some(MalformedString));
      }
      r := Typed(String, offset + idx + 1, None);
    } else if data[offset] == LBRACKET {
      var end := BlockEndFrom(cfg, data, offset, LBRACKET, RBRACKET);
      if end == -1 {
        return [], Typed(Array, offset, Some(MalformedArray));
      }
      r := Typed(Array, offset + end, None);
    } else if data[offset] == LBRACE {
      var end := BlockEndFrom(cfg, data, offset, LBRACE, RBRACE);
      if end == -1 {
        return [], Typed(Object, offset, Some(MalformedObject));
      }
      r := Typed(Object, offset + end, None);
    } else {
      var end := TokenEndFrom(data, offset);
      value := data[offset..offset + end];
      var c := data[offset];
      if c == LOWER_T_BYTE || c == LOWER_F_BYTE {
        if value != TRUE && value != FALSE {
          return [], Typed(Unknown, offset, Some(UnknownValueType));
        }
        r := Typed(Boolean, offset + end, None);
      } else if c == LOWER_U_BYTE || c == LOWER_N_BYTE {
        if value != NULL {
          return [], Typed(Unknown, offset, Some(UnknownValueType));
        }
        r := Typed(NullType, offset + end, None);
      } else if IsDigit(c) || c == MINUS {
        r := Typed(Number, offset + end, None);
      } else {
        return [], Typed(Unknown, offset, Some(UnknownValueType));
      }
    }
    value := data[offset..r.end];
  }

  /** The part of Get that follows the search: the closest value at or after offset. */
  method GetClosest(cfg: Config, data: Bytes, offset: nat) returns (g: Got)
    requires offset <= |data|
    ensures g == GetFrom(cfg, data, offset)
  {
    hide TypeAt, NextTok;
    var nO := NextTokenFrom(data, offset);
    if nO == -1 {
      return Got([], NotExist, offset, -1, Some(MalformedJson));
    }
    var value, r := GetType(cfg, data, offset + nO);
    if r.err.Some? {
      return Got(value, r.t, offset + nO, r.end, r.err);
    }
    if r.t == String {
      InnerSlice(data, offset + nO, r.end, value);
      value := value[1..|value| - 1];
    }
    return Got(value, r.t, offset + nO, r.end, None);
  }

  method Get(cfg: Config, data: Bytes, keys: Path) returns (g: Got)
    ensures g == GetSpec(cfg, data, keys)
  {
    var offset := 0;
    if |keys| > 0 {
      offset := SearchKeys(cfg, data, keys);
      if offset == -1 {
        return Got([], NotExist, -1, -1, Some(KeyPathNotFound));
      }
    }
    g := GetClosest(cfg, data, offset);
  }

  /** The callbacks made so far, followed by the rest of an iteration. */
  function After(events: seq<Event>, rest: Each): Each {
    Each(events + rest.events, rest.off, rest.err)
  }

  function ElementEvent(g: Got, offset: nat): Event {
    Event(g.value, g.t, (if g.end == -1 then offset - 1 else g.end) - |g.value|, g.err)
  }

  /** An element followed by a comma is one callback, and the iteration goes on behind the comma. */
  lemma EachStep(cfg: Config, data: Bytes, offset: nat, events: seq<Event>)
    requires 1 <= offset <= |data|
    requires var g := GetFrom(cfg, data, offset);
             g.err.None? && NextTok(data, g.end) != -1 && data[NextTok(data, g.end)] == COMMA
    ensures var g := GetFrom(cfg, data, offset);
            After(events, EachFrom(cfg, data, offset))
            == After(events + [ElementEvent(g, offset)], EachFrom(cfg, data, NextTok(data, g.end) + 1))
  {
    hide GetFrom;
    var g := GetFrom(cfg, data, offset);
    var rest := EachFrom(cfg, data, NextTok(data, g.end) + 1).events;
    assert events + ([ElementEvent(g, offset)] + rest) == events + [ElementEvent(g, offset)] + rest;
  }

  /** Any other outcome ends the iteration. */
  lemma EachLast(cfg: Config, data: Bytes, offset: nat, events: seq<Event>)
    requires 1 <= offset <= |data|
    ensures var g := GetFrom(cfg, data, offset);
            g.end == offset ==> After(events, EachFrom(cfg, data, offset)) == Each(events, offset, g.err)
    ensures var g := GetFrom(cfg, data, offset);
            var all := events + [ElementEvent(g, offset)];
            g.end != offset && (g.err.Some? || NextTok(data, g.end) == -1 || data[NextTok(data, g.end)] != COMMA) ==>
              After(events, EachFrom(cfg, data, offset)) ==
              if g.err.Some? then Each(all, offset, g.err)
              else if NextTok(data, g.end) == -1 then Each(all, g.end, Some(MalformedArray))
              else Each(all, NextTok(data, g.end),
                        if data[NextTok(data, g.end)] == RBRACKET then None else Some(MalformedArray))
  {
    hide GetFrom;
    assert events + [] == events;
  }

  /** The element loop of ArrayEach; the callbacks are recorded in order. */
  method EachElements(cfg: Config, data: Bytes, start: nat) returns (events: seq<Event>, offset: int, err: Option<Error>)
    requires 1 <= start <= |data|
    ensures Each(events, offset, err) == EachFrom(cfg, data, start)
  {
    hide EachFrom, GetFrom;
    events := [];
    offset := start;
    while true
      invariant 1 <= offset <= |data|
      invariant EachFrom(cfg, data, start) == After(events, EachFrom(cfg, data, offset))
      decreases |data| - offset
    {
      EachLast(cfg, data, offset, events);
      var g := GetClosest(cfg, data, offset);
      if g.end == offset {
        return events, offset, g.err;
      }
      ghost var before := events;
      ghost var from := offset;
      events := events + [ElementEvent(g, offset)];
      if g.err.Some? {
        return events, offset, g.err;
      }
      offset := g.end;
      var skip := NextTokenFrom(data, offset);
      if skip == -1 {
        return events, offset, Some(MalformedArray);
      }
      offset := offset + skip;
      if data[offset] == RBRACKET {
        return events, offset, None;
      }
      if data[offset] != COMMA {
        return events, offset, Some(MalformedArray);
      }
      EachStep(cfg, data, from, before);
      offset := offset + 1;
    }
  }

  /** ArrayEach after the opening bracket has been read. */
  method EachAfterBracket(cfg: Config, data: Bytes, start: nat) returns (events: seq<Event>, offset: int, err: Option<Error>)
    requires 1 <= start <= |data|
    ensures Each(events, offset, err) == EachInside(cfg, data, start)
  {
    var nO := NextTokenFrom(data, start);
    if nO == -1 {
      return [], start, Some(MalformedJson);
    }
    if data[start + nO] == RBRACKET {
      return [], start + nO, None;
    }
    events, offset, err := EachElements(cfg, data, start + nO);
  }

  /** ArrayEach without keys. */
  method EachOfRoot(cfg: Config, data: Bytes) returns (events: seq<Event>, offset: int, err: Option<Error>)
    ensures Each(events, offset, err) == EachRoot(cfg, data)
  {
    if |data| == 0 {
      return [], -1, Some(MalformedObject);
    }
    var nT := NextToken(data);
    if nT == -1 {
      return [], -1, Some(MalformedJson);
    }
    if data[nT] != LBRACKET {
      return [], -1, Some(MalformedArray);
    }
    events, offset, err := EachAfterBracket(cfg, data, nT + 1);
  }

  /** Iteration over the array at keys. */
  function EachSpec(cfg: Config, data: Bytes, keys: Path): Each {
    if data == [] then Each([], -1, Some(MalformedObject))
    else if NextTok(data, 0) == -1 then Each([], -1, Some(MalformedJson))
    else if keys == [] then EachRoot(cfg, data)
    else
      var r := SearchKeysSpec(cfg, data, keys);
      if r == -1 then Each([], -1, Some(KeyPathNotFound))
      else
        var n := NextTok(data, r);
        if n == -1 then Each([], r, Some(MalformedJson))
        else if data[n] != LBRACKET then Each([], n, Some(MalformedArray))
        else EachInside(cfg, data, n + 1)
  }

  method ArrayEach(cfg: Config, data: Bytes, keys: Path) returns (events: seq<Event>, offset: int, err: Option<Error>)
    ensures Each(events, offset, err) == EachSpec(cfg, data, keys)
  {
    hide SearchKeysSpec, EachRoot, EachInside;
    if |data| == 0 {
      return [], -1, Some(MalformedObject);
    }
    var nT := NextToken(data);
    if nT == -1 {
      return [], -1, Some(MalformedJson);
    }
    if |keys| == 0 {
      events, offset, err := EachOfRoot(cfg, data);
      return;
    }
    offset := SearchKeys(cfg, data, keys);
    if offset == -1 {
      return [], offset, Some(KeyPathNotFound);
    }
    var nO := NextTokenFrom(data, offset);
    if nO == -1 {
      return [], offset, Some(MalformedJson);
    }
    offset := offset + nO;
    if data[offset] != LBRACKET {
      return [], offset, Some(MalformedArray);
    }
    events, offset, err := EachAfterBracket(cfg, data, offset + 1);
  }

  predicate Inert(c: byte) {
    c <= SPACE || (c > BACKSLASH && c != LBRACE && c != RBRACE)
  }

  // One unfolding of the search machine for each kind of byte.

  lemma StepKey(cfg: Config, data: Bytes, keys: Path, i: nat, level: int, keyLevel: int, lastMatched: bool)
    requires i < |data| && SafeLevels(level, keyLevel, |keys|) && IsQuote(cfg, data[i])
    ensures var scan := KeyScanAt(cfg, data, i);
            SearchRun(cfg, data, keys, i, level, keyLevel, lastMatched) ==
            match scan
            case Stop => -1
            case NotKey(n) => SearchRun(cfg, data, keys, n, level, keyLevel, lastMatched)
            case KeyAt(k, n) =>
              if level < 1 || level > |keys| then -1
              else if k == keys[level - 1] && keyLevel == level - 1 && level == |keys| then n + 1
              else SearchRun(cfg, data, keys, n + 1, level,
                             if k == keys[level - 1] && keyLevel == level - 1 then level else keyLevel, k == keys[level - 1])
  {
    hide KeyScanAt;
  }

  lemma StepBrace(cfg: Config, data: Bytes, keys: Path, i: nat, level: int, keyLevel: int, lastMatched: bool)
    requires i < |data| && SafeLevels(level, keyLevel, |keys|)
    ensures data[i] == LBRACE && lastMatched ==>
              SearchRun(cfg, data, keys, i, level, keyLevel, lastMatched)
              == SearchRun(cfg, data, keys, i + 1, level + 1, keyLevel, lastMatched)
    ensures data[i] == LBRACE && !lastMatched ==>
              SearchRun(cfg, data, keys, i, level, keyLevel, lastMatched)
              == var end := BlockEndAt(cfg, data, i, LBRACE, RBRACE);
                 if end == -1 then -1 else SearchRun(cfg, data, keys, end, level, keyLevel, lastMatched)
    ensures data[i] == RBRACE ==>
              SearchRun(cfg, data, keys, i, level, keyLevel, lastMatched)
              == SearchRun(cfg, data, keys, i + 1, level - 1, if level - 1 == keyLevel then keyLevel - 1 else keyLevel,
                           lastMatched)
  {
    hide KeyScanAt, BlockEndAt;
  }

  lemma StepBracket(cfg: Config, data: Bytes, keys: Path, i: nat, level: int, keyLevel: int, lastMatched: bool)
    requires i < |data| && SafeLevels(level, keyLevel, |keys|) && data[i] == LBRACKET
    ensures keyLevel == level && IsIndexKey(keys[level]) ==>
              SearchRun(cfg, data, keys, i, level, keyLevel, lastMatched)
              == SearchIndex(cfg, data[i..], keys[level], keys[level + 1..], i)
    ensures !(keyLevel == level && IsIndexKey(keys[level])) ==>
              SearchRun(cfg, data, keys, i, level, keyLevel, lastMatched)
              == var end := BlockEndAt(cfg, data, i, LBRACKET, RBRACKET);
                 if end == -1 then -1 else SearchRun(cfg, data, keys, end, level, keyLevel, lastMatched)
  {
    hide KeyScanAt, BlockEndAt;
  }

  predicate IsStructural(cfg: Config, c: byte) {
    IsQuote(cfg, c) || c == LBRACE || c == RBRACE || c == LBRACKET || c == COLON
  }

  lemma StepOther(cfg: Config, data: Bytes, keys: Path, i: nat, level: int, keyLevel: int, lastMatched: bool)
    requires i < |data| && SafeLevels(level, keyLevel, |keys|)
    ensures data[i] == COLON ==> SearchRun(cfg, data, keys, i, level, keyLevel, lastMatched) == -1
    ensures !IsStructural(cfg, data[i]) ==>
              SearchRun(cfg, data, keys, i, level, keyLevel, lastMatched)
              == SearchRun(cfg, data, keys, i + 1, level, keyLevel, lastMatched)
  {
    hide KeyScanAt, BlockEndAt;
  }

  lemma StepEnd(cfg: Config, data: Bytes, keys: Path, level: int, keyLevel: int, lastMatched: bool)
    requires SafeLevels(level, keyLevel, |keys|)
    ensures SearchRun(cfg, data, keys, |data|, level, keyLevel, lastMatched) == -1
  {
  }

  lemma InertStep(cfg: Config, data: Bytes, keys: Path, i: nat, level: int, keyLevel: int, lastMatched: bool)
    requires i < |data| && SafeLevels(level, keyLevel, |keys|) && Inert(data[i])
    ensures SearchRun(cfg, data, keys, i, level, keyLevel, lastMatched)
         == SearchRun(cfg, data, keys, i + 1, level, keyLevel, lastMatched)
  {
  }

  /** The bulk skip at the top of the search loop. */
  method SkipInert(cfg: Config, data: Bytes, start: nat, ghost keys: Path, ghost level: int, ghost keyLevel: int,
                   ghost lastMatched: bool) returns (i: nat)
    requires start <= |data| && SafeLevels(level, keyLevel, |keys|)
    ensures start <= i <= |data| && (i < |data| ==> !Inert(data[i]))
    ensures SearchRun(cfg, data, keys, start, level, keyLevel, lastMatched)
         == SearchRun(cfg, data, keys, i, level, keyLevel, lastMatched)
  {
    i := start;
    while i < |data|
      invariant start <= i <= |data|
      invariant SearchRun(cfg, data, keys, start, level, keyLevel, lastMatched)
             == SearchRun(cfg, data, keys, i, level, keyLevel, lastMatched)
    {
      var c := data[i];
      if c <= SPACE || (c > BACKSLASH && c != LBRACE && c != RBRACE) {
        InertStep(cfg, data, keys, i, level, keyLevel, lastMatched);
        i := i + 1;
        continue;
      }
      break;
    }
  }

  method ScanKey(cfg: Config, data: Bytes, i: nat, stackbuf: array<byte>) returns (r: KeyScan)
    requires i < |data| && data[i] < BACKSLASH
    modifies stackbuf
    ensures r == KeyScanAt(cfg, data, i)
  {
    var strEnd, escaped := StringEndFrom(data, i + 1, data[i]);
    if strEnd == -1 {
      return Stop;
    }
    var e := i + 1 + strEnd;
    var key := data[i + 1..e - 1];
    var valueOffset := NextTokenFrom(data, e);
    if valueOffset == -1 {
      return Stop;
    }
    var n := e + valueOffset;
    if data[n] != COLON {
      return NotKey(n);
    }
    if !escaped {
      UnescapedIdentity(cfg, key);
      return KeyAt(key, n);
    }
    var ku := Unescape(cfg, key, stackbuf);
    if ku.None? {
      return Stop;
    }
    return KeyAt(ku.value, n);
  }

  /** searchKeysConfig: the loop with its bulk skips, level counters and early exits. */
  method SearchKeys(cfg: Config, data: Bytes, keys: Path) returns (r: int)
    ensures r == SearchKeysSpec(cfg, data, keys)
    decreases |keys|
  {
    hide SearchRun, KeyScanAt, BlockEndAt, SearchIndex;
    var keyLevel, level, i: nat := 0, 0, 0;
    var lastMatched := true;
    if |keys| == 0 {
      return 0;
    }
    var stackbuf := new byte[64](_ => 0);
    while i < |data|
      invariant i <= |data| && SafeLevels(level, keyLevel, |keys|)
      invariant SearchKeysSpec(cfg, data, keys) == SearchRun(cfg, data, keys, i, level, keyLevel, lastMatched)
    {
      i := SkipInert(cfg, data, i, keys, level, keyLevel, lastMatched);
      if i >= |data| {
        break;
      }
      var c := data[i];
      StepOther(cfg, data, keys, i, level, keyLevel, lastMatched);
      if c == QUOTE || (c == APOSTROPHE && cfg.allowSingleQuotes) {
        StepKey(cfg, data, keys, i, level, keyLevel, lastMatched);
        var scan := ScanKey(cfg, data, i, stackbuf);
        match scan {
          case Stop => return -1;
          case NotKey(n) => i := n;
          case KeyAt(k, n) =>
            if level < 1 || level > |keys| {
              return -1;
            }
            if k == keys[level - 1] {
              lastMatched := true;
              if keyLevel == level - 1 {
                keyLevel := keyLevel + 1;
                if keyLevel == |keys| {
                  return n + 1;
                }
              }
            } else {
              lastMatched := false;
            }
            i := n + 1;
        }
        continue;
      }
      StepBrace(cfg, data, keys, i, level, keyLevel, lastMatched);
      if c == LBRACE {
        if !lastMatched {
          var end := BlockEndFrom(cfg, data, i, LBRACE, RBRACE);
          if end == -1 {
            return -1;
          }
          i := i + end;
          continue;
        } else {
          level := level + 1;
        }
      } else if c == RBRACE {
        level := level - 1;
        if level == keyLevel {
          keyLevel := keyLevel - 1;
        }
      } else if c == LBRACKET {
        StepBracket(cfg, data, keys, i, level, keyLevel, lastMatched);
        if keyLevel == level && |keys[level]| > 0 && keys[level][0] == LBRACKET {
          r := SearchElement(cfg, data[i..], keys[level], keys[level + 1..], i);
          return;
        } else {
          var skip := BlockEndFrom(cfg, data, i, LBRACKET, RBRACKET);
          if skip == -1 {
            return -1;
          }
          i := i + skip;
          continue;
        }
      } else if c == COLON {
        return -1;
      }
      i := i + 1;
    }
    StepEnd(cfg, data, keys, level, keyLevel, lastMatched);
    return -1;
  }

  /** The index branch of the search: iterate, keep the selected element, search the remaining keys in it. */
  method SearchElement(cfg: Config, arr: Bytes, key: Bytes, rest: Path, base: nat) returns (r: int)
    ensures r == SearchIndex(cfg, arr, key, rest, base)
    decreases |rest| + 1, 0
  {
    if |key| < 3 || key[|key| - 1] != RBRACKET {
      return -1;
    }
    var aIdx := Atoi(key[1..|key| - 1]);
    if aIdx.None? {
      return -1;
    }
    var events, _, _ := EachOfRoot(cfg, arr);
    var found := Picked(arr, events, aIdx.value);
    if found.None? {
      return -1;
    }
    var (value, valueOffset) := found.value;
    var subIndex := SearchKeys(cfg, value, rest);
    if subIndex < 0 {
      return -1;
    }
    return base + valueOffset + subIndex;
  }
}
