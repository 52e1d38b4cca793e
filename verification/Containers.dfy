/**
 * parser.go: ObjectEach, and the length of an array or object counted by a state machine without callbacks.
 * A length that is returned is the number of callbacks the iteration would make.
 */
module Containers {
  import opened Bytes
  import opened Strings
  import opened Escapes
  import opened Scanners
  import opened Syntax
  import opened Layout
  import opened Blocks
  import opened Lookup
  import opened Callbacks
  import opened TreeValues

  // ---- numbers and literals ----

  /** First offset at or after i that holds no digit. */
  function DigitsEnd(s: Bytes, i: nat): (r: nat)
    requires i <= |s|
    ensures i <= r <= |s| && (r < |s| ==> !IsDigit(s[r]))
    ensures forall k :: i <= k < r ==> IsDigit(s[k])
    decreases |s| - i
  {
    if i < |s| && IsDigit(s[i]) then DigitsEnd(s, i + 1) else i
  }

  lemma {:induction false} DigitsEndIs(s: Bytes, i: nat, j: nat)
    requires i <= j <= |s| && (forall k :: i <= k < j ==> IsDigit(s[k])) && (j < |s| ==> !IsDigit(s[j]))
    ensures DigitsEnd(s, i) == j
    decreases j - i
  {
    if i < j { DigitsEndIs(s, i + 1, j); }
  }

  function SignEnd(s: Bytes): (r: nat)
    ensures r <= |s|
  {
    if s != [] && s[0] == MINUS then 1 else 0
  }

  function FracEnd(s: Bytes, b: nat): (r: nat)
    requires b <= |s|
    ensures b <= r <= |s|
  {
    if b < |s| && s[b] == DOT then DigitsEnd(s, b + 1) else b
  }

  lemma DigitsOfSlice(s: Bytes, i: nat, j: nat)
    requires i <= j <= |s|
    ensures AllDigits(s[i..j]) <==> forall k :: i <= k < j ==> IsDigit(s[k])
  {
    if AllDigits(s[i..j]) {
      forall k | i <= k < j ensures IsDigit(s[k]) { assert s[i..j][k - i] == s[k]; }
    }
  }

  /** A number can be cut in only one way. */
  lemma CutsForced(s: Bytes, a: nat, b: nat, c: nat)
    requires NumberParts(s, a, b, c)
    ensures a == SignEnd(s) && b == DigitsEnd(s, a) && c == FracEnd(s, b)
  {
    assert s[a..b][0] == s[a];
    DigitsOfSlice(s, a, b);
    if c < |s| { assert s[c..][0] == s[c]; }
    if b < c {
      assert s[b..c][0] == s[b] && s[b..c][1..] == s[b + 1..c];
      DigitsOfSlice(s, b + 1, c);
      DigitsEndIs(s, b + 1, c);
    }
    DigitsEndIs(s, a, b);
  }

  lemma NumberIsCut(s: Bytes)
    ensures IsNumber(s) <==> NumberParts(s, SignEnd(s), DigitsEnd(s, SignEnd(s)), FracEnd(s, DigitsEnd(s, SignEnd(s))))
  {
    if IsNumber(s) {
      var a: nat, b: nat, c: nat :| NumberParts(s, a, b, c);
      CutsForced(s, a, b, c);
    }
  }

  method SkipDigits(s: Bytes, start: nat) returns (i: nat)
    requires start <= |s|
    ensures i == DigitsEnd(s, start)
  {
    i := start;
    while i < |s| && ZERO <= s[i] <= NINE
      invariant start <= i <= |s| && DigitsEnd(s, start) == DigitsEnd(s, i)
    {
      i := i + 1;
    }
  }

  /** The integer part: where it ends, if there is one. */
  method ScanInt(s: Bytes, start: nat) returns (ok: bool, i: nat)
    requires start < |s|
    ensures ok <==> IsInt(s[start..DigitsEnd(s, start)])
    ensures ok ==> i == DigitsEnd(s, start)
  {
    i := start;
    var end := DigitsEnd(s, start);
    DigitsOfSlice(s, start, end);
    if s[i] == ZERO {
      i := i + 1;
      if i < |s| && ZERO <= s[i] <= NINE {
        assert end > start + 1;
        return false, i;
      }
      assert DigitsEnd(s, start) == DigitsEnd(s, i) == i;
      return true, i;
    }
    if s[i] < ZERO + 1 || s[i] > NINE {
      return false, i;
    }
    i := SkipDigits(s, start);
    return true, i;
  }

  method ScanFrac(s: Bytes, start: nat) returns (ok: bool, i: nat)
    requires start <= |s|
    ensures i == FracEnd(s, start)
    ensures ok <==> IsFrac(s[start..i])
  {
    i := start;
    if i < |s| && s[i] == DOT {
      i := SkipDigits(s, start + 1);
      DigitsOfSlice(s, start + 1, i);
      assert s[start..i][1..] == s[start + 1..i];
      return i != start + 1, i;
    }
    return true, i;
  }

  method ScanExp(s: Bytes, start: nat) returns (ok: bool)
    requires start <= |s|
    ensures ok <==> IsExp(s[start..])
  {
    var i := start;
    if i < |s| && (s[i] == LOWER_E || s[i] == UPPER_E) {
      i := i + 1;
      if i < |s| && (s[i] == PLUS || s[i] == MINUS) {
        i := i + 1;
      }
      var first := i;
      i := SkipDigits(s, first);
      ExpDigits(s, start, first);
      DigitsOfSlice(s, first, |s|);
      return i != first && i == |s|;
    }
    if start < |s| { assert s[start..][0] == s[start]; }
    return i == |s|;
  }

  lemma ExpDigits(s: Bytes, start: nat, first: nat)
    requires start < |s| && (s[start] == LOWER_E || s[start] == UPPER_E)
    requires first == if start + 1 < |s| && (s[start + 1] == PLUS || s[start + 1] == MINUS) then start + 2 else start + 1
    ensures IsExp(s[start..]) <==> first < |s| && AllDigits(s[first..])
  {
    var t := s[start..];
    assert t[1..] == s[start + 1..];
    if |t| >= 2 {
      assert t[2..] == s[start + 2..];
      if first == start + 2 { assert s[start + 1..][0] == s[start + 1]; }
    }
  }

  /** Exactly the numbers of section 6 of RFC 8259. */
  method ValidJSONNumber(value: Bytes) returns (r: bool)
    requires value != []
    ensures r <==> IsNumber(value)
  {
    hide IsInt, IsFrac, IsExp;
    NumberIsCut(value);
    var i := 0;
    if value[i] == MINUS {
      i := i + 1;
      if i == |value| {
        NoDigits(value[1..1]);
        return false;
      }
    }
    var ok;
    ok, i := ScanInt(value, i);
    if !ok {
      return false;
    }
    ok, i := ScanFrac(value, i);
    if !ok {
      return false;
    }
    r := ScanExp(value, i);
  }

  lemma NoDigits(s: Bytes)
    requires s == []
    ensures !IsInt(s)
  {
  }

  /** Without trailing whitespace. */
  function Trim(s: Bytes): Bytes {
    s[..LastTok(s, |s|) + 1]
  }

  lemma {:induction false} TrimStep(s: Bytes)
    requires s != []
    ensures IsSpace(s[|s| - 1]) ==> Trim(s) == Trim(s[..|s| - 1])
    ensures !IsSpace(s[|s| - 1]) ==> Trim(s) == s
  {
    if IsSpace(s[|s| - 1]) {
      LastTokPrefix(s, |s| - 1, |s| - 1);
      assert s[..|s| - 1][..LastTok(s, |s|) + 1] == s[..LastTok(s, |s|) + 1];
    }
  }

  /** A literal or number, possibly followed by whitespace. */
  method ValidContainerPrimitive(text: Bytes) returns (r: bool)
    ensures r <==> IsPrimitive(Trim(text))
  {
    var value := text;
    while |value| > 0 && IsSpace(value[|value| - 1])
      invariant Trim(value) == Trim(text)
    {
      TrimStep(value);
      value := value[..|value| - 1];
    }
    if |value| == 0 {
      NotPrimitive();
      return false;
    }
    TrimStep(value);
    if value == TRUE || value == FALSE || value == NULL {
      return true;
    }
    r := ValidJSONNumber(value);
  }

  lemma NotPrimitive()
    ensures !IsPrimitive([]) && Trim([]) == []
  {
    if IsPrimitive([]) { PrimShape([]); }
  }

  // ---- the counting machine, one phase at a time ----

  /** Before an element or a member name; count entries are complete. */
  ghost function ItemFrom(obj: bool, data: Bytes, i: nat, count: nat): Option<nat>
    requires i <= |data|
    decreases |data| - i, 4
  {
    var n := NextTok(data, i);
    if n == -1 then None
    else if data[n] == Close(obj) then (if count == 0 then Some(0) else None)
    else if !obj then ValueAt(obj, data, n, count)
    else if data[n] != QUOTE then None
    else
      var e := StrEnd(data, n + 1, QUOTE);
      if e == -1 then None else ColonFrom(data, e, count)
  }

  ghost function ColonFrom(data: Bytes, i: nat, count: nat): Option<nat>
    requires i <= |data|
    decreases |data| - i, 3
  {
    var n := NextTok(data, i);
    if n == -1 || data[n] != COLON then None else MemberValueFrom(data, n + 1, count)
  }

  ghost function MemberValueFrom(data: Bytes, i: nat, count: nat): Option<nat>
    requires i <= |data|
    decreases |data| - i, 3
  {
    var n := NextTok(data, i);
    if n == -1 then None else ValueAt(true, data, n, count)
  }

  /** At the first byte of a value. */
  ghost function ValueAt(obj: bool, data: Bytes, n: nat, count: nat): Option<nat>
    requires n < |data|
    decreases |data| - n, 2
  {
    var c := data[n];
    if c == COMMA || c == RBRACE || c == RBRACKET || c == COLON then None
    else if c == QUOTE then
      var e := StrEnd(data, n + 1, QUOTE);
      if e == -1 then None else DelimiterFrom(obj, data, e, count + 1)
    else if c == LBRACKET || c == LBRACE then NestedFrom(obj, data, n + 1, [Close(c == LBRACE)], count + 1)
    else PrimitiveFrom(obj, data, n, n, count + 1)
  }

  /** Inside a nested array or object. */
  ghost function NestedFrom(obj: bool, data: Bytes, i: nat, stack: seq<byte>, count: nat): Option<nat>
    requires i <= |data|
    decreases |data| - i, 1
  {
    match StackFrom(STRICT, data, i, stack)
    case Found(at) => DelimiterFrom(obj, data, at, count)
    case _ => None
  }

  /** Inside a number or literal that began at start. */
  ghost function PrimitiveFrom(obj: bool, data: Bytes, start: nat, i: nat, count: nat): Option<nat>
    requires start <= i <= |data|
    decreases |data| - i, 1
  {
    if i == |data| then None
    else if data[i] == COMMA then
      if IsPrimitive(Trim(data[start..i])) then ItemFrom(obj, data, i + 1, count) else None
    else if data[i] == Close(obj) then
      if IsPrimitive(Trim(data[start..i])) then Some(count) else None
    else if data[i] == Close(!obj) then None
    else PrimitiveFrom(obj, data, start, i + 1, count)
  }

  /** Behind a string or a nested container. */
  ghost function DelimiterFrom(obj: bool, data: Bytes, i: nat, count: nat): Option<nat>
    requires i <= |data|
    decreases |data| - i, 0
  {
    var n := NextTok(data, i);
    if n == -1 then None
    else if data[n] == COMMA then ItemFrom(obj, data, n + 1, count)
    else if data[n] == Close(obj) then Some(count)
    else None
  }

  datatype State = Item | MemberColon | MemberValue | Primitive | Delimiter

  /** What the machine will answer in a given state; stack is what is nested inside the addressed container. */
  ghost function Outcome(obj: bool, data: Bytes, i: nat, state: State, start: nat, stack: seq<byte>, count: nat): Option<nat>
    requires i <= |data| && start <= i
  {
    if stack != [] then NestedFrom(obj, data, i, stack, count)
    else match state
      case Item => ItemFrom(obj, data, i, count)
      case MemberColon => ColonFrom(data, i, count)
      case MemberValue => MemberValueFrom(data, i, count)
      case Primitive => PrimitiveFrom(obj, data, start, i, count)
      case Delimiter => DelimiterFrom(obj, data, i, count)
  }

  lemma SpaceStep(obj: bool, data: Bytes, i: nat, state: State, start: nat, count: nat)
    requires i < |data| && start <= i && IsSpace(data[i]) && state != Primitive
    ensures Outcome(obj, data, i, state, start, [], count) == Outcome(obj, data, i + 1, state, start, [], count)
  {
    hide StackFrom, StrEndFrom, ValueAt;
  }

  lemma OutOfBytes(obj: bool, data: Bytes, state: State, start: nat, stack: seq<byte>, count: nat)
    requires start <= |data|
    ensures Outcome(obj, data, |data|, state, start, stack, count) == None
  {
  }

  /** Inside a nested container: the stack scan, byte by byte. */
  method StepNested(data: Bytes, i: nat, stack: seq<byte>, ghost obj: bool, ghost count: nat)
    returns (ok: bool, i': nat, stack': seq<byte>)
    requires i < |data| && stack != []
    ensures !ok ==> NestedFrom(obj, data, i, stack, count) == None
    ensures ok ==> i < i' <= |data|
    ensures ok ==> NestedFrom(obj, data, i, stack, count) == Outcome(obj, data, i', Delimiter, 0, stack', count)
  {
    hide DelimiterFrom, StrEndFrom;
    var c := data[i];
    if c == QUOTE {
      var n, _ := StringEndFrom(data, i + 1, QUOTE);
      if n == -1 {
        return false, i, stack;
      }
      return true, i + 1 + n, stack;
    } else if c == LBRACKET {
      return true, i + 1, stack + [RBRACKET];
    } else if c == LBRACE {
      return true, i + 1, stack + [RBRACE];
    } else if c == RBRACKET || c == RBRACE {
      if c != stack[|stack| - 1] {
        return false, i, stack;
      }
      assert StackFrom(STRICT, data, i, stack) == StackFrom(STRICT, data, i + 1, stack[..|stack| - 1]);
      return true, i + 1, stack[..|stack| - 1];
    }
    return true, i + 1, stack;
  }

  /** The first byte of an element or member value. */
  method StepValue(data: Bytes, i: nat, ghost obj: bool, ghost count: nat) returns (ok: bool, i': nat, state: State, stack: seq<byte>)
    requires i < |data|
    ensures !ok ==> ValueAt(obj, data, i, count) == None
    ensures ok ==> i < i' <= |data| && (state == Delimiter || (state == Primitive && stack == []))
    ensures ok ==> ValueAt(obj, data, i, count) == Outcome(obj, data, i', state, i, stack, count + 1)
  {
    hide StackFrom, StrEndFrom, DelimiterFrom, ItemFrom;
    var c := data[i];
    if c == COMMA || c == RBRACE || c == RBRACKET || c == COLON {
      return false, i, Item, [];
    }
    if c == QUOTE {
      var n, _ := StringEndFrom(data, i + 1, QUOTE);
      if n == -1 {
        return false, i, Item, [];
      }
      return true, i + 1 + n, Delimiter, [];
    } else if c == LBRACKET {
      return true, i + 1, Delimiter, [RBRACKET];
    } else if c == LBRACE {
      return true, i + 1, Delimiter, [RBRACE];
    }
    return true, i + 1, Primitive, [];
  }

  // One unfolding of each phase at a byte that is not whitespace.

  lemma ItemHere(obj: bool, data: Bytes, i: nat, count: nat)
    requires i < |data| && !IsSpace(data[i])
    ensures ItemFrom(obj, data, i, count)
         == if data[i] == Close(obj) then (if count == 0 then Some(0) else None)
            else if !obj then ValueAt(obj, data, i, count)
            else if data[i] != QUOTE || StrEnd(data, i + 1, QUOTE) == -1 then None
            else ColonFrom(data, StrEnd(data, i + 1, QUOTE), count)
  {
    hide ValueAt, StrEndFrom;
  }

  lemma MemberHere(data: Bytes, i: nat, count: nat)
    requires i < |data| && !IsSpace(data[i])
    ensures ColonFrom(data, i, count) == if data[i] == COLON then MemberValueFrom(data, i + 1, count) else None
    ensures MemberValueFrom(data, i, count) == ValueAt(true, data, i, count)
  {
    hide ValueAt, StrEndFrom;
  }

  lemma DelimiterHere(obj: bool, data: Bytes, i: nat, count: nat)
    requires i < |data| && !IsSpace(data[i])
    ensures DelimiterFrom(obj, data, i, count)
         == if data[i] == COMMA then ItemFrom(obj, data, i + 1, count)
            else if data[i] == Close(obj) then Some(count) else None
  {
    hide ItemFrom;
  }

  lemma PrimitiveHere(obj: bool, data: Bytes, start: nat, i: nat, count: nat)
    requires start <= i < |data|
    ensures PrimitiveFrom(obj, data, start, i, count)
         == if data[i] == COMMA then (if IsPrimitive(Trim(data[start..i])) then ItemFrom(obj, data, i + 1, count) else None)
            else if data[i] == Close(obj) then (if IsPrimitive(Trim(data[start..i])) then Some(count) else None)
            else if data[i] == Close(!obj) then None
            else PrimitiveFrom(obj, data, start, i + 1, count)
  {
    hide ItemFrom, IsPrimitive, Trim;
  }

  /** scanContainerLen: None stands for the malformed error. */
  method ScanContainerLen(data: Bytes, offset: nat, obj: bool) returns (r: Option<nat>)
    requires offset < |data|
    ensures r == ItemFrom(obj, data, offset + 1, 0)
  {
    hide ItemFrom, ColonFrom, MemberValueFrom, ValueAt, NestedFrom, PrimitiveFrom, DelimiterFrom, StrEndFrom, StackFrom, Trim, IsPrimitive;
    var close := Close(obj);
    var state := Item;
    var stack: seq<byte> := [];
    var count: nat := 0;
    var primitiveStart: nat := 0;
    var i: nat := offset + 1;
    while i < |data|
      invariant primitiveStart <= i <= |data|
      invariant ItemFrom(obj, data, offset + 1, 0) == Outcome(obj, data, i, state, primitiveStart, stack, count)
      invariant stack != [] ==> state == Delimiter
      invariant state == MemberColon || state == MemberValue ==> obj
      decreases |data| - i
    {
      var c := data[i];
      var ok;
      if |stack| > 0 {
        ok, i, stack := StepNested(data, i, stack, obj, count);
        if !ok {
          return None;
        }
        continue;
      }
      if state != Primitive && IsSpace(c) {
        SpaceStep(obj, data, i, state, primitiveStart, count);
        i := i + 1;
        continue;
      }
      match state {
        case Item =>
          ItemHere(obj, data, i, count);
          if c == close {
            return if count == 0 then Some(0) else None;
          }
          if obj {
            if c != QUOTE {
              return None;
            }
            var n, _ := StringEndFrom(data, i + 1, QUOTE);
            if n == -1 {
              return None;
            }
            i := i + 1 + n;
            state := MemberColon;
          } else {
            primitiveStart := i;
            ok, i, state, stack := StepValue(data, i, obj, count);
            if !ok {
              return None;
            }
            count := count + 1;
          }
        case MemberColon =>
          MemberHere(data, i, count);
          if c != COLON {
            return None;
          }
          state := MemberValue;
          i := i + 1;
        case MemberValue =>
          MemberHere(data, i, count);
          primitiveStart := i;
          ok, i, state, stack := StepValue(data, i, obj, count);
          if !ok {
            return None;
          }
          count := count + 1;
        case Primitive =>
          PrimitiveHere(obj, data, primitiveStart, i, count);
          if c == COMMA || c == close {
            var valid := ValidContainerPrimitive(data[primitiveStart..i]);
            if !valid {
              return None;
            }
            if c == close {
              return Some(count);
            }
            state := Item;
          } else if c == RBRACE || c == RBRACKET {
            return None;
          }
          i := i + 1;
        case Delimiter =>
          DelimiterHere(obj, data, i, count);
          if c == close {
            return Some(count);
          }
          if c != COMMA {
            return None;
          }
          state := Item;
          i := i + 1;
      }
    }
    OutOfBytes(obj, data, state, primitiveStart, stack, count);
    return None;
  }

  // ---- ObjectEach ----

  /** One callback: decoded name, value, type and offset argument. */
  datatype MemberEvent = MemberEvent(key: Bytes, value: Bytes, t: ValueType, off: int)

  /** A whole iteration with a callback that never fails. */
  datatype Members = Members(events: seq<MemberEvent>, err: Option<Error>)

  /** The name of the member at offset and the offset behind its colon, or the error. */
  datatype KeyRead = KeyRead(key: Bytes, at: nat) | KeyError(err: Error)

  function KeyReadAt(cfg: Config, data: Bytes, offset: nat): (r: KeyRead)
    requires offset < |data|
    ensures r.KeyRead? ==> offset < r.at <= |data|
  {
    if !IsQuote(cfg, data[offset]) then KeyError(MalformedObject)
    else
      var e := StrEnd(data, offset + 1, data[offset]);
      if e == -1 then KeyError(MalformedJson)
      else match Unescaped(cfg, data[offset + 1..e - 1])
        case None => KeyError(MalformedStringEscape)
        case Some(key) =>
          var n := NextTok(data, e);
          if n == -1 || data[n] != COLON then KeyError(MalformedJson) else KeyRead(key, n + 1)
  }

  /** Behind a member value: the first byte of the next member, the end, or the error. */
  datatype After = NextMember(at: nat) | Done(err: Option<Error>)

  function AfterMember(data: Bytes, end: nat): (r: After)
    requires end <= |data|
    ensures r.NextMember? ==> end < r.at < |data|
  {
    var m := NextTok(data, end);
    if m == -1 then Done(Some(MalformedArray))
    else if data[m] == RBRACE then Done(None)
    else if data[m] != COMMA then Done(Some(MalformedObject))
    else
      var p := NextTok(data, m + 1);
      if p == -1 then Done(Some(MalformedArray)) else NextMember(p)
  }

  function MembersFrom(cfg: Config, data: Bytes, offset: nat): Members
    requires offset < |data|
    decreases |data| - offset
  {
    if data[offset] == RBRACE then Members([], None)
    else match KeyReadAt(cfg, data, offset)
      case KeyError(e) => Members([], Some(e))
      case KeyRead(key, at) =>
        var g := GetFrom(cfg, data, at);
        if g.err.Some? then Members([], g.err)
        else
          var ev := MemberEvent(key, g.value, g.t, g.end);
          match AfterMember(data, g.end)
          case Done(err) => Members([ev], err)
          case NextMember(p) => Later([ev], MembersFrom(cfg, data, p))
  }

  /** The callbacks made so far, followed by the rest of an iteration. */
  function Later(events: seq<MemberEvent>, rest: Members): Members {
    Members(events + rest.events, rest.err)
  }

  function MembersInside(cfg: Config, data: Bytes, offset: nat): Members
    requires offset <= |data|
  {
    var n := NextTok(data, offset);
    if n == -1 then Members([], Some(MalformedJson)) else MembersFrom(cfg, data, n)
  }

  function MembersSpec(cfg: Config, data: Bytes, keys: Path): Members {
    var r := SearchKeysSpec(cfg, data, keys);
    if r == -1 then Members([], Some(KeyPathNotFound))
    else
      var n := NextTok(data, r);
      if n == -1 || data[n] != LBRACE then Members([], Some(MalformedObject)) else MembersInside(cfg, data, n + 1)
  }

  lemma LaterStep(cfg: Config, data: Bytes, offset: nat, events: seq<MemberEvent>)
    requires offset < |data| && data[offset] != RBRACE
    ensures var all := Later(events, MembersFrom(cfg, data, offset));
            match KeyReadAt(cfg, data, offset)
            case KeyError(e) => all == Members(events, Some(e))
            case KeyRead(key, at) =>
              var g := GetFrom(cfg, data, at);
              if g.err.Some? then all == Members(events, g.err)
              else
                var more := events + [MemberEvent(key, g.value, g.t, g.end)];
                match AfterMember(data, g.end)
                case Done(err) => all == Members(more, err)
                case NextMember(p) => all == Later(more, MembersFrom(cfg, data, p))
  {
    hide KeyReadAt, GetFrom, AfterMember;
    assert events + [] == events;
    match KeyReadAt(cfg, data, offset)
    case KeyError(_) =>
    case KeyRead(key, at) =>
      var g := GetFrom(cfg, data, at);
      if g.err.None? && AfterMember(data, g.end).NextMember? {
        var ev := MemberEvent(key, g.value, g.t, g.end);
        var rest := MembersFrom(cfg, data, AfterMember(data, g.end).at).events;
        assert events + ([ev] + rest) == events + [ev] + rest;
      }
  }

  method ReadKey(cfg: Config, data: Bytes, start: nat, stackbuf: array<byte>) returns (r: KeyRead)
    requires start < |data|
    modifies stackbuf
    ensures r == KeyReadAt(cfg, data, start)
  {
    if data[start] != QUOTE && !(data[start] == APOSTROPHE && cfg.allowSingleQuotes) {
      return KeyError(MalformedObject);
    }
    var off, keyEscaped := StringEndFrom(data, start + 1, data[start]);
    if off == -1 {
      return KeyError(MalformedJson);
    }
    var e := start + 1 + off;
    var key := data[start + 1..e - 1];
    if keyEscaped {
      var unescaped := Unescape(cfg, key, stackbuf);
      if unescaped.None? {
        return KeyError(MalformedStringEscape);
      }
      key := unescaped.value;
    } else {
      UnescapedIdentity(cfg, key);
    }
    var n := NextTokenFrom(data, e);
    if n == -1 || data[e + n] != COLON {
      return KeyError(MalformedJson);
    }
    return KeyRead(key, e + n + 1);
  }

  method SkipSeparator(data: Bytes, end: nat) returns (r: After)
    requires end <= |data|
    ensures r == AfterMember(data, end)
  {
    var off := NextTokenFrom(data, end);
    if off == -1 {
      return Done(Some(MalformedArray));
    }
    var offset := end + off;
    if data[offset] == RBRACE {
      return Done(None);
    }
    if data[offset] != COMMA {
      return Done(Some(MalformedObject));
    }
    offset := offset + 1;
    off := NextTokenFrom(data, offset);
    if off == -1 {
      return Done(Some(MalformedArray));
    }
    return NextMember(offset + off);
  }

  /** The iteration made all its calls, or those up to the one at which the callback stopped it. */
  ghost predicate Iterated(cb: Callback<MemberEvent>, all: Members, events: seq<MemberEvent>, err: Option<Error>, v: Verdict) {
    Cuts(cb, events, all.events, v) && err == (if v == Continue then all.err else None)
  }

  /** The member loop of ObjectEach; the callbacks are recorded in order. */
  method EachMember(cfg: Config, data: Bytes, start: nat, cb: Callback<MemberEvent>)
    returns (events: seq<MemberEvent>, err: Option<Error>, v: Verdict)
    requires start < |data|
    ensures Iterated(cb, MembersFrom(cfg, data, start), events, err, v)
  {
    hide MembersFrom, KeyReadAt, GetFrom, AfterMember, Quiet, Cuts;
    var stackbuf := new byte[64](_ => 0);
    events, v := [], Continue;
    QuietStart(cb);
    var offset := start;
    assert [] + MembersFrom(cfg, data, start).events == MembersFrom(cfg, data, start).events;
    while true
      invariant offset < |data| && v == Continue && Quiet(cb, events)
      invariant MembersFrom(cfg, data, start) == Later(events, MembersFrom(cfg, data, offset))
      decreases |data| - offset
    {
      CutsNothing(cb, events);
      if data[offset] == RBRACE {
        MembersEnd(cfg, data, offset);
        assert events + [] == events;
        return events, None, Continue;
      }
      LaterStep(cfg, data, offset, events);
      var key := ReadKey(cfg, data, offset, stackbuf);
      if key.KeyError? {
        return events, Some(key.err), Continue;
      }
      var g := GetClosest(cfg, data, key.at);
      if g.err.Some? {
        return events, g.err, Continue;
      }
      QuietStep(cb, events, MemberEvent(key.key, g.value, g.t, g.end));
      events := events + [MemberEvent(key.key, g.value, g.t, g.end)];
      v := cb(events);
      if v != Continue {
        CutsMore(cb, events, events, MembersFrom(cfg, data, start).events, v);
        return events, None, v;
      }
      CutsNothing(cb, events);
      var next := SkipSeparator(data, g.end);
      match next {
        case Done(e) => return events, e, Continue;
        case NextMember(at) => offset := at;
      }
    }
  }

  lemma MembersEnd(cfg: Config, data: Bytes, offset: nat)
    requires offset < |data| && data[offset] == RBRACE
    ensures MembersFrom(cfg, data, offset) == Members([], None)
  {
  }

  /**
   * ObjectEach: the calls of the reference iteration, all of them and with its error, or those up to and including the first
   * at which the callback returns an error, which is then returned.
   */
  method ObjectEach(cfg: Config, data: Bytes, keys: Path, cb: Callback<MemberEvent>)
    returns (events: seq<MemberEvent>, err: Option<Error>, v: Verdict)
    ensures Iterated(cb, MembersSpec(cfg, data, keys), events, err, v)
  {
    hide SearchRun, MembersFrom, Quiet, Cuts;
    QuietStart(cb);
    CutsNothing(cb, []);
    var offset := 0;
    if |keys| > 0 {
      offset := SearchKeys(cfg, data, keys);
      if offset == -1 {
        return [], Some(KeyPathNotFound), Continue;
      }
    }
    var off := NextTokenFrom(data, offset);
    if off == -1 || data[offset + off] != LBRACE {
      return [], Some(MalformedObject), Continue;
    }
    offset := offset + off + 1;
    off := NextTokenFrom(data, offset);
    if off == -1 {
      return [], Some(MalformedJson), Continue;
    }
    if data[offset + off] == RBRACE {
      MembersEnd(cfg, data, offset + off);
      return [], None, Continue;
    }
    events, err, v := EachMember(cfg, data, offset + off, cb);
  }

  // ---- GetArrayLen and GetObjectLen ----

  ghost function LenSpec(data: Bytes, obj: bool, keys: Path): (r: (nat, Option<Error>)) {
    var r := SearchKeysSpec(STRICT, data, keys);
    if r == -1 then (0, Some(KeyPathNotFound))
    else
      var n := NextTok(data, r);
      if n == -1 || data[n] != Open(obj) then (0, Some(KeyPathNotFound))
      else match ItemFrom(obj, data, n + 1, 0)
        case None => (0, Some(if obj then MalformedObject else MalformedArray))
        case Some(len) => (len, None)
  }

  method GetContainerLen(data: Bytes, obj: bool, keys: Path) returns (len: nat, err: Option<Error>)
    ensures (len, err) == LenSpec(data, obj, keys)
  {
    hide SearchRun, ItemFrom;
    var offset := 0;
    if |keys| > 0 {
      offset := SearchKeys(STRICT, data, keys);
      if offset == -1 {
        return 0, Some(KeyPathNotFound);
      }
    }
    var tokenOffset := NextTokenFrom(data, offset);
    if tokenOffset == -1 {
      return 0, Some(KeyPathNotFound);
    }
    offset := offset + tokenOffset;
    if data[offset] != Open(obj) {
      return 0, Some(KeyPathNotFound);
    }
    var counted := ScanContainerLen(data, offset, obj);
    if counted.None? {
      return 0, Some(if obj then MalformedObject else MalformedArray);
    }
    return counted.value, None;
  }

  // ---- a returned length is the number of callbacks ----

  /** Where a valid primitive ends, and what follows it. */
  lemma {:induction false} PrimitiveCounted(obj: bool, data: Bytes, start: nat, i: nat, count: nat) returns (e: nat)
    requires start <= i <= |data| && PrimitiveFrom(obj, data, start, i, count).Some?
    ensures i <= e < |data| && IsPrimitive(Trim(data[start..e]))
    ensures data[e] == COMMA || data[e] == Close(obj)
    ensures PrimitiveFrom(obj, data, start, i, count)
         == if data[e] == COMMA then ItemFrom(obj, data, e + 1, count) else Some(count)
    decreases |data| - i
  {
    hide ItemFrom, IsPrimitive, Trim;
    if data[i] == COMMA || data[i] == Close(obj) {
      e := i;
    } else {
      e := PrimitiveCounted(obj, data, start, i + 1, count);
    }
  }

  lemma TrimmedAt(data: Bytes, start: nat, e: nat)
    requires start <= e <= |data|
    ensures var t := Trim(data[start..e]);
            start + |t| <= e && At(data, start, t) && SpaceRun(data, start + |t|, e)
  {
    var s := data[start..e];
    var t := Trim(s);
    forall k | start + |t| <= k < e ensures IsSpace(data[k]) { assert s[k - start] == data[k]; }
  }

  /** What the machine saw behind a value of which count were complete: a comma, or the end. */
  ghost predicate Resumes(obj: bool, data: Bytes, end: nat, count: nat, r: Option<nat>)
    requires end <= |data|
  {
    var q := NextTok(data, end);
    && q != -1 && (data[q] == COMMA || data[q] == Close(obj))
    && r == if data[q] == COMMA then ItemFrom(obj, data, q + 1, count) else Some(count)
  }

  lemma DelimiterCounted(obj: bool, data: Bytes, i: nat, count: nat)
    requires i <= |data| && DelimiterFrom(obj, data, i, count).Some?
    ensures Resumes(obj, data, i, count, DelimiterFrom(obj, data, i, count))
  {
    hide ItemFrom;
  }

  lemma PrimitiveTyped(obj: bool, data: Bytes, n: nat, count: nat)
    requires n < |data| && PrimitiveFrom(obj, data, n, n, count).Some?
    ensures var r := TypeAt(STRICT, data, n);
            r.err.None? && Resumes(obj, data, r.end, count, PrimitiveFrom(obj, data, n, n, count))
  {
    hide ItemFrom, PrimitiveFrom, IsPrimitive, Trim, TypeAt, TypeOf;
    var e := PrimitiveCounted(obj, data, n, n, count);
    var t := Trim(data[n..e]);
    TrimmedAt(data, n, e);
    PrimTyped(STRICT, data, n, t);
    NextTokSkips(data, n + |t|, e);
  }

  /** A value the machine accepts is typed without error, and the next token behind it is what the machine saw there. */
  lemma ValueCounted(obj: bool, data: Bytes, n: nat, count: nat)
    requires n < |data| && ValueAt(obj, data, n, count).Some?
    ensures var r := TypeAt(STRICT, data, n);
            r.err.None? && Resumes(obj, data, r.end, count + 1, ValueAt(obj, data, n, count))
  {
    hide ItemFrom, StackFrom, BlockFrom, StrEndFrom, PrimitiveFrom, DelimiterFrom, Resumes, TokEnd;
    var c := data[n];
    if c == QUOTE {
      DelimiterCounted(obj, data, StrEnd(data, n + 1, QUOTE), count + 1);
    } else if c == LBRACKET || c == LBRACE {
      StackEndIsBlockEnd(STRICT, data, n, c == LBRACE);
      DelimiterCounted(obj, data, StackFrom(STRICT, data, n + 1, [Close(c == LBRACE)]).at, count + 1);
    } else {
      PrimitiveTyped(obj, data, n, count + 1);
    }
  }

  predicate NoErrors(events: seq<Event>) {
    forall k :: 0 <= k < |events| ==> events[k].err.None?
  }

  lemma {:induction false} ElementsCounted(data: Bytes, i: nat, count: nat)
    requires 1 <= i <= |data| && ItemFrom(false, data, i, count).Some?
    requires data[NextTok(data, i)] != RBRACKET
    ensures var r := EachFrom(STRICT, data, i);
            r.err.None? && NoErrors(r.events) && ItemFrom(false, data, i, count) == Some(count + |r.events|)
    decreases |data| - i
  {
    hide ItemFrom, EachFrom, TypeAt, ValueAt;
    var n := NextTok(data, i);
    assert NextTok(data, i) != -1 && ItemFrom(false, data, i, count) == ValueAt(false, data, n, count) by {
      ItemNext(false, data, i, count);
    }
    ValueCounted(false, data, n, count);
    EachLast(STRICT, data, i, []);
    var r := EachFrom(STRICT, data, i);
    assert [] + r.events == r.events;
    var q := NextTok(data, TypeAt(STRICT, data, n).end);
    if data[q] == COMMA {
      ItemNext(false, data, q + 1, count + 1);
      ElementsCounted(data, q + 1, count + 1);
      EachStep(STRICT, data, i, []);
    }
  }

  lemma ItemNext(obj: bool, data: Bytes, i: nat, count: nat)
    requires i <= |data| && ItemFrom(obj, data, i, count).Some?
    ensures var n := NextTok(data, i);
            && n != -1
            && (data[n] == Close(obj) ==> count == 0 && ItemFrom(obj, data, i, count) == Some(0))
            && (data[n] != Close(obj) && !obj ==> ItemFrom(obj, data, i, count) == ValueAt(obj, data, n, count))
            && (data[n] != Close(obj) && obj ==>
                  && data[n] == QUOTE && StrEnd(data, n + 1, QUOTE) != -1
                  && ItemFrom(obj, data, i, count) == ColonFrom(data, StrEnd(data, n + 1, QUOTE), count))
  {
    hide ValueAt, ColonFrom, StrEndFrom;
  }

  /** GetArrayLen without error: ArrayEach on the same path succeeds with that many error-free callbacks. */
  lemma ArrayLenCounts(data: Bytes, keys: Path)
    requires LenSpec(data, false, keys).1.None?
    ensures var r := EachSpec(STRICT, data, keys);
            r.err.None? && NoErrors(r.events) && |r.events| == LenSpec(data, false, keys).0
  {
    hide SearchRun, ItemFrom, EachFrom;
    var from := SearchKeysSpec(STRICT, data, keys);
    var n := NextTok(data, from);
    SomeToken(data, from);
    ItemNext(false, data, n + 1, 0);
    if data[NextTok(data, n + 1)] != RBRACKET {
      ItemSlide(false, data, n + 1, 0);
      ElementsCounted(data, NextTok(data, n + 1), 0);
    }
  }

  lemma SomeToken(data: Bytes, i: nat)
    requires i <= |data| && NextTok(data, i) != -1
    ensures NextTok(data, 0) != -1
  {
  }

  lemma ItemSlide(obj: bool, data: Bytes, i: nat, count: nat)
    requires i <= |data| && NextTok(data, i) != -1
    ensures ItemFrom(obj, data, NextTok(data, i), count) == ItemFrom(obj, data, i, count)
    ensures NextTok(data, NextTok(data, i)) == NextTok(data, i)
  {
    hide ValueAt, ColonFrom, StrEndFrom;
    NextTokSkips(data, i, NextTok(data, i));
  }

  lemma MemberNext(data: Bytes, e: nat, count: nat)
    requires e <= |data| && ColonFrom(data, e, count).Some?
    ensures var c := NextTok(data, e);
            && c != -1 && data[c] == COLON && NextTok(data, c + 1) != -1
            && ColonFrom(data, e, count) == ValueAt(true, data, NextTok(data, c + 1), count)
  {
    hide ValueAt;
  }

  /** A member the machine accepts: its key is read unless it does not decode, and its value is typed. */
  lemma MemberCounted(data: Bytes, i: nat, count: nat) returns (end: nat)
    requires i < |data| && !IsSpace(data[i]) && data[i] != RBRACE && ItemFrom(true, data, i, count).Some?
    ensures i < end <= |data| && Resumes(true, data, end, count + 1, ItemFrom(true, data, i, count))
    ensures data[i] == QUOTE
    ensures match KeyReadAt(STRICT, data, i)
            case KeyError(e) => e == MalformedStringEscape
            case KeyRead(_, at) => var g := GetFrom(STRICT, data, at); g.err.None? && g.end == end
  {
    hide ItemFrom, ColonFrom, MemberValueFrom, TypeAt, ValueAt, Unescaped, StrEndFrom, Resumes;
    ItemNext(true, data, i, count);
    var e := StrEnd(data, i + 1, QUOTE);
    MemberNext(data, e, count);
    var v := NextTok(data, NextTok(data, e) + 1);
    ValueCounted(true, data, v, count);
    end := TypeAt(STRICT, data, v).end;
  }

  /** ObjectEach goes on behind a member as the machine does. */
  lemma AfterCounted(data: Bytes, end: nat, count: nat, r: Option<nat>)
    requires end <= |data| && count > 0 && r.Some? && Resumes(true, data, end, count, r)
    ensures var after := AfterMember(data, end);
            && (after.Done? ==> after.err.None? && r == Some(count))
            && (after.NextMember? ==>
                  !IsSpace(data[after.at]) && data[after.at] != RBRACE && ItemFrom(true, data, after.at, count) == r)
  {
    hide ItemFrom;
    var q := NextTok(data, end);
    if data[q] == COMMA {
      ItemNext(true, data, q + 1, count);
      ItemSlide(true, data, q + 1, count);
    }
  }

  /** The walk over the members from i on: the escapes of every name decode. */
  predicate NamesDecode(data: Bytes, i: nat)
    requires i <= |data|
    decreases |data| - i
  {
    var n := NextTok(data, i);
    if n == -1 || data[n] != QUOTE || StrEnd(data, n + 1, QUOTE) == -1 then true
    else
      var e := StrEnd(data, n + 1, QUOTE);
      && Unescaped(STRICT, data[n + 1..e - 1]).Some?
      && (ValueBehind(data, e) == -1 || NamesDecode(data, ValueBehind(data, e)))
  }

  /** Behind the name that ends at e, its value and a comma: where the next member may start, or -1. */
  function ValueBehind(data: Bytes, e: nat): (r: int)
    requires e <= |data|
    ensures r == -1 || e < r <= |data|
  {
    var c := NextTok(data, e);
    var v := if c == -1 then -1 else NextTok(data, c + 1);
    if v == -1 || TypeAt(STRICT, data, v).err.Some? then -1
    else
      var q := NextTok(data, TypeAt(STRICT, data, v).end);
      if q != -1 && data[q] == COMMA then q + 1 else -1
  }

  /** Every member name of the object at a path decodes. */
  predicate KeysDecode(data: Bytes, keys: Path) {
    var r := SearchKeysSpec(STRICT, data, keys);
    r == -1 || NextTok(data, r) == -1 || NamesDecode(data, NextTok(data, r) + 1)
  }

  lemma NamesSlide(data: Bytes, i: nat)
    requires i <= |data| && NextTok(data, i) != -1
    ensures NamesDecode(data, NextTok(data, i)) == NamesDecode(data, i)
  {
    hide StrEndFrom, ValueBehind, Unescaped;
    NextTokSkips(data, i, NextTok(data, i));
  }

  /** One member of the walk, seen from its quote: its name, and what ObjectEach finds behind its value. */
  lemma NameStep(data: Bytes, i: nat, end: nat)
    requires i < |data| && data[i] == QUOTE && end <= |data|
    requires match KeyReadAt(STRICT, data, i)
             case KeyError(e) => e == MalformedStringEscape
             case KeyRead(_, at) => var g := GetFrom(STRICT, data, at); g.err.None? && g.end == end
    ensures KeyReadAt(STRICT, data, i).KeyError? ==> !NamesDecode(data, i)
    ensures KeyReadAt(STRICT, data, i).KeyRead? && AfterMember(data, end) == Done(None) ==> NamesDecode(data, i)
    ensures KeyReadAt(STRICT, data, i).KeyRead? && AfterMember(data, end).NextMember? ==>
              NamesDecode(data, i) == NamesDecode(data, AfterMember(data, end).at)
  {
    hide StrEndFrom, TypeAt, Unescaped, NextTok, AfterMember, ValueBehind, GetFrom, NamesDecode;
    var e := StrEnd(data, i + 1, QUOTE);
    NamesHere(data, i);
    if KeyReadAt(STRICT, data, i).KeyRead? {
      BehindValue(data, e, end);
    }
  }

  lemma NamesHere(data: Bytes, i: nat)
    requires i < |data| && data[i] == QUOTE
    ensures NextTok(data, i) == i
    ensures var e := StrEnd(data, i + 1, QUOTE);
            e != -1 ==> (NamesDecode(data, i)
                         <==> Unescaped(STRICT, data[i + 1..e - 1]).Some?
                              && (ValueBehind(data, e) == -1 || NamesDecode(data, ValueBehind(data, e))))
  {
    hide StrEndFrom, ValueBehind, Unescaped;
  }

  lemma BehindValue(data: Bytes, e: nat, end: nat)
    requires e <= |data| && end <= |data| && NextTok(data, e) != -1
    requires var g := GetFrom(STRICT, data, NextTok(data, e) + 1); g.err.None? && g.end == end
    ensures AfterMember(data, end) == Done(None) ==> ValueBehind(data, e) == -1
    ensures AfterMember(data, end).NextMember? ==>
              ValueBehind(data, e) != -1 && NamesDecode(data, ValueBehind(data, e)) == NamesDecode(data, AfterMember(data, end).at)
  {
    hide TypeAt, NextTok, NamesDecode, AfterMember, GetFrom, ValueBehind;
    TypedBehind(data, NextTok(data, e) + 1);
    ValueBehindIs(data, e);
    AfterIs(data, end);
    if AfterMember(data, end).NextMember? { NamesSlide(data, NextTok(data, end) + 1); }
  }

  lemma TypedBehind(data: Bytes, i: nat)
    requires i <= |data| && GetFrom(STRICT, data, i).err.None?
    ensures NextTok(data, i) != -1
    ensures var r := TypeAt(STRICT, data, NextTok(data, i)); r.err.None? && r.end == GetFrom(STRICT, data, i).end
  {
    hide TypeAt, NextTok;
  }

  lemma ValueBehindIs(data: Bytes, e: nat)
    requires e <= |data| && NextTok(data, e) != -1
    requires var v := NextTok(data, NextTok(data, e) + 1); v != -1 && TypeAt(STRICT, data, v).err.None?
    ensures var q := NextTok(data, TypeAt(STRICT, data, NextTok(data, NextTok(data, e) + 1)).end);
            ValueBehind(data, e) == if q != -1 && data[q] == COMMA then q + 1 else -1
  {
    hide TypeAt, NextTok;
  }

  lemma AfterIs(data: Bytes, end: nat)
    requires end <= |data|
    ensures var q := NextTok(data, end);
            && (AfterMember(data, end) == Done(None) ==> q != -1 && data[q] == RBRACE)
            && (AfterMember(data, end).NextMember? ==>
                  q != -1 && data[q] == COMMA && NextTok(data, q + 1) == AfterMember(data, end).at)
  {
    hide NextTok;
  }

  /** From a member on: every value is called back for if and only if the escapes of every name decode. */
  lemma {:induction false} MembersCounted(data: Bytes, i: nat, count: nat)
    requires i < |data| && !IsSpace(data[i]) && data[i] != RBRACE && ItemFrom(true, data, i, count).Some?
    ensures var r := MembersFrom(STRICT, data, i);
            var len := ItemFrom(true, data, i, count).value;
            && (r.err.None? <==> NamesDecode(data, i))
            && (r.err.None? ==> count + |r.events| == len)
            && (r.err.Some? ==> r.err == Some(MalformedStringEscape) && count + |r.events| < len)
    decreases |data| - i
  {
    hide ItemFrom, MembersFrom, KeyReadAt, GetFrom, AfterMember, Resumes, NamesDecode;
    var end := MemberCounted(data, i, count);
    NameStep(data, i, end);
    AfterCounted(data, end, count + 1, ItemFrom(true, data, i, count));
    LaterStep(STRICT, data, i, []);
    var r := MembersFrom(STRICT, data, i);
    assert [] + r.events == r.events;
    var after := AfterMember(data, end);
    if after.NextMember? { MembersCounted(data, after.at, count + 1); }
  }

  /**
   * GetObjectLen without error: if and only if the escapes of every name decode, ObjectEach on the same path succeeds, and
   * it then makes that many callbacks. Otherwise it stops early, at a name that does not decode.
   */
  lemma ObjectLenCounts(data: Bytes, keys: Path)
    requires LenSpec(data, true, keys).1.None?
    ensures var r := MembersSpec(STRICT, data, keys);
            var len := LenSpec(data, true, keys).0;
            && (r.err.None? <==> KeysDecode(data, keys))
            && (r.err.None? ==> |r.events| == len)
            && (r.err.Some? ==> r.err == Some(MalformedStringEscape) && |r.events| < len)
  {
    hide SearchRun, ItemFrom, MembersFrom, NamesDecode, NextTok;
    var n := NextTok(data, SearchKeysSpec(STRICT, data, keys));
    ItemNext(true, data, n + 1, 0);
    var m := NextTok(data, n + 1);
    NamesSlide(data, n + 1);
    if data[m] != RBRACE {
      ItemSlide(true, data, n + 1, 0);
      MembersCounted(data, m, 0);
    } else {
      MembersEnd(STRICT, data, m);
      NoNames(data, m);
    }
  }

  lemma NoNames(data: Bytes, i: nat)
    requires i < |data| && data[i] == RBRACE
    ensures NamesDecode(data, i)
  {
  }

  /** The text {"\x":1}. */
  const BAD_NAME: Bytes := [LBRACE, QUOTE, BACKSLASH, 0x78, QUOTE, COLON, 0x31, RBRACE]

  lemma BadNameScans()
    ensures StrEnd(BAD_NAME, 2, QUOTE) == 5 && Unescaped(STRICT, BAD_NAME[2..4]) == None
    ensures ItemFrom(true, BAD_NAME, 1, 0) == Some(1)
  {
    var d := BAD_NAME;
    assert StrEndFrom(d, 4, false, QUOTE) == 5;
    assert StrEndFrom(d, 3, true, QUOTE) == 5;
    assert d[2..4] == [BACKSLASH, 0x78];
    assert d[6..7] == [0x31] && Trim([0x31]) == [0x31] by { assert [0x31][..1] == [0x31]; }
    assert IsPrimitive([0x31]) by { assert NumberParts([0x31], 0, 1, 1); }
    hide StrEndFrom, Trim, IsPrimitive;
    assert PrimitiveFrom(true, d, 6, 7, 1) == Some(1);
    PrimitiveHere(true, d, 6, 6, 1);
    assert ValueAt(true, d, 6, 0) == Some(1);
    MemberHere(d, 6, 0);
    MemberHere(d, 5, 0);
    ItemHere(true, d, 1, 0);
  }

  /** {"\x":1} has length 1, but ObjectEach makes no callback and fails: the name does not decode. */
  lemma UndecodableNameExample()
    ensures LenSpec(BAD_NAME, true, []) == (1, None) && !KeysDecode(BAD_NAME, [])
    ensures MembersSpec(STRICT, BAD_NAME, []) == Members([], Some(MalformedStringEscape))
  {
    hide ItemFrom, StrEndFrom, Unescaped, GetFrom, AfterMember, NamesDecode;
    BadNameScans();
    NamesHere(BAD_NAME, 1);
    ObjectLenCounts(BAD_NAME, []);
  }
}
