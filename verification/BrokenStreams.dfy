/**
 * A stream that breaks off, on any bytes: the streaming operations report the reader's error, or answer as they would have on
 * every continuation of the stream.
 */
module BrokenStreams {
  import opened Bytes
  import opened Strings
  import opened Scanners
  import opened Syntax
  import opened Blocks
  import opened Lookup
  import opened Streams

  /** more starts with data. */
  predicate Extends(data: Bytes, more: Bytes) {
    |data| <= |more| && forall k :: 0 <= k < |data| ==> more[k] == data[k]
  }

  lemma ByteMore(data: Bytes, more: Bytes, k: nat)
    requires Extends(data, more) && k < |data|
    ensures k < |more| && more[k] == data[k]
  {
  }

  lemma NextTokMore(data: Bytes, more: Bytes, i: nat)
    requires Extends(data, more) && i <= |data| && NextTok(data, i) != -1
    ensures i <= |more| && NextTok(more, i) == NextTok(data, i) && more[NextTok(data, i)] == data[NextTok(data, i)]
  {
    NextTokStable(data, more, i);
  }

  lemma StrEndMore(data: Bytes, more: Bytes, i: nat, quote: byte)
    requires Extends(data, more) && i <= |data| && StrEnd(data, i, quote) != -1
    ensures i <= |more| && StrEnd(more, i, quote) == StrEnd(data, i, quote)
  {
    StrEndStable(data, more, i, false, quote);
  }

  lemma {:induction false} TokEndMore(data: Bytes, more: Bytes, i: nat)
    requires Extends(data, more) && i <= |data| && TokEnd(data, i) < |data|
    ensures i <= |more| && TokEnd(more, i) == TokEnd(data, i)
    decreases |data| - i
  {
    if !EndsPrimitive(data[i]) { TokEndMore(data, more, i + 1); }
  }

  lemma {:induction false} StackMore(cfg: Config, data: Bytes, more: Bytes, i: nat, stack: seq<byte>)
    requires Extends(data, more) && i <= |data| && !StackFrom(cfg, data, i, stack).OpenString? && !StackFrom(cfg, data, i, stack).Unclosed?
    ensures i <= |more| && StackFrom(cfg, more, i, stack) == StackFrom(cfg, data, i, stack)
    decreases |data| - i
  {
    hide StrEndFrom;
    if stack != [] {
      var c := data[i];
      if IsQuote(cfg, c) {
        StrEndMore(data, more, i + 1, c);
        StackMore(cfg, data, more, StrEnd(data, i + 1, c), stack);
      } else if c == LBRACE {
        StackMore(cfg, data, more, i + 1, stack + [RBRACE]);
      } else if c == LBRACKET {
        StackMore(cfg, data, more, i + 1, stack + [RBRACKET]);
      } else if c == RBRACE || c == RBRACKET {
        if c == stack[|stack| - 1] { StackMore(cfg, data, more, i + 1, stack[..|stack| - 1]); }
      } else {
        StackMore(cfg, data, more, i + 1, stack);
      }
    }
  }

  /** data is what arrived before the stream failed with final; more is what another stream goes on to deliver. */
  predicate Broken(data: Bytes, more: Bytes, final: ReadError) {
    Extends(data, more) && |data| <= |more| && final != EOF
  }

  lemma ValueEndMore(cfg: Config, data: Bytes, more: Bytes, final: ReadError, other: ReadError, p: nat)
    requires Broken(data, more, final) && p < |data|
    ensures ValueEnd(cfg, data, final, p) == Failed(Reading(final)) || ValueEnd(cfg, more, other, p) == ValueEnd(cfg, data, final, p)
  {
    hide StrEndFrom, StackFrom, TokEnd, Extends;
    ByteMore(data, more, p);
    var c := data[p];
    if IsQuote(cfg, c) {
      if StrEnd(data, p + 1, c) != -1 { StrEndMore(data, more, p + 1, c); }
    } else if c == LBRACKET || c == LBRACE {
      var stack := [if c == LBRACKET then RBRACKET else RBRACE];
      var m := StackFrom(cfg, data, p + 1, stack);
      if !m.OpenString? && !m.Unclosed? { StackMore(cfg, data, more, p + 1, stack); }
    } else if TokEnd(data, p) < |data| {
      TokEndMore(data, more, p);
    }
  }

  /** What the separator is, from the two tokens it looks at. */
  lemma SeparatorBy(data: Bytes, final: ReadError, p: nat, close: byte, e: Error, n: nat, m: int)
    requires p <= |data| && NextTok(data, p) == n && NextTok(data, n + 1) == m
    ensures SeparatorAt(data, final, p, close, e)
         == if data[n] == close then Closed(n + 1)
            else if data[n] != COMMA then Spoiled(Parsing(e))
            else if m == -1 then Spoiled(RanOut(final, e))
            else if data[m] == close then Spoiled(Parsing(e))
            else Next(m)
  {
    hide NextTok;
  }

  lemma SeparatorMore(data: Bytes, more: Bytes, final: ReadError, other: ReadError, p: nat, close: byte, e: Error)
    requires Broken(data, more, final) && p <= |data|
    ensures SeparatorAt(data, final, p, close, e) == Spoiled(Reading(final))
         || SeparatorAt(more, other, p, close, e) == SeparatorAt(data, final, p, close, e)
  {
    hide NextTok, Extends, IsSpace;
    if NextTok(data, p) != -1 {
      hide SeparatorAt;
      var n := NextTok(data, p);
      NextTokMore(data, more, p);
      SeparatorBy(data, final, p, close, e, n, NextTok(data, n + 1));
      SeparatorBy(more, other, p, close, e, n, NextTok(more, n + 1));
      if NextTok(data, n + 1) != -1 { NextTokMore(data, more, n + 1); }
    }
  }

  lemma ColonMore(cfg: Config, data: Bytes, more: Bytes, final: ReadError, other: ReadError, p: nat)
    requires Broken(data, more, final) && p < |data|
    ensures ColonAt(cfg, data, final, p) == Unnamed(Reading(final)) || ColonAt(cfg, more, other, p) == ColonAt(cfg, data, final, p)
  {
    hide StrEndFrom, NextTok, Escapes.Unescaped, Extends, NameAt;
    NameMore(cfg, data, more, final, other, p);
    var name := NameAt(cfg, data, final, p);
    if name.Named? && NextTok(data, name.at) != -1 { NextTokMore(data, more, name.at); }
  }

  lemma NameMore(cfg: Config, data: Bytes, more: Bytes, final: ReadError, other: ReadError, p: nat)
    requires Broken(data, more, final) && p < |data|
    ensures NameAt(cfg, data, final, p) == Unnamed(Reading(final)) || NameAt(cfg, more, other, p) == NameAt(cfg, data, final, p)
  {
    hide StrEndFrom, Escapes.Unescaped, Extends;
    ByteMore(data, more, p);
    if IsQuote(cfg, data[p]) && StrEnd(data, p + 1, data[p]) != -1 {
      var e := StrEnd(data, p + 1, data[p]);
      StrEndMore(data, more, p + 1, data[p]);
      SliceMore(data, more, p + 1, e - 1);
    }
  }

  lemma SliceMore(data: Bytes, more: Bytes, i: nat, j: nat)
    requires Extends(data, more) && i <= j <= |data|
    ensures j <= |more| && data[i..j] == more[i..j]
  {
  }

  /** The search fails for want of bytes, or ends the same way on the longer text. */
  predicate SameFind(r: Find, r': Find, final: ReadError) {
    r == Fail(Reading(final)) || r' == r
  }

  lemma PassMore(cfg: Config, data: Bytes, more: Bytes, final: ReadError, other: ReadError, p: nat)
    requires Broken(data, more, final) && p <= |data|
    ensures SameFind(PassValue(cfg, data, final, p), PassValue(cfg, more, other, p), final)
    ensures p < |data| ==> SameFind(PassElement(cfg, data, final, p), PassElement(cfg, more, other, p), final)
  {
    hide Extends, ValueEnd, NextTok;
    if NextTok(data, p) != -1 {
      NextTokMore(data, more, p);
      ValueEndMore(cfg, data, more, final, other, NextTok(data, p));
    }
    if p < |data| { ValueEndMore(cfg, data, more, final, other, p); }
  }

  lemma {:induction false} FindMore(cfg: Config, data: Bytes, more: Bytes, final: ReadError, other: ReadError, keys: Path, p: nat)
    requires Broken(data, more, final) && p <= |data|
    ensures SameFind(FindValue(cfg, data, final, keys, p), FindValue(cfg, more, other, keys, p), final)
    decreases |data| - p, 1
  {
    hide Extends, ValueEnd, NextTok, FindInObject, FindInArray, IndexOf;
    if NextTok(data, p) != -1 {
      var n := NextTok(data, p);
      NextTokMore(data, more, p);
      ValueEndMore(cfg, data, more, final, other, n);
      if keys != [] {
        InsideMore(cfg, data, more, final, other, keys, n + 1);
      }
    }
  }

  /** Behind an opening bracket. */
  lemma {:induction false} InsideMore(cfg: Config, data: Bytes, more: Bytes, final: ReadError, other: ReadError, keys: Path, p: nat)
    requires Broken(data, more, final) && p <= |data| && keys != []
    ensures SameFind(FindInObject(cfg, data, final, keys, p), FindInObject(cfg, more, other, keys, p), final)
    ensures IndexOf(keys[0]).Some? ==>
              SameFind(FindInArray(cfg, data, final, keys, p), FindInArray(cfg, more, other, keys, p), final)
    decreases |data| - p, 3
  {
    hide Extends, NextTok, FindMember, FindElement, IndexOf;
    if NextTok(data, p) != -1 {
      var m := NextTok(data, p);
      NextTokMore(data, more, p);
      MemberMore(cfg, data, more, final, other, keys, m);
      if IndexOf(keys[0]).Some? { ElementMore(cfg, data, more, final, other, keys, m, 0); }
    }
  }

  lemma {:induction false} MemberMore(cfg: Config, data: Bytes, more: Bytes, final: ReadError, other: ReadError, keys: Path, p: nat)
    requires Broken(data, more, final) && p < |data| && keys != []
    ensures SameFind(FindMember(cfg, data, final, keys, p), FindMember(cfg, more, other, keys, p), final)
    decreases |data| - p, 0
  {
    hide ColonAt, SeparatorAt, FindValue, PassValue;
    ColonMore(cfg, data, more, final, other, p);
    match ColonAt(cfg, data, final, p)
    case Unnamed(_) =>
    case Named(name, at) =>
      FindMore(cfg, data, more, final, other, keys[1..], at);
      PassMore(cfg, data, more, final, other, at);
      var m := if name == keys[0] then FindValue(cfg, data, final, keys[1..], at) else PassValue(cfg, data, final, at);
      if m.Miss? {
        SeparatorMore(data, more, final, other, m.at, RBRACE, MalformedObject);
        var s := SeparatorAt(data, final, m.at, RBRACE, MalformedObject);
        if s.Next? { MemberMore(cfg, data, more, final, other, keys, s.at); }
      }
  }

  lemma {:induction false} ElementMore(cfg: Config, data: Bytes, more: Bytes, final: ReadError, other: ReadError, keys: Path, p: nat,
                                       index: nat)
    requires Broken(data, more, final) && p < |data| && keys != [] && IndexOf(keys[0]).Some?
    ensures SameFind(FindElement(cfg, data, final, keys, p, index), FindElement(cfg, more, other, keys, p, index), final)
    decreases |data| - p, 2
  {
    hide SeparatorAt, FindValue, PassElement, IndexOf;
    FindMore(cfg, data, more, final, other, keys[1..], p);
    PassMore(cfg, data, more, final, other, p);
    var m := if index == IndexOf(keys[0]).value then FindValue(cfg, data, final, keys[1..], p) else PassElement(cfg, data, final, p);
    if m.Miss? {
      SeparatorMore(data, more, final, other, m.at, RBRACKET, MalformedArray);
      var s := SeparatorAt(data, final, m.at, RBRACKET, MalformedArray);
      if s.Next? { ElementMore(cfg, data, more, final, other, keys, s.at, index + 1); }
    }
  }

  /**
   * Get on a stream that breaks off returns the error of the stream, or what Get returns on every stream that starts with the
   * same bytes, however that goes on and ends: a value cut short is never returned.
   */
  lemma BrokenGet(cfg: Config, data: Bytes, more: Bytes, final: ReadError, other: ReadError, keys: Path)
    requires Broken(data, more, final)
    ensures StreamGet(cfg, data, final, keys) == Missing(Reading(final))
         || StreamGet(cfg, more, other, keys) == StreamGet(cfg, data, final, keys)
  {
    hide Extends, FindValue, NextTok, Typing;
    if NextTok(data, 0) != -1 { NextTokMore(data, more, 0); }
    FindMore(cfg, data, more, final, other, keys, 0);
    var r := FindValue(cfg, data, final, keys, 0);
    if r.Hit? { SliceMore(data, more, r.from, r.to); }
  }

  /**
   * The calls made before the stream broke off are those made on the longer stream; the last one may report the broken
   * element, without a value.
   */
  predicate SameCalls(c: Calls, c': Calls, final: ReadError) {
    || c' == c
    || (c.err == Some(Reading(final))
        && (c.made <= c'.made
            || (c.made != [] && c.made[|c.made| - 1] == Answer([], Unknown, Some(Reading(final)))
                && c.made[..|c.made| - 1] <= c'.made)))
  }

  lemma SameCallsStep(a: Answer, c: Calls, c': Calls, final: ReadError)
    requires SameCalls(c, c', final)
    ensures SameCalls(Calls([a] + c.made, c.err), Calls([a] + c'.made, c'.err), final)
  {
    var s, s' := [a] + c.made, [a] + c'.made;
    if c.made != [] { assert s[..|s| - 1] == [a] + c.made[..|c.made| - 1]; }
  }

  lemma {:induction false} CallsMore(cfg: Config, data: Bytes, more: Bytes, final: ReadError, other: ReadError, p: nat)
    requires Broken(data, more, final) && p <= |data|
    ensures SameCalls(CallsFrom(cfg, data, final, p), CallsFrom(cfg, more, other, p), final)
    decreases |data| - p
  {
    hide Extends, ValueEnd, NextTok, Typing, SeparatorAt;
    if NextTok(data, p) == -1 {
      var a := Answer([], Unknown, Some(Reading(final)));
      assert [a][..0] == [];
    } else {
      var v := NextTok(data, p);
      NextTokMore(data, more, p);
      ValueEndMore(cfg, data, more, final, other, v);
      match ValueEnd(cfg, data, final, v)
      case Failed(f) => assert [Answer([], Unknown, Some(f))][..0] == [];
      case Ended(e) =>
        var a := Typing(cfg, data[v..e]);
        SliceMore(data, more, v, e);
        SeparatorMore(data, more, final, other, e, RBRACKET, MalformedArray);
        var s := SeparatorAt(data, final, e, RBRACKET, MalformedArray);
        if a.err.None? && s.Next? {
          CallsMore(cfg, data, more, final, other, s.at);
          SameCallsStep(a, CallsFrom(cfg, data, final, s.at), CallsFrom(cfg, more, other, s.at), final);
        }
    }
  }

  /** ArrayEach on a stream that breaks off. */
  lemma BrokenEach(cfg: Config, data: Bytes, more: Bytes, final: ReadError, other: ReadError)
    requires Broken(data, more, final)
    ensures SameCalls(StreamEach(cfg, data, final), StreamEach(cfg, more, other), final)
  {
    hide Extends, CallsFrom, NextTok;
    if NextTok(data, 0) != -1 {
      var n := NextTok(data, 0);
      NextTokMore(data, more, 0);
      if NextTok(data, n + 1) != -1 {
        NextTokMore(data, more, n + 1);
        CallsMore(cfg, data, more, final, other, NextTok(data, n + 1));
      }
    }
  }
}
