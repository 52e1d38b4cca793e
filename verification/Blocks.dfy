/**
 * Two ways of finding the end of an array or object: a stack that matches both kinds of brackets
 * (scanComposite, scanContainerLen) and a counter of one kind (blockEndConfig). The stack is stricter;
 * wherever it succeeds the counter agrees with it.
 */
module Blocks {
  import opened Bytes
  import opened Strings
  import opened Scanners
  import opened Syntax
  import opened Layout

  datatype Match = Found(at: nat) | Mismatch | OpenString | Unclosed

  /** Reads from i until the stack of expected closing brackets (last element on top) is empty. */
  function StackFrom(cfg: Config, data: Bytes, i: nat, stack: seq<byte>): (m: Match)
    requires i <= |data|
    ensures m.Found? ==> i <= m.at <= |data| && (stack != [] ==> i < m.at)
    decreases |data| - i
  {
    if stack == [] then Found(i)
    else if i == |data| then Unclosed
    else
      var c := data[i];
      if IsQuote(cfg, c) then
        var e := StrEnd(data, i + 1, c);
        if e == -1 then OpenString else StackFrom(cfg, data, e, stack)
      else if c == LBRACE then StackFrom(cfg, data, i + 1, stack + [RBRACE])
      else if c == LBRACKET then StackFrom(cfg, data, i + 1, stack + [RBRACKET])
      else if c == RBRACE || c == RBRACKET then
        if c != stack[|stack| - 1] then Mismatch else StackFrom(cfg, data, i + 1, stack[..|stack| - 1])
      else StackFrom(cfg, data, i + 1, stack)
  }

  /** How many of the expected closing brackets are of kind c. */
  function Count(stack: seq<byte>, c: byte): nat {
    if stack == [] then 0 else (if stack[|stack| - 1] == c then 1 else 0) + Count(stack[..|stack| - 1], c)
  }

  lemma {:induction false} CountBottom(stack: seq<byte>, c: byte)
    requires stack != [] && stack[0] == c
    ensures Count(stack, c) >= 1
    ensures |stack| == 1 ==> Count(stack, c) == 1
    ensures |stack| > 1 ==> Count(stack[..|stack| - 1], c) >= 1
  {
    if |stack| > 1 { CountBottom(stack[..|stack| - 1], c); }
  }

  /** While the bottom of the stack is still expected, the counter equals the brackets of its kind on the stack. */
  lemma {:induction false} StackImpliesBlock(cfg: Config, data: Bytes, i: nat, stack: seq<byte>, open: byte, close: byte)
    requires i <= |data| && IsBracketPair(open, close)
    requires stack != [] && stack[0] == close
    requires StackFrom(cfg, data, i, stack).Found?
    ensures BlockFrom(cfg, data, i, Count(stack, close), open, close) == StackFrom(cfg, data, i, stack).at
    decreases |data| - i
  {
    hide StrEndFrom;
    var c := data[i];
    CountBottom(stack, close);
    if IsQuote(cfg, c) {
      StackImpliesBlock(cfg, data, StrEnd(data, i + 1, c), stack, open, close);
    } else if c == LBRACE || c == LBRACKET {
      var pushed := stack + [if c == LBRACE then RBRACE else RBRACKET];
      assert pushed[..|pushed| - 1] == stack;
      StackImpliesBlock(cfg, data, i + 1, pushed, open, close);
    } else if c == RBRACE || c == RBRACKET {
      if |stack| > 1 { StackImpliesBlock(cfg, data, i + 1, stack[..|stack| - 1], open, close); }
    } else {
      StackImpliesBlock(cfg, data, i + 1, stack, open, close);
    }
  }

  /** A mixed-bracket match that starts with an opening bracket ends exactly where the one-bracket counter ends. */
  lemma StackEndIsBlockEnd(cfg: Config, data: Bytes, i: nat, obj: bool)
    requires i < |data| && data[i] == Open(obj)
    requires StackFrom(cfg, data, i + 1, [Close(obj)]).Found?
    ensures BlockEndAt(cfg, data, i, Open(obj), Close(obj)) == StackFrom(cfg, data, i + 1, [Close(obj)]).at
  {
    assert [Close(obj)][..0] == [];
    assert Count([Close(obj)], Close(obj)) == 1;
    StackImpliesBlock(cfg, data, i + 1, [Close(obj)], Open(obj), Close(obj));
  }

  /** The other direction fails: the counter accepts a text whose brackets cross. */
  lemma BlockEndIsWeaker(cfg: Config)
    ensures var d: Bytes := [LBRACKET, RBRACE, RBRACKET];
            BlockEndAt(cfg, d, 0, LBRACKET, RBRACKET) == 3 && StackFrom(cfg, d, 1, [RBRACKET]) == Mismatch
  {
    var d: Bytes := [LBRACKET, RBRACE, RBRACKET];
    assert BlockFrom(cfg, d, 1, 1, LBRACKET, RBRACKET) == BlockFrom(cfg, d, 2, 1, LBRACKET, RBRACKET);
  }

  /**
   * From i to end every bracket that opens is closed, by the counter of its own kind, before end, and the same holds inside
   * every such block. No closing bracket stands outside of them.
   */
  predicate BlocksNest(cfg: Config, data: Bytes, i: nat, end: nat)
    requires i <= end <= |data|
    decreases end - i
  {
    if i == end then true
    else
      var c := data[i];
      if IsQuote(cfg, c) then
        var e := StrEnd(data, i + 1, c);
        i < e <= end && BlocksNest(cfg, data, e, end)
      else if c == LBRACE || c == LBRACKET then
        var q := BlockEndAt(cfg, data, i, c, Close(c == LBRACE));
        i + 1 < q <= end && BlocksNest(cfg, data, i + 1, q - 1) && BlocksNest(cfg, data, q, end)
      else c != RBRACE && c != RBRACKET && BlocksNest(cfg, data, i + 1, end)
  }

  /** A block ends behind a closing bracket of its kind. */
  lemma {:induction false} BlockCloses(cfg: Config, data: Bytes, i: nat, level: int, open: byte, close: byte)
    requires i <= |data| && BlockFrom(cfg, data, i, level, open, close) != -1
    ensures data[BlockFrom(cfg, data, i, level, open, close) - 1] == close
    decreases |data| - i
  {
    hide StrEndFrom;
    if IsQuote(cfg, data[i]) {
      BlockCloses(cfg, data, StrEnd(data, i + 1, data[i]), level, open, close);
    } else if data[i] == open {
      BlockCloses(cfg, data, i + 1, level + 1, open, close);
    } else if data[i] == close {
      if level != 1 { BlockCloses(cfg, data, i + 1, level - 1, open, close); }
    } else {
      BlockCloses(cfg, data, i + 1, level, open, close);
    }
  }

  /** The stack scan passes over a stretch in which blocks nest. */
  lemma {:induction false} StackOverNest(cfg: Config, data: Bytes, i: nat, end: nat, stack: seq<byte>)
    requires i <= end <= |data| && BlocksNest(cfg, data, i, end) && stack != []
    ensures StackFrom(cfg, data, i, stack) == StackFrom(cfg, data, end, stack)
    decreases end - i
  {
    hide StrEndFrom, BlockFrom;
    if i < end {
      var c := data[i];
      if IsQuote(cfg, c) {
        StackOverNest(cfg, data, StrEnd(data, i + 1, c), end, stack);
      } else if c == LBRACE || c == LBRACKET {
        var close := Close(c == LBRACE);
        var q := BlockEndAt(cfg, data, i, c, close);
        BlockCloses(cfg, data, i, 0, c, close);
        var pushed := stack + [close];
        StackOverNest(cfg, data, i + 1, q - 1, pushed);
        StackPops(cfg, data, q - 1, pushed);
        assert pushed[..|pushed| - 1] == stack;
        StackOverNest(cfg, data, q, end, stack);
      } else {
        StackOverNest(cfg, data, i + 1, end, stack);
      }
    }
  }

  lemma StackPops(cfg: Config, data: Bytes, i: nat, stack: seq<byte>)
    requires i < |data| && stack != [] && data[i] == stack[|stack| - 1] && (data[i] == RBRACE || data[i] == RBRACKET)
    ensures StackFrom(cfg, data, i, stack) == StackFrom(cfg, data, i + 1, stack[..|stack| - 1])
  {
  }

  /** Up to where the top of the stack is popped, blocks nest. */
  lemma {:induction false} NestToPop(cfg: Config, data: Bytes, i: nat, stack: seq<byte>) returns (end: nat)
    requires i <= |data| && stack != [] && StackFrom(cfg, data, i, stack).Found?
    requires forall k :: 0 <= k < |stack| ==> stack[k] == RBRACE || stack[k] == RBRACKET
    ensures i <= end < |data| && BlocksNest(cfg, data, i, end) && data[end] == stack[|stack| - 1]
    ensures StackFrom(cfg, data, i, stack) == StackFrom(cfg, data, end + 1, stack[..|stack| - 1])
    decreases |data| - i
  {
    hide StrEndFrom, BlockFrom;
    var c := data[i];
    if IsQuote(cfg, c) {
      end := NestToPop(cfg, data, StrEnd(data, i + 1, c), stack);
    } else if c == LBRACE || c == LBRACKET {
      var close := Close(c == LBRACE);
      var pushed := stack + [close];
      var inner := NestToPop(cfg, data, i + 1, pushed);
      assert pushed[..|pushed| - 1] == stack;
      InnerBlock(cfg, data, i, inner);
      end := NestToPop(cfg, data, inner + 1, stack);
    } else if c == RBRACE || c == RBRACKET {
      end := i;
    } else {
      end := NestToPop(cfg, data, i + 1, stack);
    }
  }

  /** A bracket, a stretch in which blocks nest, and the bracket that closes it are a block. */
  lemma InnerBlock(cfg: Config, data: Bytes, i: nat, end: nat)
    requires i < end < |data| && BlocksNest(cfg, data, i + 1, end)
    requires (data[i] == LBRACE || data[i] == LBRACKET) && data[end] == Close(data[i] == LBRACE)
    ensures StackFrom(cfg, data, i + 1, [data[end]]) == Found(end + 1)
    ensures BlockEndAt(cfg, data, i, data[i], data[end]) == end + 1
  {
    hide BlocksNest, BlockFrom;
    StackOverNest(cfg, data, i + 1, end, [data[end]]);
    StackPops(cfg, data, end, [data[end]]);
    assert [data[end]][..0] == [];
    StackEndIsBlockEnd(cfg, data, i, data[i] == LBRACE);
  }

  /** The block end is a stack match if and only if the blocks inside nest, all the way down. */
  lemma BlockEndMatches(cfg: Config, data: Bytes, i: nat, obj: bool, e: nat)
    requires i < |data| && data[i] == Open(obj) && BlockEndAt(cfg, data, i, Open(obj), Close(obj)) == e
    ensures i + 2 <= e <= |data|
    ensures StackFrom(cfg, data, i + 1, [Close(obj)]) == Found(e) <==> BlocksNest(cfg, data, i + 1, e - 1)
  {
    hide BlocksNest, BlockFrom;
    BlockCloses(cfg, data, i, 0, Open(obj), Close(obj));
    assert e != i + 1;
    if StackFrom(cfg, data, i + 1, [Close(obj)]).Found? {
      var end := NestToPop(cfg, data, i + 1, [Close(obj)]);
      InnerBlock(cfg, data, i, end);
    }
    if BlocksNest(cfg, data, i + 1, e - 1) { InnerBlock(cfg, data, i, e - 1); }
  }

  // ---- the stack scan over printed trees ----

  /** A byte no block scanner reacts to. */
  predicate IsInert(c: byte) {
    c != QUOTE && c != APOSTROPHE && c != LBRACE && c != LBRACKET && c != RBRACE && c != RBRACKET
  }

  lemma {:induction false} StackSkips(cfg: Config, data: Bytes, i: nat, j: nat, stack: seq<byte>)
    requires i <= j <= |data| && stack != [] && forall k :: i <= k < j ==> IsInert(data[k])
    ensures StackFrom(cfg, data, i, stack) == StackFrom(cfg, data, j, stack)
    decreases j - i
  {
    if i < j { StackSkips(cfg, data, i + 1, j, stack); }
  }

  lemma StackKey(cfg: Config, data: Bytes, p: nat, obj: bool, e: Entry, stack: seq<byte>)
    requires At(data, p, KeyPart(obj, e)) && WfEntry(obj, e) && stack != []
    ensures StackFrom(cfg, data, p, stack) == StackFrom(cfg, data, p + |KeyPart(obj, e)|, stack)
  {
    if obj {
      KeyParts(data, p, e);
      var q := p + |e.w1|;
      StackSkips(cfg, data, p, q, stack);
      BodyEnds(data, q + 1, e.key);
      StackSkips(cfg, data, q + 2 + |e.key|, p + |KeyPart(obj, e)|, stack);
    }
  }

  /** The stack scan passes over a whole value and leaves the stack as it was. */
  lemma {:induction false} StackValue(cfg: Config, data: Bytes, i: nat, v: JVal, stack: seq<byte>)
    requires Wf(v) && At(data, i, Print(v)) && stack != []
    ensures StackFrom(cfg, data, i, stack) == StackFrom(cfg, data, i + |Print(v)|, stack)
    decreases v, 1, 0
  {
    match v
    case Prim(t) =>
      PrimAt(data, i, t);
      StackSkips(cfg, data, i, i + |t|, stack);
    case Str(b) =>
      StrAt(data, i, b);
    case Node(obj, _, _) =>
      NodeAt(data, i, v);
      var pushed := stack + [Close(obj)];
      StackInside(cfg, data, i, v, pushed);
      assert pushed[..|pushed| - 1] == stack;
      assert StackFrom(cfg, data, i, stack) == StackFrom(cfg, data, i + 1, pushed);
  }

  /** From behind the opening bracket of a node to its closing bracket. */
  lemma {:induction false} StackInside(cfg: Config, data: Bytes, i: nat, v: JVal, stack: seq<byte>)
    requires Wf(v) && v.Node? && At(data, i, Print(v)) && stack != []
    ensures StackFrom(cfg, data, i + 1, stack) == StackFrom(cfg, data, i + |Print(v)| - 1, stack)
    decreases v, 0, |v.es| + 1
  {
    NodeAt(data, i, v);
    if v.es == [] {
      SpaceAt(data, i + 1, v.ews);
      StackSkips(cfg, data, i + 1, i + 1 + |v.ews|, stack);
    } else {
      StackEntries(cfg, data, i, v, 0, stack);
    }
  }

  lemma {:induction false} StackEntries(cfg: Config, data: Bytes, i: nat, v: JVal, k: nat, stack: seq<byte>)
    requires Wf(v) && v.Node? && At(data, i, Print(v)) && k < |v.es| && stack != []
    ensures StackFrom(cfg, data, i + Start(v, k), stack) == StackFrom(cfg, data, i + |Print(v)| - 1, stack)
    decreases v, 0, |v.es| - k
  {
    hide Print, PrintEntry, PrintEntries, StackFrom;
    EntryAt(data, i, v, k);
    StackEntry(cfg, data, i + Start(v, k), v.obj, v.es[k], stack);
    if k < |v.es| - 1 {
      StackSkips(cfg, data, i + End(v, k), i + End(v, k) + 1, stack);
      StackEntries(cfg, data, i, v, k + 1, stack);
    }
  }

  lemma {:induction false} StackEntry(cfg: Config, data: Bytes, p: nat, obj: bool, e: Entry, stack: seq<byte>)
    requires WfEntry(obj, e) && At(data, p, PrintEntry(obj, e)) && stack != []
    ensures StackFrom(cfg, data, p, stack) == StackFrom(cfg, data, p + |PrintEntry(obj, e)|, stack)
    decreases e, 0, 0
  {
    hide Print, PrintEntry, PrintEntries, StackFrom;
    EntryParts(data, p, obj, e);
    StackKey(cfg, data, p, obj, e, stack);
    var c := p + |KeyPart(obj, e)|;
    StackSkips(cfg, data, c, c + |e.w3|, stack);
    StackValue(cfg, data, c + |e.w3|, e.v, stack);
    StackSkips(cfg, data, c + |e.w3| + |Print(e.v)|, p + |PrintEntry(obj, e)|, stack);
  }

  /** Both scanners find the closing bracket of a printed node. */
  lemma NodeEnds(cfg: Config, data: Bytes, i: nat, v: JVal)
    requires Wf(v) && v.Node? && At(data, i, Print(v))
    ensures data[i] == Open(v.obj)
    ensures StackFrom(cfg, data, i + 1, [Close(v.obj)]) == Found(i + |Print(v)|)
    ensures BlockEndAt(cfg, data, i, Open(v.obj), Close(v.obj)) == i + |Print(v)|
  {
    NodeAt(data, i, v);
    StackInside(cfg, data, i, v, [Close(v.obj)]);
    assert [Close(v.obj)][..0] == [];
    StackEndIsBlockEnd(cfg, data, i, v.obj);
  }
}
