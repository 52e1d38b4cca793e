/** The token-level scanners of parser.go: tokens, primitives and one-bracket block matching. */
module Scanners {
  import opened Bytes
  import opened Strings

  // ---- reference definitions, by absolute offset ----

  /** Offset of the first byte at or after i that is not whitespace, or -1. */
  function NextTok(data: Bytes, i: nat): (r: int)
    requires i <= |data|
    ensures r == -1 || (i <= r < |data| && !IsSpace(data[r]))
    ensures forall k :: i <= k < (if r == -1 then |data| else r) ==> IsSpace(data[k])
    decreases |data| - i
  {
    if i == |data| then -1
    else if IsSpace(data[i]) then NextTok(data, i + 1)
    else i
  }

  /** Offset of the last byte before n that is not whitespace, or -1. */
  function LastTok(data: Bytes, n: nat): (r: int)
    requires n <= |data|
    ensures r == -1 || (0 <= r < n && !IsSpace(data[r]))
    ensures forall k :: r < k < n ==> IsSpace(data[k])
  {
    if n == 0 then -1
    else if IsSpace(data[n - 1]) then LastTok(data, n - 1)
    else n - 1
  }

  predicate EndsPrimitive(c: byte) {
    IsSpace(c) || c == COMMA || c == RBRACE || c == RBRACKET
  }

  /** End of the number or literal that starts at i. */
  function TokEnd(data: Bytes, i: nat): (r: nat)
    requires i <= |data|
    ensures i <= r <= |data| && (r < |data| ==> EndsPrimitive(data[r]))
    ensures forall k :: i <= k < r ==> !EndsPrimitive(data[k])
    decreases |data| - i
  {
    if i == |data| || EndsPrimitive(data[i]) then i else TokEnd(data, i + 1)
  }

  /** Offset of the nearest comma before n with no opening bracket in between, or 0. */
  function CommaBefore(data: Bytes, n: nat): (r: nat)
    requires n <= |data|
    ensures r == 0 || r < n
  {
    if n == 0 then 0
    else if data[n - 1] == COMMA then n - 1
    else if data[n - 1] == LBRACKET || data[n - 1] == LBRACE then 0
    else CommaBefore(data, n - 1)
  }

  /**
   * Counts one kind of bracket from i on, stepping over strings: the offset after the bracket that brings
   * the count back to zero, or -1.
   */
  function BlockFrom(cfg: Config, data: Bytes, i: nat, level: int, open: byte, close: byte): (r: int)
    requires i <= |data|
    ensures r == -1 || i < r <= |data|
    decreases |data| - i
  {
    if i == |data| then -1
    else if IsQuote(cfg, data[i]) then
      var e := StrEnd(data, i + 1, data[i]);
      if e == -1 then -1 else BlockFrom(cfg, data, e, level, open, close)
    else if data[i] == open then BlockFrom(cfg, data, i + 1, level + 1, open, close)
    else if data[i] == close then
      if level == 1 then i + 1 else BlockFrom(cfg, data, i + 1, level - 1, open, close)
    else BlockFrom(cfg, data, i + 1, level, open, close)
  }

  /** End of the block whose opening bracket is at i. */
  function BlockEndAt(cfg: Config, data: Bytes, i: nat, open: byte, close: byte): (r: int)
    requires i <= |data|
    ensures r == -1 || i < r <= |data|
  {
    BlockFrom(cfg, data, i, 0, open, close)
  }

  predicate IsBracketPair(open: byte, close: byte) {
    (open == LBRACKET && close == RBRACKET) || (open == LBRACE && close == RBRACE)
  }

  // ---- the scanners ----

  method NextToken(data: Bytes) returns (r: int)
    ensures r == NextTok(data, 0)
  {
    for i := 0 to |data|
      invariant NextTok(data, 0) == NextTok(data, i)
    {
      var c := data[i];
      if c == SPACE || c == NEWLINE || c == RETURN || c == TAB { continue; }
      return i;
    }
    return -1;
  }

  method LastToken(data: Bytes) returns (r: int)
    ensures r == LastTok(data, |data|)
  {
    var i := |data| - 1;
    while i >= 0
      invariant -1 <= i < |data|
      invariant LastTok(data, |data|) == LastTok(data, i + 1)
    {
      var c := data[i];
      if c == SPACE || c == NEWLINE || c == RETURN || c == TAB {
        i := i - 1;
        continue;
      }
      return i;
    }
    return -1;
  }

  method TokenEnd(data: Bytes) returns (r: nat)
    ensures r == TokEnd(data, 0)
  {
    for i := 0 to |data|
      invariant TokEnd(data, 0) == TokEnd(data, i)
    {
      var c := data[i];
      if c != SPACE && c != NEWLINE && c != RETURN && c != TAB && c != COMMA && c != RBRACE && c != RBRACKET {
        continue;
      }
      return i;
    }
    return |data|;
  }

  method FindTokenStart(data: Bytes) returns (r: nat)
    ensures r == CommaBefore(data, |data|)
  {
    var i := |data| - 1;
    while i >= 0
      invariant -1 <= i < |data|
      invariant CommaBefore(data, |data|) == CommaBefore(data, i + 1)
    {
      if data[i] == COMMA {
        return i;
      }
      if data[i] == LBRACKET || data[i] == LBRACE {
        return 0;
      }
      i := i - 1;
    }
    return 0;
  }

  /** The block scan that jumps over whitespace and over bytes above the backslash in bulk. */
  method BlockEnd(cfg: Config, data: Bytes, open: byte, close: byte) returns (r: int)
    requires IsBracketPair(open, close)
    ensures r == BlockEndAt(cfg, data, 0, open, close)
  {
    hide StrEndFrom;
    var level := 0;
    var i := 0;
    var ln := |data|;
    while i < ln
      invariant 0 <= i <= ln
      invariant BlockEndAt(cfg, data, 0, open, close) == BlockFrom(cfg, data, i, level, open, close)
    {
      while i < ln
        invariant 0 <= i <= ln
        invariant BlockEndAt(cfg, data, 0, open, close) == BlockFrom(cfg, data, i, level, open, close)
      {
        var c := data[i];
        if c <= SPACE {
          i := i + 1;
          continue;
        }
        if c > BACKSLASH && c != open && c != close {
          i := i + 1;
          continue;
        }
        break;
      }
      if i >= ln {
        break;
      }
      var c := data[i];
      if c == QUOTE || c == APOSTROPHE {
        if !(c == APOSTROPHE && !cfg.allowSingleQuotes) {
          var se, _ := StringEndFrom(data, i + 1, c);
          if se == -1 {
            return -1;
          }
          i := i + se;
        }
      } else if c == open {
        level := level + 1;
      } else if c == close {
        level := level - 1;
        if level == 0 {
          return i + 1;
        }
      }
      i := i + 1;
    }
    return -1;
  }

  // ---- shifting: scanning a suffix ----

  lemma {:induction false} NextTokShift(data: Bytes, base: nat, i: nat)
    requires base + i <= |data|
    ensures var r := NextTok(data, base + i); NextTok(data[base..], i) == if r == -1 then -1 else r - base
    decreases |data| - i
  {
    if base + i < |data| { NextTokShift(data, base, i + 1); }
  }

  lemma {:induction false} TokEndShift(data: Bytes, base: nat, i: nat)
    requires base + i <= |data|
    ensures TokEnd(data[base..], i) == TokEnd(data, base + i) - base
    decreases |data| - i
  {
    if base + i < |data| { TokEndShift(data, base, i + 1); }
  }

  lemma {:induction false} BlockShift(cfg: Config, data: Bytes, base: nat, i: nat, level: int, open: byte, close: byte)
    requires base + i <= |data|
    ensures var r := BlockFrom(cfg, data, base + i, level, open, close);
            BlockFrom(cfg, data[base..], i, level, open, close) == if r == -1 then -1 else r - base
    decreases |data| - i
  {
    hide StrEndFrom;
    if base + i < |data| {
      var c := data[base + i];
      assert data[base..][i] == c;
      if IsQuote(cfg, c) {
        StrEndShift(data, base, i + 1, false, c);
        var e := StrEnd(data, base + i + 1, c);
        if e != -1 { BlockShift(cfg, data, base, e - base, level, open, close); }
      } else if c == open {
        BlockShift(cfg, data, base, i + 1, level + 1, open, close);
      } else if c == close {
        if level != 1 { BlockShift(cfg, data, base, i + 1, level - 1, open, close); }
      } else {
        BlockShift(cfg, data, base, i + 1, level, open, close);
      }
    }
  }

  /** NextToken(data[i:]). */
  method NextTokenFrom(data: Bytes, i: nat) returns (r: int)
    requires i <= |data|
    ensures NextTok(data, i) == if r == -1 then -1 else i + r
    ensures r >= -1
  {
    r := NextToken(data[i..]);
    NextTokShift(data, i, 0);
  }

  /** BlockEnd(data[i:], open, close). */
  method BlockEndFrom(cfg: Config, data: Bytes, i: nat, open: byte, close: byte) returns (r: int)
    requires i <= |data| && IsBracketPair(open, close)
    ensures BlockEndAt(cfg, data, i, open, close) == if r == -1 then -1 else i + r
    ensures r >= -1
  {
    r := BlockEnd(cfg, data[i..], open, close);
    BlockShift(cfg, data, i, 0, 0, open, close);
  }

  /** TokenEnd(data[i:]). */
  method TokenEndFrom(data: Bytes, i: nat) returns (r: nat)
    requires i <= |data|
    ensures TokEnd(data, i) == i + r
  {
    r := TokenEnd(data[i..]);
    TokEndShift(data, i, 0);
  }

  // ---- stability: a found end depends only on the bytes before it ----

  lemma {:induction false} NextTokStable(data: Bytes, data': Bytes, i: nat)
    requires i <= |data| && NextTok(data, i) != -1 && NextTok(data, i) < |data'|
    requires forall k :: i <= k <= NextTok(data, i) ==> data'[k] == data[k]
    ensures NextTok(data', i) == NextTok(data, i)
    decreases |data| - i
  {
    if IsSpace(data[i]) { NextTokStable(data, data', i + 1); }
  }

  lemma {:induction false} BlockStable(cfg: Config, data: Bytes, data': Bytes, i: nat, level: int, open: byte, close: byte)
    requires i <= |data| && BlockFrom(cfg, data, i, level, open, close) != -1
    requires BlockFrom(cfg, data, i, level, open, close) <= |data'|
    requires forall k :: i <= k < BlockFrom(cfg, data, i, level, open, close) ==> data'[k] == data[k]
    ensures BlockFrom(cfg, data', i, level, open, close) == BlockFrom(cfg, data, i, level, open, close)
    decreases |data| - i
  {
    var c := data[i];
    if IsQuote(cfg, c) {
      StrEndStable(data, data', i + 1, false, c);
      BlockStable(cfg, data, data', StrEnd(data, i + 1, c), level, open, close);
    } else if c == open {
      BlockStable(cfg, data, data', i + 1, level + 1, open, close);
    } else if c == close {
      if level != 1 { BlockStable(cfg, data, data', i + 1, level - 1, open, close); }
    } else {
      BlockStable(cfg, data, data', i + 1, level, open, close);
    }
  }

  lemma {:induction false} LastTokPrefix(data: Bytes, n: nat, k: nat)
    requires k <= n <= |data|
    ensures LastTok(data[..n], k) == LastTok(data, k)
    decreases k
  {
    if k > 0 { LastTokPrefix(data, n, k - 1); }
  }

  /** Whitespace from i to j leads the token search from i to j. */
  lemma {:induction false} NextTokSkips(data: Bytes, i: nat, j: nat)
    requires i <= j <= |data| && forall k :: i <= k < j ==> IsSpace(data[k])
    ensures NextTok(data, i) == NextTok(data, j)
    decreases j - i
  {
    if i < j { NextTokSkips(data, i + 1, j); }
  }
}
