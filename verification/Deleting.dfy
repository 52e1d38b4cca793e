/** deleteFoundConfig: removing a member or an element together with the comma that belongs to it. */
module Deleting {
  import opened Bytes
  import opened Strings
  import opened Escapes
  import opened Scanners
  import opened Syntax
  import opened Lookup
  import opened Setting

  // ---- finding the quote of a member name ----

  const SCRATCH_SIZE := 64

  /** A wanted name that findKeyStartConfig leaves as it is: it holds no backslash, or it does not decode. */
  predicate Literal(cfg: Config, wanted: Bytes) {
    Plain(wanted) || Unescaped(cfg, wanted).None?
  }

  /** The wanted name is decoded into the scratch buffer, which the names of the document are decoded into as well. */
  predicate Shared(cfg: Config, wanted: Bytes) {
    !Literal(cfg, wanted) && |wanted| <= SCRATCH_SIZE
  }

  /** The name looked for: decoded when that is possible. */
  function WantedName(cfg: Config, wanted: Bytes): Bytes {
    match Unescaped(cfg, wanted) case None => wanted case Some(name) => name
  }

  /** The wanted name after the string raw of the document was unescaped: overwritten if it lives in the same buffer. */
  function KeyAfter(cfg: Config, raw: Bytes, key: Bytes, shared: bool): (r: Bytes)
    ensures |r| == |key| && (!shared ==> r == key)
  {
    if shared && HasBackslash(raw) && |raw| <= SCRATCH_SIZE then Overwrite(key, Emitted(cfg, raw)) else key
  }

  /**
   * findKeyStartConfig's loop: the offset of the opening quote of the first name equal to key, stepping over
   * nested blocks, or -1. Positions may run past the end by a step, as in the loop.
   */
  function KeyStartFrom(cfg: Config, data: Bytes, i: nat, key: Bytes, shared: bool): (r: int)
    ensures r == -1 || i <= r < |data|
    decreases |data| + 1 - i
  {
    if i >= |data| then -1
    else
      var c := data[i];
      if IsQuote(cfg, c) then
        var e := StrEnd(data, i + 1, c);
        if e == -1 then KeyStartFrom(cfg, data, i + 2, key, shared)
        else
          var n := NextTok(data, e);
          if n == -1 then KeyStartFrom(cfg, data, e + 1, key, shared)
          else
            var key' := KeyAfter(cfg, data[i + 1..e - 1], key, shared);
            if data[n] == COLON && Unescaped(cfg, data[i + 1..e - 1]) == Some(key') then i
            else KeyStartFrom(cfg, data, n + 1, key', shared)
      else if c == LBRACKET || c == LBRACE then
        var end := BlockEndAt(cfg, data, i, c, if c == LBRACKET then RBRACKET else RBRACE);
        if end == -1 then KeyStartFrom(cfg, data, i + 1, key, shared) else KeyStartFrom(cfg, data, end + 1, key, shared)
      else KeyStartFrom(cfg, data, i + 1, key, shared)
  }

  function KeyStartSpec(cfg: Config, data: Bytes, wanted: Bytes): (r: int)
    ensures r == -1 || 0 <= r < |data|
  {
    var i := NextTok(data, 0);
    if i == -1 then -1
    else KeyStartFrom(cfg, data, if data[i] == LBRACE || data[i] == LBRACKET then i + 1 else i,
                      WantedName(cfg, wanted), Shared(cfg, wanted))
  }

  /** The front of an overwritten buffer. */
  lemma OverwriteFront(buf: Bytes, s: Bytes, m: nat)
    requires m <= |buf|
    ensures Overwrite(buf, s)[..m] == Overwrite(buf[..m], s)
  {
  }

  /** The string branch of the loop: whether the name is the wanted one, where to go on, and the wanted name after it. */
  method TryName(cfg: Config, data: Bytes, i: nat, wanted: Bytes, shared: bool, stackbuf: array<byte>)
    returns (hit: bool, next: nat, key: Bytes)
    requires i < |data| && IsQuote(cfg, data[i]) && stackbuf.Length == SCRATCH_SIZE
    requires shared ==> |wanted| <= SCRATCH_SIZE && stackbuf[..|wanted|] == wanted
    modifies stackbuf
    ensures i < next && |key| == |wanted| && (shared ==> stackbuf[..|key|] == key)
    ensures KeyStartFrom(cfg, data, i, wanted, shared) == if hit then i else KeyStartFrom(cfg, data, next, key, shared)
  {
    hide KeyStartFrom, StrEndFrom, NextTok, Unescaped, Emitted, Overwrite;
    KeyStartStep(cfg, data, i, wanted, shared);
    key := wanted;
    var strEnd, escaped := StringEndFrom(data, i + 1, data[i]);
    if strEnd == -1 {
      return false, i + 2, key;
    }
    var e := i + 1 + strEnd;
    var valueOffset := NextTokenFrom(data, e);
    if valueOffset == -1 {
      return false, e + 1, key;
    }
    var n := e + valueOffset;
    var k := data[i + 1..e - 1];
    if escaped {
      ghost var before := stackbuf[..];
      var decoded := Unescape(cfg, k, stackbuf);
      if shared {
        key := stackbuf[..|wanted|];
        OverwriteFront(before, Emitted(cfg, k), |wanted|);
        assert before[..|wanted|] == wanted;
      }
      if decoded.None? {
        return false, n + 1, key;
      }
      k := decoded.value;
    } else {
      UnescapedIdentity(cfg, k);
    }
    return data[n] == COLON && k == key, n + 1, key;
  }

  /** The wanted name and every string before the name it is found at are decoded into one scratch buffer. */
  method FindKeyStart(cfg: Config, data: Bytes, wanted: Bytes) returns (r: int)
    ensures r == KeyStartSpec(cfg, data, wanted)
  {
    hide KeyStartFrom, NextTok, BlockFrom, Unescaped, Emitted;
    var first := NextToken(data);
    if first == -1 {
      return -1;
    }
    var i: nat := first;
    if data[i] == LBRACE || data[i] == LBRACKET {
      i := i + 1;
    }
    ghost var start := i;
    var stackbuf := new byte[SCRATCH_SIZE](_ => 0);
    var key := wanted;
    var shared := false; // the wanted name lives in stackbuf
    var ku := Unescape(cfg, wanted, stackbuf);
    if ku.Some? {
      key := ku.value;
      shared := HasBackslash(wanted) && |wanted| <= SCRATCH_SIZE;
    }
    ghost var name := key;
    while i < |data|
      invariant shared ==> |key| <= SCRATCH_SIZE && stackbuf[..|key|] == key
      invariant KeyStartFrom(cfg, data, start, name, shared) == KeyStartFrom(cfg, data, i, key, shared)
      decreases |data| + 1 - i
    {
      KeyStartStep(cfg, data, i, key, shared);
      var c := data[i];
      if c == QUOTE || (c == APOSTROPHE && cfg.allowSingleQuotes) {
        var hit: bool;
        var next: nat;
        hit, next, key := TryName(cfg, data, i, key, shared, stackbuf);
        if hit {
          return i;
        }
        i := next;
        continue;
      }
      if c == LBRACKET || c == LBRACE {
        var end := BlockEndFrom(cfg, data, i, c, if c == LBRACKET then RBRACKET else RBRACE);
        if end != -1 {
          i := i + end;
        }
      }
      i := i + 1;
    }
    KeyStartPast(cfg, data, i, key, shared);
    return -1;
  }

  lemma KeyStartPast(cfg: Config, data: Bytes, i: nat, key: Bytes, shared: bool)
    requires i >= |data|
    ensures KeyStartFrom(cfg, data, i, key, shared) == -1
  {
  }

  /** One step of the loop. */
  lemma KeyStartStep(cfg: Config, data: Bytes, i: nat, key: Bytes, shared: bool)
    requires i < |data|
    ensures var c := data[i];
            IsQuote(cfg, c) ==>
              var e := StrEnd(data, i + 1, c);
              KeyStartFrom(cfg, data, i, key, shared) ==
              if e == -1 then KeyStartFrom(cfg, data, i + 2, key, shared)
              else if NextTok(data, e) == -1 then KeyStartFrom(cfg, data, e + 1, key, shared)
              else
                var key' := KeyAfter(cfg, data[i + 1..e - 1], key, shared);
                if data[NextTok(data, e)] == COLON && Unescaped(cfg, data[i + 1..e - 1]) == Some(key') then i
                else KeyStartFrom(cfg, data, NextTok(data, e) + 1, key', shared)
    ensures var c := data[i];
            !IsQuote(cfg, c) && (c == LBRACKET || c == LBRACE) ==>
              var end := BlockEndAt(cfg, data, i, c, if c == LBRACKET then RBRACKET else RBRACE);
              KeyStartFrom(cfg, data, i, key, shared) == KeyStartFrom(cfg, data, if end == -1 then i + 1 else end + 1, key, shared)
    ensures var c := data[i];
            !IsQuote(cfg, c) && c != LBRACKET && c != LBRACE ==>
              KeyStartFrom(cfg, data, i, key, shared) == KeyStartFrom(cfg, data, i + 1, key, shared)
  {
    hide StrEndFrom, NextTok, BlockFrom, Unescaped, KeyAfter;
  }

  // ---- cutting out the found bytes and one comma ----

  /** The bytes to drop: widened over a following comma, or back over a preceding one. None when cut short. */
  function CutRange(data: Bytes, keyOffset: nat, endOffset: nat, close: byte): (r: Option<(nat, nat)>)
    requires keyOffset <= |data| && endOffset <= |data|
    ensures r.Some? ==> r.value.0 <= |data| && r.value.1 <= |data|
  {
    var idx := TokEnd(data, endOffset);
    if idx >= |data| then None
    else
      var next := NextTok(data, idx);
      var comma := CommaBefore(data, keyOffset);
      if next != -1 && data[next] == COMMA then Some((keyOffset, next + 1))
      else if data[idx] == close && data[comma] == COMMA then Some((comma, endOffset))
      else Some((keyOffset, endOffset))
  }

  /** Drops a range together with the whitespace before it, and with a comma before it that would be left last. */
  function CutAt(data: Bytes, start: nat, end: nat): Bytes
    requires start <= |data| && end <= |data|
  {
    var prev := LastTok(data, start);
    var rest := NextTok(data, end);
    var cut := if prev > -1 && rest > -1 && (data[rest] == RBRACE || data[rest] == RBRACKET) && data[prev] == COMMA
               then prev else prev + 1;
    data[..cut] + data[end..]
  }

  function CutSpec(data: Bytes, keyOffset: nat, endOffset: nat, close: byte): (r: Option<Bytes>)
    requires keyOffset <= |data| && endOffset <= |data|
  {
    match CutRange(data, keyOffset, endOffset, close)
    case None => None
    case Some((start, end)) => Some(CutAt(data, start, end))
  }

  method FindRange(data: Bytes, keyOff: nat, endOff: nat, close: byte) returns (r: Option<(nat, nat)>)
    requires keyOff <= |data| && endOff <= |data| && close != COMMA && !IsSpace(close)
    ensures r == CutRange(data, keyOff, endOff, close)
  {
    hide TokEnd, NextTok, LastTok, CommaBefore;
    var keyOffset, endOffset := keyOff, endOff;
    var tokEnd := TokenEndFrom(data, endOffset);
    var tokStart := FindTokenStart(data[..keyOffset]);
    CommaPrefix(data, keyOffset, keyOffset);
    if endOffset + tokEnd >= |data| {
      return None;
    }
    var idx := endOffset + tokEnd;
    var nextTokIdx := idx;
    while nextTokIdx < |data| && IsSpace(data[nextTokIdx])
      invariant idx <= nextTokIdx <= |data|
      invariant NextTok(data, idx) == NextTok(data, nextTokIdx)
    {
      NextTokStep(data, nextTokIdx);
      nextTokIdx := nextTokIdx + 1;
    }
    NextTokStep(data, nextTokIdx);
    NextTokStep(data, idx);
    if data[idx] == COMMA {
      endOffset := endOffset + tokEnd + 1;
    } else if |data| > nextTokIdx && data[nextTokIdx] == COMMA {
      endOffset := endOffset + (nextTokIdx - idx + tokEnd + 1);
    } else if data[idx] == close && data[tokStart] == COMMA {
      keyOffset := tokStart;
    }
    return Some((keyOffset, endOffset));
  }

  method Cut(data: Bytes, keyOff: nat, endOff: nat, close: byte) returns (r: Option<Bytes>)
    requires keyOff <= |data| && endOff <= |data| && close != COMMA && !IsSpace(close)
    ensures r == CutSpec(data, keyOff, endOff, close)
  {
    hide CutRange, NextTok, LastTok;
    var range := FindRange(data, keyOff, endOff, close);
    if range.None? {
      return None;
    }
    var (keyOffset, endOffset) := range.value;
    var prevTok := LastTokenBefore(data, keyOffset);
    var remained := NextTokenFrom(data, endOffset);
    var newOffset := 0;
    if prevTok > -1 && remained > -1 && (data[endOffset + remained] == RBRACE || data[endOffset + remained] == RBRACKET)
       && data[prevTok] == COMMA {
      newOffset := prevTok;
    } else if prevTok > -1 {
      newOffset := prevTok + 1;
    }
    var result := CopyParts(data, newOffset, endOffset, []);
    assert data[..newOffset] + [] + data[endOffset..] == data[..newOffset] + data[endOffset..];
    return Some(result[..]);
  }

  lemma NextTokStep(data: Bytes, i: nat)
    requires i <= |data|
    ensures NextTok(data, i) == if i == |data| then -1 else if IsSpace(data[i]) then NextTok(data, i + 1) else i
  {
  }

  lemma {:induction false} CommaPrefix(data: Bytes, n: nat, k: nat)
    requires k <= n <= |data|
    ensures CommaBefore(data[..n], k) == CommaBefore(data, k)
    decreases k
  {
    if k > 0 { CommaPrefix(data, n, k - 1); }
  }

  /** What Delete returns: the new text and whether something was removed. */
  function DeleteSpec(cfg: Config, data: Bytes, keys: Path): (Bytes, bool) {
    if keys == [] then ([], true)
    else
      var last := keys[|keys| - 1];
      if IsIndexKey(last) then
        var g := GetSpec(cfg, data, keys);
        if g.err.Some? then (data, false) else Removed(data, CutSpec(data, g.off, g.end, RBRACKET))
      else
        var outer := GetSpec(cfg, data, keys[..|keys| - 1]);
        if |keys| > 1 && outer.err.Some? then (data, false)
        else
          var start, end := if |keys| > 1 then outer.off else 0, if |keys| > 1 then outer.end else |data|;
          var inner := data[start..end];
          var k := KeyStartSpec(cfg, inner, last);
          var g := GetSpec(cfg, inner, [last]);
          if k == -1 || g.err.Some? then (data, false)
          else Removed(data, CutSpec(data, start + k, start + g.end, RBRACE))
  }

  function Removed(data: Bytes, r: Option<Bytes>): (Bytes, bool) {
    if r.Some? then (r.value, true) else (data, false)
  }

  method DeleteFound(cfg: Config, data: Bytes, keys: Path) returns (result: Bytes, found: bool)
    ensures (result, found) == DeleteSpec(cfg, data, keys)
    ensures !found ==> result == data
  {
    hide GetSpec, KeyStartSpec, CutSpec;
    var lk := |keys|;
    if lk == 0 {
      return [], true;
    }
    var last := keys[lk - 1];
    if |last| > 0 && last[0] == LBRACKET {
      var g := Get(cfg, data, keys);
      if g.err.Some? {
        return data, false;
      }
      var cut := Cut(data, g.off, g.end, RBRACKET);
      if cut.None? {
        return data, false;
      }
      return cut.value, true;
    }
    var startOffset, endOffset := 0, |data|;
    if lk > 1 {
      var outer := Get(cfg, data, keys[..lk - 1]);
      if outer.err.Some? {
        return data, false;
      }
      startOffset, endOffset := outer.off, outer.end;
    }
    var inner := data[startOffset..endOffset];
    var keyOffset := FindKeyStart(cfg, inner, last);
    if keyOffset == -1 {
      return data, false;
    }
    var g := Get(cfg, inner, [last]);
    if g.err.Some? {
      return data, false;
    }
    var cut := Cut(data, startOffset + keyOffset, startOffset + g.end, RBRACE);
    if cut.None? {
      return data, false;
    }
    return cut.value, true;
  }
}
