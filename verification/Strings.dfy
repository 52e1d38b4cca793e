/**
 * The end of a string token. The reference is the plain forward scan that toggles an "escaped" flag
 * (reader_parser.go's scanString); the fast form of parser.go first skips eight bytes at a time with
 * word arithmetic, then decides each quote by counting the backslashes behind it.
 */
module Strings {
  import opened Bytes

  /** Reads from i to the first unescaped quote; the offset after it, or -1 when there is none. */
  function StrEndFrom(data: Bytes, i: nat, escaped: bool, quote: byte): (e: int)
    requires i <= |data|
    ensures e == -1 || i < e <= |data|
    decreases |data| - i
  {
    if i == |data| then -1
    else if escaped then StrEndFrom(data, i + 1, false, quote)
    else if data[i] == BACKSLASH then StrEndFrom(data, i + 1, true, quote)
    else if data[i] == quote then i + 1
    else StrEndFrom(data, i + 1, false, quote)
  }

  /** End of the string whose opening quote has just been read. */
  function StrEnd(data: Bytes, i: nat, quote: byte): (e: int)
    requires i <= |data|
    ensures e == -1 || i < e <= |data|
  {
    StrEndFrom(data, i, false, quote)
  }

  predicate Plain(data: Bytes) {
    forall k :: 0 <= k < |data| ==> data[k] != BACKSLASH
  }

  predicate HasBackslash(data: Bytes) {
    !Plain(data)
  }

  /** Whether an odd run of backslashes ends just before i. */
  function OddRun(data: Bytes, i: nat): bool
    requires i <= |data|
  {
    i > 0 && data[i - 1] == BACKSLASH && !OddRun(data, i - 1)
  }

  // ---- the word scan ----

  const SWAR_LSB: bv64 := 0x0101010101010101
  const SWAR_MSB: bv64 := 0x8080808080808080

  function Word(b0: bv8, b1: bv8, b2: bv8, b3: bv8, b4: bv8, b5: bv8, b6: bv8, b7: bv8): bv64 {
    (b0 as bv64) | ((b1 as bv64) << 8) | ((b2 as bv64) << 16) | ((b3 as bv64) << 24)
    | ((b4 as bv64) << 32) | ((b5 as bv64) << 40) | ((b6 as bv64) << 48) | ((b7 as bv64) << 56)
  }

  /** binary.LittleEndian.Uint64 of the eight bytes at i. */
  function WordAt(data: Bytes, i: nat): bv64
    requires i + 8 <= |data|
  {
    Word(Byte8(data[i]), Byte8(data[i + 1]), Byte8(data[i + 2]), Byte8(data[i + 3]),
         Byte8(data[i + 4]), Byte8(data[i + 5]), Byte8(data[i + 6]), Byte8(data[i + 7]))
  }

  /** The eight bytes of w, lowest first. */
  ghost predicate Lanes(w: bv64, b0: bv8, b1: bv8, b2: bv8, b3: bv8, b4: bv8, b5: bv8, b6: bv8, b7: bv8) {
    && w & 0xFF == b0 as bv64 && w & 0xFF00 == (b1 as bv64) << 8
    && w & 0xFF_0000 == (b2 as bv64) << 16 && w & 0xFF00_0000 == (b3 as bv64) << 24
    && w & 0xFF_0000_0000 == (b4 as bv64) << 32 && w & 0xFF00_0000_0000 == (b5 as bv64) << 40
    && w & 0xFF_0000_0000_0000 == (b6 as bv64) << 48 && w & 0xFF00_0000_0000_0000 == (b7 as bv64) << 56
  }

  lemma WordLanes(b0: bv8, b1: bv8, b2: bv8, b3: bv8, b4: bv8, b5: bv8, b6: bv8, b7: bv8)
    ensures Lanes(Word(b0, b1, b2, b3, b4, b5, b6, b7), b0, b1, b2, b3, b4, b5, b6, b7)
  {
  }

  /** uint64(q) * swarLsb repeats q in every lane. */
  lemma BroadcastLanes(q: bv8)
    ensures Lanes((q as bv64) * SWAR_LSB, q, q, q, q, q, q, q, q)
  {
  }

  /** The word trick: a bit in some lane when x has a zero lane, and no bit at all otherwise. */
  function ZeroBytes(x: bv64): bv64 {
    (x - SWAR_LSB) & !x & SWAR_MSB
  }

  lemma NoZeroLane(x: bv64)
    ensures ZeroBytes(x) == 0
       <==> x & 0xFF != 0 && x & 0xFF00 != 0 && x & 0xFF_0000 != 0 && x & 0xFF00_0000 != 0
            && x & 0xFF_0000_0000 != 0 && x & 0xFF00_0000_0000 != 0
            && x & 0xFF_0000_0000_0000 != 0 && x & 0xFF00_0000_0000_0000 != 0
  {
  }

  // One lemma a lane: a word with no hit differs from the broadcast byte in that lane.

  lemma Lane0(w: bv64, v: bv64, b: bv8, q: bv8)
    requires w & 0xFF == (b as bv64) && v & 0xFF == (q as bv64) && ZeroBytes(w ^ v) == 0
    ensures b != q
  {}

  lemma Lane1(w: bv64, v: bv64, b: bv8, q: bv8)
    requires w & 0xFF00 == (b as bv64) << 8 && v & 0xFF00 == (q as bv64) << 8 && ZeroBytes(w ^ v) == 0
    ensures b != q
  {}

  lemma Lane2(w: bv64, v: bv64, b: bv8, q: bv8)
    requires w & 0xFF_0000 == (b as bv64) << 16 && v & 0xFF_0000 == (q as bv64) << 16 && ZeroBytes(w ^ v) == 0
    ensures b != q
  {}

  lemma Lane3(w: bv64, v: bv64, b: bv8, q: bv8)
    requires w & 0xFF00_0000 == (b as bv64) << 24 && v & 0xFF00_0000 == (q as bv64) << 24 && ZeroBytes(w ^ v) == 0
    ensures b != q
  {}

  lemma Lane4(w: bv64, v: bv64, b: bv8, q: bv8)
    requires w & 0xFF_0000_0000 == (b as bv64) << 32 && v & 0xFF_0000_0000 == (q as bv64) << 32 && ZeroBytes(w ^ v) == 0
    ensures b != q
  {}

  lemma Lane5(w: bv64, v: bv64, b: bv8, q: bv8)
    requires w & 0xFF00_0000_0000 == (b as bv64) << 40 && v & 0xFF00_0000_0000 == (q as bv64) << 40 && ZeroBytes(w ^ v) == 0
    ensures b != q
  {}

  lemma Lane6(w: bv64, v: bv64, b: bv8, q: bv8)
    requires w & 0xFF_0000_0000_0000 == (b as bv64) << 48 && v & 0xFF_0000_0000_0000 == (q as bv64) << 48 && ZeroBytes(w ^ v) == 0
    ensures b != q
  {}

  lemma Lane7(w: bv64, v: bv64, b: bv8, q: bv8)
    requires w & 0xFF00_0000_0000_0000 == (b as bv64) << 56 && v & 0xFF00_0000_0000_0000 == (q as bv64) << 56 && ZeroBytes(w ^ v) == 0
    ensures b != q
  {}

  lemma LanesMiss(w: bv64, v: bv64, b0: bv8, b1: bv8, b2: bv8, b3: bv8, b4: bv8, b5: bv8, b6: bv8, b7: bv8, q: bv8)
    requires Lanes(w, b0, b1, b2, b3, b4, b5, b6, b7) && Lanes(v, q, q, q, q, q, q, q, q)
    requires ZeroBytes(w ^ v) == 0
    ensures q !in [b0, b1, b2, b3, b4, b5, b6, b7]
  {
    Lane0(w, v, b0, q); Lane1(w, v, b1, q); Lane2(w, v, b2, q); Lane3(w, v, b3, q);
    Lane4(w, v, b4, q); Lane5(w, v, b5, q); Lane6(w, v, b6, q); Lane7(w, v, b7, q);
  }

  /** When the word test reports no hit, none of the eight bytes is q. */
  lemma SwarMiss(b0: bv8, b1: bv8, b2: bv8, b3: bv8, b4: bv8, b5: bv8, b6: bv8, b7: bv8, q: bv8)
    requires ZeroBytes(Word(b0, b1, b2, b3, b4, b5, b6, b7) ^ ((q as bv64) * SWAR_LSB)) == 0
    ensures q !in [b0, b1, b2, b3, b4, b5, b6, b7]
  {
    WordLanes(b0, b1, b2, b3, b4, b5, b6, b7);
    BroadcastLanes(q);
    LanesMiss(Word(b0, b1, b2, b3, b4, b5, b6, b7), (q as bv64) * SWAR_LSB, b0, b1, b2, b3, b4, b5, b6, b7, q);
  }

  function Byte8(b: byte): bv8 { b as bv8 }

  /** uint64(q) * swarLsb. */
  function Broadcast(q: byte): bv64 { (Byte8(q) as bv64) * SWAR_LSB }

  function Hits(w: bv64, broadcast: bv64): bv64 { ZeroBytes(w ^ broadcast) }

  lemma WordMiss(data: Bytes, i: nat, q: byte)
    requires i + 8 <= |data|
    requires Hits(WordAt(data, i), Broadcast(q)) == 0
    ensures forall k :: i <= k < i + 8 ==> data[k] != q
  {
    hide ZeroBytes, Word, Byte8;
    SwarMiss(Byte8(data[i]), Byte8(data[i + 1]), Byte8(data[i + 2]), Byte8(data[i + 3]),
             Byte8(data[i + 4]), Byte8(data[i + 5]), Byte8(data[i + 6]), Byte8(data[i + 7]), Byte8(q));
  }

  lemma OrZero(a: bv64, b: bv64)
    requires a | b == 0
    ensures a == 0 && b == 0
  {
  }

  /** The eight-bytes-at-a-time prefix of the scan: stops at the first word holding a quote or a backslash. */
  method SkipWords(data: Bytes, quote: byte) returns (i: nat)
    ensures i <= |data|
    ensures forall k :: 0 <= k < i ==> data[k] != quote && data[k] != BACKSLASH
  {
    hide *;
    var broadcastQuote := Broadcast(quote);
    var broadcastBackslash := Broadcast(BACKSLASH);
    i := 0;
    while i + 8 <= |data|
      invariant i <= |data|
      invariant forall k :: 0 <= k < i ==> data[k] != quote && data[k] != BACKSLASH
    {
      var w := WordAt(data, i);
      var quoteHit := Hits(w, broadcastQuote);
      var bsHit := Hits(w, broadcastBackslash);
      if quoteHit | bsHit == 0 {
        OrZero(quoteHit, bsHit);
        WordMiss(data, i, quote);
        WordMiss(data, i, BACKSLASH);
        i := i + 8;
        continue;
      }
      break;
    }
  }

  // ---- the fast scan ----

  lemma {:induction false} SkipPlain(data: Bytes, i: nat, j: nat, quote: byte)
    requires i <= j <= |data|
    requires forall k :: i <= k < j ==> data[k] != quote && data[k] != BACKSLASH
    ensures StrEndFrom(data, i, false, quote) == StrEndFrom(data, j, false, quote)
    decreases j - i
  {
    if i < j { SkipPlain(data, i + 1, j, quote); }
  }

  lemma {:induction false} RunParity(data: Bytes, i: nat, j: int)
    requires -1 <= j < i <= |data|
    requires forall k :: j < k < i ==> data[k] == BACKSLASH
    requires j < 0 || data[j] != BACKSLASH
    ensures OddRun(data, i) <==> (i - 1 - j) % 2 == 1
    decreases i
  {
    if j + 1 < i { RunParity(data, i - 1, j); }
  }

  lemma {:induction false} NoRun(data: Bytes, i: nat)
    requires i <= |data| && !HasBackslash(data[..i])
    ensures !OddRun(data, i)
  {
    if i > 0 { assert data[..i][i - 1] == data[i - 1]; }
  }

  lemma HasBackslashStep(data: Bytes, i: nat)
    requires i < |data|
    ensures HasBackslash(data[..i + 1]) <==> HasBackslash(data[..i]) || data[i] == BACKSLASH
  {
    assert data[..i + 1] == data[..i] + [data[i]];
    if data[i] == BACKSLASH { assert data[..i + 1][i] == BACKSLASH; }
  }

  /** Counts the backslashes before the quote at i, two at a time, and says whether their number is odd. */
  method BackslashParity(data: Bytes, i: nat) returns (odd: bool)
    requires i < |data|
    ensures odd == OddRun(data, i)
  {
    var j: int := i - 1;
    while true
      invariant -1 <= j < i
      invariant forall k :: j < k < i ==> data[k] == BACKSLASH
      invariant (i - 1 - j) % 2 == 0
      decreases j
    {
      if j < 0 || data[j] != BACKSLASH {
        RunParity(data, i, j);
        return false;
      }
      j := j - 1;
      if j < 0 || data[j] != BACKSLASH {
        RunParity(data, i, j);
        return true;
      }
      j := j - 1;
    }
  }

  /** Length of the string body plus its closing quote, or -1; and whether a backslash occurs in it. */
  method StringEnd(data: Bytes, quote: byte) returns (end: int, escaped: bool)
    requires quote < BACKSLASH
    ensures end == StrEnd(data, 0, quote)
    ensures escaped <==> HasBackslash(if end == -1 then data else data[..end - 1])
  {
    var n := |data|;
    var i := SkipWords(data, quote);
    SkipPlain(data, 0, i, quote);
    escaped := false;
    NoRun(data, i);
    while i < n
      invariant i <= n
      invariant StrEnd(data, 0, quote) == StrEndFrom(data, i, OddRun(data, i), quote)
      invariant escaped <==> HasBackslash(data[..i])
    {
      HasBackslashStep(data, i);
      if data[i] > BACKSLASH {
        i := i + 1;
        continue;
      }
      var c := data[i];
      if c == quote {
        if !escaped {
          NoRun(data, i);
          return i + 1, false;
        }
        var odd := BackslashParity(data, i);
        if !odd {
          return i + 1, true;
        }
      } else if c == BACKSLASH {
        escaped := true;
      }
      i := i + 1;
    }
    assert data[..n] == data;
    return -1, escaped;
  }

  // ---- facts about the reference scan used by the other modules ----

  /** The scan of a suffix is the scan of the whole text, shifted. */
  lemma {:induction false} StrEndShift(data: Bytes, base: nat, i: nat, escaped: bool, quote: byte)
    requires base + i <= |data|
    ensures var e := StrEndFrom(data, base + i, escaped, quote);
            StrEndFrom(data[base..], i, escaped, quote) == if e == -1 then -1 else e - base
    decreases |data| - i
  {
    if base + i < |data| {
      StrEndShift(data, base, i + 1, false, quote);
      StrEndShift(data, base, i + 1, true, quote);
    }
  }

  /** StringEnd(data[i:], quote). */
  method StringEndFrom(data: Bytes, i: nat, quote: byte) returns (end: int, escaped: bool)
    requires i <= |data| && quote < BACKSLASH
    ensures StrEnd(data, i, quote) == if end == -1 then -1 else i + end
    ensures end == -1 || 0 < end <= |data| - i
    ensures end != -1 ==> (escaped <==> HasBackslash(data[i..i + end - 1]))
  {
    end, escaped := StringEnd(data[i..], quote);
    StrEndShift(data, i, 0, false, quote);
    if end != -1 { assert data[i..][..end - 1] == data[i..i + end - 1]; }
  }

  /** A found end depends only on the bytes before it. */
  lemma {:induction false} StrEndStable(data: Bytes, data': Bytes, i: nat, escaped: bool, quote: byte)
    requires i <= |data| && StrEndFrom(data, i, escaped, quote) != -1
    requires StrEndFrom(data, i, escaped, quote) <= |data'|
    requires forall k :: i <= k < StrEndFrom(data, i, escaped, quote) ==> data'[k] == data[k]
    ensures StrEndFrom(data', i, escaped, quote) == StrEndFrom(data, i, escaped, quote)
    decreases |data| - i
  {
    if escaped {
      StrEndStable(data, data', i + 1, false, quote);
    } else if data[i] == BACKSLASH {
      StrEndStable(data, data', i + 1, true, quote);
    } else if data[i] != quote {
      StrEndStable(data, data', i + 1, false, quote);
    }
  }
}
