/**
 * reader_parser.go: the streaming parser, a sliding window over a chunked reader. Every operation is proved
 * against a reference function of the delivered bytes alone, so no result depends on how they were cut.
 */
module Reader {
  import opened Bytes
  import opened Strings
  import opened Escapes
  import opened Scanners
  import opened Syntax
  import opened Blocks
  import opened Lookup
  import opened Streams

  const DEFAULT_BUFFER_SIZE := 64 * 1024
  const DEFAULT_MAX_BUFFER_SIZE := 64 * 1024 * 1024

  function Max(a: nat, b: nat): nat { if a < b then b else a }

  function AtLeastOne(size: int): nat { if size < 1 then 1 else size }

  class ReaderParser {
    const cfg: Config
    const maxBufferSize: int
    /** The reads still to come; None is a nil reader. */
    var reader: Option<seq<Delivery>>
    /** The window: the bytes of the stream from bufStart on, of which pos are consumed. */
    var buf: Bytes
    var bufStart: nat
    var pos: nat
    var readErr: Option<ReadError>
    var emptyReads: nat

    /** Everything the reader delivers, and how it ends. */
    ghost const stream: Bytes
    ghost const final: ReadError
    /** Length of the longest key token or captured value retained in the window so far. */
    ghost var longest: nat
    /** Where in the stream that token starts. */
    ghost var holder: nat

    /** Bytes asked of the reader at a time: 64 KiB, capped by a positive maxBufferSize. */
    function ReadSize(): (n: nat)
      ensures n == if 0 < maxBufferSize < DEFAULT_BUFFER_SIZE then maxBufferSize else DEFAULT_BUFFER_SIZE
    {
      var limit := if maxBufferSize <= 0 then DEFAULT_MAX_BUFFER_SIZE else maxBufferSize;
      AtLeastOne(if DEFAULT_BUFFER_SIZE > limit then limit else DEFAULT_BUFFER_SIZE)
    }

    /** Offset in the stream of the next byte. */
    ghost function Pos(): nat
      reads this
    {
      bufStart + pos
    }

    ghost function Source(): seq<Delivery>
      reads this
    {
      if reader.None? then [] else reader.value
    }

    /** The bytes not read yet. */
    ghost function Ahead(): Bytes
      reads this
    {
      if readErr.Some? then [] else Delivered(Source(), emptyReads)
    }

    ghost function AheadError(): ReadError
      reads this
    {
      if readErr.Some? then readErr.value else Ending(Source(), emptyReads)
    }

    /** The window is exactly the slice of the stream at bufStart, and what lies behind it is still to be read. */
    ghost predicate InStep()
      reads this
    {
      && pos <= |buf|
      && bufStart + |buf| <= |stream|
      && stream[bufStart..bufStart + |buf|] == buf
      && stream[bufStart + |buf|..] == Ahead()
      && final == AheadError()
      && (readErr.None? ==> emptyReads < MAX_EMPTY_READS)
    }

    /** The window never holds more than one read beyond the longest token retained. */
    ghost predicate Valid()
      reads this
    {
      InStep() && pos <= |buf| && Pos() <= |stream| && |buf| <= ReadSize() + longest
    }

    /**
     * The bound is tight in what it names: a key token or captured value that starts at holder reaches at least
     * longest bytes further, or never ends.
     */
    ghost predicate Held()
      reads this
    {
      longest > 0 ==>
        && holder < |stream| && holder + longest <= |stream|
        && match ValueEnd(cfg, stream, final, holder)
           case Ended(e) => holder + longest <= e
           case Failed(_) => true
    }

    constructor (reader: Option<seq<Delivery>>, cfg: Config, maxBufferSize: int)
      ensures Valid() && Held() && Pos() == 0 && longest == 0
      ensures this.cfg == cfg && this.maxBufferSize == maxBufferSize
      ensures var source := if reader.None? then [] else reader.value;
              stream == Delivered(source, 0) && final == Ending(source, 0)
    {
      this.reader := reader;
      this.cfg := cfg;
      this.maxBufferSize := maxBufferSize;
      buf, bufStart, pos, readErr, emptyReads := [], 0, 0, None, 0;
      longest, holder := 0, 0;
      var source := if reader.None? then [] else reader.value;
      stream := Delivered(source, 0);
      final := Ending(source, 0);
    }

    // ---- the window ----

    method ReadMore() returns (err: Option<ReadError>)
      requires InStep() && pos == |buf| && |buf| <= longest
      modifies `reader, `buf, `readErr, `emptyReads
      ensures Valid() && old(buf) <= buf
      ensures err.Some? ==> err == Some(final) && buf == old(buf) && Pos() == |stream|
      ensures err.None? ==> readErr.None? || |buf| > old(|buf|)
      ensures err.None? && |buf| == old(|buf|) ==> emptyReads == old(emptyReads) + 1
    {
      hide Delivered, Ending, ReadOnce;
      if readErr.Some? {
        return readErr;
      }
      if reader.None? {
        NothingComes(emptyReads);
        readErr := Some(EOF);
        return readErr;
      }
      var (bytes, e, rest) := ReadOnce(reader.value, ReadSize());
      if bytes != [] {
        TakeBytes(bytes, e, rest);
        return None;
      }
      err := TakeNothing(e, rest);
    }

    /** A read that brought bytes: they are appended to the window, and an error with them is kept for later. */
    method TakeBytes(bytes: Bytes, e: Option<ReadError>, rest: seq<Delivery>)
      requires InStep() && readErr.None? && reader.Some?
      requires bytes != [] && (bytes, e, rest) == ReadOnce(reader.value, ReadSize())
      modifies `reader, `buf, `readErr, `emptyReads
      ensures InStep() && buf == old(buf) + bytes && |bytes| <= ReadSize()
    {
      hide Delivered, Ending, ReadOnce;
      ReadSome(reader.value, ReadSize(), emptyReads);
      reader := Some(rest);
      buf := buf + bytes;
      emptyReads := 0;
      if e.Some? {
        readErr := e;
      }
      Extend(stream, bufStart, old(buf), bytes, Ahead());
    }

    /** A read that brought nothing: it ends the stream, or counts as one more empty read. */
    method TakeNothing(e: Option<ReadError>, rest: seq<Delivery>) returns (err: Option<ReadError>)
      requires InStep() && readErr.None? && reader.Some?
      requires ([], e, rest) == ReadOnce(reader.value, ReadSize())
      modifies `reader, `readErr, `emptyReads
      ensures InStep()
      ensures err.Some? ==> err == Some(final) && bufStart + |buf| == |stream|
      ensures err.None? ==> readErr.None? && emptyReads == old(emptyReads) + 1
    {
      hide Delivered, Ending, ReadOnce;
      ReadNone(reader.value, ReadSize(), emptyReads);
      reader := Some(rest);
      if e.Some? {
        readErr := e;
        return e;
      }
      emptyReads := emptyReads + 1;
      if emptyReads >= MAX_EMPTY_READS {
        readErr := Some(NoProgress);
        return readErr;
      }
      return None;
    }

    static lemma Extend(stream: Bytes, from: nat, before: Bytes, more: Bytes, ahead: Bytes)
      requires from + |before| <= |stream| && stream[from..from + |before|] == before
      requires stream[from + |before|..] == more + ahead
      ensures from + |before + more| <= |stream|
      ensures stream[from..from + |before + more|] == before + more
      ensures stream[from + |before + more|..] == ahead
    {
      var m := from + |before|;
      assert stream[from..m + |more|] == stream[from..m] + stream[m..][..|more|];
      assert stream[m + |more|..] == stream[m..][|more|..];
    }

    method DiscardConsumed()
      requires InStep()
      modifies `buf, `bufStart, `pos
      ensures InStep() && pos == 0 && Pos() == old(Pos()) && |buf| == old(|buf| - pos)
    {
      if pos == 0 {
        return;
      }
      assert stream[bufStart..bufStart + |buf|][pos..] == stream[bufStart + pos..bufStart + |buf|];
      bufStart := bufStart + pos;
      buf := buf[pos..];
      pos := 0;
    }

    /**
     * What scanning does to the window. While a token is retained its first byte stays the first byte of the
     * window, so no captured slice is cut; otherwise nothing is retained.
     */
    twostate predicate Keeps(retain: bool)
      reads this
    {
      && holder == old(holder)
      && if retain then bufStart == old(bufStart) && old(longest) <= longest <= Max(old(longest), pos)
         else longest == old(longest)
    }

    method PeekByte(retain: bool) returns (b: byte, err: Option<ReadError>)
      requires Valid()
      modifies this
      ensures Valid() && Pos() == old(Pos()) && Keeps(retain)
      ensures Pos() < |stream| ==> err.None? && pos < |buf| && b == stream[Pos()]
      ensures Pos() == |stream| ==> err == Some(final)
    {
      while pos >= |buf|
        invariant Valid() && Pos() == old(Pos()) && Keeps(retain)
        invariant readErr.None? ==> emptyReads < MAX_EMPTY_READS
        decreases |stream| - bufStart - |buf|, MAX_EMPTY_READS - emptyReads
      {
        if !retain {
          DiscardConsumed();
        } else {
          longest := Max(longest, pos);
        }
        err := ReadMore();
        if err.Some? {
          return 0, err;
        }
      }
      assert buf[pos] == stream[bufStart..bufStart + |buf|][pos];
      return buf[pos], None;
    }

    /** Takes note of the retained bytes, which reach from the start of the window to pos. */
    ghost method Retain(before: nat)
      requires Valid() && before <= longest <= Max(before, pos)
      requires longest == before ==> Held()
      requires bufStart < |stream|
      requires match ValueEnd(cfg, stream, final, bufStart) case Ended(e) => Pos() <= e case Failed(_) => true
      modifies `longest, `holder
      ensures Valid() && Held() && longest == Max(before, pos)
    {
      if before < pos {
        longest, holder := pos, bufStart;
      }
    }

    /** The consumed part of the window is the slice of the stream it claims to be. */
    lemma Consumed()
      requires Valid()
      ensures buf[..pos] == stream[bufStart..Pos()]
    {
      assert stream[bufStart..bufStart + |buf|][..pos] == stream[bufStart..bufStart + pos];
    }

    /** rp.pos++ behind a successful peek. */
    method Advance()
      requires Valid() && pos < |buf|
      modifies `pos
      ensures Valid() && pos == old(pos) + 1
    {
      pos := pos + 1;
    }

    method SkipWhitespace() returns (err: Option<ReadError>)
      requires Valid()
      modifies this
      ensures Valid() && Keeps(false)
      ensures var n := NextTok(stream, old(Pos()));
              && (n == -1 ==> err == Some(final) && Pos() == |stream|)
              && (n != -1 ==> err.None? && Pos() == n && pos < |buf|)
    {
      hide InStep;
      while true
        invariant Valid() && Keeps(false) && old(Pos()) <= Pos()
        invariant NextTok(stream, old(Pos())) == NextTok(stream, Pos())
        decreases |stream| - Pos()
      {
        var b, e := PeekByte(false);
        if e.Some? {
          return e;
        }
        if !IsSpace(b) {
          return None;
        }
        Advance();
      }
    }

    // ---- scanning values ----

    /** A scan from some offset ended as its reference says. */
    ghost predicate Reports(scan: Scan, err: Option<Failure>)
      reads this
    {
      match scan
      case Ended(at) => err.None? && Pos() == at
      case Failed(f) => err == Some(f)
    }

    method ScanString(retain: bool) returns (err: Option<Failure>)
      requires Valid() && Pos() < |stream|
      modifies this
      ensures Valid() && Keeps(retain) && old(Pos()) <= Pos()
      ensures Reports(StringScan(stream, final, old(Pos())), err)
    {
      hide InStep, ReadSize;
      var quote, _ := PeekByte(retain);
      Advance();
      var escaped := false;
      while true
        invariant Valid() && Keeps(retain) && old(Pos()) < Pos()
        invariant StrEnd(stream, old(Pos()) + 1, quote) == StrEndFrom(stream, Pos(), escaped, quote)
        decreases |stream| - Pos()
      {
        var b, e := PeekByte(retain);
        if e.Some? {
          return Some(if e.value == EOF then Parsing(MalformedString) else Reading(e.value));
        }
        Advance();
        if escaped {
          escaped := false;
          continue;
        }
        if b == BACKSLASH {
          escaped := true;
          continue;
        }
        if b == quote {
          return None;
        }
      }
    }

    method ScanComposite(retain: bool, opening: byte) returns (err: Option<Failure>)
      requires Valid() && pos < |buf| && opening == stream[Pos()] && (opening == LBRACKET || opening == LBRACE)
      modifies this
      ensures Valid() && Keeps(retain) && old(Pos()) <= Pos()
      ensures Reports(CompositeScan(cfg, stream, final, old(Pos())), err)
    {
      hide InStep, StrEndFrom, ReadSize;
      var stack: Bytes := [if opening == LBRACKET then RBRACKET else RBRACE];
      ghost var first := stack;
      Advance();
      while |stack| > 0
        invariant Valid() && Keeps(retain) && old(Pos()) <= Pos()
        invariant StackFrom(cfg, stream, old(Pos()) + 1, first) == StackFrom(cfg, stream, Pos(), stack)
        decreases |stream| - Pos()
      {
        var b, e := PeekByte(retain);
        if e.Some? {
          var own := if opening == LBRACKET then MalformedArray else MalformedObject;
          return Some(if e.value == EOF then Parsing(own) else Reading(e.value));
        }
        if b == QUOTE || (b == APOSTROPHE && cfg.allowSingleQuotes) {
          var f := ScanString(retain);
          if f.Some? {
            return f;
          }
          continue;
        }
        if b == LBRACE {
          stack := stack + [RBRACE];
        } else if b == LBRACKET {
          stack := stack + [RBRACKET];
        } else if b == RBRACE || b == RBRACKET {
          if b != stack[|stack| - 1] {
            return Some(Parsing(MalformedJson));
          }
          stack := stack[..|stack| - 1];
        }
        Advance();
      }
      return None;
    }

    method ScanScalar(retain: bool) returns (err: Option<Failure>)
      requires Valid() && Pos() < |stream|
      modifies this
      ensures Valid() && Keeps(retain) && old(Pos()) <= Pos()
      ensures var end := TokEnd(stream, old(Pos()));
              && (end == |stream| && final != EOF ==> err == Some(Reading(final)))
              && (end == |stream| && final == EOF ==> err.None? && Pos() == end)
              && (end == old(Pos()) ==> err == Some(Parsing(MalformedJson)))
              && (old(Pos()) < end < |stream| ==> err.None? && Pos() == end)
    {
      hide InStep;
      var consumed := false;
      while true
        invariant Valid() && Keeps(retain) && old(Pos()) <= Pos()
        invariant TokEnd(stream, old(Pos())) == TokEnd(stream, Pos())
        invariant consumed <==> Pos() > old(Pos())
        decreases |stream| - Pos()
      {
        var b, e := PeekByte(retain);
        if e.Some? {
          if e.value == EOF && consumed {
            return None;
          }
          return Some(if e.value == EOF then Parsing(MalformedJson) else Reading(e.value));
        }
        if EndsPrimitive(b) {
          return if consumed then None else Some(Parsing(MalformedJson));
        }
        consumed := true;
        Advance();
      }
    }

    method ScanValue(retain: bool) returns (err: Option<Failure>)
      requires Valid()
      modifies this
      ensures Valid() && Keeps(retain) && old(Pos()) <= Pos()
      ensures old(Pos()) == |stream| ==> err == Some(RanOut(final, MalformedJson))
      ensures old(Pos()) < |stream| ==> Reports(ValueEnd(cfg, stream, final, old(Pos())), err)
    {
      var b, e := PeekByte(retain);
      if e.Some? {
        return Some(if e.value == EOF then Parsing(MalformedJson) else Reading(e.value));
      }
      if b == QUOTE || (b == APOSTROPHE && cfg.allowSingleQuotes) {
        err := ScanString(retain);
      } else if b == LBRACKET || b == LBRACE {
        err := ScanComposite(retain, b);
      } else {
        err := ScanScalar(retain);
      }
    }

    /** The value at or after the current offset, whole, whatever the size of the window. */
    method CaptureValue() returns (raw: Bytes, err: Option<Failure>)
      requires Valid() && Held()
      modifies this
      ensures Valid() && Held()
      ensures Finds(Streams.FindValue(cfg, stream, final, [], old(Pos())), err.None?, raw, err)
      ensures err.None? ==> longest == Max(old(longest), |raw|)
    {
      hide InStep, ValueEnd;
      var e := SkipWhitespace();
      if e.Some? {
        return [], Some(if e.value == EOF then Parsing(MalformedJson) else Reading(e.value));
      }
      DiscardConsumed();
      var start := pos;
      ghost var before := longest;
      err := ScanValue(true);
      Retain(before);
      if err.Some? {
        return [], err;
      }
      Consumed();
      raw := buf[start..pos];
      assert raw == buf[..pos];
    }

    // ---- finding a path ----

    /** A search ended as its reference says; a hit returns exactly the bytes of the value. */
    ghost predicate Finds(r: Find, found: bool, raw: Bytes, err: Option<Failure>)
      reads this
    {
      match r
      case Hit(from, to) => found && err.None? && from <= to <= |stream| && raw == stream[from..to] && Pos() == to
      case Miss(at) => !found && err.None? && Pos() == at
      case Fail(f) => !found && err == Some(f)
    }

    method ReadObjectKey(wanted: Bytes) returns (matches: bool, err: Option<Failure>)
      requires Valid() && Held() && Pos() < |stream|
      modifies this
      ensures Valid() && Held()
      ensures match NameAt(cfg, stream, final, old(Pos()))
              case Unnamed(f) => err == Some(f)
              case Named(name, at) => err.None? && Pos() == at && (matches <==> name == wanted)
      ensures err.None? ==> longest == Max(old(longest), Pos() - old(Pos()))
    {
      hide InStep, Unescaped, StringScan, ValueEnd;
      var b, _ := PeekByte(false);
      if b != QUOTE && !(b == APOSTROPHE && cfg.allowSingleQuotes) {
        return false, Some(Parsing(MalformedJson));
      }
      var body;
      body, err := RetainKey();
      if err.Some? {
        return false, err;
      }
      matches, err := NameMatches(body, wanted);
    }

    /** The bytes between the quotes of a key; whatever the window held before the key is dropped first. */
    method RetainKey() returns (body: Bytes, err: Option<Failure>)
      requires Valid() && Held() && Pos() < |stream| && IsQuote(cfg, stream[Pos()])
      modifies this
      ensures Valid() && Held()
      ensures match StringScan(stream, final, old(Pos()))
              case Failed(f) => err == Some(f)
              case Ended(e) => err.None? && Pos() == e && body == stream[old(Pos()) + 1..e - 1]
      ensures err.None? ==> longest == Max(old(longest), Pos() - old(Pos()))
    {
      hide InStep;
      DiscardConsumed();
      var start := pos;
      ghost var before := longest;
      err := ScanString(true);
      Retain(before);
      if err.Some? {
        return [], err;
      }
      Consumed();
      var token := buf[start..pos];
      assert token == buf[..pos];
      InnerSlice(stream, old(Pos()), Pos(), token);
      body := token[1..|token| - 1];
    }

    /** A key body against the wanted name, decoded only when it holds a backslash. */
    method NameMatches(body: Bytes, wanted: Bytes) returns (matches: bool, err: Option<Failure>)
      ensures match Unescaped(cfg, body)
              case None => err == Some(Parsing(MalformedStringEscape))
              case Some(name) => err.None? && (matches <==> name == wanted)
    {
      var k := IndexBackslash(body);
      if k == -1 {
        UnescapedIdentity(cfg, body);
        return body == wanted, None;
      }
      var stackbuf := new byte[64](_ => 0);
      var unescaped := Unescape(cfg, body, stackbuf);
      if unescaped.None? {
        return false, Some(Parsing(MalformedStringEscape));
      }
      return unescaped.value == wanted, None;
    }

    /** The end of every round of the member and element loops: closed is the closing bracket, else a comma. */
    method ReadSeparator(close: byte, own: Error) returns (closed: bool, err: Option<Failure>)
      requires Valid()
      modifies this
      ensures Valid() && Keeps(false)
      ensures match SeparatorAt(stream, final, old(Pos()), close, own)
              case Closed(at) => closed && err.None? && Pos() == at
              case Next(at) => !closed && err.None? && Pos() == at && pos < |buf|
              case Spoiled(f) => err == Some(f)
    {
      hide InStep;
      var e := SkipWhitespace();
      if e.Some? {
        return false, Some(if e.value == EOF then Parsing(own) else Reading(e.value));
      }
      var b, _ := PeekByte(false);
      if b == close {
        Advance();
        return true, None;
      }
      if b != COMMA {
        return false, Some(Parsing(own));
      }
      Advance();
      e := SkipWhitespace();
      if e.Some? {
        return false, Some(if e.value == EOF then Parsing(own) else Reading(e.value));
      }
      b, e := PeekByte(false);
      if b == close {
        return false, Some(Parsing(own));
      }
      return false, None;
    }

    method FindValue(keys: Path, depth: nat) returns (found: bool, raw: Bytes, err: Option<Failure>)
      requires Valid() && Held() && depth <= |keys|
      modifies this
      ensures Valid() && Held()
      ensures Finds(Streams.FindValue(cfg, stream, final, keys[depth..], old(Pos())), found, raw, err)
      decreases |stream| - Pos(), 2
    {
      hide InStep, Streams.FindInObject, Streams.FindInArray, ValueEnd;
      var e := SkipWhitespace();
      if e.Some? {
        return false, [], Some(if e.value == EOF then Parsing(MalformedJson) else Reading(e.value));
      }
      if depth == |keys| {
        raw, err := CaptureValue();
        found := err.None?;
        return;
      }
      var b, _ := PeekByte(false);
      assert keys[depth..][0] == keys[depth];
      if b == LBRACE {
        found, raw, err := FindObjectValue(keys, depth);
      } else if b == LBRACKET {
        found, raw, err := FindArrayValue(keys, depth);
      } else {
        err := ScanValue(false);
        return false, [], err;
      }
    }

    /** The value of a member whose name is not wanted, or of one whose name is. */
    method FindInMember(matches: bool, keys: Path, depth: nat) returns (found: bool, raw: Bytes, err: Option<Failure>)
      requires Valid() && Held() && depth < |keys|
      modifies this
      ensures Valid() && Held()
      ensures Finds(if matches then Streams.FindValue(cfg, stream, final, keys[depth + 1..], old(Pos()))
                    else PassValue(cfg, stream, final, old(Pos())), found, raw, err)
      decreases |stream| - Pos(), 3
    {
      hide InStep, ValueEnd, NextTok, NameAt;
      if matches {
        found, raw, err := FindValue(keys, depth + 1);
        return;
      }
      var e := SkipWhitespace();
      if e.Some? {
        return false, [], Some(if e.value == EOF then Parsing(MalformedJson) else Reading(e.value));
      }
      err := ScanValue(false);
      return false, [], err;
    }

    method FindInElement(selected: bool, keys: Path, depth: nat) returns (found: bool, raw: Bytes, err: Option<Failure>)
      requires Valid() && Held() && depth < |keys| && Pos() < |stream|
      modifies this
      ensures Valid() && Held()
      ensures Finds(if selected then Streams.FindValue(cfg, stream, final, keys[depth + 1..], old(Pos()))
                    else PassElement(cfg, stream, final, old(Pos())), found, raw, err)
      decreases |stream| - Pos(), 3
    {
      hide InStep, ValueEnd, NextTok;
      if selected {
        found, raw, err := FindValue(keys, depth + 1);
        return;
      }
      err := ScanValue(false);
      return false, [], err;
    }

    /** A member up to and including its colon. */
    method ReadName(wanted: Bytes) returns (matches: bool, err: Option<Failure>)
      requires Valid() && Held() && Pos() < |stream|
      modifies this
      ensures Valid() && Held()
      ensures match ColonAt(cfg, stream, final, old(Pos()))
              case Unnamed(f) => err == Some(f)
              case Named(name, at) => err.None? && Pos() == at && (matches <==> name == wanted)
    {
      hide InStep, ValueEnd, NextTok, NameAt;
      matches, err := ReadObjectKey(wanted);
      if err.Some? {
        return;
      }
      var e := SkipWhitespace();
      if e.Some? {
        return false, Some(if e.value == EOF then Parsing(MalformedJson) else Reading(e.value));
      }
      var b, _ := PeekByte(false);
      if b != COLON {
        return false, Some(Parsing(MalformedJson));
      }
      Advance();
    }

    method FindObjectValue(keys: Path, depth: nat) returns (found: bool, raw: Bytes, err: Option<Failure>)
      requires Valid() && Held() && depth < |keys| && pos < |buf|
      modifies this
      ensures Valid() && Held()
      ensures Finds(FindInObject(cfg, stream, final, keys[depth..], old(Pos()) + 1), found, raw, err)
      decreases |stream| - Pos(), 1
    {
      hide ValueEnd, InStep, Streams.FindValue, PassValue, SeparatorAt, NextTok, ColonAt;
      ghost var rest := keys[depth..];
      assert rest[0] == keys[depth] && rest[1..] == keys[depth + 1..];
      Advance();
      var e := SkipWhitespace();
      if e.Some? {
        return false, [], Some(if e.value == EOF then Parsing(MalformedObject) else Reading(e.value));
      }
      var b, _ := PeekByte(false);
      if b == RBRACE {
        Advance();
        return false, [], None;
      }
      while true
        invariant Valid() && Held() && old(Pos()) < Pos() < |stream|
        invariant FindInObject(cfg, stream, final, rest, old(Pos()) + 1) == FindMember(cfg, stream, final, rest, Pos())
        decreases |stream| - Pos()
      {
        var matches;
        matches, err := ReadName(keys[depth]);
        if err.Some? {
          return false, [], err;
        }
        found, raw, err := FindInMember(matches, keys, depth);
        if err.Some? || found {
          return;
        }
        var closed;
        closed, err := ReadSeparator(RBRACE, MalformedObject);
        if err.Some? || closed {
          return false, [], err;
        }
      }
    }

    method FindArrayValue(keys: Path, depth: nat) returns (found: bool, raw: Bytes, err: Option<Failure>)
      requires Valid() && Held() && depth < |keys| && pos < |buf| && Pos() < |stream| && stream[Pos()] == LBRACKET
      modifies this
      ensures Valid() && Held()
      ensures IndexOf(keys[depth..][0]).Some? ==>
                Finds(FindInArray(cfg, stream, final, keys[depth..], old(Pos()) + 1), found, raw, err)
      ensures IndexOf(keys[depth..][0]).None? ==> !found && Reports(ValueEnd(cfg, stream, final, old(Pos())), err)
      decreases |stream| - Pos(), 1
    {
      hide InStep, Streams.FindValue, ValueEnd, SeparatorAt, NextTok, IndexOf, PassElement;
      ghost var rest := keys[depth..];
      assert rest[0] == keys[depth] && rest[1..] == keys[depth + 1..];
      var wanted := IndexOf(keys[depth]);
      if wanted.None? {
        err := ScanValue(false);
        return false, [], err;
      }
      Advance();
      var e := SkipWhitespace();
      if e.Some? {
        return false, [], Some(if e.value == EOF then Parsing(MalformedArray) else Reading(e.value));
      }
      var b, _ := PeekByte(false);
      if b == RBRACKET {
        Advance();
        return false, [], None;
      }
      var index: nat := 0;
      while true
        invariant Valid() && Held() && old(Pos()) < Pos() < |stream|
        invariant FindInArray(cfg, stream, final, rest, old(Pos()) + 1)
               == FindElement(cfg, stream, final, rest, Pos(), index)
        decreases |stream| - Pos()
      {
        found, raw, err := FindInElement(index == wanted.value, keys, depth);
        if err.Some? || found {
          return;
        }
        var closed;
        closed, err := ReadSeparator(RBRACKET, MalformedArray);
        if err.Some? || closed {
          return false, [], err;
        }
        index := index + 1;
      }
    }

    // ---- the public operations ----

    method Get(keys: Path) returns (r: Answer)
      requires Valid() && Held() && Pos() == 0
      modifies this
      ensures Valid() && Held()
      ensures r == StreamGet(cfg, stream, final, keys)
    {
      hide ValueEnd, InStep, Streams.FindValue, GetFrom;
      for i := 0 to |keys|
        invariant [] !in keys[..i]
      {
        if keys[i] == [] {
          return Missing(PATH_NOT_FOUND);
        }
      }
      assert keys[..|keys|] == keys;
      var e := SkipWhitespace();
      if e.Some? {
        return Missing(if e.value == EOF then PATH_NOT_FOUND else Reading(e.value));
      }
      var raw, err, found;
      SkippedFirst(cfg, stream, final, keys, 0);
      if |keys| == 0 {
        raw, err := CaptureValue();
      } else {
        found, raw, err := FindValue(keys, 0);
        if err.None? && !found {
          err := Some(PATH_NOT_FOUND);
        }
        assert keys[0..] == keys;
      }
      if err.Some? {
        return Missing(err.value);
      }
      var g := Lookup.Get(cfg, raw, []);
      return Answer(g.value, g.t, OptionalFailure(g.err));
    }

    method ArrayEach() returns (made: seq<Answer>, err: Option<Failure>)
      requires Valid() && Held() && Pos() == 0
      modifies this
      ensures Valid() && Held()
      ensures Calls(made, err) == StreamEach(cfg, stream, final)
    {
      hide ValueEnd, InStep, CallsFrom, GetFrom;
      made := [];
      var e := SkipWhitespace();
      if e.Some? {
        return [], Some(if e.value == EOF then Parsing(MalformedObject) else Reading(e.value));
      }
      var b, _ := PeekByte(false);
      if b != LBRACKET {
        return [], Some(Parsing(MalformedArray));
      }
      Advance();
      e := SkipWhitespace();
      if e.Some? {
        return [], Some(if e.value == EOF then Parsing(MalformedArray) else Reading(e.value));
      }
      b, e := PeekByte(false);
      if b == RBRACKET {
        Advance();
        return [], None;
      }
      made, err := EachElement();
    }

    /** The element loop of ArrayEach, from the first byte of an element on. */
    method EachElement() returns (made: seq<Answer>, err: Option<Failure>)
      requires Valid() && Held()
      modifies this
      ensures Valid() && Held()
      ensures Calls(made, err) == CallsFrom(cfg, stream, final, old(Pos()))
    {
      hide InStep, CallsFrom, GetFrom, ValueEnd, Streams.FindValue, SeparatorAt;
      made := [];
      assert [] + CallsFrom(cfg, stream, final, Pos()).made == CallsFrom(cfg, stream, final, Pos()).made;
      while true
        invariant Valid() && Held()
        invariant CallsFrom(cfg, stream, final, old(Pos())) == Following(made, CallsFrom(cfg, stream, final, Pos()))
        decreases |stream| - Pos()
      {
        CallsStep(cfg, stream, final, Pos(), made);
        var raw, captureErr := CaptureValue();
        if captureErr.Some? {
          return made + [Answer([], Unknown, captureErr)], captureErr;
        }
        var g := Lookup.Get(cfg, raw, []);
        var a := Answer(g.value, g.t, OptionalFailure(g.err));
        made := made + [a];
        if a.err.Some? {
          return made, a.err;
        }
        var closed;
        closed, err := ReadSeparator(RBRACKET, MalformedArray);
        if err.Some? || closed {
          return made, err;
        }
      }
    }
  }

  /** The same bytes and the same end, in other chunks and under other window sizes: the same answer. */
  method GetFromBoth(a: seq<Delivery>, b: seq<Delivery>, ghost final: ReadError, cfg: Config, maxA: int, maxB: int, keys: Path)
    returns (fromA: Answer, fromB: Answer)
    requires Joined(a) == Joined(b) && Steady(a, 0, final) && Steady(b, 0, final)
    ensures fromA == fromB == StreamGet(cfg, Joined(a), final, keys)
  {
    SteadyDelivers(a, 0, final);
    SteadyDelivers(b, 0, final);
    var first := new ReaderParser(Some(a), cfg, maxA);
    fromA := first.Get(keys);
    var second := new ReaderParser(Some(b), cfg, maxB);
    fromB := second.Get(keys);
  }
}
