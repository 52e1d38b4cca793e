/**
 * What a reader delivers, reduced to the bytes and the error that ends them, and what the streaming parser
 * of reader_parser.go answers for them: reference functions of the delivered bytes alone.
 */
module Streams {
  import opened Bytes
  import opened Strings
  import opened Escapes
  import opened Scanners
  import opened Syntax
  import opened Blocks
  import opened Lookup

  datatype ReadError = EOF | NoProgress | Broken

  /** What one Read call returns when its buffer is large enough: bytes, an error, both or neither. */
  datatype Delivery = Delivery(bytes: Bytes, err: Option<ReadError>)

  const MAX_EMPTY_READS := 100

  /** One Read into a buffer of the given size: the bytes, the error, and what the reader delivers after it. */
  function ReadOnce(source: seq<Delivery>, size: nat): (r: (Bytes, Option<ReadError>, seq<Delivery>))
    ensures |r.0| <= size
  {
    if source == [] then ([], Some(EOF), [])
    else
      var d := source[0];
      if |d.bytes| <= size then (d.bytes, d.err, source[1..])
      else (d.bytes[..size], None, [Delivery(d.bytes[size..], d.err)] + source[1..])
  }

  /** All bytes that arrive before the reader ends or is given up, after some consecutive empty reads. */
  function Delivered(source: seq<Delivery>, empty: nat): Bytes
    decreases |source|
  {
    if source == [] then []
    else
      var d := source[0];
      if d.err.Some? then d.bytes
      else if d.bytes != [] then d.bytes + Delivered(source[1..], 0)
      else if empty + 1 >= MAX_EMPTY_READS then []
      else Delivered(source[1..], empty + 1)
  }

  /** The error that ends the bytes. */
  function Ending(source: seq<Delivery>, empty: nat): ReadError
    decreases |source|
  {
    if source == [] then EOF
    else
      var d := source[0];
      if d.err.Some? then d.err.value
      else if d.bytes != [] then Ending(source[1..], 0)
      else if empty + 1 >= MAX_EMPTY_READS then NoProgress
      else Ending(source[1..], empty + 1)
  }

  /** A read of at least one byte takes the first bytes off the front and leaves the rest to come. */
  lemma ReadSome(source: seq<Delivery>, size: nat, empty: nat)
    requires size > 0 && ReadOnce(source, size).0 != []
    ensures var (bytes, err, rest) := ReadOnce(source, size);
            && Delivered(source, empty) == bytes + (if err.Some? then [] else Delivered(rest, 0))
            && Ending(source, empty) == if err.Some? then err.value else Ending(rest, 0)
  {
    var d := source[0];
    if |d.bytes| > size {
      var head, tail := d.bytes[..size], d.bytes[size..];
      assert d.bytes == head + tail;
      var rest := [Delivery(tail, d.err)] + source[1..];
      assert rest[0] == Delivery(tail, d.err) && rest[1..] == source[1..];
      if d.err.None? {
        Associate(head, tail, Delivered(source[1..], 0));
      }
    } else {
      assert d.bytes + [] == d.bytes;
    }
  }

  /** A read of nothing ends the stream, uses up one of the empty reads, or is the one too many. */
  lemma ReadNone(source: seq<Delivery>, size: nat, empty: nat)
    requires size > 0 && ReadOnce(source, size).0 == []
    ensures var (bytes, err, rest) := ReadOnce(source, size);
            && (err.Some? ==> (Delivered(source, empty) == [] && Ending(source, empty) == err.value))
            && (err.None? && empty + 1 >= MAX_EMPTY_READS ==>
                  Delivered(source, empty) == [] && Ending(source, empty) == NoProgress)
            && (err.None? && empty + 1 < MAX_EMPTY_READS ==>
                  Delivered(source, empty) == Delivered(rest, empty + 1) && Ending(source, empty) == Ending(rest, empty + 1))
  {
  }

  lemma NothingComes(empty: nat)
    ensures Delivered([], empty) == [] && Ending([], empty) == EOF
  {
  }

  /** n reads in a row that return nothing. */
  function Empties(n: nat): (s: seq<Delivery>)
    ensures |s| == n
  {
    if n == 0 then [] else [Delivery([], None)] + Empties(n - 1)
  }

  lemma {:induction false} EmptyReadsFrom(n: nat, source: seq<Delivery>, empty: nat)
    requires source != [] && (source[0].bytes != [] || source[0].err.Some?) && empty < 100
    ensures var all := Empties(n) + source;
            && (n + empty >= 100 ==> Delivered(all, empty) == [] && Ending(all, empty) == NoProgress)
            && (n + empty < 100 ==> Delivered(all, empty) == Delivered(source, 0) && Ending(all, empty) == Ending(source, 0))
    decreases n
  {
    var all := Empties(n) + source;
    if n == 0 {
      assert all == source;
    } else {
      assert all[0] == Delivery([], None) && all[1..] == Empties(n - 1) + source;
      if empty + 1 < 100 { EmptyReadsFrom(n - 1, source, empty + 1); }
    }
  }

  /** Up to 99 empty reads in a row change nothing; the hundredth ends the stream without progress. */
  lemma EmptyReads(n: nat, source: seq<Delivery>)
    requires source != [] && (source[0].bytes != [] || source[0].err.Some?)
    ensures var all := Empties(n) + source;
            if n < 100 then Delivered(all, 0) == Delivered(source, 0) && Ending(all, 0) == Ending(source, 0)
            else Delivered(all, 0) == [] && Ending(all, 0) == NoProgress
  {
    EmptyReadsFrom(n, source, 0);
  }

  // ---- scanning values ----

  /** Why an operation stopped: the reader's error, or the parser's. */
  datatype Failure = Reading(read: ReadError) | Parsing(error: Error)

  /** Running out of bytes: the parser's own error at the end of input, else the reader's. */
  function RanOut(final: ReadError, e: Error): Failure {
    if final == EOF then Parsing(e) else Reading(final)
  }

  datatype Scan = Ended(at: nat) | Failed(f: Failure)

  /** The end of the value whose first byte is at p. */
  function ValueEnd(cfg: Config, data: Bytes, final: ReadError, p: nat): (r: Scan)
    requires p < |data|
    ensures r.Ended? ==> p < r.at <= |data|
  {
    var c := data[p];
    if IsQuote(cfg, c) then StringScan(data, final, p)
    else if c == LBRACKET || c == LBRACE then CompositeScan(cfg, data, final, p)
    else
      var end := TokEnd(data, p);
      if end == |data| && final != EOF then Failed(Reading(final))
      else if end == p then Failed(Parsing(MalformedJson))
      else Ended(end)
  }

  function StringScan(data: Bytes, final: ReadError, p: nat): (r: Scan)
    requires p < |data|
    ensures r.Ended? ==> p + 2 <= r.at <= |data|
  {
    var e := StrEnd(data, p + 1, data[p]);
    if e == -1 then Failed(RanOut(final, MalformedString)) else Ended(e)
  }

  function CompositeScan(cfg: Config, data: Bytes, final: ReadError, p: nat): (r: Scan)
    requires p < |data|
    ensures r.Ended? ==> p < r.at <= |data|
  {
    var open := data[p];
    match StackFrom(cfg, data, p + 1, [if open == LBRACKET then RBRACKET else RBRACE])
    case Found(at) => Ended(at)
    case Mismatch => Failed(Parsing(MalformedJson))
    case OpenString => Failed(RanOut(final, MalformedString))
    case Unclosed => Failed(RanOut(final, if open == LBRACKET then MalformedArray else MalformedObject))
  }

  // ---- finding a path ----

  /** What follows a member or element: the closing bracket, or a comma and the next token. */
  datatype Separator = Closed(at: nat) | Next(at: nat) | Spoiled(f: Failure)

  function SeparatorAt(data: Bytes, final: ReadError, p: nat, close: byte, e: Error): (r: Separator)
    requires p <= |data|
    ensures r.Closed? ==> p < r.at <= |data|
    ensures r.Next? ==> p < r.at < |data| && !IsSpace(data[r.at])
  {
    var n := NextTok(data, p);
    if n == -1 then Spoiled(RanOut(final, e))
    else if data[n] == close then Closed(n + 1)
    else if data[n] != COMMA then Spoiled(Parsing(e))
    else
      var m := NextTok(data, n + 1);
      if m == -1 then Spoiled(RanOut(final, e))
      else if data[m] == close then Spoiled(Parsing(e))
      else Next(m)
  }

  /** A member name: decoded, with the offset behind its closing quote. */
  datatype Named = Named(name: Bytes, at: nat) | Unnamed(f: Failure)

  function NameAt(cfg: Config, data: Bytes, final: ReadError, p: nat): (r: Named)
    requires p < |data|
    ensures r.Named? ==> p + 2 <= r.at <= |data|
  {
    if !IsQuote(cfg, data[p]) then Unnamed(Parsing(MalformedJson))
    else match StringScan(data, final, p)
      case Failed(f) => Unnamed(f)
      case Ended(e) =>
        match Unescaped(cfg, data[p + 1..e - 1])
        case None => Unnamed(Parsing(MalformedStringEscape))
        case Some(k) => Named(k, e)
  }

  /** A member up to its colon: the name and the offset behind the colon. */
  function ColonAt(cfg: Config, data: Bytes, final: ReadError, p: nat): (r: Named)
    requires p < |data|
    ensures r.Named? ==> p + 3 <= r.at <= |data|
  {
    match NameAt(cfg, data, final, p)
    case Unnamed(f) => Unnamed(f)
    case Named(name, e) =>
      var c := NextTok(data, e);
      if c == -1 then Unnamed(RanOut(final, MalformedJson))
      else if data[c] != COLON then Unnamed(Parsing(MalformedJson))
      else Named(name, c + 1)
  }

  /** Looking for a path from an offset: the value is data[from..to], or what was searched ends at at. */
  datatype Find = Hit(from: nat, to: nat) | Miss(at: nat) | Fail(f: Failure)

  predicate FindFits(r: Find, p: nat, n: nat) {
    (r.Hit? ==> p <= r.from < r.to <= n) && (r.Miss? ==> p < r.at <= n)
  }

  /** The value at or after p, searched for keys. */
  function FindValue(cfg: Config, data: Bytes, final: ReadError, keys: Path, p: nat): (r: Find)
    requires p <= |data|
    ensures FindFits(r, p, |data|)
    decreases |data| - p, 1
  {
    var n := NextTok(data, p);
    if n == -1 then Fail(RanOut(final, MalformedJson))
    else if keys == [] then
      match ValueEnd(cfg, data, final, n) case Failed(f) => Fail(f) case Ended(e) => Hit(n, e)
    else if data[n] == LBRACE then FindInObject(cfg, data, final, keys, n + 1)
    else if data[n] == LBRACKET && IndexOf(keys[0]).Some? then FindInArray(cfg, data, final, keys, n + 1)
    else match ValueEnd(cfg, data, final, n) case Failed(f) => Fail(f) case Ended(e) => Miss(e)
  }

  /** Behind the opening brace. */
  function FindInObject(cfg: Config, data: Bytes, final: ReadError, keys: Path, p: nat): (r: Find)
    requires p <= |data| && keys != []
    ensures FindFits(r, p, |data|)
    decreases |data| - p, 1
  {
    var n := NextTok(data, p);
    if n == -1 then Fail(RanOut(final, MalformedObject))
    else if data[n] == RBRACE then Miss(n + 1)
    else FindMember(cfg, data, final, keys, n)
  }

  /** From the first byte of a member on: the first member with the wanted name that holds the rest of the path. */
  function FindMember(cfg: Config, data: Bytes, final: ReadError, keys: Path, p: nat): (r: Find)
    requires p < |data| && keys != []
    ensures FindFits(r, p, |data|)
    decreases |data| - p, 0
  {
    match ColonAt(cfg, data, final, p)
    case Unnamed(f) => Fail(f)
    case Named(name, at) =>
      var m := if name == keys[0] then FindValue(cfg, data, final, keys[1..], at)
               else PassValue(cfg, data, final, at);
      if !m.Miss? then m
      else match SeparatorAt(data, final, m.at, RBRACE, MalformedObject)
        case Spoiled(f) => Fail(f)
        case Closed(end) => Miss(end)
        case Next(next) => FindMember(cfg, data, final, keys, next)
  }

  /** A member value of another name: never a hit. */
  function PassValue(cfg: Config, data: Bytes, final: ReadError, p: nat): (r: Find)
    requires p <= |data|
    ensures !r.Hit? && FindFits(r, p, |data|)
  {
    var v := NextTok(data, p);
    if v == -1 then Fail(RanOut(final, MalformedJson))
    else match ValueEnd(cfg, data, final, v) case Failed(f) => Fail(f) case Ended(e) => Miss(e)
  }

  /** An element other than the wanted one: never a hit. */
  function PassElement(cfg: Config, data: Bytes, final: ReadError, p: nat): (r: Find)
    requires p < |data|
    ensures !r.Hit? && FindFits(r, p, |data|)
  {
    match ValueEnd(cfg, data, final, p) case Failed(f) => Fail(f) case Ended(e) => Miss(e)
  }

  /** Behind the opening bracket, with an index component first. */
  function FindInArray(cfg: Config, data: Bytes, final: ReadError, keys: Path, p: nat): (r: Find)
    requires p <= |data| && keys != [] && IndexOf(keys[0]).Some?
    ensures FindFits(r, p, |data|)
    decreases |data| - p, 3
  {
    var n := NextTok(data, p);
    if n == -1 then Fail(RanOut(final, MalformedArray))
    else if data[n] == RBRACKET then Miss(n + 1)
    else FindElement(cfg, data, final, keys, n, 0)
  }

  /** From the first byte of element number index on. */
  function FindElement(cfg: Config, data: Bytes, final: ReadError, keys: Path, p: nat, index: nat): (r: Find)
    requires p < |data| && keys != [] && IndexOf(keys[0]).Some?
    ensures FindFits(r, p, |data|)
    decreases |data| - p, 2
  {
    var m := if index == IndexOf(keys[0]).value then FindValue(cfg, data, final, keys[1..], p)
             else PassElement(cfg, data, final, p);
    if !m.Miss? then m
    else match SeparatorAt(data, final, m.at, RBRACKET, MalformedArray)
      case Spoiled(f) => Fail(f)
      case Closed(at) => Miss(at)
      case Next(at) => FindElement(cfg, data, final, keys, at, index + 1)
  }

  // ---- the public operations ----

  /** Get's results: the value is empty and its type NotExist when the path is not found or the stream fails. */
  datatype Answer = Answer(value: Bytes, t: ValueType, err: Option<Failure>)

  const PATH_NOT_FOUND: Failure := Parsing(KeyPathNotFound)

  function Missing(f: Failure): Answer { Answer([], NotExist, Some(f)) }

  function OptionalFailure(e: Option<Error>): Option<Failure> {
    if e.Some? then Some(Parsing(e.value)) else None
  }

  /** The captured bytes, typed by the in-memory Get. */
  function Typing(cfg: Config, raw: Bytes): Answer {
    var g := GetFrom(cfg, raw, 0);
    Answer(g.value, g.t, OptionalFailure(g.err))
  }

  function StreamGet(cfg: Config, data: Bytes, final: ReadError, keys: Path): Answer {
    if [] in keys then Missing(PATH_NOT_FOUND)
    else if NextTok(data, 0) == -1 then Missing(RanOut(final, KeyPathNotFound))
    else match FindValue(cfg, data, final, keys, 0)
      case Fail(f) => Missing(f)
      case Miss(_) => Missing(PATH_NOT_FOUND)
      case Hit(from, to) => Typing(cfg, data[from..to])
  }

  /** The callbacks ArrayEach made and the error it returned. */
  datatype Calls = Calls(made: seq<Answer>, err: Option<Failure>)

  /** From the first byte of an element on. */
  function CallsFrom(cfg: Config, data: Bytes, final: ReadError, p: nat): Calls
    requires p <= |data|
    decreases |data| - p
  {
    var v := NextTok(data, p);
    var scan := if v == -1 then Failed(RanOut(final, MalformedJson)) else ValueEnd(cfg, data, final, v);
    match scan
    case Failed(f) => Calls([Answer([], Unknown, Some(f))], Some(f))
    case Ended(e) =>
      var a := Typing(cfg, data[v..e]);
      if a.err.Some? then Calls([a], a.err)
      else match SeparatorAt(data, final, e, RBRACKET, MalformedArray)
        case Spoiled(f) => Calls([a], Some(f))
        case Closed(_) => Calls([a], None)
        case Next(at) =>
          var rest := CallsFrom(cfg, data, final, at);
          Calls([a] + rest.made, rest.err)
  }

  /** The callbacks made so far, followed by the rest of an iteration. */
  function Following(made: seq<Answer>, rest: Calls): Calls {
    Calls(made + rest.made, rest.err)
  }

  /** One round of the iteration: a call for the element at p, then the rest or the end. */
  lemma CallsStep(cfg: Config, data: Bytes, final: ReadError, p: nat, made: seq<Answer>)
    requires p <= |data|
    ensures var all := Following(made, CallsFrom(cfg, data, final, p));
            match FindValue(cfg, data, final, [], p)
            case Fail(f) => all == Calls(made + [Answer([], Unknown, Some(f))], Some(f))
            case Miss(_) => false
            case Hit(from, to) =>
              var a := Typing(cfg, data[from..to]);
              if a.err.Some? then all == Calls(made + [a], a.err)
              else match SeparatorAt(data, final, to, RBRACKET, MalformedArray)
                case Spoiled(f) => all == Calls(made + [a], Some(f))
                case Closed(_) => all == Calls(made + [a], None)
                case Next(at) => all == Following(made + [a], CallsFrom(cfg, data, final, at))
  {
    hide GetFrom, ValueEnd, SeparatorAt;
    match FindValue(cfg, data, final, [], p)
    case Hit(from, to) =>
      var a := Typing(cfg, data[from..to]);
      match SeparatorAt(data, final, to, RBRACKET, MalformedArray) {
        case Next(at) =>
          var rest := CallsFrom(cfg, data, final, at).made;
          assert made + ([a] + rest) == made + [a] + rest;
        case _ =>
      }
    case _ =>
  }

  /** Whitespace skipped before a search changes nothing. */
  lemma SkippedFirst(cfg: Config, data: Bytes, final: ReadError, keys: Path, p: nat)
    requires p <= |data| && NextTok(data, p) != -1
    ensures FindValue(cfg, data, final, keys, NextTok(data, p)) == FindValue(cfg, data, final, keys, p)
  {
    hide ValueEnd, FindInObject, FindInArray;
    var n := NextTok(data, p);
    assert NextTok(data, n) == n;
  }

  function StreamEach(cfg: Config, data: Bytes, final: ReadError): Calls {
    var n := NextTok(data, 0);
    if n == -1 then Calls([], Some(RanOut(final, MalformedObject)))
    else if data[n] != LBRACKET then Calls([], Some(Parsing(MalformedArray)))
    else
      var m := NextTok(data, n + 1);
      if m == -1 then Calls([], Some(RanOut(final, MalformedArray)))
      else if data[m] == RBRACKET then Calls([], None)
      else CallsFrom(cfg, data, final, m)
  }

  // ---- chunk independence ----

  /** All bytes of a list of deliveries, however they are cut. */
  function Joined(source: seq<Delivery>): Bytes {
    if source == [] then [] else source[0].bytes + Joined(source[1..])
  }

  /**
   * The reads end with the given error and with nothing before: only the last read may return an error, alone or together
   * with the last bytes, a reader that runs dry ends with EOF, and fewer than 100 reads in a row come back empty.
   */
  predicate Steady(source: seq<Delivery>, empty: nat, final: ReadError) {
    if source == [] then final == EOF
    else if source[0].err.Some? then source[0].err.value == final && source[1..] == []
    else
      && (source[0].bytes == [] ==> empty + 1 < MAX_EMPTY_READS)
      && Steady(source[1..], if source[0].bytes == [] then empty + 1 else 0, final)
  }

  lemma {:induction false} SteadyDelivers(source: seq<Delivery>, empty: nat, final: ReadError)
    requires Steady(source, empty, final)
    ensures Delivered(source, empty) == Joined(source) && Ending(source, empty) == final
    decreases |source|
  {
    if source != [] {
      if source[0].err.Some? {
        assert source[0].bytes + [] == source[0].bytes;
      } else {
        SteadyDelivers(source[1..], if source[0].bytes == [] then empty + 1 else 0, final);
      }
    }
  }

  /** Two readers of the same bytes and the same end, cut in any way, are the same stream: every operation gives the same results. */
  lemma ChunksDoNotMatter(a: seq<Delivery>, b: seq<Delivery>, final: ReadError, cfg: Config, keys: Path)
    requires Joined(a) == Joined(b) && Steady(a, 0, final) && Steady(b, 0, final)
    ensures Delivered(a, 0) == Delivered(b, 0) == Joined(a) && Ending(a, 0) == Ending(b, 0) == final
    ensures StreamGet(cfg, Delivered(a, 0), Ending(a, 0), keys) == StreamGet(cfg, Delivered(b, 0), Ending(b, 0), keys)
    ensures StreamEach(cfg, Delivered(a, 0), Ending(a, 0)) == StreamEach(cfg, Delivered(b, 0), Ending(b, 0))
  {
    SteadyDelivers(a, 0, final);
    SteadyDelivers(b, 0, final);
  }
}
