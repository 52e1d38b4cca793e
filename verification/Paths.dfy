/** path_compiler.go: ParsePath, which turns a JSONPath-style text into path components. */
module Paths {
  import opened Bytes
  import opened Escapes
  import opened Layout
  import opened Syntax

  datatype PathError = EmptyPath | MalformedPath | UnterminatedKey

  datatype PathResult = Parsed(parts: Path) | Refused(err: PathError)

  /** One component and the offset behind it. */
  datatype Component = Component(text: Bytes, next: nat) | Bad(err: PathError)

  // ---- reference definitions ----

  /** From pos inside a quoted key that starts at start. */
  function QuotedFrom(path: Bytes, start: nat, pos: nat): (r: Component)
    requires start < pos
    ensures r.Component? ==> pos < r.next <= |path|
    decreases |path| - pos
  {
    if pos >= |path| then Bad(UnterminatedKey)
    else if path[pos] == BACKSLASH then
      if pos + 1 >= |path| then Bad(UnterminatedKey) else QuotedFrom(path, start, pos + 2)
    else if path[pos] == QUOTE then
      match Unescaped(STRICT, path[start + 1..pos])
      case None => Bad(MalformedPath)
      case Some(name) => Component(name, pos + 1)
    else if path[pos] < 0x20 then Bad(MalformedPath)
    else QuotedFrom(path, start, pos + 1)
  }

  /** From pos inside a bracket: the offset of the closing bracket. */
  function BracketEnd(path: Bytes, pos: nat): (r: Option<nat>)
    requires pos <= |path|
    ensures r.Some? ==> pos <= r.value < |path| && path[r.value] == RBRACKET
    decreases |path| - pos
  {
    if pos == |path| || path[pos] == LBRACKET || path[pos] == QUOTE then None
    else if path[pos] == RBRACKET then Some(pos)
    else BracketEnd(path, pos + 1)
  }

  /** "*" or one or more digits. */
  predicate IsSelector(s: Bytes) {
    s == [STAR] || (s != [] && AllDigits(s))
  }

  function BracketAt(path: Bytes, start: nat): (r: Component)
    requires start < |path|
    ensures r.Component? ==> start + 2 < r.next <= |path|
  {
    match BracketEnd(path, start + 1)
    case None => Bad(MalformedPath)
    case Some(end) =>
      if IsSelector(path[start + 1..end]) then Component(path[start..end + 1], end + 1) else Bad(MalformedPath)
  }

  /** From pos inside an unquoted key: its end, or None at a byte that must not occur in it. */
  function BareEnd(path: Bytes, pos: nat): (r: Option<nat>)
    requires pos <= |path|
    ensures r.Some? ==> pos <= r.value <= |path|
    decreases |path| - pos
  {
    if pos == |path| || path[pos] == DOT || path[pos] == LBRACKET then Some(pos)
    else if path[pos] == RBRACKET || path[pos] == QUOTE then None
    else BareEnd(path, pos + 1)
  }

  function Onto(parts: Path, r: PathResult): PathResult {
    if r.Parsed? then Parsed(parts + r.parts) else r
  }

  /** At the first byte of a dot-separated piece: a key, or a bracket without a key. */
  function PieceFrom(path: Bytes, pos: nat): PathResult
    requires pos < |path|
    decreases |path| - pos, 1
  {
    if path[pos] == DOT then Refused(MalformedPath)
    else if path[pos] == QUOTE then
      match QuotedFrom(path, pos, pos + 1)
      case Bad(e) => Refused(e)
      case Component(key, next) => Onto([key], TailFrom(path, next))
    else if path[pos] == LBRACKET then TailFrom(path, pos)
    else match BareEnd(path, pos)
      case None => Refused(MalformedPath)
      case Some(end) => if end == pos then Refused(MalformedPath) else Onto([path[pos..end]], TailFrom(path, end))
  }

  /** Behind a component: brackets, then the end or a dot and another piece. */
  function TailFrom(path: Bytes, pos: nat): PathResult
    requires pos <= |path|
    decreases |path| - pos, 0
  {
    if pos == |path| then Parsed([])
    else if path[pos] == LBRACKET then
      match BracketAt(path, pos)
      case Bad(e) => Refused(e)
      case Component(c, next) => Onto([c], TailFrom(path, next))
    else if path[pos] != DOT || pos + 1 == |path| then Refused(MalformedPath)
    else PieceFrom(path, pos + 1)
  }

  function ParseSpec(path: Bytes): PathResult {
    if path == [] then Refused(EmptyPath)
    else if path == [DOLLAR] then Parsed([])
    else if path[0] != DOLLAR then PieceFrom(path, 0)
    else if path[1] == DOT then (if |path| == 2 then Refused(MalformedPath) else PieceFrom(path[2..], 0))
    else if path[1] == LBRACKET then PieceFrom(path[1..], 0)
    else Refused(MalformedPath)
  }

  // ---- the code ----

  method ParseQuotedPathKey(path: Bytes, start: nat) returns (r: Component)
    requires start < |path|
    ensures r == QuotedFrom(path, start, start + 1)
  {
    var contentStart := start + 1;
    var pos := contentStart;
    while pos < |path|
      invariant contentStart <= pos && QuotedFrom(path, start, start + 1) == QuotedFrom(path, start, pos)
      decreases |path| - pos
    {
      if path[pos] == BACKSLASH {
        if pos + 1 >= |path| {
          return Bad(UnterminatedKey);
        }
        pos := pos + 2;
        continue;
      } else if path[pos] == QUOTE {
        var content := path[contentStart..pos];
        var firstBackslash := IndexBackslash(content);
        if firstBackslash == -1 {
          UnescapedIdentity(STRICT, content);
          return Component(content, pos + 1);
        }
        var out := new byte[0](_ => 0);
        var unescaped := Unescape(STRICT, content, out);
        if unescaped.None? {
          return Bad(MalformedPath);
        }
        return Component(unescaped.value, pos + 1);
      } else if path[pos] < 0x20 {
        return Bad(MalformedPath);
      }
      pos := pos + 1;
    }
    return Bad(UnterminatedKey);
  }

  method ParseBracketPathComponent(path: Bytes, start: nat) returns (r: Component)
    requires start < |path|
    ensures r == BracketAt(path, start)
  {
    var end := start + 1;
    while end < |path| && path[end] != RBRACKET
      invariant start + 1 <= end <= |path| && BracketEnd(path, start + 1) == BracketEnd(path, end)
    {
      if path[end] == LBRACKET || path[end] == QUOTE {
        return Bad(MalformedPath);
      }
      end := end + 1;
    }
    if end == |path| || end == start + 1 {
      return Bad(MalformedPath);
    }
    var selector := path[start + 1..end];
    if path[start + 1] == STAR {
      if end != start + 2 {
        assert selector[0] == STAR;
        return Bad(MalformedPath);
      }
      assert selector == [STAR];
    } else {
      assert selector[0] == path[start + 1];
      for pos := start + 1 to end
        invariant forall k :: 0 <= k < pos - start - 1 ==> IsDigit(selector[k])
      {
        if path[pos] < ZERO || path[pos] > NINE {
          assert selector[pos - start - 1] == path[pos];
          return Bad(MalformedPath);
        }
      }
    }
    return Component(path[start..end + 1], end + 1);
  }

  /** An unquoted key. */
  method ParseBareKey(path: Bytes, start: nat) returns (r: Component)
    requires start < |path|
    ensures match BareEnd(path, start)
            case None => r == Bad(MalformedPath)
            case Some(end) => r == if end == start then Bad(MalformedPath) else Component(path[start..end], end)
  {
    var pos := start;
    while pos < |path| && path[pos] != DOT && path[pos] != LBRACKET
      invariant start <= pos <= |path| && BareEnd(path, start) == BareEnd(path, pos)
    {
      if path[pos] == RBRACKET || path[pos] == QUOTE {
        return Bad(MalformedPath);
      }
      pos := pos + 1;
    }
    if start == pos {
      return Bad(MalformedPath);
    }
    return Component(path[start..pos], pos);
  }

  lemma OntoOnto(a: Path, b: Path, r: PathResult)
    ensures Onto(a, Onto(b, r)) == Onto(a + b, r)
  {
    if r.Parsed? { assert a + (b + r.parts) == a + b + r.parts; }
  }

  lemma OntoNothing(r: PathResult)
    ensures Onto([], r) == r
  {
    if r.Parsed? { assert [] + r.parts == r.parts; }
  }

  /** The brackets behind a key. */
  method ParseBrackets(path: Bytes, start: nat, before: Path) returns (parts: Path, pos: nat, err: Option<PathError>)
    requires start <= |path|
    ensures err.Some? ==> Onto(before, TailFrom(path, start)) == Refused(err.value)
    ensures err.None? ==> start <= pos <= |path| && (pos < |path| ==> path[pos] != LBRACKET)
    ensures err.None? ==> Onto(before, TailFrom(path, start)) == Onto(parts, TailFrom(path, pos))
    ensures err.None? && start < |path| && path[start] == LBRACKET ==> start < pos
  {
    hide BracketAt;
    parts, pos := before, start;
    while pos < |path| && path[pos] == LBRACKET
      invariant start <= pos <= |path|
      invariant Onto(before, TailFrom(path, start)) == Onto(parts, TailFrom(path, pos))
      decreases |path| - pos
    {
      var c := ParseBracketPathComponent(path, pos);
      if c.Bad? {
        return parts, pos, Some(c.err);
      }
      OntoOnto(parts, [c.text], TailFrom(path, c.next));
      parts := parts + [c.text];
      pos := c.next;
    }
    return parts, pos, None;
  }

  lemma TailHere(path: Bytes, pos: nat)
    requires pos <= |path| && (pos < |path| ==> path[pos] != LBRACKET)
    ensures TailFrom(path, pos)
         == if pos == |path| then Parsed([])
            else if path[pos] != DOT || pos + 1 == |path| then Refused(MalformedPath)
            else PieceFrom(path, pos + 1)
  {
    hide PieceFrom;
  }

  /** The loop of ParsePath over the dot-separated pieces. */
  method ParsePieces(path: Bytes) returns (r: PathResult)
    requires path != []
    ensures r == PieceFrom(path, 0)
  {
    hide TailFrom, QuotedFrom, BareEnd;
    var parts: Path := [];
    var pos := 0;
    OntoNothing(PieceFrom(path, 0));
    while pos < |path|
      invariant pos < |path| && PieceFrom(path, 0) == Onto(parts, PieceFrom(path, pos))
      decreases |path| - pos
    {
      ghost var before, from := parts, pos;
      if path[pos] == DOT {
        return Refused(MalformedPath);
      } else if path[pos] == QUOTE {
        var key := ParseQuotedPathKey(path, pos);
        if key.Bad? {
          return Refused(key.err);
        }
        OntoOnto(parts, [key.text], TailFrom(path, key.next));
        parts := parts + [key.text];
        pos := key.next;
      } else if path[pos] != LBRACKET {
        var key := ParseBareKey(path, pos);
        if key.Bad? {
          return Refused(key.err);
        }
        OntoOnto(parts, [key.text], TailFrom(path, key.next));
        parts := parts + [key.text];
        pos := key.next;
      }
      assert PieceFrom(path, 0) == Onto(parts, TailFrom(path, pos));
      var err;
      parts, pos, err := ParseBrackets(path, pos, parts);
      if err.Some? {
        return Refused(err.value);
      }
      TailHere(path, pos);
      if pos == |path| {
        assert parts + [] == parts;
        break;
      }
      if path[pos] != DOT {
        return Refused(MalformedPath);
      }
      pos := pos + 1;
      if pos == |path| {
        return Refused(MalformedPath);
      }
    }
    return Parsed(parts);
  }

  /** ParsePath; its last check, for an empty list of parts, never fires (PieceHasParts). */
  method ParsePath(jsonPath: Bytes) returns (r: PathResult)
    ensures r == ParseSpec(jsonPath)
  {
    hide PieceFrom;
    if jsonPath == [] {
      return Refused(EmptyPath);
    }
    var rest := jsonPath;
    if jsonPath == [DOLLAR] {
      return Parsed([]);
    } else if |jsonPath| >= 2 && jsonPath[0] == DOLLAR && jsonPath[1] == DOT {
      rest := jsonPath[2..];
    } else if |jsonPath| >= 2 && jsonPath[0] == DOLLAR && jsonPath[1] == LBRACKET {
      rest := jsonPath[1..];
    } else if jsonPath[0] == DOLLAR {
      return Refused(MalformedPath);
    }
    if rest == [] {
      return Refused(MalformedPath);
    }
    r := ParsePieces(rest);
  }

  lemma PieceHasParts(path: Bytes, pos: nat)
    requires pos < |path| && PieceFrom(path, pos).Parsed?
    ensures PieceFrom(path, pos).parts != []
  {
    hide QuotedFrom, BareEnd;
    if path[pos] == LBRACKET { assert BracketAt(path, pos).Component?; }
  }

  // ---- printing a path and reading it back ----

  /**
   * A component as it can be written: bare, quoted with its escapes, or in brackets. A key is introduced by a dot, a selector
   * may be.
   */
  datatype Step = Bare(name: Bytes) | Quoted(body: Bytes) | Selector(text: Bytes, dotted: bool)

  /** A byte that may stand anywhere in an unquoted key. */
  predicate IsBareByte(c: byte) {
    c != DOT && c != LBRACKET && c != RBRACKET && c != QUOTE
  }

  predicate WfStep(s: Step) {
    match s
    case Bare(name) => name != [] && forall k :: 0 <= k < |name| ==> IsBareByte(name[k])
    case Quoted(body) => IsStringBody(body) && NoControl(body)
    case Selector(text, _) => IsSelector(text)
  }

  predicate IsDotted(s: Step) {
    s.Selector? ==> s.dotted
  }

  /** A step without its dot. */
  function CoreText(s: Step): Bytes {
    match s
    case Bare(name) => name
    case Quoted(body) => [QUOTE] + (body + [QUOTE])
    case Selector(text, _) => [LBRACKET] + (text + [RBRACKET])
  }

  function StepText(s: Step): Bytes {
    (if IsDotted(s) then [DOT] else []) + CoreText(s)
  }

  function StepsText(steps: seq<Step>): Bytes {
    if steps == [] then [] else StepText(steps[0]) + StepsText(steps[1..])
  }

  /** A path that does not start at "$": the first dot is dropped. */
  function RootlessText(steps: seq<Step>): Bytes
    requires steps != []
  {
    CoreText(steps[0]) + StepsText(steps[1..])
  }

  /** The component a step stands for. */
  function Meaning(s: Step): Bytes
    requires WfStep(s)
  {
    match s
    case Bare(name) => name
    case Quoted(body) => DecodedBody(body)
    case Selector(text, _) => [LBRACKET] + (text + [RBRACKET])
  }

  function DecodedBody(body: Bytes): Bytes
    requires IsStringBody(body)
  {
    BodyDecodes(STRICT, body);
    Unescaped(STRICT, body).value
  }

  predicate WfSteps(steps: seq<Step>) {
    forall k :: 0 <= k < |steps| ==> WfStep(steps[k])
  }

  function Meanings(steps: seq<Step>): Path
    requires WfSteps(steps)
  {
    if steps == [] then [] else [Meaning(steps[0])] + Meanings(steps[1..])
  }

  lemma {:induction false} QuotedReads(path: Bytes, start: nat, pos: nat, body: Bytes, end: nat)
    requires start < pos <= end < |path| && path[end] == QUOTE
    requires IsStringBody(body) && NoControl(body) && At(path, pos, body) && pos + |body| == end
    ensures QuotedFrom(path, start, pos) == QuotedFrom(path, start, end)
    decreases |body|
  {
    hide Unescaped;
    if body != [] {
      assert path[pos + 0] == body[0];
      if body[0] == BACKSLASH {
        assert path[pos + 1] == body[1];
        assert QuotedFrom(path, start, pos) == QuotedFrom(path, start, pos + 2);
        var n := if body[1] == LOWER_U then 6 else 2;
        if n == 6 {
          assert path[pos + 2] == body[2] && path[pos + 3] == body[3] && path[pos + 4] == body[4] && path[pos + 5] == body[5];
          assert QuotedFrom(path, start, pos + 2) == QuotedFrom(path, start, pos + 4);
          assert QuotedFrom(path, start, pos + 4) == QuotedFrom(path, start, pos + 6);
        }
        AtDrop(path, pos, body, n);
        QuotedReads(path, start, pos + n, body[n..], end);
      } else {
        AtDrop(path, pos, body, 1);
        QuotedReads(path, start, pos + 1, body[1..], end);
      }
    }
  }

  lemma {:induction false} BareReads(path: Bytes, pos: nat, end: nat)
    requires pos <= end <= |path| && forall k :: pos <= k < end ==> IsBareByte(path[k])
    requires end < |path| ==> path[end] == DOT || path[end] == LBRACKET
    ensures BareEnd(path, pos) == Some(end)
    decreases end - pos
  {
    if pos < end { BareReads(path, pos + 1, end); }
  }

  lemma {:induction false} BracketReads(path: Bytes, pos: nat, end: nat)
    requires pos <= end < |path| && path[end] == RBRACKET
    requires forall k :: pos <= k < end ==> IsDigit(path[k]) || path[k] == STAR
    ensures BracketEnd(path, pos) == Some(end)
    decreases end - pos
  {
    if pos < end { BracketReads(path, pos + 1, end); }
  }

  lemma SelectorReads(path: Bytes, p: nat, text: Bytes)
    requires IsSelector(text) && At(path, p, [LBRACKET] + (text + [RBRACKET]))
    ensures path[p] == LBRACKET && BracketAt(path, p) == Component([LBRACKET] + (text + [RBRACKET]), p + |text| + 2)
  {
    AtSlice(path, p, [LBRACKET] + (text + [RBRACKET]));
    AtSplit(path, p, [LBRACKET], text + [RBRACKET]);
    assert path[p + 0] == [LBRACKET][0];
    AtSplit(path, p + 1, text, [RBRACKET]);
    var end := p + 1 + |text|;
    assert path[end + 0] == [RBRACKET][0];
    forall k | p + 1 <= k < end ensures IsDigit(path[k]) || path[k] == STAR { assert path[p + 1 + (k - p - 1)] == text[k - p - 1]; }
    BracketReads(path, p + 1, end);
    AtSlice(path, p + 1, text);
  }

  /** What is read for a step without its dot. */
  lemma CoreReads(path: Bytes, p: nat, s: Step, q: nat)
    requires WfStep(s) && At(path, p, CoreText(s)) && q == p + |CoreText(s)|
    requires q < |path| ==> path[q] == DOT || path[q] == LBRACKET
    ensures p < q <= |path| && PieceFrom(path, p) == Onto([Meaning(s)], TailFrom(path, q))
    ensures path[p] == LBRACKET <==> s.Selector?
  {
    hide Unescaped, BracketAt;
    match s
    case Bare(name) =>
      hide TailFrom;
      assert path[p + 0] == name[0];
      forall k | p <= k < q ensures IsBareByte(path[k]) { assert path[p + (k - p)] == name[k - p]; }
      BareReads(path, p, q);
      AtSlice(path, p, name);
    case Quoted(body) =>
      hide TailFrom;
      AtSplit(path, p, [QUOTE], body + [QUOTE]);
      assert path[p + 0] == [QUOTE][0];
      AtSplit(path, p + 1, body, [QUOTE]);
      assert path[p + 1 + |body| + 0] == [QUOTE][0];
      QuotedReads(path, p, p + 1, body, p + 1 + |body|);
      AtSlice(path, p + 1, body);
      BodyDecodes(STRICT, body);
    case Selector(text, _) =>
      SelectorReads(path, p, text);
  }

  lemma StepStarts(s: Step, path: Bytes, p: nat)
    requires At(path, p, StepText(s))
    ensures IsDotted(s) ==> At(path, p, [DOT]) && At(path, p + 1, CoreText(s)) && path[p] == DOT
    ensures !IsDotted(s) ==> At(path, p, CoreText(s)) && p < |path| && path[p] == LBRACKET
  {
    if IsDotted(s) {
      AtSplit(path, p, [DOT], CoreText(s));
      assert path[p + 0] == [DOT][0];
    } else {
      assert [] + CoreText(s) == CoreText(s);
      assert path[p + 0] == CoreText(s)[0];
    }
  }

  /** The text of a list of steps, up to the end of the path, reads back as their components. */
  lemma {:induction false} StepsRead(path: Bytes, p: nat, steps: seq<Step>)
    requires WfSteps(steps) && p + |StepsText(steps)| == |path| && At(path, p, StepsText(steps))
    ensures TailFrom(path, p) == Parsed(Meanings(steps))
    decreases |steps|
  {
    hide PieceFrom, BracketAt, StepText, Meaning;
    if steps != [] {
      var s := steps[0];
      var q := p + |StepText(s)|;
      AtSplit(path, p, StepText(s), StepsText(steps[1..]));
      StepsRead(path, q, steps[1..]);
      StepEnds(path, q, steps[1..]);
      FirstRead(path, p, s, q);
    }
  }

  lemma FirstRead(path: Bytes, p: nat, s: Step, q: nat)
    requires WfStep(s) && At(path, p, StepText(s)) && q == p + |StepText(s)| <= |path|
    requires q < |path| ==> path[q] == DOT || path[q] == LBRACKET
    ensures TailFrom(path, p) == Onto([Meaning(s)], TailFrom(path, q))
  {
    hide PieceFrom, BracketAt, Meaning, CoreText;
    StepStarts(s, path, p);
    if IsDotted(s) {
      CoreReads(path, p + 1, s, q);
    } else {
      CoreReads(path, p, s, q);
      FromBracket(path, p);
    }
  }

  /** The end of a step is the end of the path or the start of another step. */
  lemma StepEnds(path: Bytes, q: nat, steps: seq<Step>)
    requires q + |StepsText(steps)| == |path| && At(path, q, StepsText(steps))
    ensures q < |path| ==> path[q] == DOT || path[q] == LBRACKET
  {
    hide StepText;
    if q < |path| {
      AtSplit(path, q, StepText(steps[0]), StepsText(steps[1..]));
      StepStarts(steps[0], path, q);
    }
  }

  /** A path without its "$" and without its first dot. */
  lemma RootlessReads(steps: seq<Step>)
    requires WfSteps(steps) && steps != []
    ensures var path := RootlessText(steps); path != [] && PieceFrom(path, 0) == Parsed(Meanings(steps))
  {
    hide PieceFrom, TailFrom, Meaning, StepText, CoreText;
    var path := RootlessText(steps);
    var q := |CoreText(steps[0])|;
    AtWhole(path);
    AtSplit(path, 0, CoreText(steps[0]), StepsText(steps[1..]));
    StepEnds(path, q, steps[1..]);
    CoreReads(path, 0, steps[0], q);
    StepsRead(path, q, steps[1..]);
  }

  lemma FromBracket(text: Bytes, p: nat)
    requires p < |text| && text[p] == LBRACKET
    ensures PieceFrom(text, p) == TailFrom(text, p)
  {
  }

  lemma StepsHead(steps: seq<Step>)
    requires steps != []
    ensures StepsText(steps) == (if IsDotted(steps[0]) then [DOT] else []) + RootlessText(steps)
    ensures !IsDotted(steps[0]) ==> RootlessText(steps) != [] && RootlessText(steps)[0] == LBRACKET
  {
    Associate(if IsDotted(steps[0]) then [DOT] else [], CoreText(steps[0]), StepsText(steps[1..]));
  }

  /** Would be taken for the root. */
  predicate StartsWithDollar(s: Step) {
    s.Bare? && s.name != [] && s.name[0] == DOLLAR
  }

  /** The path is the text of the steps: behind "$", or on its own when that does not start with "$". */
  predicate Spells(path: Bytes, steps: seq<Step>) {
    || path == [DOLLAR] + StepsText(steps)
    || (steps != [] && !StartsWithDollar(steps[0]) && path == RootlessText(steps))
  }

  /** Any list of steps, written behind "$" or without it, parses to the list of their components. */
  lemma ParseRoundTrip(path: Bytes, steps: seq<Step>)
    requires WfSteps(steps) && Spells(path, steps)
    ensures ParseSpec(path) == Parsed(Meanings(steps))
  {
    hide PieceFrom, TailFrom, Meaning, StepsText, CoreText, At;
    if steps == [] {
      NoSteps();
      assert path == [DOLLAR];
    } else {
      var text := RootlessText(steps);
      RootlessReads(steps);
      StepsHead(steps);
      if path == [DOLLAR] + StepsText(steps) {
        if IsDotted(steps[0]) {
          assert path[1] == DOT && path[2..] == text;
        } else {
          assert path[1] == text[0] && path[1..] == text;
        }
      } else {
        NoDollar(steps);
      }
    }
  }

  lemma NoSteps()
    ensures StepsText([]) == []
  {
  }

  lemma NoDollar(steps: seq<Step>)
    requires WfSteps(steps) && steps != [] && !StartsWithDollar(steps[0])
    ensures RootlessText(steps) != [] && RootlessText(steps)[0] != DOLLAR
  {
    assert WfStep(steps[0]) && RootlessText(steps)[0] == CoreText(steps[0])[0];
  }

  // ---- every path that parses is written in steps ----

  lemma {:induction false} BareFound(path: Bytes, pos: nat)
    requires pos <= |path| && BareEnd(path, pos).Some?
    ensures var end := BareEnd(path, pos).value;
            && (forall k :: pos <= k < end ==> IsBareByte(path[k]))
            && (end < |path| ==> path[end] == DOT || path[end] == LBRACKET)
    decreases |path| - pos
  {
    if pos < |path| && path[pos] != DOT && path[pos] != LBRACKET { BareFound(path, pos + 1); }
  }

  /** The closing quote of a quoted key and its decoding. */
  lemma {:induction false} QuotedFound(path: Bytes, start: nat, pos: nat)
    requires start < pos && QuotedFrom(path, start, pos).Component?
    ensures var c := QuotedFrom(path, start, pos);
            path[c.next - 1] == QUOTE && Unescaped(STRICT, path[start + 1..c.next - 1]) == Some(c.text)
    decreases |path| - pos
  {
    hide Unescaped;
    if path[pos] == BACKSLASH { QuotedFound(path, start, pos + 2); }
    else if path[pos] != QUOTE { QuotedFound(path, start, pos + 1); }
  }

  /** A pair of surrogates is also two escapes one after the other. */
  lemma HalfDecodes(s: Bytes)
    requires |s| >= 2 && s[0] == BACKSLASH && s[1] == LOWER_U && Unescaped(STRICT, s).Some?
    ensures |s| >= 6 && IsHex(s[2]) && IsHex(s[3]) && IsHex(s[4]) && IsHex(s[5]) && Unescaped(STRICT, s[6..]).Some?
  {
    hide EncodeRune, H2I;
    if DecodeUnicode(s).1 == 12 {
      assert s[6..][0] == s[6] && s[6..][1] == s[7] && s[6..][6..] == s[12..];
      assert UnescapeOne(STRICT, s[6..]) == Some((6, EncodeRune(RUNE_ERROR)));
    }
  }

  lemma HexIsPlain(c: byte)
    requires IsHex(c)
    ensures c >= 0x20 && c != QUOTE && c != BACKSLASH
  {
  }

  /** The four digits of an escape are passed over one by one. */
  lemma QuotedHex(path: Bytes, start: nat, pos: nat)
    requires start < pos && pos + 4 <= |path| && forall k :: pos <= k < pos + 4 ==> IsHex(path[k])
    ensures QuotedFrom(path, start, pos) == QuotedFrom(path, start, pos + 4)
  {
    hide Unescaped, IsHex;
    forall k | pos <= k < pos + 4 ensures path[k] >= 0x20 && path[k] != QUOTE && path[k] != BACKSLASH { HexIsPlain(path[k]); }
    assert QuotedFrom(path, start, pos) == QuotedFrom(path, start, pos + 1);
    assert QuotedFrom(path, start, pos + 1) == QuotedFrom(path, start, pos + 2);
    assert QuotedFrom(path, start, pos + 2) == QuotedFrom(path, start, pos + 3);
  }

  /** What lies between the quotes of a key that is read is a string body without control bytes. */
  lemma {:induction false} QuotedBody(path: Bytes, start: nat, pos: nat)
    requires start < pos && QuotedFrom(path, start, pos).Component?
    requires Unescaped(STRICT, path[pos..QuotedFrom(path, start, pos).next - 1]).Some?
    ensures var body := path[pos..QuotedFrom(path, start, pos).next - 1]; IsStringBody(body) && NoControl(body)
    decreases |path| - pos
  {
    hide Unescaped, IsHex, EncodeRune, DecodeUnicode;
    var end := QuotedFrom(path, start, pos).next - 1;
    var body := path[pos..end];
    if pos == end {
    } else if path[pos] == BACKSLASH {
      EscapeFirst(body);
      QuotedNonempty(path, start, pos + 2);
      assert body[1] == path[pos + 1];
      if body[1] == LOWER_U {
        HalfDecodes(body);
        assert body[2] == path[pos + 2] && body[3] == path[pos + 3] && body[4] == path[pos + 4] && body[5] == path[pos + 5];
        QuotedHex(path, start, pos + 2);
        assert body[6..] == path[pos + 6..end];
        QuotedBody(path, start, pos + 6);
        BodyBy(body, 6);
      } else {
        assert body[2..] == path[pos + 2..end];
        QuotedBody(path, start, pos + 2);
        BodyBy(body, 2);
      }
    } else {
      PlainFirst(body);
      assert body[1..] == path[pos + 1..end];
      QuotedBody(path, start, pos + 1);
      BodyBy(body, 1);
    }
  }

  lemma QuotedNonempty(path: Bytes, start: nat, pos: nat)
    requires start < pos && QuotedFrom(path, start, pos).Component?
    ensures pos < |path| && pos <= QuotedFrom(path, start, pos).next - 1
  {
    hide Unescaped;
  }

  lemma PlainFirst(s: Bytes)
    requires s != [] && s[0] != BACKSLASH && Unescaped(STRICT, s).Some?
    ensures Unescaped(STRICT, s[1..]).Some?
  {
    hide UnescapeOne;
  }

  lemma EscapeFirst(s: Bytes)
    requires s != [] && s[0] == BACKSLASH && Unescaped(STRICT, s).Some?
    ensures |s| >= 2 && (s[1] != LOWER_U ==> SimpleEscape(s[1]).Some? && Unescaped(STRICT, s[2..]).Some?)
  {
    hide DecodeUnicode;
  }

  /** A body read by its first n bytes. */
  lemma BodyBy(s: Bytes, n: nat)
    requires n <= |s| && IsStringBody(s[n..]) && NoControl(s[n..])
    requires match n
             case 1 => s[0] != BACKSLASH && s[0] != QUOTE && s[0] >= 0x20
             case 2 => s[0] == BACKSLASH && s[1] != LOWER_U && SimpleEscape(s[1]).Some?
             case 6 => s[0] == BACKSLASH && s[1] == LOWER_U && IsHex(s[2]) && IsHex(s[3]) && IsHex(s[4]) && IsHex(s[5])
             case _ => false
    ensures IsStringBody(s) && NoControl(s)
  {
    hide H2I;
    if n == 6 {
      HexIsPlain(s[2]);
      HexIsPlain(s[3]);
      HexIsPlain(s[4]);
      HexIsPlain(s[5]);
    }
    forall k | 0 <= k < |s| ensures s[k] >= 0x20 { if k >= n { assert s[n..][k - n] == s[k]; } }
  }

  /** A bracket component that is read is a selector between brackets. */
  lemma BracketFound(path: Bytes, p: nat) returns (s: Step)
    requires p < |path| && path[p] == LBRACKET && BracketAt(path, p).Component?
    ensures WfStep(s) && s.Selector? && !s.dotted && Meaning(s) == BracketAt(path, p).text
    ensures CoreText(s) == path[p..BracketAt(path, p).next]
  {
    var end := BracketEnd(path, p + 1).value;
    s := Selector(path[p + 1..end], false);
    assert path[p..end + 1] == [LBRACKET] + (path[p + 1..end] + [RBRACKET]);
  }

  /** A key that is read is a bare or a quoted one. */
  lemma KeyFound(path: Bytes, p: nat) returns (s: Step, q: nat)
    requires p < |path| && PieceFrom(path, p).Parsed? && path[p] != LBRACKET
    ensures WfStep(s) && !s.Selector? && p < q <= |path| && path[p..q] == CoreText(s)
    ensures PieceFrom(path, p) == Onto([Meaning(s)], TailFrom(path, q))
  {
    hide TailFrom, Unescaped;
    if path[p] == QUOTE {
      var c := QuotedFrom(path, p, p + 1);
      q := c.next;
      QuotedFound(path, p, p + 1);
      QuotedBody(path, p, p + 1);
      s := Quoted(path[p + 1..q - 1]);
      assert path[p..q] == [QUOTE] + (path[p + 1..q - 1] + [QUOTE]);
    } else {
      BareFound(path, p);
      q := BareEnd(path, p).value;
      s := Bare(path[p..q]);
    }
  }

  lemma OntoParsed(parts: Path, r: PathResult)
    ensures Onto(parts, r).Parsed? <==> r.Parsed?
    ensures r.Parsed? ==> Onto(parts, r) == Parsed(parts + r.parts)
  {
  }

  /** From a piece on: steps of which the first has lost its dot. */
  lemma {:induction false} PieceFound(path: Bytes, p: nat) returns (steps: seq<Step>)
    requires p < |path| && PieceFrom(path, p).Parsed?
    ensures WfSteps(steps) && steps != [] && path[p..] == RootlessText(steps) && PieceFrom(path, p) == Parsed(Meanings(steps))
    ensures path[p] == LBRACKET ==> !IsDotted(steps[0])
    decreases |path| - p, 1
  {
    hide StepText, CoreText, BracketAt, TailFrom, Meaning;
    if path[p] == LBRACKET {
      FromBracket(path, p);
      steps := TailFound(path, p);
      StepsHead(steps);
    } else {
      var s, q := KeyFound(path, p);
      OntoParsed([Meaning(s)], TailFrom(path, q));
      var rest := TailFound(path, q);
      steps := [s] + rest;
      MoreSteps(s, rest);
      assert path[p..] == path[p..q] + path[q..];
    }
  }

  lemma MoreSteps(s: Step, rest: seq<Step>)
    requires WfStep(s) && WfSteps(rest)
    ensures var steps := [s] + rest;
            && WfSteps(steps) && RootlessText(steps) == CoreText(s) + StepsText(rest)
            && Meanings(steps) == [Meaning(s)] + Meanings(rest)
  {
    assert ([s] + rest)[1..] == rest;
  }

  /** Behind a component: steps. */
  lemma {:induction false} TailFound(path: Bytes, p: nat) returns (steps: seq<Step>)
    requires p <= |path| && TailFrom(path, p).Parsed?
    ensures WfSteps(steps) && path[p..] == StepsText(steps) && TailFrom(path, p) == Parsed(Meanings(steps))
    ensures p < |path| && path[p] == LBRACKET ==> steps != [] && !IsDotted(steps[0])
    decreases |path| - p, 0
  {
    hide StepText, CoreText, BracketAt, PieceFrom, Meaning;
    if p == |path| {
      steps := [];
    } else if path[p] == LBRACKET {
      var s := BracketFound(path, p);
      var q := BracketAt(path, p).next;
      OntoParsed([Meaning(s)], TailFrom(path, q));
      var rest := TailFound(path, q);
      steps := [s] + rest;
      MoreSteps(s, rest);
      StepsHead(steps);
      assert path[p..] == path[p..q] + path[q..];
      assert [] + RootlessText(steps) == RootlessText(steps);
    } else {
      var piece := PieceFound(path, p + 1);
      steps := DottedSteps(piece);
      DotFirst(piece);
      assert path[p..] == [DOT] + path[p + 1..];
    }
  }

  /** The same steps, the first of them with its dot. */
  function DottedSteps(piece: seq<Step>): seq<Step>
    requires piece != []
  {
    [if piece[0].Selector? then piece[0].(dotted := true) else piece[0]] + piece[1..]
  }

  lemma DotFirst(piece: seq<Step>)
    requires WfSteps(piece) && piece != []
    ensures var steps := DottedSteps(piece);
            WfSteps(steps) && StepsText(steps) == [DOT] + RootlessText(piece) && Meanings(steps) == Meanings(piece)
  {
    var steps := DottedSteps(piece);
    var s := steps[0];
    assert WfStep(piece[0]) && Meaning(s) == Meaning(piece[0]) && CoreText(s) == CoreText(piece[0]);
    assert steps == [s] + piece[1..];
    MoreSteps(s, piece[1..]);
    StepsHead(steps);
  }

  /**
   * ParsePath accepts exactly the texts of lists of steps, with or without "$" in front, and answers with the components they
   * stand for. Every other text is refused.
   */
  lemma ParseExactly(path: Bytes, parts: Path)
    ensures ParseSpec(path) == Parsed(parts)
       <==> exists steps :: WfSteps(steps) && Spells(path, steps) && Meanings(steps) == parts
  {
    hide PieceFrom, StepsText, CoreText, Meanings, WfSteps;
    if ParseSpec(path) == Parsed(parts) {
      var steps := StepsFound(path);
      assert Spells(path, steps);
    }
    if exists steps :: WfSteps(steps) && Spells(path, steps) && Meanings(steps) == parts {
      var steps :| WfSteps(steps) && Spells(path, steps) && Meanings(steps) == parts;
      ParseRoundTrip(path, steps);
    }
  }

  lemma StepsFound(path: Bytes) returns (steps: seq<Step>)
    requires ParseSpec(path).Parsed?
    ensures WfSteps(steps) && Spells(path, steps) && ParseSpec(path) == Parsed(Meanings(steps))
  {
    hide PieceFrom, StepsText, CoreText, Meaning;
    if path == [DOLLAR] {
      steps := [];
      NoSteps();
    } else if path[0] != DOLLAR {
      steps := PieceFound(path, 0);
      assert path[0..] == path;
      FirstByte(steps);
    } else if path[1] == DOT {
      var piece := PieceFound(path[2..], 0);
      assert path[2..][0..] == path[2..];
      steps := DottedSteps(piece);
      DotFirst(piece);
      assert path == [DOLLAR] + ([DOT] + path[2..]);
    } else {
      steps := PieceFound(path[1..], 0);
      assert path[1..][0..] == path[1..];
      StepsHead(steps);
      assert [] + RootlessText(steps) == RootlessText(steps);
      assert path == [DOLLAR] + path[1..];
    }
  }

  lemma FirstByte(steps: seq<Step>)
    requires steps != []
    ensures StartsWithDollar(steps[0]) ==> RootlessText(steps) != [] && RootlessText(steps)[0] == DOLLAR
  {
  }

  // ---- keys that are not terminated ----

  /** What can stand behind a quote that is never closed: no bare quote and no bare control byte. */
  predicate OpenBody(s: Bytes) {
    s == []
    || (if s[0] == BACKSLASH then |s| == 1 || OpenBody(s[2..]) else s[0] != QUOTE && s[0] >= 0x20 && OpenBody(s[1..]))
  }

  lemma {:induction false} QuotedOpen(path: Bytes, start: nat, pos: nat)
    requires start < pos <= |path|
    ensures QuotedFrom(path, start, pos) == Bad(UnterminatedKey) <==> OpenBody(path[pos..])
    decreases |path| - pos
  {
    hide Unescaped;
    if pos < |path| {
      var s := path[pos..];
      if path[pos] == BACKSLASH {
        if pos + 1 < |path| {
          assert s[2..] == path[pos + 2..];
          QuotedOpen(path, start, pos + 2);
        }
      } else if path[pos] != QUOTE && path[pos] >= 0x20 {
        assert s[1..] == path[pos + 1..];
        QuotedOpen(path, start, pos + 1);
      }
    }
  }

  /** Steps, and behind the last of them a key in quotes of which only the first is there. */
  predicate BreaksIn(text: Bytes, steps: seq<Step>, s: Bytes) {
    OpenBody(s) && text == StepsText(steps) + ([DOT, QUOTE] + s)
  }

  /** The same without the first dot: the open key may be the first. */
  predicate RootlessBreaksIn(text: Bytes, steps: seq<Step>, s: Bytes) {
    OpenBody(s) && text == if steps == [] then [QUOTE] + s else RootlessText(steps) + ([DOT, QUOTE] + s)
  }

  lemma {:induction false} PieceBreaks(path: Bytes, p: nat) returns (steps: seq<Step>, s: Bytes)
    requires p < |path| && PieceFrom(path, p) == Refused(UnterminatedKey)
    ensures WfSteps(steps) && RootlessBreaksIn(path[p..], steps, s)
    ensures path[p] == LBRACKET ==> steps != [] && !IsDotted(steps[0])
    decreases |path| - p, 1
  {
    hide StepText, CoreText, BracketAt, TailFrom, Meaning, OpenBody;
    if path[p] == LBRACKET {
      FromBracket(path, p);
      steps, s := TailBreaks(path, p);
      StepsHead(steps);
      assert [] + RootlessText(steps) == RootlessText(steps);
    } else if path[p] == QUOTE && QuotedFrom(path, p, p + 1).Bad? {
      QuotedOpen(path, p, p + 1);
      steps, s := [], path[p + 1..];
      assert path[p..] == [QUOTE] + s;
    } else {
      var k, q := KeyBefore(path, p);
      var rest;
      rest, s := TailBreaks(path, q);
      steps := [k] + rest;
      MoreSteps(k, rest);
      assert path[p..] == path[p..q] + path[q..];
      Associate(CoreText(k), StepsText(rest), [DOT, QUOTE] + s);
    }
  }

  /** A key that is read before the path breaks off. */
  lemma KeyBefore(path: Bytes, p: nat) returns (s: Step, q: nat)
    requires p < |path| && PieceFrom(path, p) == Refused(UnterminatedKey) && path[p] != LBRACKET
    requires path[p] == QUOTE ==> QuotedFrom(path, p, p + 1).Component?
    ensures WfStep(s) && !s.Selector? && p < q <= |path| && path[p..q] == CoreText(s)
    ensures TailFrom(path, q) == Refused(UnterminatedKey)
  {
    hide TailFrom, Unescaped;
    if path[p] == QUOTE {
      q := QuotedFrom(path, p, p + 1).next;
      QuotedFound(path, p, p + 1);
      QuotedBody(path, p, p + 1);
      s := Quoted(path[p + 1..q - 1]);
      assert path[p..q] == [QUOTE] + (path[p + 1..q - 1] + [QUOTE]);
    } else {
      BareFound(path, p);
      q := BareEnd(path, p).value;
      s := Bare(path[p..q]);
    }
  }

  lemma {:induction false} TailBreaks(path: Bytes, p: nat) returns (steps: seq<Step>, s: Bytes)
    requires p <= |path| && TailFrom(path, p) == Refused(UnterminatedKey)
    ensures WfSteps(steps) && BreaksIn(path[p..], steps, s)
    ensures p < |path| && path[p] == LBRACKET ==> steps != [] && !IsDotted(steps[0])
    decreases |path| - p, 0
  {
    hide StepText, CoreText, PieceFrom, Meaning, OpenBody;
    if path[p] == LBRACKET {
      var k := BracketFound(path, p);
      var q := BracketAt(path, p).next;
      var rest;
      rest, s := TailBreaks(path, q);
      steps := [k] + rest;
      MoreSteps(k, rest);
      StepsHead(steps);
      assert path[p..] == path[p..q] + path[q..];
      assert [] + RootlessText(steps) == RootlessText(steps);
      Associate(CoreText(k), StepsText(rest), [DOT, QUOTE] + s);
    } else {
      var piece;
      piece, s := PieceBreaks(path, p + 1);
      assert path[p..] == [DOT] + path[p + 1..];
      if piece == [] {
        steps := [];
        NoSteps();
        assert [DOT] + ([QUOTE] + s) == [] + ([DOT, QUOTE] + s);
      } else {
        steps := DottedSteps(piece);
        DotFirst(piece);
        Associate([DOT], RootlessText(piece), [DOT, QUOTE] + s);
      }
    }
  }

  /** Reading up to the open key. */
  lemma {:induction false} BreaksRead(path: Bytes, p: nat, steps: seq<Step>, s: Bytes)
    requires WfSteps(steps) && OpenBody(s) && p + |StepsText(steps) + ([DOT, QUOTE] + s)| == |path|
    requires At(path, p, StepsText(steps) + ([DOT, QUOTE] + s))
    ensures TailFrom(path, p) == Refused(UnterminatedKey)
    decreases |steps|
  {
    hide BracketAt, StepText, Meaning, OpenBody;
    var last := [DOT, QUOTE] + s;
    AtSplit(path, p, StepsText(steps), last);
    if steps == [] {
      NoSteps();
      OpenRead(path, p, s);
    } else {
      hide PieceFrom;
      var q := p + |StepText(steps[0])|;
      Associate(StepText(steps[0]), StepsText(steps[1..]), last);
      AtSplit(path, p, StepText(steps[0]), StepsText(steps[1..]) + last);
      BreaksRead(path, q, steps[1..], s);
      BreakEnds(path, q, steps[1..], last);
      FirstRead(path, p, steps[0], q);
    }
  }

  lemma OpenRead(path: Bytes, p: nat, s: Bytes)
    requires OpenBody(s) && At(path, p, [DOT, QUOTE] + s) && p + 2 + |s| == |path|
    ensures TailFrom(path, p) == Refused(UnterminatedKey)
    ensures PieceFrom(path, p + 1) == Refused(UnterminatedKey)
  {
    hide QuotedFrom, OpenBody;
    var last := [DOT, QUOTE] + s;
    assert path[p + 0] == last[0] && path[p + 1] == last[1];
    assert path[p + 2..] == s by { forall k | 0 <= k < |s| ensures path[p + 2 + k] == s[k] { assert last[2 + k] == s[k]; } }
    QuotedOpen(path, p + 1, p + 2);
  }

  /** The end of a step is the start of another, or of the open key. */
  lemma BreakEnds(path: Bytes, q: nat, steps: seq<Step>, last: Bytes)
    requires q + |StepsText(steps) + last| == |path| && At(path, q, StepsText(steps) + last) && last != [] && last[0] == DOT
    ensures q < |path| && (path[q] == DOT || path[q] == LBRACKET)
  {
    hide StepText;
    AtSplit(path, q, StepsText(steps), last);
    if steps == [] {
      assert path[q + 0] == last[0];
    } else {
      AtSplit(path, q, StepText(steps[0]), StepsText(steps[1..]));
      StepStarts(steps[0], path, q);
    }
  }

  lemma RootlessBreaksRead(path: Bytes, steps: seq<Step>, s: Bytes)
    requires WfSteps(steps) && RootlessBreaksIn(path, steps, s)
    ensures path != [] && PieceFrom(path, 0) == Refused(UnterminatedKey)
  {
    hide TailFrom, Meaning, StepText, CoreText, OpenBody, QuotedFrom;
    AtWhole(path);
    if steps == [] {
      assert path[1..] == s;
      QuotedOpen(path, 0, 1);
    } else {
      hide PieceFrom;
      var last := [DOT, QUOTE] + s;
      var q := |CoreText(steps[0])|;
      Associate(CoreText(steps[0]), StepsText(steps[1..]), last);
      AtSplit(path, 0, CoreText(steps[0]), StepsText(steps[1..]) + last);
      BreaksRead(path, q, steps[1..], s);
      BreakEnds(path, q, steps[1..], last);
      CoreReads(path, 0, steps[0], q);
    }
  }

  /** The path is written in steps up to a key in quotes that is not closed, behind "$" or on its own. */
  ghost predicate Unterminated(path: Bytes) {
    exists steps, s :: WfSteps(steps) && OpenBody(s) &&
      (BreaksInRoot(path, steps, s) || (RootlessBreaksIn(path, steps, s) && (steps != [] ==> !StartsWithDollar(steps[0]))))
  }

  predicate BreaksInRoot(path: Bytes, steps: seq<Step>, s: Bytes) {
    path != [] && path[0] == DOLLAR && BreaksIn(path[1..], steps, s)
  }

  lemma {:induction false} NeverEmptyTail(path: Bytes, p: nat)
    requires p <= |path|
    ensures TailFrom(path, p) != Refused(EmptyPath)
    decreases |path| - p, 0
  {
    hide BracketEnd;
    if p < |path| && path[p] == LBRACKET && BracketAt(path, p).Component? {
      NeverEmptyTail(path, BracketAt(path, p).next);
    } else if p + 1 < |path| && path[p] == DOT {
      NeverEmptyPiece(path, p + 1);
    }
  }

  lemma {:induction false} NeverEmptyQuoted(path: Bytes, start: nat, pos: nat)
    requires start < pos
    ensures QuotedFrom(path, start, pos) != Bad(EmptyPath)
    decreases |path| - pos
  {
    hide Unescaped;
    if pos < |path| {
      if path[pos] == BACKSLASH { NeverEmptyQuoted(path, start, pos + 2); } else { NeverEmptyQuoted(path, start, pos + 1); }
    }
  }

  lemma {:induction false} NeverEmptyPiece(path: Bytes, p: nat)
    requires p < |path|
    ensures PieceFrom(path, p) != Refused(EmptyPath)
    decreases |path| - p, 1
  {
    hide QuotedFrom, BareEnd;
    NeverEmptyQuoted(path, p, p + 1);
    if path[p] == QUOTE {
      var c := QuotedFrom(path, p, p + 1);
      if c.Component? { NeverEmptyTail(path, c.next); }
    } else if path[p] == LBRACKET {
      NeverEmptyTail(path, p);
    } else if BareEnd(path, p).Some? && BareEnd(path, p).value > p {
      NeverEmptyTail(path, BareEnd(path, p).value);
    }
  }

  lemma NeverEmpty(path: Bytes)
    requires path != []
    ensures ParseSpec(path) != Refused(EmptyPath)
  {
    hide PieceFrom;
    if path[0] != DOLLAR {
      NeverEmptyPiece(path, 0);
    } else if |path| > 1 {
      if path[1] == DOT && |path| > 2 { NeverEmptyPiece(path[2..], 0); }
      if path[1] == LBRACKET { NeverEmptyPiece(path[1..], 0); }
    }
  }

  lemma RootBreaksRead(path: Bytes, steps: seq<Step>, s: Bytes)
    requires WfSteps(steps) && OpenBody(s) && BreaksInRoot(path, steps, s)
    ensures ParseSpec(path) == Refused(UnterminatedKey)
  {
    hide PieceFrom, CoreText, OpenBody;
    var last := [DOT, QUOTE] + s;
    var text := path[1..];
    if steps == [] {
      NoSteps();
      assert text == last && text[0] == DOT && path[1] == text[0];
      assert path[2..] == text[1..] == [QUOTE] + s;
      RootlessBreaksRead(path[2..], [], s);
    } else {
      StepsHead(steps);
      var rootless := RootlessText(steps) + last;
      RootlessBreaksRead(rootless, steps, s);
      if IsDotted(steps[0]) {
        Associate([DOT], RootlessText(steps), last);
        assert text == [DOT] + rootless && text[0] == DOT && path[1] == text[0];
        assert path[2..] == text[1..] == rootless;
      } else {
        assert [] + RootlessText(steps) == RootlessText(steps);
        assert text == rootless && text[0] == RootlessText(steps)[0] && path[1] == text[0];
      }
    }
  }

  lemma UnterminatedRead(path: Bytes)
    requires Unterminated(path)
    ensures ParseSpec(path) == Refused(UnterminatedKey)
  {
    hide PieceFrom, StepsText, CoreText, WfSteps, OpenBody;
    var steps, s :| WfSteps(steps) && OpenBody(s) &&
      (BreaksInRoot(path, steps, s) || (RootlessBreaksIn(path, steps, s) && (steps != [] ==> !StartsWithDollar(steps[0]))));
    if BreaksInRoot(path, steps, s) {
      RootBreaksRead(path, steps, s);
    } else {
      RootlessBreaksRead(path, steps, s);
      if steps != [] {
        NoDollar(steps);
        assert path[0] == RootlessText(steps)[0];
      }
    }
  }

  lemma FoundAtRoot(path: Bytes, piece: seq<Step>, steps: seq<Step>, s: Bytes)
    requires |path| >= 2 && path[0] == DOLLAR && path[1] == DOT && WfSteps(piece) && RootlessBreaksIn(path[2..], piece, s)
    requires steps == if piece == [] then [] else DottedSteps(piece)
    ensures WfSteps(steps) && BreaksInRoot(path, steps, s)
  {
    hide CoreText, OpenBody;
    assert path[1..] == [DOT] + path[2..];
    if piece == [] {
      NoSteps();
      assert [DOT] + ([QUOTE] + s) == [] + ([DOT, QUOTE] + s);
    } else {
      hide StepsText;
      DotFirst(piece);
      Associate([DOT], RootlessText(piece), [DOT, QUOTE] + s);
    }
  }

  lemma UnterminatedFound(path: Bytes)
    requires ParseSpec(path) == Refused(UnterminatedKey)
    ensures Unterminated(path)
  {
    hide PieceFrom, StepsText, CoreText, OpenBody;
    if path[0] != DOLLAR {
      var steps, s := PieceBreaks(path, 0);
      assert path[0..] == path;
      if steps != [] {
        FirstByte(steps);
      }
    } else if path[1] == DOT {
      var piece, s := PieceBreaks(path[2..], 0);
      assert path[2..][0..] == path[2..];
      var steps := if piece == [] then [] else DottedSteps(piece);
      FoundAtRoot(path, piece, steps, s);
    } else {
      var steps, s := PieceBreaks(path[1..], 0);
      assert path[1..][0..] == path[1..];
      StepsHead(steps);
      assert [] + RootlessText(steps) == RootlessText(steps);
      assert BreaksInRoot(path, steps, s);
    }
  }

  /** Why a path is refused: it is empty, or a key is not terminated, or, in every other case, it is malformed. */
  lemma RefusedExactly(path: Bytes, e: PathError)
    ensures ParseSpec(path) == Refused(e)
       <==> match e
            case EmptyPath => path == []
            case UnterminatedKey => Unterminated(path)
            case MalformedPath => path != [] && !Unterminated(path) && !ParseSpec(path).Parsed?
  {
    hide PieceFrom, StepsText, CoreText, WfSteps, OpenBody;
    if Unterminated(path) { UnterminatedRead(path); }
    if ParseSpec(path) == Refused(UnterminatedKey) { UnterminatedFound(path); }
    if path != [] { NeverEmpty(path); }
  }

  // ---- dot-joined escaped keys ----

  function QuotedSteps(names: Path): (steps: seq<Step>)
    ensures |steps| == |names| && forall k :: 0 <= k < |names| ==> steps[k] == Quoted(EscapeBody(names[k]))
  {
    if names == [] then [] else [Quoted(EscapeBody(names[0]))] + QuotedSteps(names[1..])
  }

  function DotJoined(names: Path): Bytes
    requires names != []
  {
    if |names| == 1 then Escaped(names[0]) else Escaped(names[0]) + ([DOT] + DotJoined(names[1..]))
  }

  lemma {:induction false} JoinedIsSteps(names: Path)
    requires names != []
    ensures [DOT] + DotJoined(names) == StepsText(QuotedSteps(names))
  {
    if |names| > 1 {
      JoinedIsSteps(names[1..]);
    } else {
      assert QuotedSteps(names[1..]) == [];
    }
    EscapedIs(names[0]);
  }

  lemma EscapedIs(s: Bytes)
    ensures Escaped(s) == [QUOTE] + (EscapeBody(s) + [QUOTE])
  {
  }

  lemma {:induction false} QuotedMeanings(names: Path)
    ensures WfSteps(QuotedSteps(names)) && Meanings(QuotedSteps(names)) == names
  {
    forall k | 0 <= k < |names| ensures WfStep(QuotedSteps(names)[k]) { EscapedIsBody(names[k]); }
    if names != [] {
      QuotedMeanings(names[1..]);
      EscapeRoundTrip(STRICT, names[0]);
    }
  }

  /** "$." and any non-empty list of dot-joined escaped keys parses to that list, whatever bytes the keys hold. */
  lemma EscapedPathRoundTrip(names: Path)
    requires names != []
    ensures ParseSpec([DOLLAR, DOT] + DotJoined(names)) == Parsed(names)
  {
    hide ParseSpec, StepsText, Meanings;
    QuotedMeanings(names);
    JoinedIsSteps(names);
    assert [DOLLAR, DOT] + DotJoined(names) == [DOLLAR] + ([DOT] + DotJoined(names));
    ParseRoundTrip([DOLLAR, DOT] + DotJoined(names), QuotedSteps(names));
  }
}
