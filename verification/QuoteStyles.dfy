/**
 * Single quotes. Where the configuration allows them they are as good as double quotes, on any bytes: exchange the two kinds
 * of quotes everywhere in a text and in a path, and every operation answers the same, with the quotes in it exchanged.
 */
module QuoteStyles {
  import opened Bytes
  import opened Strings
  import opened Escapes
  import opened Scanners
  import opened Syntax
  import opened Lookup
  import opened Containers

  function Swap(c: byte): byte {
    if c == '"' as int then '\'' as int else if c == '\'' as int then '"' as int else c
  }

  function Swapped(s: Bytes): (t: Bytes)
    ensures |t| == |s| && forall k :: 0 <= k < |s| ==> t[k] == Swap(s[k])
  {
    seq(|s|, k requires 0 <= k < |s| => Swap(s[k]))
  }

  function SwappedPath(p: Path): (q: Path)
    ensures |q| == |p| && forall k :: 0 <= k < |p| ==> q[k] == Swapped(p[k])
  {
    seq(|p|, k requires 0 <= k < |p| => Swapped(p[k]))
  }

  function SwappedOption(r: Option<Bytes>): Option<Bytes> {
    if r.Some? then Some(Swapped(r.value)) else None
  }

  lemma SwappedTwice(s: Bytes)
    ensures Swapped(Swapped(s)) == s
  {
  }

  lemma SwappedSame(s: Bytes, t: Bytes)
    ensures Swapped(s) == Swapped(t) <==> s == t
  {
    SwappedTwice(s);
    SwappedTwice(t);
  }

  lemma SwappedSlice(s: Bytes, i: nat, j: nat)
    requires i <= j <= |s|
    ensures Swapped(s)[i..j] == Swapped(s[i..j])
  {
  }

  lemma SwappedRest(s: Bytes, i: nat)
    requires i <= |s|
    ensures Swapped(s)[i..] == Swapped(s[i..])
  {
  }

  lemma SwappedConcat(a: Bytes, b: Bytes)
    ensures Swapped(a + b) == Swapped(a) + Swapped(b)
  {
  }

  lemma PathRest(p: Path, i: nat)
    requires i <= |p|
    ensures SwappedPath(p)[i..] == SwappedPath(p[i..])
  {
  }

  /** No byte but a quote is changed, and none becomes one. */
  lemma SwapKeeps(c: byte)
    ensures c != QUOTE && c != APOSTROPHE ==> Swap(c) == c
    ensures Swap(c) == QUOTE <==> c == APOSTROPHE
    ensures Swap(c) == APOSTROPHE <==> c == QUOTE
  {
  }

  // ---- scanners ----

  lemma {:induction false} NextTokSwapped(data: Bytes, i: nat)
    requires i <= |data|
    ensures NextTok(Swapped(data), i) == NextTok(data, i)
    decreases |data| - i
  {
    if i < |data| && IsSpace(data[i]) { NextTokSwapped(data, i + 1); }
  }

  lemma {:induction false} TokEndSwapped(data: Bytes, i: nat)
    requires i <= |data|
    ensures TokEnd(Swapped(data), i) == TokEnd(data, i)
    decreases |data| - i
  {
    if i < |data| && !EndsPrimitive(data[i]) { TokEndSwapped(data, i + 1); }
  }

  lemma {:induction false} StrEndSwapped(data: Bytes, i: nat, escaped: bool, quote: byte)
    requires i <= |data| && (quote == QUOTE || quote == APOSTROPHE)
    ensures StrEndFrom(Swapped(data), i, escaped, Swap(quote)) == StrEndFrom(data, i, escaped, quote)
    decreases |data| - i
  {
    if i < |data| {
      StrEndSwapped(data, i + 1, false, quote);
      StrEndSwapped(data, i + 1, true, quote);
    }
  }

  lemma {:induction false} BlockSwapped(cfg: Config, data: Bytes, i: nat, level: int, open: byte, close: byte)
    requires cfg.allowSingleQuotes && i <= |data| && IsBracketPair(open, close)
    ensures BlockFrom(cfg, Swapped(data), i, level, open, close) == BlockFrom(cfg, data, i, level, open, close)
    decreases |data| - i
  {
    hide StrEndFrom;
    if i < |data| {
      var c := data[i];
      if IsQuote(cfg, c) {
        StrEndSwapped(data, i + 1, false, c);
        var e := StrEnd(data, i + 1, c);
        if e != -1 { BlockSwapped(cfg, data, e, level, open, close); }
      } else {
        BlockSwapped(cfg, data, i + 1, level, open, close);
        BlockSwapped(cfg, data, i + 1, level + 1, open, close);
        BlockSwapped(cfg, data, i + 1, level - 1, open, close);
      }
    }
  }

  // ---- escapes ----

  /** No \u escape in the text denotes a quote: those are not exchanged. */
  predicate NoQuoteCode(s: Bytes) {
    forall k :: 0 <= k <= |s| - 6 && s[k] == BACKSLASH && s[k + 1] == LOWER_U ==>
      DecodeSingle(s[k..k + 6]) != Some(0x22) && DecodeSingle(s[k..k + 6]) != Some(0x27)
  }

  lemma NoQuoteSlice(s: Bytes, i: nat, j: nat)
    requires i <= j <= |s| && NoQuoteCode(s)
    ensures NoQuoteCode(s[i..j])
  {
    var t := s[i..j];
    forall k | 0 <= k <= |t| - 6 && t[k] == BACKSLASH && t[k + 1] == LOWER_U
      ensures DecodeSingle(t[k..k + 6]) != Some(0x22) && DecodeSingle(t[k..k + 6]) != Some(0x27)
    {
      SliceOfSlice(s, i, j, k, k + 6);
      assert t[k] == s[i + k] && t[k + 1] == s[i + k + 1];
    }
  }

  lemma SliceOfSlice(s: Bytes, i: nat, j: nat, a: nat, b: nat)
    requires i <= j <= |s| && a <= b <= j - i
    ensures s[i..j][a..b] == s[i + a..i + b]
  {
    var x, y := s[i..j][a..b], s[i + a..i + b];
    forall k | 0 <= k < |x| ensures x[k] == y[k] { assert s[i..j][a + k] == s[i + (a + k)]; }
  }

  lemma HexSwapped(c: byte)
    ensures H2I(Swap(c)) == H2I(c)
  {
  }

  lemma SingleSwapped(s: Bytes)
    ensures DecodeSingle(Swapped(s)) == DecodeSingle(s)
  {
    hide H2I;
    forall c: byte { HexSwapped(c); }
  }

  lemma UnicodeSwapped(s: Bytes)
    ensures DecodeUnicode(Swapped(s)) == DecodeUnicode(s)
  {
    hide DecodeSingle;
    SingleSwapped(s);
    if |s| >= 6 {
      SwappedRest(s, 6);
      SingleSwapped(s[6..]);
    }
  }

  lemma RuneSwapped(r: int)
    requires r != 0x22 && r != 0x27
    ensures Swapped(EncodeRune(r)) == EncodeRune(r)
  {
  }

  lemma CodeIsNoQuote(s: Bytes)
    requires NoQuoteCode(s) && |s| >= 2 && s[0] == BACKSLASH && s[1] == LOWER_U && DecodeUnicode(s).1 != -1
    ensures DecodeUnicode(s).0 != 0x22 && DecodeUnicode(s).0 != 0x27
  {
    hide H2I;
    assert s[0..6][2] == s[2] && s[0..6][3] == s[3] && s[0..6][4] == s[4] && s[0..6][5] == s[5];
    assert DecodeSingle(s[0..6]) == DecodeSingle(s);
  }

  lemma SwappedOne(c: byte)
    ensures Swapped([c]) == [Swap(c)]
  {
  }

  /** One escape stands for the exchanged byte. */
  lemma OneSwapped(cfg: Config, s: Bytes)
    requires cfg.allowSingleQuotes && NoQuoteCode(s)
    ensures match UnescapeOne(cfg, s)
            case None => UnescapeOne(cfg, Swapped(s)) == None
            case Some((n, o)) => UnescapeOne(cfg, Swapped(s)) == Some((n, Swapped(o)))
  {
    hide DecodeUnicode, EncodeRune, NoQuoteCode;
    if |s| >= 2 && s[0] == BACKSLASH {
      var t := Swapped(s);
      assert t[0] == BACKSLASH && t[1] == Swap(s[1]);
      SwappedOne(s[1]);
      if SimpleEscape(s[1]).Some? { SwappedOne(SimpleEscape(s[1]).value); }
      UnicodeSwapped(s);
      if s[1] == LOWER_U && DecodeUnicode(s).1 != -1 {
        CodeIsNoQuote(s);
        RuneSwapped(DecodeUnicode(s).0);
      }
    }
  }

  lemma {:induction false} UnescapedSwapped(cfg: Config, s: Bytes)
    requires cfg.allowSingleQuotes && NoQuoteCode(s)
    ensures Unescaped(cfg, Swapped(s)) == SwappedOption(Unescaped(cfg, s))
    decreases |s|
  {
    hide UnescapeOne, NoQuoteCode;
    if s == [] {
      assert Swapped(s) == [];
    } else {
      OneSwapped(cfg, s);
      var n := if s[0] != BACKSLASH then 1 else if UnescapeOne(cfg, s).Some? then UnescapeOne(cfg, s).value.0 else 0;
      if n > 0 {
        var o := if s[0] != BACKSLASH then [s[0]] else UnescapeOne(cfg, s).value.1;
        SwappedRest(s, n);
        NoQuoteSlice(s, n, |s|);
        assert s[n..|s|] == s[n..];
        UnescapedSwapped(cfg, s[n..]);
        if Unescaped(cfg, s[n..]).Some? { SwappedConcat(o, Unescaped(cfg, s[n..]).value); }
        assert s[0] != BACKSLASH ==> Swapped([s[0]]) == [Swap(s[0])];
      }
    }
  }

  // ---- values ----

  lemma TypeSwapped(cfg: Config, data: Bytes, i: nat)
    requires cfg.allowSingleQuotes && i < |data|
    ensures TypeAt(cfg, Swapped(data), i) == TypeAt(cfg, data, i)
  {
    hide StrEndFrom, BlockFrom, TokEnd;
    var c := data[i];
    if IsQuote(cfg, c) {
      StrEndSwapped(data, i + 1, false, c);
    } else {
      BlockSwapped(cfg, data, i, 0, LBRACKET, RBRACKET);
      BlockSwapped(cfg, data, i, 0, LBRACE, RBRACE);
      TokEndSwapped(data, i);
      var end := TokEnd(data, i);
      SwappedSlice(data, i, end);
      WordsSwapped(data[i..end]);
    }
  }

  lemma WordsSwapped(s: Bytes)
    ensures Swapped(s) == TRUE <==> s == TRUE
    ensures Swapped(s) == FALSE <==> s == FALSE
    ensures Swapped(s) == NULL <==> s == NULL
  {
    assert Swapped(TRUE) == TRUE && Swapped(FALSE) == FALSE && Swapped(NULL) == NULL;
    SwappedSame(s, TRUE);
    SwappedSame(s, FALSE);
    SwappedSame(s, NULL);
  }

  function SwappedGot(g: Got): Got { g.(value := Swapped(g.value)) }

  lemma GetSwapped(cfg: Config, data: Bytes, i: nat)
    requires cfg.allowSingleQuotes && i <= |data|
    ensures GetFrom(cfg, Swapped(data), i) == SwappedGot(GetFrom(cfg, data, i))
  {
    hide TypeAt, NextTok, IsSpace, Swapped, Swap;
    NextTokSwapped(data, i);
    var n := NextTok(data, i);
    assert Swapped([]) == [];
    if n != -1 {
      TypeSwapped(cfg, data, n);
      var r := TypeAt(cfg, data, n);
      SwappedSlice(data, n, r.end);
      if r.t == String && r.err.None? { SwappedSlice(data, n + 1, r.end - 1); }
    }
  }

  function SwappedEvent(ev: Event): Event { ev.(value := Swapped(ev.value)) }

  function SwappedEach(r: Each): (q: Each)
    ensures |q.events| == |r.events| && forall k :: 0 <= k < |r.events| ==> q.events[k] == SwappedEvent(r.events[k])
  {
    r.(events := seq(|r.events|, k requires 0 <= k < |r.events| => SwappedEvent(r.events[k])))
  }

  lemma EachOneSwapped(ev: Event, r: Each)
    ensures SwappedEach(Each([ev], r.off, r.err)) == Each([SwappedEvent(ev)], r.off, r.err)
    ensures SwappedEach(r.(events := [ev] + r.events)) == SwappedEach(r).(events := [SwappedEvent(ev)] + SwappedEach(r).events)
    ensures SwappedEach(Each([], r.off, r.err)) == Each([], r.off, r.err)
  {
  }

  lemma NothingBefore(r: Each)
    ensures Lookup.After([], r) == r
  {
    assert [] + r.events == r.events;
  }

  lemma {:induction false} EachSwapped(cfg: Config, data: Bytes, i: nat)
    requires cfg.allowSingleQuotes && 1 <= i <= |data|
    ensures EachFrom(cfg, Swapped(data), i) == SwappedEach(EachFrom(cfg, data, i))
    decreases |data| - i
  {
    hide GetFrom, NextTok, EachFrom, SwappedEach, Swapped;
    var t := Swapped(data);
    GetSwapped(cfg, data, i);
    var g := GetFrom(cfg, data, i);
    var ev := ElementEvent(g, i);
    assert ElementEvent(GetFrom(cfg, t, i), i) == SwappedEvent(ev);
    EachLast(cfg, data, i, []);
    EachLast(cfg, t, i, []);
    NothingBefore(EachFrom(cfg, data, i));
    NothingBefore(EachFrom(cfg, t, i));
    assert [] + [ev] == [ev] && [] + [SwappedEvent(ev)] == [SwappedEvent(ev)];
    if g.end == i || g.err.Some? {
      EachOneSwapped(ev, Each([], i, g.err));
    } else {
      NextTokSwapped(data, g.end);
      var n := NextTok(data, g.end);
      if n == -1 {
        EachOneSwapped(ev, Each([], g.end, Some(MalformedArray)));
      } else {
        ByteSwapped(data, n);
        EachOneSwapped(ev, Each([], n, if data[n] == RBRACKET then None else Some(MalformedArray)));
        if data[n] == COMMA {
          EachStep(cfg, data, i, []);
          EachStep(cfg, t, i, []);
          EachSwapped(cfg, data, n + 1);
          EachOneSwapped(ev, EachFrom(cfg, data, n + 1));
        }
      }
    }
  }

  lemma ByteSwapped(data: Bytes, n: nat)
    requires n < |data|
    ensures Swapped(data)[n] == COMMA <==> data[n] == COMMA
    ensures Swapped(data)[n] == RBRACKET <==> data[n] == RBRACKET
  {
  }

  lemma InsideSwapped(cfg: Config, data: Bytes, i: nat)
    requires cfg.allowSingleQuotes && 1 <= i <= |data|
    ensures EachInside(cfg, Swapped(data), i) == SwappedEach(EachInside(cfg, data, i))
  {
    hide NextTok, EachFrom;
    NextTokSwapped(data, i);
    if NextTok(data, i) != -1 { EachSwapped(cfg, data, NextTok(data, i)); }
  }

  lemma RootSwapped(cfg: Config, data: Bytes)
    requires cfg.allowSingleQuotes
    ensures EachRoot(cfg, Swapped(data)) == SwappedEach(EachRoot(cfg, data))
  {
    hide NextTok, EachInside;
    if data == [] {
      assert Swapped(data) == [];
    } else {
      NextTokSwapped(data, 0);
      if NextTok(data, 0) != -1 { InsideSwapped(cfg, data, NextTok(data, 0) + 1); }
    }
  }

  // ---- the search ----

  lemma PickedSwapped(arr: Bytes, r: Each, index: int)
    requires forall k :: 0 <= k < |r.events| ==> EventFits(arr, r.events[k])
    ensures forall k :: 0 <= k < |r.events| ==> EventFits(Swapped(arr), SwappedEach(r).events[k])
    ensures match Picked(arr, r.events, index)
            case None => Picked(Swapped(arr), SwappedEach(r).events, index) == None
            case Some((value, off)) => Picked(Swapped(arr), SwappedEach(r).events, index) == Some((Swapped(value), off))
  {
    if 0 <= index < |r.events| {
      var ev := r.events[index];
      assert EventFits(arr, ev);
      if ev.t == String { SwappedSlice(arr, ev.off - 2, ev.off + |ev.value|); }
    }
  }

  lemma AtoiSwapped(s: Bytes)
    ensures Atoi(Swapped(s)) == Atoi(s)
  {
    var t := Swapped(s);
    if s != [] {
      SwappedRest(s, 1);
      DigitsSwapped(s[1..]);
    }
    DigitsSwapped(s);
  }

  lemma DigitsSwapped(s: Bytes)
    ensures AllDigits(Swapped(s)) <==> AllDigits(s)
    ensures AllDigits(s) ==> Swapped(s) == s
  {
    if AllDigits(Swapped(s)) {
      forall k | 0 <= k < |s| ensures IsDigit(s[k]) { assert IsDigit(Swapped(s)[k]); }
    }
  }

  lemma IndexSwapped(cfg: Config, arr: Bytes, key: Bytes, rest: Path, base: nat)
    requires cfg.allowSingleQuotes && NoQuoteCode(arr)
    requires forall value: Bytes :: NoQuoteCode(value) && |value| <= |arr| ==>
               SearchKeysSpec(cfg, Swapped(value), SwappedPath(rest)) == SearchKeysSpec(cfg, value, rest)
    ensures SearchIndex(cfg, Swapped(arr), Swapped(key), SwappedPath(rest), base) == SearchIndex(cfg, arr, key, rest, base)
  {
    hide SearchKeysSpec, EachRoot, Atoi, NoQuoteCode, SwappedPath, SwappedEach, Picked;
    if |key| >= 3 && key[|key| - 1] == RBRACKET {
      var s := key[1..|key| - 1];
      SwappedSlice(key, 1, |key| - 1);
      AtoiSwapped(s);
      RootSwapped(cfg, arr);
      if Atoi(s).Some? {
        PickedSwapped(arr, EachRoot(cfg, arr), Atoi(s).value);
        var picked := Picked(arr, EachRoot(cfg, arr).events, Atoi(s).value);
        if picked.Some? { PickedClean(cfg, arr, Atoi(s).value); }
      }
    }
  }

  predicate CleanEvents(r: Each, n: nat) {
    forall k :: 0 <= k < |r.events| ==> NoQuoteCode(r.events[k].value) && |r.events[k].value| <= n
  }

  /** The bytes of a callback are bytes of the text. */
  lemma {:induction false} EachClean(cfg: Config, data: Bytes, i: nat)
    requires NoQuoteCode(data) && 1 <= i <= |data|
    ensures CleanEvents(EachFrom(cfg, data, i), |data|)
    decreases |data| - i
  {
    hide GetFrom, NextTok, NoQuoteCode;
    var g := GetFrom(cfg, data, i);
    GotClean(cfg, data, i);
    if g.err.None? && NextTok(data, g.end) != -1 && data[NextTok(data, g.end)] == COMMA { EachClean(cfg, data, NextTok(data, g.end) + 1); }
  }

  lemma GotClean(cfg: Config, data: Bytes, i: nat)
    requires NoQuoteCode(data) && i <= |data|
    ensures NoQuoteCode(GetFrom(cfg, data, i).value) && |GetFrom(cfg, data, i).value| <= |data|
  {
    hide GetFrom, NoQuoteCode;
    NoQuoteSlice(data, 0, 0);
    assert data[0..0] == [];
    var g := GetFrom(cfg, data, i);
    if g.err.None? {
      if g.t == String { NoQuoteSlice(data, g.off + 1, g.end - 1); } else { NoQuoteSlice(data, g.off, g.end); }
    }
  }

  /** The bytes of an element are bytes of the array. */
  lemma PickedClean(cfg: Config, arr: Bytes, index: int)
    requires NoQuoteCode(arr) && Picked(arr, EachRoot(cfg, arr).events, index).Some?
    ensures var (value, off) := Picked(arr, EachRoot(cfg, arr).events, index).value; NoQuoteCode(value) && |value| <= |arr|
  {
    hide EachFrom, NoQuoteCode;
    var n := NextTok(arr, 0);
    assert 0 <= n < |arr|;
    var m := NextTok(arr, n + 1);
    if m != -1 && arr[m] != RBRACKET { EachClean(cfg, arr, m); }
    var ev := EachRoot(cfg, arr).events[index];
    assert EventFits(arr, ev);
    if ev.t == String { NoQuoteSlice(arr, ev.off - 2, ev.off + |ev.value|); }
  }

  // ---- the search machine ----

  lemma ScanSwapped(cfg: Config, data: Bytes, i: nat)
    requires cfg.allowSingleQuotes && NoQuoteCode(data) && i < |data| && IsQuote(cfg, data[i])
    ensures match KeyScanAt(cfg, data, i)
            case KeyAt(k, n) => KeyScanAt(cfg, Swapped(data), i) == KeyAt(Swapped(k), n)
            case r => KeyScanAt(cfg, Swapped(data), i) == r
  {
    hide StrEndFrom, NextTok, Unescaped, NoQuoteCode;
    StrEndSwapped(data, i + 1, false, data[i]);
    var e := StrEnd(data, i + 1, data[i]);
    if e != -1 {
      NextTokSwapped(data, e);
      NoQuoteSlice(data, i + 1, e - 1);
      SwappedSlice(data, i + 1, e - 1);
      UnescapedSwapped(cfg, data[i + 1..e - 1]);
    }
  }

  lemma {:induction false} RunSwapped(cfg: Config, data: Bytes, keys: Path, i: nat, level: int, keyLevel: int, lastMatched: bool)
    requires cfg.allowSingleQuotes && NoQuoteCode(data) && i <= |data| && SafeLevels(level, keyLevel, |keys|)
    ensures SearchRun(cfg, Swapped(data), SwappedPath(keys), i, level, keyLevel, lastMatched)
         == SearchRun(cfg, data, keys, i, level, keyLevel, lastMatched)
    decreases |keys|, |data| - i
  {
    hide SearchRun, SearchIndex, KeyScanAt, BlockEndAt, NoQuoteCode;
    var t, ks := Swapped(data), SwappedPath(keys);
    if i == |data| {
      StepEnd(cfg, data, keys, level, keyLevel, lastMatched);
      StepEnd(cfg, t, ks, level, keyLevel, lastMatched);
    } else {
      var c := data[i];
      SwapKeeps(c);
      assert t[i] == Swap(c);
      if IsQuote(cfg, c) {
        KeySwapped(cfg, data, keys, i, level, keyLevel, lastMatched);
      } else if c == LBRACE || c == RBRACE {
        BraceSwapped(cfg, data, keys, i, level, keyLevel, lastMatched);
      } else if c == LBRACKET {
        BracketSwapped(cfg, data, keys, i, level, keyLevel, lastMatched);
      } else {
        StepOther(cfg, data, keys, i, level, keyLevel, lastMatched);
        StepOther(cfg, t, ks, i, level, keyLevel, lastMatched);
        if c != COLON { RunSwapped(cfg, data, keys, i + 1, level, keyLevel, lastMatched); }
      }
    }
  }

  lemma {:induction false} KeySwapped(cfg: Config, data: Bytes, keys: Path, i: nat, level: int, keyLevel: int, lastMatched: bool)
    requires cfg.allowSingleQuotes && NoQuoteCode(data) && i < |data| && SafeLevels(level, keyLevel, |keys|) && IsQuote(cfg, data[i])
    ensures SearchRun(cfg, Swapped(data), SwappedPath(keys), i, level, keyLevel, lastMatched)
         == SearchRun(cfg, data, keys, i, level, keyLevel, lastMatched)
    decreases |keys|, |data| - i, 0
  {
    hide SearchRun, KeyScanAt, NoQuoteCode;
    var t, ks := Swapped(data), SwappedPath(keys);
    StepKey(cfg, data, keys, i, level, keyLevel, lastMatched);
    StepKey(cfg, t, ks, i, level, keyLevel, lastMatched);
    ScanSwapped(cfg, data, i);
    match KeyScanAt(cfg, data, i)
    case Stop =>
    case NotKey(n) => RunSwapped(cfg, data, keys, n, level, keyLevel, lastMatched);
    case KeyAt(k, n) =>
      if 1 <= level <= |keys| {
        var matched := k == keys[level - 1];
        SwappedSame(k, keys[level - 1]);
        if !(matched && keyLevel == level - 1 && level == |keys|) {
          RunSwapped(cfg, data, keys, n + 1, level, if matched && keyLevel == level - 1 then level else keyLevel, matched);
        }
      }
  }

  lemma {:induction false} BraceSwapped(cfg: Config, data: Bytes, keys: Path, i: nat, level: int, keyLevel: int, lastMatched: bool)
    requires cfg.allowSingleQuotes && NoQuoteCode(data) && i < |data| && SafeLevels(level, keyLevel, |keys|)
    requires data[i] == LBRACE || data[i] == RBRACE
    ensures SearchRun(cfg, Swapped(data), SwappedPath(keys), i, level, keyLevel, lastMatched)
         == SearchRun(cfg, data, keys, i, level, keyLevel, lastMatched)
    decreases |keys|, |data| - i, 0
  {
    hide SearchRun, NoQuoteCode, BlockFrom;
    var t, ks := Swapped(data), SwappedPath(keys);
    StepBrace(cfg, data, keys, i, level, keyLevel, lastMatched);
    StepBrace(cfg, t, ks, i, level, keyLevel, lastMatched);
    if data[i] == RBRACE {
      RunSwapped(cfg, data, keys, i + 1, level - 1, if level - 1 == keyLevel then keyLevel - 1 else keyLevel, lastMatched);
    } else if lastMatched {
      RunSwapped(cfg, data, keys, i + 1, level + 1, keyLevel, lastMatched);
    } else {
      BlockSwapped(cfg, data, i, 0, LBRACE, RBRACE);
      var end := BlockEndAt(cfg, data, i, LBRACE, RBRACE);
      if end != -1 { RunSwapped(cfg, data, keys, end, level, keyLevel, lastMatched); }
    }
  }

  lemma {:induction false} BracketSwapped(cfg: Config, data: Bytes, keys: Path, i: nat, level: int, keyLevel: int, lastMatched: bool)
    requires cfg.allowSingleQuotes && NoQuoteCode(data) && i < |data| && SafeLevels(level, keyLevel, |keys|) && data[i] == LBRACKET
    ensures SearchRun(cfg, Swapped(data), SwappedPath(keys), i, level, keyLevel, lastMatched)
         == SearchRun(cfg, data, keys, i, level, keyLevel, lastMatched)
    decreases |keys|, |data| - i, 0
  {
    hide SearchRun, SearchIndex, NoQuoteCode, BlockFrom;
    var t, ks := Swapped(data), SwappedPath(keys);
    StepBracket(cfg, data, keys, i, level, keyLevel, lastMatched);
    StepBracket(cfg, t, ks, i, level, keyLevel, lastMatched);
    if keyLevel == level && IsIndexKey(keys[level]) {
      var arr, rest := data[i..], keys[level + 1..];
      assert data[i..|data|] == arr;
      NoQuoteSlice(data, i, |data|);
      SwappedRest(data, i);
      PathRest(keys, level + 1);
      forall value: Bytes | NoQuoteCode(value) && |value| <= |arr|
        ensures SearchKeysSpec(cfg, Swapped(value), SwappedPath(rest)) == SearchKeysSpec(cfg, value, rest)
      {
        KeysSwapped(cfg, value, rest);
      }
      IndexSwapped(cfg, arr, keys[level], rest, i);
    } else {
      BlockSwapped(cfg, data, i, 0, LBRACKET, RBRACKET);
      var end := BlockEndAt(cfg, data, i, LBRACKET, RBRACKET);
      if end != -1 { RunSwapped(cfg, data, keys, end, level, keyLevel, lastMatched); }
    }
  }

  /** The search for an exchanged path in an exchanged text ends at the same offset. */
  lemma {:induction false} KeysSwapped(cfg: Config, data: Bytes, keys: Path)
    requires cfg.allowSingleQuotes && NoQuoteCode(data)
    ensures SearchKeysSpec(cfg, Swapped(data), SwappedPath(keys)) == SearchKeysSpec(cfg, data, keys)
    decreases |keys|, |data| + 1
  {
    hide SearchRun, NoQuoteCode;
    if keys != [] { RunSwapped(cfg, data, keys, 0, 0, 0, true); }
  }

  // ---- the operations ----

  /** Get: same type, offsets and error, and the value with its quotes exchanged. */
  lemma GetEitherWay(cfg: Config, data: Bytes, keys: Path)
    requires cfg.allowSingleQuotes && NoQuoteCode(data)
    ensures GetSpec(cfg, Swapped(data), SwappedPath(keys)) == SwappedGot(GetSpec(cfg, data, keys))
  {
    hide SearchKeysSpec, GetFrom, NoQuoteCode;
    KeysSwapped(cfg, data, keys);
    assert Swapped([]) == [];
    var r := SearchKeysSpec(cfg, data, keys);
    GetSwapped(cfg, data, if keys == [] || r == -1 then 0 else r);
  }

  /** ArrayEach: the same callbacks, offset and error, but for the quotes in the values. */
  lemma EachEitherWay(cfg: Config, data: Bytes, keys: Path)
    requires cfg.allowSingleQuotes && NoQuoteCode(data)
    ensures EachSpec(cfg, Swapped(data), SwappedPath(keys)) == SwappedEach(EachSpec(cfg, data, keys))
  {
    hide SearchKeysSpec, EachInside, EachRoot, NoQuoteCode, NextTok;
    KeysSwapped(cfg, data, keys);
    RootSwapped(cfg, data);
    var r := SearchKeysSpec(cfg, data, keys);
    if data != [] {
      NextTokSwapped(data, 0);
      if r != -1 {
        NextTokSwapped(data, r);
        if NextTok(data, r) != -1 { InsideSwapped(cfg, data, NextTok(data, r) + 1); }
      }
    }
  }

  // ---- ObjectEach ----

  function SwappedMember(ev: MemberEvent): MemberEvent { ev.(key := Swapped(ev.key), value := Swapped(ev.value)) }

  function SwappedMembers(r: Members): (q: Members)
    ensures |q.events| == |r.events| && forall k :: 0 <= k < |r.events| ==> q.events[k] == SwappedMember(r.events[k])
  {
    r.(events := seq(|r.events|, k requires 0 <= k < |r.events| => SwappedMember(r.events[k])))
  }

  lemma MemberOneSwapped(ev: MemberEvent, r: Members)
    ensures SwappedMembers(Members([ev], r.err)) == Members([SwappedMember(ev)], r.err)
    ensures SwappedMembers(Containers.Later([ev], r)) == Containers.Later([SwappedMember(ev)], SwappedMembers(r))
    ensures SwappedMembers(Members([], r.err)) == Members([], r.err)
  {
  }

  lemma KeyReadSwapped(cfg: Config, data: Bytes, i: nat)
    requires cfg.allowSingleQuotes && NoQuoteCode(data) && i < |data|
    ensures match KeyReadAt(cfg, data, i)
            case KeyRead(key, at) => KeyReadAt(cfg, Swapped(data), i) == KeyRead(Swapped(key), at)
            case r => KeyReadAt(cfg, Swapped(data), i) == r
  {
    hide StrEndFrom, NextTok, Unescaped, NoQuoteCode;
    if IsQuote(cfg, data[i]) {
      StrEndSwapped(data, i + 1, false, data[i]);
      var e := StrEnd(data, i + 1, data[i]);
      if e != -1 {
        NextTokSwapped(data, e);
        NoQuoteSlice(data, i + 1, e - 1);
        SwappedSlice(data, i + 1, e - 1);
        UnescapedSwapped(cfg, data[i + 1..e - 1]);
      }
    }
  }

  lemma AfterSwapped(data: Bytes, i: nat)
    requires i <= |data|
    ensures AfterMember(Swapped(data), i) == AfterMember(data, i)
  {
    hide NextTok;
    NextTokSwapped(data, i);
    var m := NextTok(data, i);
    if m != -1 { NextTokSwapped(data, m + 1); }
  }

  lemma {:induction false} MembersSwapped(cfg: Config, data: Bytes, i: nat)
    requires cfg.allowSingleQuotes && NoQuoteCode(data) && i < |data|
    ensures MembersFrom(cfg, Swapped(data), i) == SwappedMembers(MembersFrom(cfg, data, i))
    decreases |data| - i
  {
    hide KeyReadAt, GetFrom, AfterMember, SwappedMembers, NoQuoteCode, Containers.Later;
    var t := Swapped(data);
    var none := MemberEvent([], [], Unknown, 0);
    MemberOneSwapped(none, Members([], None));
    KeyReadSwapped(cfg, data, i);
    match KeyReadAt(cfg, data, i)
    case KeyError(e) => MemberOneSwapped(none, Members([], Some(e)));
    case KeyRead(key, at) =>
      GetSwapped(cfg, data, at);
      var g := GetFrom(cfg, data, at);
      var ev := MemberEvent(key, g.value, g.t, g.end);
      MemberOneSwapped(ev, Members([], g.err));
      if g.err.None? {
        AfterSwapped(data, g.end);
        match AfterMember(data, g.end) {
          case Done(err) => MemberOneSwapped(ev, Members([], err));
          case NextMember(p) =>
            MembersSwapped(cfg, data, p);
            MemberOneSwapped(ev, MembersFrom(cfg, data, p));
        }
      }
  }

  /** ObjectEach: the same callbacks and error, but for the quotes in the names and values. */
  lemma MembersEitherWay(cfg: Config, data: Bytes, keys: Path)
    requires cfg.allowSingleQuotes && NoQuoteCode(data)
    ensures MembersSpec(cfg, Swapped(data), SwappedPath(keys)) == SwappedMembers(MembersSpec(cfg, data, keys))
  {
    hide SearchKeysSpec, MembersFrom, NoQuoteCode, NextTok, SwappedMembers;
    KeysSwapped(cfg, data, keys);
    var none := MemberEvent([], [], Unknown, 0);
    MemberOneSwapped(none, Members([], Some(KeyPathNotFound)));
    MemberOneSwapped(none, Members([], Some(MalformedObject)));
    MemberOneSwapped(none, Members([], Some(MalformedJson)));
    var r := SearchKeysSpec(cfg, data, keys);
    if r != -1 {
      NextTokSwapped(data, r);
      var n := NextTok(data, r);
      if n != -1 {
        NextTokSwapped(data, n + 1);
        if NextTok(data, n + 1) != -1 { MembersSwapped(cfg, data, NextTok(data, n + 1)); }
      }
    }
  }
}
