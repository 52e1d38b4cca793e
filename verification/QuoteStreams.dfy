/** Single quotes in the streaming parser, and in documents. */
module QuoteStreams {
  import opened Bytes
  import opened Strings
  import opened Escapes
  import opened Scanners
  import opened Syntax
  import opened Blocks
  import opened Lookup
  import opened TreeLookup
  import opened MixedPaths
  import opened Growth
  import opened Streams
  import opened QuoteStyles

  function SwappedAnswer(a: Answer): Answer { a.(value := Swapped(a.value)) }

  lemma {:induction false} StackSwapped(cfg: Config, data: Bytes, i: nat, stack: seq<byte>)
    requires cfg.allowSingleQuotes && i <= |data|
    ensures StackFrom(cfg, Swapped(data), i, stack) == StackFrom(cfg, data, i, stack)
    decreases |data| - i
  {
    hide StrEndFrom;
    if stack != [] && i < |data| {
      var c := data[i];
      SwapKeeps(c);
      if IsQuote(cfg, c) {
        StrEndSwapped(data, i + 1, false, c);
        if StrEnd(data, i + 1, c) != -1 { StackSwapped(cfg, data, StrEnd(data, i + 1, c), stack); }
      } else if c == LBRACE {
        StackSwapped(cfg, data, i + 1, stack + [RBRACE]);
      } else if c == LBRACKET {
        StackSwapped(cfg, data, i + 1, stack + [RBRACKET]);
      } else if c == RBRACE || c == RBRACKET {
        if c == stack[|stack| - 1] { StackSwapped(cfg, data, i + 1, stack[..|stack| - 1]); }
      } else {
        StackSwapped(cfg, data, i + 1, stack);
      }
    }
  }

  lemma ValueEndSwapped(cfg: Config, data: Bytes, final: ReadError, p: nat)
    requires cfg.allowSingleQuotes && p < |data|
    ensures ValueEnd(cfg, Swapped(data), final, p) == ValueEnd(cfg, data, final, p)
  {
    hide StrEndFrom, StackFrom, TokEnd;
    var c := data[p];
    SwapKeeps(c);
    if IsQuote(cfg, c) {
      StrEndSwapped(data, p + 1, false, c);
    } else if c == LBRACKET || c == LBRACE {
      StackSwapped(cfg, data, p + 1, [if c == LBRACKET then RBRACKET else RBRACE]);
    } else {
      TokEndSwapped(data, p);
    }
  }

  lemma SeparatorSwapped(data: Bytes, final: ReadError, p: nat, close: byte, e: Error)
    requires p <= |data| && close != QUOTE && close != APOSTROPHE
    ensures SeparatorAt(Swapped(data), final, p, close, e) == SeparatorAt(data, final, p, close, e)
  {
    hide NextTok, IsSpace, Swapped, Swap;
    NextTokSwapped(data, p);
    var n := NextTok(data, p);
    if n != -1 {
      SwapKeeps(data[n]);
      NextTokSwapped(data, n + 1);
      if NextTok(data, n + 1) != -1 { SwapKeeps(data[NextTok(data, n + 1)]); }
    }
  }

  lemma NameSwapped(cfg: Config, data: Bytes, final: ReadError, p: nat)
    requires cfg.allowSingleQuotes && NoQuoteCode(data) && p < |data|
    ensures match NameAt(cfg, data, final, p)
            case Named(name, at) => NameAt(cfg, Swapped(data), final, p) == Named(Swapped(name), at)
            case r => NameAt(cfg, Swapped(data), final, p) == r
  {
    hide StrEndFrom, Unescaped, NoQuoteCode;
    if IsQuote(cfg, data[p]) {
      StrEndSwapped(data, p + 1, false, data[p]);
      var e := StrEnd(data, p + 1, data[p]);
      if e != -1 {
        NoQuoteSlice(data, p + 1, e - 1);
        SwappedSlice(data, p + 1, e - 1);
        UnescapedSwapped(cfg, data[p + 1..e - 1]);
      }
    }
  }

  lemma ColonSwapped(cfg: Config, data: Bytes, final: ReadError, p: nat)
    requires cfg.allowSingleQuotes && NoQuoteCode(data) && p < |data|
    ensures match ColonAt(cfg, data, final, p)
            case Named(name, at) => ColonAt(cfg, Swapped(data), final, p) == Named(Swapped(name), at)
            case r => ColonAt(cfg, Swapped(data), final, p) == r
  {
    hide NameAt, NextTok, NoQuoteCode;
    NameSwapped(cfg, data, final, p);
    var r := NameAt(cfg, data, final, p);
    if r.Named? { NextTokSwapped(data, r.at); }
  }

  lemma PassSwapped(cfg: Config, data: Bytes, final: ReadError, p: nat)
    requires cfg.allowSingleQuotes && p <= |data|
    ensures PassValue(cfg, Swapped(data), final, p) == PassValue(cfg, data, final, p)
    ensures p < |data| ==> PassElement(cfg, Swapped(data), final, p) == PassElement(cfg, data, final, p)
  {
    hide ValueEnd, NextTok;
    NextTokSwapped(data, p);
    if NextTok(data, p) != -1 { ValueEndSwapped(cfg, data, final, NextTok(data, p)); }
    if p < |data| { ValueEndSwapped(cfg, data, final, p); }
  }

  lemma IndexOfSwapped(k: Bytes)
    ensures IndexOf(Swapped(k)) == IndexOf(k)
  {
    hide Atoi;
    if |k| >= 3 {
      SwappedSlice(k, 1, |k| - 1);
      AtoiSwapped(k[1..|k| - 1]);
    }
  }

  lemma {:induction false} FindSwapped(cfg: Config, data: Bytes, final: ReadError, keys: Path, p: nat)
    requires cfg.allowSingleQuotes && NoQuoteCode(data) && p <= |data|
    ensures FindValue(cfg, Swapped(data), final, SwappedPath(keys), p) == FindValue(cfg, data, final, keys, p)
    decreases |data| - p, 1
  {
    hide ValueEnd, NextTok, FindInObject, FindInArray, IndexOf, NoQuoteCode;
    NextTokSwapped(data, p);
    var n := NextTok(data, p);
    if n != -1 {
      SwapKeeps(data[n]);
      ValueEndSwapped(cfg, data, final, n);
      if keys != [] {
        IndexOfSwapped(keys[0]);
        FindInside(cfg, data, final, keys, n + 1);
      }
    }
  }

  lemma {:induction false} FindInside(cfg: Config, data: Bytes, final: ReadError, keys: Path, p: nat)
    requires cfg.allowSingleQuotes && NoQuoteCode(data) && p <= |data| && keys != []
    ensures IndexOf(Swapped(keys[0])) == IndexOf(keys[0])
    ensures FindInObject(cfg, Swapped(data), final, SwappedPath(keys), p) == FindInObject(cfg, data, final, keys, p)
    ensures IndexOf(keys[0]).Some? ==>
              FindInArray(cfg, Swapped(data), final, SwappedPath(keys), p) == FindInArray(cfg, data, final, keys, p)
    decreases |data| - p, 3
  {
    hide NextTok, FindMember, FindElement, IndexOf, NoQuoteCode;
    IndexOfSwapped(keys[0]);
    NextTokSwapped(data, p);
    var n := NextTok(data, p);
    if n != -1 {
      SwapKeeps(data[n]);
      MemberFound(cfg, data, final, keys, n);
      if IndexOf(keys[0]).Some? { ElementFound(cfg, data, final, keys, n, 0); }
    }
  }

  lemma {:induction false} MemberFound(cfg: Config, data: Bytes, final: ReadError, keys: Path, p: nat)
    requires cfg.allowSingleQuotes && NoQuoteCode(data) && p < |data| && keys != []
    ensures FindMember(cfg, Swapped(data), final, SwappedPath(keys), p) == FindMember(cfg, data, final, keys, p)
    decreases |data| - p, 0
  {
    hide ColonAt, SeparatorAt, FindValue, PassValue, NoQuoteCode;
    ColonSwapped(cfg, data, final, p);
    match ColonAt(cfg, data, final, p)
    case Unnamed(_) =>
    case Named(name, at) =>
      SwappedSame(name, keys[0]);
      PathRest(keys, 1);
      FindSwapped(cfg, data, final, keys[1..], at);
      PassSwapped(cfg, data, final, at);
      var m := if name == keys[0] then FindValue(cfg, data, final, keys[1..], at) else PassValue(cfg, data, final, at);
      if m.Miss? {
        SeparatorSwapped(data, final, m.at, RBRACE, MalformedObject);
        var s := SeparatorAt(data, final, m.at, RBRACE, MalformedObject);
        if s.Next? { MemberFound(cfg, data, final, keys, s.at); }
      }
  }

  lemma {:induction false} ElementFound(cfg: Config, data: Bytes, final: ReadError, keys: Path, p: nat, index: nat)
    requires cfg.allowSingleQuotes && NoQuoteCode(data) && p < |data| && keys != [] && IndexOf(keys[0]).Some?
    ensures IndexOf(Swapped(keys[0])) == IndexOf(keys[0])
    ensures FindElement(cfg, Swapped(data), final, SwappedPath(keys), p, index) == FindElement(cfg, data, final, keys, p, index)
    decreases |data| - p, 2
  {
    hide SeparatorAt, FindValue, PassElement, IndexOf, NoQuoteCode;
    IndexOfSwapped(keys[0]);
    PathRest(keys, 1);
    FindSwapped(cfg, data, final, keys[1..], p);
    PassSwapped(cfg, data, final, p);
    var m := if index == IndexOf(keys[0]).value then FindValue(cfg, data, final, keys[1..], p) else PassElement(cfg, data, final, p);
    if m.Miss? {
      SeparatorSwapped(data, final, m.at, RBRACKET, MalformedArray);
      var s := SeparatorAt(data, final, m.at, RBRACKET, MalformedArray);
      if s.Next? { ElementFound(cfg, data, final, keys, s.at, index + 1); }
    }
  }

  lemma TypingSwapped(cfg: Config, raw: Bytes)
    requires cfg.allowSingleQuotes
    ensures Typing(cfg, Swapped(raw)) == SwappedAnswer(Typing(cfg, raw))
  {
    hide GetFrom;
    GetSwapped(cfg, raw, 0);
  }

  /** The streaming Get, whatever ends the stream. */
  lemma StreamEitherWay(cfg: Config, data: Bytes, final: ReadError, keys: Path)
    requires cfg.allowSingleQuotes && NoQuoteCode(data)
    ensures StreamGet(cfg, Swapped(data), final, SwappedPath(keys)) == SwappedAnswer(StreamGet(cfg, data, final, keys))
  {
    hide FindValue, NextTok, Typing, NoQuoteCode;
    assert Swapped([]) == [];
    assert [] in SwappedPath(keys) <==> [] in keys by {
      if [] in SwappedPath(keys) {
        var k :| 0 <= k < |keys| && SwappedPath(keys)[k] == [];
        assert |Swapped(keys[k])| == |keys[k]|;
      }
      if [] in keys {
        var k :| 0 <= k < |keys| && keys[k] == [];
        assert SwappedPath(keys)[k] == [];
      }
    }
    NextTokSwapped(data, 0);
    FindSwapped(cfg, data, final, keys, 0);
    var r := FindValue(cfg, data, final, keys, 0);
    if r.Hit? {
      SwappedSlice(data, r.from, r.to);
      TypingSwapped(cfg, data[r.from..r.to]);
    }
  }

  // ---- documents ----

  /** A document whose strings all stand in single quotes: Get on a path of names is lookup in its tree. */
  lemma QuotedLookup(cfg: Config, d: Doc, keys: Path)
    requires cfg.allowSingleQuotes && WfDoc(d) && PlainPath(keys) && NoQuoteCode(PrintDoc(d))
    ensures GetSpec(cfg, Swapped(PrintDoc(d)), SwappedPath(keys))
         == SwappedGot(if Locate(d.root, keys).Some? then GotAt(d, LocOf(d.root, keys)) else NOT_FOUND)
  {
    hide PrintDoc, GetSpec, Locate, NoQuoteCode, GotAt;
    GetEitherWay(cfg, PrintDoc(d), keys);
    GetIsTreeLookup(cfg, d, keys);
  }

  /** The document {"a":1}. */
  const ONE_DOC := Doc([], Node(true, [], [Plainly([0x61], ONE)]), [])

  lemma OneDocText()
    ensures WfDoc(ONE_DOC) && PrintDoc(ONE_DOC) == Ascii("{\"a\":1}") && Swapped(PrintDoc(ONE_DOC)) == Ascii("{'a':1}")
    ensures NoQuoteCode(PrintDoc(ONE_DOC))
  {
    assert NumberParts([0x31], 0, 1, 1);
    assert WfEntry(true, Plainly([0x61], ONE));
    assert Wf(ONE_DOC.root);
    PrintFirst(true, [], Plainly([0x61], ONE));
    PrintFresh([], [0x61], ONE);
    assert PrintDoc(ONE_DOC) == [LBRACE, QUOTE, 0x61, QUOTE, COLON, 0x31, RBRACE];
    assert PrintDoc(ONE_DOC) == Ascii("{\"a\":1}");
    hide Print, PrintDoc, DecodeSingle;
    var t := PrintDoc(ONE_DOC);
    assert forall k :: 0 <= k < |t| ==> t[k] != BACKSLASH;
  }

  lemma OneDocHas(cfg: Config)
    ensures WfDoc(ONE_DOC) && Locate(ONE_DOC.root, [[0x61]]) == Some([0]) && Sub(ONE_DOC.root, [0]) == ONE
  {
    OneDocText();
    assert Plain([0x61]);
    UnescapedIdentity(STRICT, [0x61]);
    var keys: Path := [[0x61]];
    assert KeyIs(ONE_DOC.root.es[0], [0x61]) && keys[1..] == [];
    LocateNothing(ONE, []);
    assert [0] + [] == [0] && [0][1..] == [];
  }

  /** Without single quotes the search stops at the colon of a name in them. */
  lemma StrictStops(cfg: Config, data: Bytes, keys: Path)
    requires !cfg.allowSingleQuotes && data == [LBRACE, APOSTROPHE, 0x61, APOSTROPHE, COLON, 0x31, RBRACE] && keys != []
    ensures SearchKeysSpec(cfg, data, keys) == -1
  {
    hide SearchRun;
    StepBrace(cfg, data, keys, 0, 0, 0, true);
    StepOther(cfg, data, keys, 1, 1, 0, true);
    StepOther(cfg, data, keys, 2, 1, 0, true);
    StepOther(cfg, data, keys, 3, 1, 0, true);
    StepOther(cfg, data, keys, 4, 1, 0, true);
  }

  /** {'a':1} and the path a: found exactly where single quotes are allowed. */
  lemma SingleQuoteExample(cfg: Config)
    ensures var g := GetSpec(cfg, Ascii("{'a':1}"), [Ascii("a")]);
            if cfg.allowSingleQuotes then g.value == Ascii("1") && g.t == Number && g.err.None? else g == NOT_FOUND
  {
    hide GetSpec, SearchKeysSpec, PrintDoc, NoQuoteCode;
    OneDocText();
    assert Ascii("a") == [0x61] && Ascii("1") == [0x31];
    if cfg.allowSingleQuotes {
      OneDocHas(cfg);
      assert SwappedPath([[0x61]]) == [[0x61]] by { assert Swapped([0x61]) == [0x61]; }
      QuotedLookup(cfg, ONE_DOC, [[0x61]]);
      assert Swapped([0x31]) == [0x31];
    } else {
      assert Ascii("{'a':1}") == [LBRACE, APOSTROPHE, 0x61, APOSTROPHE, COLON, 0x31, RBRACE];
      StrictStops(cfg, Ascii("{'a':1}"), [[0x61]]);
      StrictMisses(cfg, Ascii("{'a':1}"), [[0x61]]);
    }
  }

  lemma StrictMisses(cfg: Config, data: Bytes, keys: Path)
    requires keys != [] && SearchKeysSpec(cfg, data, keys) == -1
    ensures GetSpec(cfg, data, keys) == NOT_FOUND
  {
    hide SearchKeysSpec;
  }
}
