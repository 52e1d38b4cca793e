/** Container lengths and ObjectEach on printed trees: every entry is counted, every member is called back for. */
module ContainerLaws {
  import opened Bytes
  import opened Strings
  import opened Escapes
  import opened Scanners
  import opened Syntax
  import opened Layout
  import opened Blocks
  import opened Lookup
  import opened TreeValues
  import opened TreeLookup
  import opened ReaderLaws
  import opened Streams
  import opened Containers

  // ---- lengths ----

  /** A number or literal, whitespace and a delimiter, as the counting machine reads them. */
  lemma {:induction false} PrimitiveRead(obj: bool, data: Bytes, start: nat, i: nat, q: nat, count: nat)
    requires start <= i <= q < |data| && (data[q] == COMMA || data[q] == Close(obj))
    requires forall k :: i <= k < q ==> IsPrimByte(data[k]) || IsSpace(data[k])
    requires IsPrimitive(Trim(data[start..q]))
    ensures PrimitiveFrom(obj, data, start, i, count) == if data[q] == COMMA then ItemFrom(obj, data, q + 1, count) else Some(count)
    decreases q - i
  {
    hide ItemFrom, PrimitiveFrom, IsPrimitive, Trim;
    PrimitiveHere(obj, data, start, i, count);
    if i < q { PrimitiveRead(obj, data, start, i + 1, q, count); }
  }

  lemma TrimIs(data: Bytes, p: nat, t: Bytes, q: nat)
    requires IsPrimitive(t) && At(data, p, t) && SpaceRun(data, p + |t|, q)
    ensures Trim(data[p..q]) == t
  {
    var s := data[p..q];
    PrimAt(data, p, t);
    assert s[|t| - 1] == data[p + |t| - 1] && !IsSpace(s[|t| - 1]);
    forall k | |t| <= k < |s| ensures IsSpace(s[k]) { assert s[k] == data[p + k]; }
    assert LastTok(s, |s|) == |t| - 1;
    AtSlice(data, p, t);
    assert s[..|t|] == data[p..p + |t|];
  }

  lemma ValueRead(obj: bool, data: Bytes, p: nat, v: JVal, q: nat, count: nat)
    requires Wf(v) && At(data, p, Print(v)) && Delimited(data, p + |Print(v)|, q) && data[q] != Close(!obj)
    ensures ValueAt(obj, data, p, count) == if data[q] == COMMA then ItemFrom(obj, data, q + 1, count + 1) else Some(count + 1)
  {
    hide ItemFrom, StackFrom, BlockFrom, StrEndFrom, PrimitiveFrom, IsPrimitive, Trim;
    var end := p + |Print(v)|;
    NextTokSkips(data, end, q);
    match v
    case Prim(t) =>
      PrimAt(data, p, t);
      TrimIs(data, p, t, q);
      PrimitiveRead(obj, data, p, p, q, count + 1);
    case Str(b) =>
      StrAt(data, p, b);
    case Node(obj', _, _) =>
      NodeEnds(STRICT, data, p, v);
      assert ValueAt(obj, data, p, count) == NestedFrom(obj, data, p + 1, [Close(obj')], count + 1);
      assert NestedFrom(obj, data, p + 1, [Close(obj')], count + 1) == DelimiterFrom(obj, data, end, count + 1);
  }

  lemma ItemIsKey(data: Bytes, p: nat, quote: nat, e: nat, colon: nat, value: nat, count: nat)
    requires p <= |data| && NextTok(data, p) == quote && data[quote] == QUOTE && StrEnd(data, quote + 1, QUOTE) == e
    requires NextTok(data, e) == colon && data[colon] == COLON && NextTok(data, colon + 1) == value
    ensures ItemFrom(true, data, p, count) == ValueAt(true, data, value, count)
  {
    hide ValueAt, StrEndFrom;
    assert ItemFrom(true, data, p, count) == ColonFrom(data, e, count);
    assert ColonFrom(data, e, count) == MemberValueFrom(data, colon + 1, count);
  }

  /** The key of a printed member, read by the counting machine. */
  lemma KeyCounted(data: Bytes, p: nat, e: Entry, count: nat)
    requires At(data, p, PrintEntry(true, e)) && WfEntry(true, e)
    ensures var v := p + |KeyPart(true, e)| + |e.w3|;
            v < |data| && ItemFrom(true, data, p, count) == ValueAt(true, data, v, count)
  {
    hide ItemFrom, ValueAt, StrEndFrom, KeyPart, Print, PrintEntry, IsStringBody, At;
    EntryParts(data, p, true, e);
    KeyPlaces(data, p, e);
    var s := p + KeyStart(e);
    var colon := p + |KeyPart(true, e)| - 1;
    FirstValue(data, colon + 1 + |e.w3|, e.v);
    NextTokSkips(data, colon + 1, colon + 1 + |e.w3|);
    ItemIsKey(data, p, s - 1, s + |e.key| + 1, colon, colon + 1 + |e.w3|, count);
  }

  lemma {:induction false} EntriesCounted(data: Bytes, i: nat, v: JVal, k: nat)
    requires Wf(v) && v.Node? && At(data, i, Print(v)) && k < |v.es|
    ensures i + Start(v, k) <= |data| && ItemFrom(v.obj, data, i + Start(v, k), k) == Some(|v.es|)
    decreases |v.es| - k
  {
    hide ItemFrom, ValueAt, Print, PrintEntry, PrintEntries, KeyPart, Start, End, At;
    var e := v.es[k];
    EntryAt(data, i, v, k);
    ChildAt(data, i, v, k);
    FirstTokenOf(data, i, v, k);
    if v.obj {
      KeyCounted(data, i + Start(v, k), e, k);
    } else {
      ElementItem(data, i + Start(v, k), k);
    }
    ValueRead(v.obj, data, i + ValueStart(v, k), e.v, i + End(v, k), k);
    if k < |v.es| - 1 { EntriesCounted(data, i, v, k + 1); }
  }

  lemma ElementItem(data: Bytes, i: nat, count: nat)
    requires i <= |data| && NextTok(data, i) != -1 && data[NextTok(data, i)] != RBRACKET
    ensures ItemFrom(false, data, i, count) == ValueAt(false, data, NextTok(data, i), count)
  {
    hide ValueAt;
  }

  /** The machine counts exactly the entries of a printed container, and never refuses one. */
  lemma NodeCounted(data: Bytes, i: nat, v: JVal)
    requires Wf(v) && v.Node? && At(data, i, Print(v))
    ensures i + 1 <= |data| && ItemFrom(v.obj, data, i + 1, 0) == Some(|v.es|)
  {
    hide ValueAt, ColonFrom, StrEndFrom, Print, PrintEntries, At;
    FirstInside(data, i, v);
    if v.es != [] {
      EntryPosZero(v.obj, v.es);
      EntriesCounted(data, i, v, 0);
    }
  }

  /** GetArrayLen and GetObjectLen at a path that designates a container of that kind: the number of its entries. */
  lemma LenOfContainer(d: Doc, keys: Path, l: Loc, obj: bool)
    requires WfDoc(d) && Designates(d.root, l, keys)
    ensures var v := Sub(d.root, l);
            LenSpec(PrintDoc(d), obj, keys) == if v.Node? && v.obj == obj then (|v.es|, None) else (0, Some(KeyPathNotFound))
  {
    hide ItemFrom, Print, PrintDoc, SearchRun, SlotOf, OffOf, Sub, Leads, Locate, At;
    DesignatesLocates(d.root, l, keys);
    SubPlace(d, l);
    var data := PrintDoc(d);
    var i := |d.lead| + OffOf(d.root, l);
    var v := Sub(d.root, l);
    ValueEndAt(STRICT, data, EOF, i, v);
    var from := SearchKeysSpec(STRICT, data, keys);
    if keys != [] { SearchDesignated(STRICT, d, keys, l); } else { assert l == []; }
    NextTokSkips(data, from, i);
    if v.Node? { NodeCounted(data, i, v); }
  }

  // ---- ObjectEach ----

  /** The callback for member k of the object printed at i. */
  ghost function MemberAt(i: nat, v: JVal, k: nat): MemberEvent
    requires Wf(v) && v.Node? && v.obj && k < |v.es|
  {
    assert WfEntry(true, v.es[k]);
    BodyDecodes(STRICT, v.es[k].key);
    var e := v.es[k].v;
    MemberEvent(Name(v.es[k]), Content(e), TypeOf(e), i + ValueStart(v, k) + |Print(e)|)
  }

  ghost function MembersOf(i: nat, v: JVal, k: nat): (s: seq<MemberEvent>)
    requires Wf(v) && v.Node? && v.obj && k <= |v.es|
    ensures |s| == |v.es| - k
    ensures forall j :: 0 <= j < |s| ==> s[j] == MemberAt(i, v, k + j)
  {
    seq(|v.es| - k, j requires 0 <= j < |v.es| - k => MemberAt(i, v, k + j))
  }

  lemma MembersStep(i: nat, v: JVal, k: nat)
    requires Wf(v) && v.Node? && v.obj && k <= |v.es|
    ensures k == |v.es| ==> MembersOf(i, v, k) == []
    ensures k < |v.es| ==> MembersOf(i, v, k) == [MemberAt(i, v, k)] + MembersOf(i, v, k + 1)
  {
    hide MemberAt;
    if k < |v.es| {
      var all, rest := MembersOf(i, v, k), MembersOf(i, v, k + 1);
      forall j | 0 <= j < |all| ensures all[j] == ([MemberAt(i, v, k)] + rest)[j] {
        if j > 0 { assert rest[j - 1] == MemberAt(i, v, k + 1 + (j - 1)); }
      }
    }
  }

  lemma KeyReadFound(cfg: Config, data: Bytes, i: nat, v: JVal, k: nat)
    requires Wf(v) && v.Node? && v.obj && At(data, i, Print(v)) && k < |v.es|
    ensures i + FirstOf(v, k) < |data| && Unescaped(STRICT, v.es[k].key).Some? && data[i + FirstOf(v, k)] == QUOTE
    ensures KeyReadAt(cfg, data, i + FirstOf(v, k)) == KeyRead(Name(v.es[k]), i + Start(v, k) + |KeyPart(true, v.es[k])|)
  {
    hide KeyReadAt, Unescaped, Print, PrintEntry, PrintEntries, KeyPart, Start, At;
    EntryAt(data, i, v, k);
    var e := v.es[k];
    EntryParts(data, i + Start(v, k), true, e);
    KeyReadHere(cfg, data, i + Start(v, k), e);
  }

  lemma KeyReadHere(cfg: Config, data: Bytes, p: nat, e: Entry)
    requires At(data, p, KeyPart(true, e)) && WfEntry(true, e)
    ensures p + |e.w1| < |data| && Unescaped(STRICT, e.key).Some? && data[p + |e.w1|] == QUOTE
    ensures KeyReadAt(cfg, data, p + |e.w1|) == KeyRead(Name(e), p + |KeyPart(true, e)|)
  {
    hide At, SpaceRun, NextTok, Unescaped, StrEndFrom, KeyPart, IsStringBody;
    KeyPlaces(data, p, e);
    BodyDecodes(cfg, e.key);
  }

  /** What ObjectEach sees behind the value of member k. */
  lemma AfterFound(cfg: Config, data: Bytes, i: nat, v: JVal, k: nat)
    requires Wf(v) && v.Node? && v.obj && At(data, i, Print(v)) && k < |v.es|
    ensures i + ValueStart(v, k) + |Print(v.es[k].v)| <= |data|
    ensures AfterMember(data, i + ValueStart(v, k) + |Print(v.es[k].v)|)
         == if k == |v.es| - 1 then Done(None) else NextMember(i + FirstOf(v, k + 1))
  {
    hide Print, PrintEntry, PrintEntries, KeyPart, FirstOf, At;
    ChildAt(data, i, v, k);
    DelimitedBounds(data, i + ValueStart(v, k) + |Print(v.es[k].v)|, i + End(v, k));
    if k < |v.es| - 1 { FirstTokenOf(data, i, v, k + 1); }
  }

  lemma {:induction false} MembersCalled(cfg: Config, data: Bytes, i: nat, v: JVal, k: nat)
    requires Wf(v) && v.Node? && v.obj && At(data, i, Print(v)) && k < |v.es|
    ensures i + FirstOf(v, k) < |data|
    ensures MembersFrom(cfg, data, i + FirstOf(v, k)) == Members(MembersOf(i, v, k), None)
    decreases |v.es| - k
  {
    hide MembersFrom, KeyReadAt, GetFrom, AfterMember, Print, PrintEntry, PrintEntries, KeyPart, Start, ValueStart, At, Content, TypeOf,
         FirstOf, MembersOf, Unescaped, Wf;
    MembersStep(i, v, k);
    MembersStep(i, v, k + 1);
    KeyReadFound(cfg, data, i, v, k);
    MemberGot(cfg, data, i, v, k);
    AfterFound(cfg, data, i, v, k);
    LaterStep(cfg, data, i + FirstOf(v, k), []);
    var all := MembersFrom(cfg, data, i + FirstOf(v, k));
    assert [] + all.events == all.events;
    if k < |v.es| - 1 { MembersCalled(cfg, data, i, v, k + 1); }
  }

  /**
   * ObjectEach at a path: one callback for every member of the object it designates, in order, with decoded name, value and
   * type; any other kind of value is refused.
   */
  lemma ObjectEachMembers(cfg: Config, d: Doc, keys: Path, l: Loc)
    requires WfDoc(d) && Designates(d.root, l, keys)
    ensures Wf(Sub(d.root, l))
    ensures var v := Sub(d.root, l);
            MembersSpec(cfg, PrintDoc(d), keys)
            == if v.Node? && v.obj then Members(MembersOf(|d.lead| + OffOf(d.root, l), v, 0), None)
               else Members([], Some(MalformedObject))
  {
    hide MembersInside, Print, PrintDoc, SearchRun, SlotOf, OffOf, Sub, Leads, Locate, At, MembersOf;
    DesignatesLocates(d.root, l, keys);
    SubPlace(d, l);
    var data := PrintDoc(d);
    var i := |d.lead| + OffOf(d.root, l);
    var v := Sub(d.root, l);
    ValueEndAt(cfg, data, EOF, i, v);
    var from := SearchKeysSpec(cfg, data, keys);
    if keys != [] { SearchDesignated(cfg, d, keys, l); } else { assert l == []; }
    NextTokSkips(data, from, i);
    if v.Node? && v.obj { InsideCalled(cfg, data, i, v); }
  }

  /** From behind the opening brace of a printed object. */
  lemma InsideCalled(cfg: Config, data: Bytes, i: nat, v: JVal)
    requires Wf(v) && v.Node? && v.obj && At(data, i, Print(v))
    ensures i + 1 <= |data| && MembersInside(cfg, data, i + 1) == Members(MembersOf(i, v, 0), None)
  {
    hide MembersFrom, Print, PrintEntries, At, FirstOf;
    FirstInside(data, i, v);
    if v.es != [] {
      MembersCalled(cfg, data, i, v, 0);
    } else {
      MembersEnd(cfg, data, i + |Print(v)| - 1);
    }
  }

  // ---- a length needs matching brackets ----

  /** A nested block on top of a stack. */
  lemma StackUnder(data: Bytes, i: nat, base: seq<byte>, obj: bool)
    requires i <= |data| && StackFrom(STRICT, data, i, [Close(obj)]).Found?
    ensures StackFrom(STRICT, data, i, base + [Close(obj)]) == StackFrom(STRICT, data, StackFrom(STRICT, data, i, [Close(obj)]).at, base)
  {
    hide BlocksNest;
    var top := base + [Close(obj)];
    var end := NestToPop(STRICT, data, i, [Close(obj)]);
    assert [Close(obj)][..0] == [] && top[..|top| - 1] == base;
    StackOverNest(STRICT, data, i, end, top);
    StackPops(STRICT, data, end, top);
  }

  /** A byte that is neither a double quote nor a bracket. */
  lemma StackByte(data: Bytes, i: nat, stack: seq<byte>)
    requires i < |data| && stack != []
    requires var c := data[i]; c != QUOTE && c != LBRACE && c != RBRACE && c != LBRACKET && c != RBRACKET
    ensures StackFrom(STRICT, data, i, stack) == StackFrom(STRICT, data, i + 1, stack)
  {
  }

  lemma {:induction false} StackSpaces(data: Bytes, i: nat, j: nat, stack: seq<byte>)
    requires i <= j <= |data| && stack != [] && forall k :: i <= k < j ==> IsSpace(data[k])
    ensures StackFrom(STRICT, data, i, stack) == StackFrom(STRICT, data, j, stack)
    decreases j - i
  {
    hide StackFrom;
    if i < j {
      StackByte(data, i, stack);
      StackSpaces(data, i + 1, j, stack);
    }
  }

  /** The bytes of a number or literal and of the whitespace behind it. */
  predicate Harmless(c: byte) { IsPrimByte(c) || IsSpace(c) }

  lemma {:induction false} StackHarmless(data: Bytes, i: nat, j: nat, stack: seq<byte>)
    requires i <= j <= |data| && stack != [] && forall k :: i <= k < j ==> Harmless(data[k])
    ensures StackFrom(STRICT, data, i, stack) == StackFrom(STRICT, data, j, stack)
    decreases j - i
  {
    hide StackFrom;
    if i < j {
      StackByte(data, i, stack);
      StackHarmless(data, i + 1, j, stack);
    }
  }

  lemma TrimHarmless(data: Bytes, start: nat, i: nat)
    requires start <= i <= |data| && IsPrimitive(Trim(data[start..i]))
    ensures forall k :: start <= k < i ==> Harmless(data[k])
  {
    hide IsPrimitive, IsPrimByte;
    var s := data[start..i];
    PrimShape(Trim(s));
    forall k | start <= k < i ensures Harmless(data[k]) {
      assert data[k] == s[k - start];
      if k - start < |Trim(s)| { assert Trim(s)[k - start] == s[k - start]; }
    }
  }

  predicate Matched(obj: bool, data: Bytes, i: nat)
    requires i <= |data|
  {
    StackFrom(STRICT, data, i, [Close(obj)]).Found?
  }

  lemma StackCloses(obj: bool, data: Bytes, n: nat)
    requires n < |data| && data[n] == Close(obj)
    ensures Matched(obj, data, n)
  {
    assert [Close(obj)][..0] == [];
  }

  lemma MatchedOver(obj: bool, data: Bytes, i: nat, n: nat)
    requires i <= n <= |data| && (forall k :: i <= k < n ==> IsSpace(data[k])) && Matched(obj, data, n)
    ensures Matched(obj, data, i)
  {
    hide StackFrom;
    StackSpaces(data, i, n, [Close(obj)]);
  }

  lemma MatchedByte(obj: bool, data: Bytes, n: nat)
    requires n < |data| && (data[n] == COMMA || data[n] == COLON) && Matched(obj, data, n + 1)
    ensures Matched(obj, data, n)
  {
    hide StackFrom;
    StackByte(data, n, [Close(obj)]);
  }

  lemma MatchedString(obj: bool, data: Bytes, n: nat)
    requires n < |data| && data[n] == QUOTE && StrEnd(data, n + 1, QUOTE) != -1 && Matched(obj, data, StrEnd(data, n + 1, QUOTE))
    ensures Matched(obj, data, n)
  {
    hide StrEndFrom;
  }

  lemma MatchedBlock(obj: bool, data: Bytes, n: nat)
    requires n < |data| && (data[n] == LBRACE || data[n] == LBRACKET)
    requires StackFrom(STRICT, data, n + 1, [Close(data[n] == LBRACE)]).Found?
    requires Matched(obj, data, StackFrom(STRICT, data, n + 1, [Close(data[n] == LBRACE)]).at)
    ensures Matched(obj, data, n)
  {
    StackUnder(data, n + 1, [Close(obj)], data[n] == LBRACE);
  }

  /** Inside a container whose length is counted the brackets of both kinds match, up to its own closing one. */
  lemma {:induction false} ItemMatched(obj: bool, data: Bytes, i: nat, count: nat)
    requires i <= |data| && ItemFrom(obj, data, i, count).Some?
    ensures Matched(obj, data, i)
    decreases |data| - i, 4
  {
    hide Matched, StackFrom, StrEndFrom, ColonFrom, MemberValueFrom, ValueAt, NextTok;
    var n := NextTok(data, i);
    if data[n] == Close(obj) {
      StackCloses(obj, data, n);
    } else if !obj {
      ValueMatched(obj, data, n, count);
    } else {
      var e := StrEnd(data, n + 1, QUOTE);
      NameMatched(data, e, count);
      MatchedString(obj, data, n);
    }
    MatchedOver(obj, data, i, n);
  }

  /** Behind a member name. */
  lemma {:induction false} NameMatched(data: Bytes, i: nat, count: nat)
    requires i <= |data| && ColonFrom(data, i, count).Some?
    ensures Matched(true, data, i)
    decreases |data| - i, 3
  {
    hide Matched, StackFrom, ValueAt, NextTok;
    var n := NextTok(data, i);
    var m := NextTok(data, n + 1);
    ValueMatched(true, data, m, count);
    MatchedOver(true, data, n + 1, m);
    MatchedByte(true, data, n);
    MatchedOver(true, data, i, n);
  }

  lemma {:induction false} ValueMatched(obj: bool, data: Bytes, n: nat, count: nat)
    requires n < |data| && ValueAt(obj, data, n, count).Some?
    ensures Matched(obj, data, n)
    decreases |data| - n, 2
  {
    hide Matched, StackFrom, StrEndFrom, DelimiterFrom, PrimitiveFrom;
    var c := data[n];
    if c == QUOTE {
      DelimiterMatched(obj, data, StrEnd(data, n + 1, QUOTE), count + 1);
      MatchedString(obj, data, n);
    } else if c == LBRACKET || c == LBRACE {
      DelimiterMatched(obj, data, StackFrom(STRICT, data, n + 1, [Close(c == LBRACE)]).at, count + 1);
      MatchedBlock(obj, data, n);
    } else {
      PrimitiveMatched(obj, data, n, n, count + 1);
    }
  }

  lemma {:induction false} PrimitiveMatched(obj: bool, data: Bytes, start: nat, i: nat, count: nat)
    requires start <= i <= |data| && PrimitiveFrom(obj, data, start, i, count).Some?
    ensures Matched(obj, data, start)
    decreases |data| - i, 1
  {
    hide StackFrom, ItemFrom, IsPrimitive, Harmless;
    if data[i] == COMMA {
      ItemMatched(obj, data, i + 1, count);
      MatchedByte(obj, data, i);
      TrimHarmless(data, start, i);
      StackHarmless(data, start, i, [Close(obj)]);
    } else if data[i] == Close(obj) {
      StackCloses(obj, data, i);
      TrimHarmless(data, start, i);
      StackHarmless(data, start, i, [Close(obj)]);
    } else {
      PrimitiveMatched(obj, data, start, i + 1, count);
    }
  }

  lemma {:induction false} DelimiterMatched(obj: bool, data: Bytes, i: nat, count: nat)
    requires i <= |data| && DelimiterFrom(obj, data, i, count).Some?
    ensures Matched(obj, data, i)
    decreases |data| - i, 0
  {
    hide Matched, StackFrom, ItemFrom, NextTok;
    var n := NextTok(data, i);
    if data[n] == COMMA {
      ItemMatched(obj, data, n + 1, count);
      MatchedByte(obj, data, n);
    } else {
      StackCloses(obj, data, n);
    }
    MatchedOver(obj, data, i, n);
  }

  /** On any bytes: a length without an error is that of a container whose brackets, of both kinds, match. */
  lemma LenIsMatched(data: Bytes, obj: bool, keys: Path)
    requires LenSpec(data, obj, keys).1.None?
    ensures var r := SearchKeysSpec(STRICT, data, keys);
            && r != -1 && NextTok(data, r) != -1 && data[NextTok(data, r)] == Open(obj)
            && StackFrom(STRICT, data, NextTok(data, r) + 1, [Close(obj)]).Found?
  {
    hide SearchRun, ItemFrom, StackFrom, NextTok;
    var r := SearchKeysSpec(STRICT, data, keys);
    ItemMatched(obj, data, NextTok(data, r) + 1, 0);
  }
}
