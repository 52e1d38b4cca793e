/** The flat search of searchKeysConfig implements lookup in the tree. */
module TreeLookup {
  import opened Bytes
  import opened Strings
  import opened Escapes
  import opened Scanners
  import opened Syntax
  import opened Layout
  import opened Blocks
  import opened Lookup
  import opened TreeValues

  /** The decoded name of a member with a well-formed key. */
  function Name(e: Entry): Bytes
    requires Unescaped(STRICT, e.key).Some?
  {
    Unescaped(STRICT, e.key).value
  }

  /** A byte the search machine passes over, whatever the configuration. */
  predicate IsQuiet(c: byte) {
    c != QUOTE && c != APOSTROPHE && c != LBRACE && c != RBRACE && c != LBRACKET && c != COLON
  }

  lemma {:induction false} SearchQuiet(cfg: Config, data: Bytes, keys: Path, i: nat, j: nat, level: int, keyLevel: int,
                                       lastMatched: bool)
    requires i <= j <= |data| && SafeLevels(level, keyLevel, |keys|)
    requires forall k :: i <= k < j ==> IsQuiet(data[k])
    ensures SearchRun(cfg, data, keys, i, level, keyLevel, lastMatched)
         == SearchRun(cfg, data, keys, j, level, keyLevel, lastMatched)
    decreases j - i
  {
    hide SearchRun;
    if i < j {
      StepOther(cfg, data, keys, i, level, keyLevel, lastMatched);
      SearchQuiet(cfg, data, keys, i + 1, j, level, keyLevel, lastMatched);
    }
  }

  lemma DelimiterIsNext(data: Bytes, i: nat, q: nat)
    requires Delimited(data, i, q)
    ensures NextTok(data, i) == q
  {
    NextTokSkips(data, i, q);
  }

  /** The value is passed over without being entered. */
  lemma SearchSkips(cfg: Config, data: Bytes, keys: Path, i: nat, v: JVal, q: nat, level: int, keyLevel: int,
                    lastMatched: bool)
    requires Wf(v) && At(data, i, Print(v)) && SafeLevels(level, keyLevel, |keys|)
    requires Delimited(data, i + |Print(v)|, q)
    requires v.Node? && v.obj ==> !lastMatched
    requires v.Node? && !v.obj ==> !(keyLevel == level && IsIndexKey(keys[level]))
    ensures SearchRun(cfg, data, keys, i, level, keyLevel, lastMatched)
         == SearchRun(cfg, data, keys, q, level, keyLevel, lastMatched)
  {
    hide SearchRun, BlockFrom, BlockEndAt, StackFrom;
    var end := i + |Print(v)|;
    match v
    case Prim(t) =>
      PrimAt(data, i, t);
      SearchQuiet(cfg, data, keys, i, q, level, keyLevel, lastMatched);
    case Str(b) =>
      StrAt(data, i, b);
      DelimiterIsNext(data, end, q);
      StepKey(cfg, data, keys, i, level, keyLevel, lastMatched);
    case Node(obj, _, _) =>
      NodeEnds(cfg, data, i, v);
      StepBrace(cfg, data, keys, i, level, keyLevel, lastMatched);
      if !obj { StepBracket(cfg, data, keys, i, level, keyLevel, lastMatched); }
      SearchQuiet(cfg, data, keys, end, q, level, keyLevel, lastMatched);
  }

  /** The name of a member is read, decoded and found to be followed by its colon. */
  lemma KeyScanned(cfg: Config, data: Bytes, p: nat, e: Entry)
    requires At(data, p, KeyPart(true, e)) && WfEntry(true, e)
    ensures Unescaped(STRICT, e.key).Some?
    ensures data[p + |e.w1|] == QUOTE
    ensures KeyScanAt(cfg, data, p + |e.w1|) == KeyAt(Name(e), p + |KeyPart(true, e)| - 1)
  {
    hide At, SpaceRun, NextTok, Unescaped, StrEndFrom, KeyPart, IsStringBody;
    KeyPlaces(data, p, e);
    BodyDecodes(cfg, e.key);
  }

  /** The state of the machine behind the colon of a member, when the path is not complete there. */
  lemma SearchName(cfg: Config, data: Bytes, keys: Path, p: nat, e: Entry, level: int, keyLevel: int, lastMatched: bool)
    requires At(data, p, PrintEntry(true, e)) && WfEntry(true, e)
    requires SafeLevels(level, keyLevel, |keys|) && 1 <= level <= |keys|
    ensures Unescaped(STRICT, e.key).Some?
    ensures var matched := Name(e) == keys[level - 1];
            var c := p + |KeyPart(true, e)|;
            SearchRun(cfg, data, keys, p, level, keyLevel, lastMatched) ==
            if matched && keyLevel == level - 1 && level == |keys| then c
            else SearchRun(cfg, data, keys, c + |e.w3|, level,
                           if matched && keyLevel == level - 1 then level else keyLevel, matched)
  {
    hide SearchRun, KeyScanAt, Print;
    EntryParts(data, p, true, e);
    KeyParts(data, p, e);
    KeyScanned(cfg, data, p, e);
    SearchQuiet(cfg, data, keys, p, p + |e.w1|, level, keyLevel, lastMatched);
    StepKey(cfg, data, keys, p + |e.w1|, level, keyLevel, lastMatched);
    var matched := Name(e) == keys[level - 1];
    var c := p + |KeyPart(true, e)|;
    if !(matched && keyLevel == level - 1 && level == |keys|) {
      SearchQuiet(cfg, data, keys, c, c + |e.w3|, level,
                  if matched && keyLevel == level - 1 then level else keyLevel, matched);
    }
  }

  // ---- paths of plain keys: exact agreement, duplicates included ----

  /** No component of the path starts with a bracket. */
  predicate PlainPath(keys: Path) {
    forall k :: 0 <= k < |keys| ==> !IsIndexKey(keys[k])
  }

  /**
   * The invariant of the search inside an entered object is level - 1 <= keyLevel: a value at depth level is
   * either searched to a hit, or passed over with the invariant kept.
   */
  lemma {:induction false} SearchPlainValue(cfg: Config, data: Bytes, keys: Path, i: nat, v: JVal, q: nat, level: nat,
                                            keyLevel: int) returns (keyLevel': int, lastMatched': bool)
    requires Wf(v) && At(data, i, Print(v)) && Delimited(data, i + |Print(v)|, q)
    requires PlainPath(keys) && level <= keyLevel < |keys|
    ensures level - 1 <= keyLevel' < |keys|
    ensures var l := Locate(v, keys[level..]);
            && (l.Some? ==> SearchRun(cfg, data, keys, i, level, keyLevel, true) == i + SlotOf(v, LocOf(v, keys[level..])))
            && (l.None? ==> SearchRun(cfg, data, keys, i, level, keyLevel, true)
                            == SearchRun(cfg, data, keys, q, level, keyLevel', lastMatched'))
    decreases v, 1, 0, 0
  {
    hide SearchRun, Print, PrintEntries, PrintEntry;
    LocateSound(v, keys[level..]);
    if v.Node? && v.obj {
      NodeEnds(cfg, data, i, v);
      StepBrace(cfg, data, keys, i, level, keyLevel, true);
      var end := i + |Print(v)|;
      keyLevel', lastMatched' := SearchPlainInside(cfg, data, keys, i, v, level, keyLevel);
      if Locate(v, keys[level..]).None? {
        NodeAt(data, i, v);
        StepBrace(cfg, data, keys, end - 1, level + 1, keyLevel', lastMatched');
        if level == keyLevel' { keyLevel' := keyLevel' - 1; }
        SearchQuiet(cfg, data, keys, end, q, level, keyLevel', lastMatched');
      }
    } else {
      SearchSkips(cfg, data, keys, i, v, q, level, keyLevel, true);
      keyLevel', lastMatched' := keyLevel, true;
    }
  }

  /** The located chain, which LocateSound shows to be a chain of the tree. */
  function LocOf(v: JVal, keys: Path): (l: Loc)
    requires Locate(v, keys).Some?
    ensures ValidLoc(v, l)
  {
    LocateSound(v, keys);
    Locate(v, keys).value
  }

  lemma {:induction false} SearchPlainInside(cfg: Config, data: Bytes, keys: Path, i: nat, v: JVal, level: nat, keyLevel: int)
    returns (keyLevel': int, lastMatched': bool)
    requires Wf(v) && v.Node? && v.obj && At(data, i, Print(v))
    requires PlainPath(keys) && level <= keyLevel < |keys|
    ensures level <= keyLevel' < |keys|
    ensures var l := Locate(v, keys[level..]);
            && (l.Some? ==> SearchRun(cfg, data, keys, i + 1, level + 1, keyLevel, true)
                            == i + SlotOf(v, LocOf(v, keys[level..])))
            && (l.None? ==> SearchRun(cfg, data, keys, i + 1, level + 1, keyLevel, true)
                            == SearchRun(cfg, data, keys, i + |Print(v)| - 1, level + 1, keyLevel', lastMatched'))
    decreases v, 0, |v.es| + 1, 0
  {
    hide SearchRun, PrintEntries, PrintEntry;
    NodeAt(data, i, v);
    if v.es == [] {
      SpaceAt(data, i + 1, v.ews);
      SearchQuiet(cfg, data, keys, i + 1, i + 1 + |v.ews|, level + 1, keyLevel, true);
      keyLevel', lastMatched' := keyLevel, true;
    } else {
      keyLevel', lastMatched' := SearchPlainMembers(cfg, data, keys, i, v, 0, level, keyLevel, true);
    }
  }

  /** The member search from entry k on, with the answer of the tree search from there. */
  lemma {:induction false} SearchPlainMembers(cfg: Config, data: Bytes, keys: Path, i: nat, v: JVal, k: nat, level: nat,
                                              keyLevel: int, lastMatched: bool)
    returns (keyLevel': int, lastMatched': bool)
    requires Wf(v) && v.Node? && v.obj && At(data, i, Print(v)) && k < |v.es|
    requires PlainPath(keys) && level <= keyLevel < |keys|
    ensures level <= keyLevel' < |keys|
    ensures var l := LocateMember(v.es, keys[level..], k);
            && (l.Some? ==> (ValidLoc(v, l.value)
                  && SearchRun(cfg, data, keys, i + Start(v, k), level + 1, keyLevel, lastMatched) == i + SlotOf(v, l.value)))
            && (l.None? ==> SearchRun(cfg, data, keys, i + Start(v, k), level + 1, keyLevel, lastMatched)
                            == SearchRun(cfg, data, keys, i + |Print(v)| - 1, level + 1, keyLevel', lastMatched'))
    decreases v, 0, |v.es| - k, 1
  {
    hide SearchRun, Print, PrintEntries, PrintEntry, SlotOf, Start, End;
    keyLevel', lastMatched' := SearchPlainMember(cfg, data, keys, i, v, k, level, keyLevel, lastMatched);
    if Chosen(v.es[k], keys[level..]).None? {
      ChildAt(data, i, v, k);
      var q := i + End(v, k);
      if k < |v.es| - 1 {
        SearchQuiet(cfg, data, keys, q, q + 1, level + 1, keyLevel', lastMatched');
        keyLevel', lastMatched' := SearchPlainMembers(cfg, data, keys, i, v, k + 1, level, keyLevel', lastMatched');
      }
    }
  }

  /** The chain below one member, when its name is the next component and its value resolves the rest. */
  function Chosen(e: Entry, keys: Path): Option<Loc>
    requires keys != []
  {
    if KeyIs(e, keys[0]) then Locate(e.v, keys[1..]) else None
  }

  lemma {:induction false} SearchPlainMember(cfg: Config, data: Bytes, keys: Path, i: nat, v: JVal, k: nat, level: nat,
                                             keyLevel: int, lastMatched: bool)
    returns (keyLevel': int, lastMatched': bool)
    requires Wf(v) && v.Node? && v.obj && At(data, i, Print(v)) && k < |v.es|
    requires PlainPath(keys) && level <= keyLevel < |keys|
    ensures level <= keyLevel' < |keys|
    ensures var l := Chosen(v.es[k], keys[level..]);
            && (l.Some? ==> (ValidLoc(v, [k] + l.value)
                  && SearchRun(cfg, data, keys, i + Start(v, k), level + 1, keyLevel, lastMatched)
                     == i + SlotOf(v, [k] + l.value)))
            && (l.None? ==> SearchRun(cfg, data, keys, i + Start(v, k), level + 1, keyLevel, lastMatched)
                            == SearchRun(cfg, data, keys, i + End(v, k), level + 1, keyLevel', lastMatched'))
    decreases v, 0, |v.es| - k, 0
  {
    hide SearchRun, Print, PrintEntries, PrintEntry, KeyPart, SlotOf, Locate, Start, End, At, Delimited;
    var e := v.es[k];
    var rest := keys[level + 1..];
    assert keys[level..][0] == keys[level] && keys[level..][1..] == rest;
    ChildAt(data, i, v, k);
    SearchName(cfg, data, keys, i + Start(v, k), e, level + 1, keyLevel, lastMatched);
    var q := i + End(v, k);
    if Name(e) != keys[level] {
      SearchSkips(cfg, data, keys, i + ValueStart(v, k), e.v, q, level + 1, keyLevel, false);
      keyLevel', lastMatched' := keyLevel, false;
    } else if level + 1 == |keys| {
      LocateNothing(e.v, rest);
      SlotHere(v, k);
      assert [k] + [] == [k];
      keyLevel', lastMatched' := keyLevel, true;
    } else {
      var entered := if keyLevel == level then level + 1 else keyLevel;
      keyLevel', lastMatched' := SearchPlainValue(cfg, data, keys, i + ValueStart(v, k), e.v, q, level + 1, entered);
      if Locate(e.v, rest).Some? {
        SlotBelow(v, k, LocOf(e.v, rest));
      }
    }
  }

  lemma LocateNothing(v: JVal, keys: Path)
    requires keys == []
    ensures Locate(v, keys) == Some([])
  {
  }

  lemma SlotHere(v: JVal, k: nat)
    requires v.Node? && v.obj && k < |v.es|
    ensures ValidLoc(v, [k]) && SlotOf(v, [k]) == Start(v, k) + |KeyPart(true, v.es[k])|
  {
    assert ValidLoc(v.es[k].v, [k][1..]);
  }

  lemma SlotBelow(v: JVal, k: nat, l: Loc)
    requires v.Node? && k < |v.es| && l != [] && ValidLoc(v.es[k].v, l)
    ensures ValidLoc(v, [k] + l) && SlotOf(v, [k] + l) == ValueStart(v, k) + SlotOf(v.es[k].v, l)
  {
    assert ([k] + l)[1..] == l;
  }

  // ---- paths with index components ----

  /** l spells the keys from level on, and at every object on the way only one member has the wanted name. */
  predicate Leads(v: JVal, l: Loc, keys: Path)
  {
    && |l| == |keys|
    && (l != [] ==>
          && v.Node? && l[0] < |v.es|
          && (if v.obj then
                forall j :: 0 <= j < |v.es| ==> (KeyIs(v.es[j], keys[0]) <==> j == l[0])
              else IndexOf(keys[0]) == Some(l[0]))
          && Leads(v.es[l[0]].v, l[1..], keys[1..]))
  }

  lemma {:induction false} LeadsLocates(v: JVal, l: Loc, keys: Path)
    requires Leads(v, l, keys)
    ensures ValidLoc(v, l) && Follows(v, l, keys) && Locate(v, keys) == Some(l)
    decreases |l|
  {
    if l != [] {
      LeadsLocates(v.es[l[0]].v, l[1..], keys[1..]);
      assert [l[0]] + l[1..] == l;
      if v.obj { MemberShape(v.es, keys, 0); }
    }
  }

  /** Member names are pairwise different in every object of the tree. */
  ghost predicate DupFree(v: JVal)
    decreases v
  {
    v.Node? ==>
      && (v.obj ==> forall j, k, name :: 0 <= j < |v.es| && 0 <= k < |v.es| && KeyIs(v.es[j], name) && KeyIs(v.es[k], name) ==> j == k)
      && forall k :: 0 <= k < |v.es| ==> DupFree(v.es[k].v)
  }

  /** In a tree without duplicate names every path that resolves leads there unambiguously. */
  lemma {:induction false} DupFreeLeads(v: JVal, keys: Path)
    requires DupFree(v) && Locate(v, keys).Some?
    ensures Leads(v, Locate(v, keys).value, keys)
    decreases |keys|
  {
    if keys != [] {
      var l := Locate(v, keys).value;
      if v.obj { MemberShape(v.es, keys, 0); }
      assert l[1..] == Locate(v.es[l[0]].v, keys[1..]).value;
      DupFreeLeads(v.es[l[0]].v, keys[1..]);
    }
  }

  /**
   * keys[..|l|] leads to l and either that is all of keys, or an array is there and the next component starts with a bracket
   * but selects none of its elements: an index past the end, or no index at all.
   */
  ghost predicate Reaches(v: JVal, l: Loc, keys: Path) {
    && keys != [] && |l| <= |keys| && Leads(v, l, keys[..|l|]) && ValidLoc(v, l)
    && (|l| < |keys| ==>
          && Sub(v, l).Node? && !Sub(v, l).obj
          && IsIndexKey(keys[|l|]) && (IndexOf(keys[|l|]).Some? ==> IndexOf(keys[|l|]).value >= |Sub(v, l).es|))
  }

  /** The offset the search must return for l. */
  function Answer(v: JVal, l: Loc, keys: Path, i: nat): int
    requires ValidLoc(v, l)
  {
    if |l| == |keys| then i + SlotOf(v, l) else -1
  }

  lemma ReachesStep(v: JVal, l: Loc, keys: Path)
    requires Reaches(v, l, keys) && l != []
    ensures v.Node? && l[0] < |v.es| && |l[1..]| <= |keys[1..]|
    ensures keys[1..] != [] ==> Reaches(v.es[l[0]].v, l[1..], keys[1..])
    ensures if v.obj then forall j :: 0 <= j < |v.es| ==> (KeyIs(v.es[j], keys[0]) <==> j == l[0])
            else IndexOf(keys[0]) == Some(l[0])
  {
    assert keys[..|l|][1..] == keys[1..][..|l| - 1];
    assert keys[..|l|][0] == keys[0];
  }

  lemma AnswerStep(v: JVal, l: Loc, keys: Path, i: nat)
    requires Reaches(v, l, keys) && l != []
    ensures v.Node? && l[0] < |v.es| && ValidLoc(v.es[l[0]].v, l[1..])
    ensures keys[1..] != [] ==> Answer(v, l, keys, i) == Answer(v.es[l[0]].v, l[1..], keys[1..], i + ValueStart(v, l[0]))
    ensures keys[1..] == [] ==>
              Answer(v, l, keys, i) == i + Start(v, l[0]) + |KeyPart(v.obj, v.es[l[0]])|
                                       + (if v.obj then 0 else |v.es[l[0]].w3|)
  {
  }

  /** The search of a value whose path is reached; level components are already matched. */
  lemma {:induction false} SearchReaches(cfg: Config, data: Bytes, keys: Path, i: nat, v: JVal, level: nat, l: Loc)
    requires Wf(v) && At(data, i, Print(v))
    requires level < |keys| && Reaches(v, l, keys[level..])
    ensures SearchRun(cfg, data, keys, i, level, level, true) == Answer(v, l, keys[level..], i)
    decreases v, 1, 0
  {
    hide SearchRun, Print, PrintEntries, PrintEntry, SearchIndex, Answer, BlockEndAt;
    assert keys[level..][0] == keys[level];
    NodeEnds(cfg, data, i, v);
    if v.obj {
      ReachesStep(v, l, keys[level..]);
      StepBrace(cfg, data, keys, i, level, level, true);
      SearchPastEmpty(cfg, data, keys, i, v, level);
      SearchToMember(cfg, data, keys, i, v, 0, level, true, l);
    } else {
      assert l == [] ==> Sub(v, l) == v;
      if l != [] { ReachesStep(v, l, keys[level..]); }
      StepBracket(cfg, data, keys, i, level, level, true);
      AtSlide(data, i, Print(v));
      SearchInElement(cfg, data[i..], keys[level..], v, l, i);
      assert keys[level..][1..] == keys[level + 1..];
    }
  }

  lemma AtSlide(data: Bytes, i: nat, s: Bytes)
    requires At(data, i, s)
    ensures At(data[i..], 0, s)
  {
    forall k | 0 <= k < |s| ensures data[i..][0 + k] == s[k] { assert data[i + k] == s[k]; }
  }

  lemma SearchPastEmpty(cfg: Config, data: Bytes, keys: Path, i: nat, v: JVal, level: nat)
    requires Wf(v) && v.Node? && At(data, i, Print(v)) && v.es != []
    ensures i + Start(v, 0) == i + 1
  {
    EntryPosZero(v.obj, v.es);
  }

  /** Members before the wanted one are passed over; the wanted one answers. */
  lemma {:induction false} SearchToMember(cfg: Config, data: Bytes, keys: Path, i: nat, v: JVal, k: nat, level: nat,
                                          lastMatched: bool, l: Loc)
    requires Wf(v) && v.Node? && v.obj && At(data, i, Print(v))
    requires level < |keys| && Reaches(v, l, keys[level..]) && l != [] && k <= l[0] < |v.es|
    ensures SearchRun(cfg, data, keys, i + Start(v, k), level + 1, level, lastMatched) == Answer(v, l, keys[level..], i)
    decreases v, 0, l[0] - k
  {
    hide SearchRun, Print, PrintEntries, PrintEntry, KeyPart, Answer, Reaches, Start, End, At, Delimited;
    var e := v.es[k];
    ReachesStep(v, l, keys[level..]);
    AnswerStep(v, l, keys[level..], i);
    assert keys[level..][0] == keys[level] && keys[level..][1..] == keys[level + 1..];
    ChildAt(data, i, v, k);
    SearchName(cfg, data, keys, i + Start(v, k), e, level + 1, level, lastMatched);
    assert KeyIs(e, keys[level]) <==> Name(e) == keys[level];
    if k < l[0] {
      var q := i + End(v, k);
      SearchSkips(cfg, data, keys, i + ValueStart(v, k), e.v, q, level + 1, level, false);
      SearchComma(cfg, data, keys, q, level + 1, level, false);
      SearchToMember(cfg, data, keys, i, v, k + 1, level, false, l);
    } else if level + 1 < |keys| {
      SearchReaches(cfg, data, keys, i + ValueStart(v, k), e.v, level + 1, l[1..]);
    }
  }

  lemma SearchComma(cfg: Config, data: Bytes, keys: Path, q: nat, level: int, keyLevel: int, lastMatched: bool)
    requires q < |data| && data[q] == COMMA && SafeLevels(level, keyLevel, |keys|)
    ensures SearchRun(cfg, data, keys, q, level, keyLevel, lastMatched)
         == SearchRun(cfg, data, keys, q + 1, level, keyLevel, lastMatched)
  {
    hide SearchRun;
    StepOther(cfg, data, keys, q, level, keyLevel, lastMatched);
  }

  /** The index branch at a printed array: the selected element, with the rest of the path searched inside it. */
  lemma {:induction false} SearchInElement(cfg: Config, data: Bytes, keys: Path, v: JVal, l: Loc, base: nat)
    requires Wf(v) && v.Node? && !v.obj && At(data, 0, Print(v)) && Reaches(v, l, keys)
    ensures SearchIndex(cfg, data, keys[0], keys[1..], base) == Answer(v, l, keys, base)
    decreases v, 0, 0
  {
    var key, rest := keys[0], keys[1..];
    hide SearchRun, Print, PrintEntries, PrintEntry, Answer, Reaches, EachRoot, At, Atoi;
    EachArray(cfg, data, v);
    var events := EachRoot(cfg, data).events;
    if l == [] {
      ReachedPastEnd(v, keys);
      AnswerMissing(v, keys, base);
    } else {
      ReachesStep(v, l, keys);
      AnswerStep(v, l, keys, base);
      var n := l[0];
      var e := v.es[n].v;
      PickedElement(cfg, data, v, n);
      if rest != [] {
        AtWhole(Print(e));
        SearchReaches(cfg, Print(e), rest, 0, e, 0, l[1..]);
        assert rest[0..] == rest;
        AnswerShift(e, l[1..], rest, base + ValueStart(v, n));
      }
    }
  }

  lemma AnswerShift(v: JVal, l: Loc, keys: Path, base: nat)
    requires ValidLoc(v, l)
    ensures var r := Answer(v, l, keys, 0); Answer(v, l, keys, base) == if r < 0 then -1 else base + r
  {
  }

  lemma AnswerMissing(v: JVal, keys: Path, base: nat)
    requires keys != []
    ensures ValidLoc(v, []) && Answer(v, [], keys, base) == -1
  {
  }

  lemma ReachedPastEnd(v: JVal, keys: Path)
    requires Reaches(v, [], keys)
    ensures v.Node? && !v.obj && IsIndexKey(keys[0]) && (IndexOf(keys[0]).Some? ==> IndexOf(keys[0]).value >= |v.es|)
  {
    assert Sub(v, []) == v;
  }

  /** The element the index branch picks out of the callbacks is the text of the subtree, at its offset. */
  lemma PickedElement(cfg: Config, data: Bytes, v: JVal, n: nat)
    requires Wf(v) && v.Node? && !v.obj && At(data, 0, Print(v)) && n < |v.es|
    ensures Picked(data, EachRoot(cfg, data).events, n) == Some((Print(v.es[n].v), ValueStart(v, n)))
  {
    hide EachRoot, Print, PrintEntry, PrintEntries, KeyPart, At, ValueStart, Content, TypeOf;
    EachArray(cfg, data, v);
    ChildAt(data, 0, v, n);
    assert ElementsFrom(0, v, 0)[n] == ElementAt(0, v, 0 + n);
    PickedText(data, ValueStart(v, n), v.es[n].v);
  }

  /** The bytes an event of a value stands for: the text of the value, quotes included. */
  lemma PickedText(data: Bytes, p: nat, e: JVal)
    requires At(data, p, Print(e))
    ensures |Content(e)| <= |Print(e)| && p + |Print(e)| <= |data| && data[p..p + |Print(e)|] == Print(e)
    ensures TypeOf(e) == String ==> |Print(e)| == |Content(e)| + 2
    ensures TypeOf(e) != String ==> Content(e) == Print(e)
  {
    hide PrintEntries;
    AtSlice(data, p, Print(e));
    OnlyStrings(e);
  }

  // ---- whole documents ----

  lemma DocAt(d: Doc)
    requires WfDoc(d)
    ensures var data := PrintDoc(d);
            && |data| == |d.lead| + |Print(d.root)| + |d.trail|
            && SpaceRun(data, 0, |d.lead|) && At(data, |d.lead|, Print(d.root))
            && SpaceRun(data, |d.lead| + |Print(d.root)|, |data|)
  {
    hide Print, At, AllSpace, SpaceRun, Wf;
    var data := PrintDoc(d);
    AtWhole(data);
    AtSplit(data, 0, d.lead, Print(d.root) + d.trail);
    AtSplit(data, |d.lead|, Print(d.root), d.trail);
    SpaceAt(data, 0, d.lead);
    SpaceAt(data, |d.lead| + |Print(d.root)|, d.trail);
  }

  /** Behind the root value there is nothing left to find. */
  lemma SearchTrail(cfg: Config, data: Bytes, keys: Path, i: nat, level: int, keyLevel: int, lastMatched: bool)
    requires SafeLevels(level, keyLevel, |keys|) && SpaceRun(data, i, |data|)
    ensures SearchRun(cfg, data, keys, i, level, keyLevel, lastMatched) == -1
  {
    hide SearchRun;
    SearchQuiet(cfg, data, keys, i, |data|, level, keyLevel, lastMatched);
    StepEnd(cfg, data, keys, level, keyLevel, lastMatched);
  }

  /** A root that is not an object holds nothing a path of plain keys could find. */
  lemma SearchPlainRoot(cfg: Config, data: Bytes, keys: Path, i: nat, v: JVal)
    requires Wf(v) && At(data, i, Print(v)) && SpaceRun(data, i + |Print(v)|, |data|)
    requires PlainPath(keys) && keys != [] && !(v.Node? && v.obj)
    ensures SearchRun(cfg, data, keys, i, 0, 0, true) == -1
  {
    hide SearchRun, BlockEndAt, StackFrom, StrEndFrom;
    match v
    case Prim(t) =>
      PrimAt(data, i, t);
      SearchQuiet(cfg, data, keys, i, i + |t|, 0, 0, true);
      SearchTrail(cfg, data, keys, i + |t|, 0, 0, true);
    case Str(b) =>
      StrAt(data, i, b);
      NextTokSkips(data, i + |Print(v)|, |data|);
      StepKey(cfg, data, keys, i, 0, 0, true);
    case Node(_, _, _) =>
      NodeEnds(cfg, data, i, v);
      StepBracket(cfg, data, keys, i, 0, 0, true);
      SearchTrail(cfg, data, keys, i + |Print(v)|, 0, 0, true);
  }

  lemma NodeSpan(data: Bytes, i: nat, v: JVal)
    requires v.Node? && At(data, i, Print(v))
    ensures 2 <= |Print(v)| && i + |Print(v)| <= |data|
  {
    hide PrintEntries;
  }

  /** A root object, searched from its opening brace. */
  lemma SearchPlainObject(cfg: Config, data: Bytes, keys: Path, i: nat, v: JVal)
    requires Wf(v) && At(data, i, Print(v)) && SpaceRun(data, i + |Print(v)|, |data|)
    requires PlainPath(keys) && keys != [] && v.Node? && v.obj
    ensures var l := Locate(v, keys);
            && (l.None? ==> SearchRun(cfg, data, keys, i, 0, 0, true) == -1)
            && (l.Some? ==> SearchRun(cfg, data, keys, i, 0, 0, true) == i + SlotOf(v, LocOf(v, keys)))
  {
    hide SearchRun, Print, PrintEntries, SlotOf, PlainPath, Locate, At, SpaceRun, Wf, BlockFrom;
    NodeAt(data, i, v);
    NodeSpan(data, i, v);
    assert keys[0..] == keys;
    var keyLevel, lastMatched := SearchPlainInside(cfg, data, keys, i, v, 0, 0);
    StepBrace(cfg, data, keys, i, 0, 0, true);
    var close := i + |Print(v)| - 1;
    if Locate(v, keys).None? {
      StepBrace(cfg, data, keys, close, 1, keyLevel, lastMatched);
      SearchTrail(cfg, data, keys, close + 1, 0, if 0 == keyLevel then keyLevel - 1 else keyLevel, lastMatched);
    }
  }

  /**
   * For paths of plain keys the flat search is the tree search, on every well-formed document and under every
   * configuration: it returns the slot of the first complete match in document order, and -1 exactly when
   * no chain of members spells the path. Duplicate names are allowed.
   */
  lemma SearchIsTreeSearch(cfg: Config, d: Doc, keys: Path)
    requires WfDoc(d) && PlainPath(keys) && keys != []
    ensures var r := SearchKeysSpec(cfg, PrintDoc(d), keys);
            && (Locate(d.root, keys).None? ==> r == -1)
            && (Locate(d.root, keys).Some? ==> r == |d.lead| + SlotOf(d.root, LocOf(d.root, keys)))
  {
    hide SearchRun, Print, PrintDoc, SlotOf, At;
    DocAt(d);
    SearchQuiet(cfg, PrintDoc(d), keys, 0, |d.lead|, 0, 0, true);
    if d.root.Node? && d.root.obj {
      SearchPlainObject(cfg, PrintDoc(d), keys, |d.lead|, d.root);
    } else {
      SearchPlainRoot(cfg, PrintDoc(d), keys, |d.lead|, d.root);
    }
  }

  /** A path of keys and indexes that leads unambiguously to a value is found there, under every configuration. */
  lemma SearchFindsLeading(cfg: Config, d: Doc, keys: Path, l: Loc)
    requires WfDoc(d) && keys != [] && Leads(d.root, l, keys)
    ensures ValidLoc(d.root, l)
    ensures SearchKeysSpec(cfg, PrintDoc(d), keys) == |d.lead| + SlotOf(d.root, l)
  {
    hide SearchRun, Print, PrintDoc, SlotOf;
    DocAt(d);
    LeadsLocates(d.root, l, keys);
    SearchQuiet(cfg, PrintDoc(d), keys, 0, |d.lead|, 0, 0, true);
    assert keys[..|l|] == keys && keys[0..] == keys;
    SearchReaches(cfg, PrintDoc(d), keys, |d.lead|, d.root, 0, l);
  }

  /** A path to an array followed by a bracket component that selects none of its elements is not found. */
  lemma SearchMissesPastEnd(cfg: Config, d: Doc, keys: Path, l: Loc)
    requires WfDoc(d) && Reaches(d.root, l, keys) && |l| < |keys|
    ensures SearchKeysSpec(cfg, PrintDoc(d), keys) == -1
  {
    hide SearchRun, Print, PrintDoc, SlotOf;
    DocAt(d);
    SearchQuiet(cfg, PrintDoc(d), keys, 0, |d.lead|, 0, 0, true);
    assert keys[0..] == keys;
    SearchReaches(cfg, PrintDoc(d), keys, |d.lead|, d.root, 0, l);
  }

  /** Get's results for the value at l of a document. */
  function GotAt(d: Doc, l: Loc): Got
    requires ValidLoc(d.root, l)
  {
    var i := |d.lead| + OffOf(d.root, l);
    Got(Content(Sub(d.root, l)), TypeOf(Sub(d.root, l)), i, i + |Print(Sub(d.root, l))|, None)
  }

  const NOT_FOUND: Got := Got([], NotExist, -1, -1, Some(KeyPathNotFound))

  /** Every value of a document is followed by a delimiter or by the end of the text. */
  lemma {:induction false} SubBounded(data: Bytes, i: nat, v: JVal, l: Loc)
    requires Wf(v) && ValidLoc(v, l) && At(data, i, Print(v)) && Bounded(data, i + |Print(v)|)
    ensures Bounded(data, i + OffOf(v, l) + |Print(Sub(v, l))|)
    decreases |l|
  {
    hide Print, PrintEntry, PrintEntries, At;
    if l != [] {
      ChildAt(data, i, v, l[0]);
      DelimitedBounds(data, i + ValueStart(v, l[0]) + |Print(v.es[l[0]].v)|, i + End(v, l[0]));
      SubBounded(data, i + ValueStart(v, l[0]), v.es[l[0]].v, l[1..]);
    }
  }

  /** Where the value at l stands in a document. */
  lemma SubPlace(d: Doc, l: Loc)
    requires WfDoc(d) && ValidLoc(d.root, l)
    ensures var data := PrintDoc(d);
            var i := |d.lead| + OffOf(d.root, l);
            && Wf(Sub(d.root, l)) && At(data, i, Print(Sub(d.root, l))) && Bounded(data, i + |Print(Sub(d.root, l))|)
            && |d.lead| + SlotOf(d.root, l) <= i <= |data|
            && SpaceRun(data, |d.lead| + SlotOf(d.root, l), i)
            && (l == [] ==> SpaceRun(data, 0, i))
  {
    hide Print, PrintDoc, EndsPrimitive, SlotOf;
    DocAt(d);
    SubAt(PrintDoc(d), |d.lead|, d.root, l);
    TrailBounded(d);
    SubBounded(PrintDoc(d), |d.lead|, d.root, l);
  }

  /** Get started at a slot, or anywhere in the whitespace before a value, returns that value. */
  lemma GetAtSlot(cfg: Config, d: Doc, l: Loc)
    requires WfDoc(d) && ValidLoc(d.root, l)
    ensures |d.lead| + SlotOf(d.root, l) <= |PrintDoc(d)|
    ensures GetFrom(cfg, PrintDoc(d), |d.lead| + SlotOf(d.root, l)) == GotAt(d, l)
    ensures l == [] ==> GetFrom(cfg, PrintDoc(d), 0) == GotAt(d, l)
  {
    hide Print, PrintDoc, At, GetFrom, Bounded, SpaceRun, Content, TypeOf, Wf, SlotOf, OffOf;
    SubPlace(d, l);
    var i := |d.lead| + OffOf(d.root, l);
    GetValue(cfg, PrintDoc(d), |d.lead| + SlotOf(d.root, l), i, Sub(d.root, l));
    if l == [] { GetValue(cfg, PrintDoc(d), 0, i, Sub(d.root, l)); }
  }

  lemma TrailBounded(d: Doc)
    requires WfDoc(d)
    ensures |d.lead| + |Print(d.root)| <= |PrintDoc(d)| && Bounded(PrintDoc(d), |d.lead| + |Print(d.root)|)
  {
    hide Print, PrintDoc;
    DocAt(d);
  }

  /** Get on paths of plain keys is tree lookup, both when the path resolves and when it does not. */
  lemma GetIsTreeLookup(cfg: Config, d: Doc, keys: Path)
    requires WfDoc(d) && PlainPath(keys)
    ensures GetSpec(cfg, PrintDoc(d), keys)
         == if Locate(d.root, keys).Some? then GotAt(d, LocOf(d.root, keys)) else NOT_FOUND
  {
    hide Print, PrintDoc, SearchKeysSpec, GetFrom, GotAt, SlotOf;
    if keys == [] {
      GetAtSlot(cfg, d, []);
    } else {
      SearchIsTreeSearch(cfg, d, keys);
      if Locate(d.root, keys).Some? { GetAtSlot(cfg, d, LocOf(d.root, keys)); }
    }
  }

  /** Get on any path that leads unambiguously to a value returns that value. */
  lemma GetFindsLeading(cfg: Config, d: Doc, keys: Path, l: Loc)
    requires WfDoc(d) && Leads(d.root, l, keys)
    ensures ValidLoc(d.root, l) && GetSpec(cfg, PrintDoc(d), keys) == GotAt(d, l)
  {
    hide Print, PrintDoc, SearchKeysSpec, GetFrom, GotAt, SlotOf;
    LeadsLocates(d.root, l, keys);
    if keys == [] {
      GetAtSlot(cfg, d, []);
    } else {
      SearchFindsLeading(cfg, d, keys, l);
      GetAtSlot(cfg, d, l);
    }
  }

  // ---- paths that designate a value ----

  /** The path leads to l without ambiguity, or it is a path of names and l is its first match, duplicates or not. */
  ghost predicate Designates(v: JVal, l: Loc, keys: Path) {
    ValidLoc(v, l) && (Leads(v, l, keys) || (PlainPath(keys) && Locate(v, keys) == Some(l)))
  }

  lemma LeadsLength(v: JVal, l: Loc, keys: Path)
    requires Leads(v, l, keys)
    ensures |l| == |keys|
  {
  }

  lemma DesignatesValid(v: JVal, l: Loc, keys: Path)
    requires Designates(v, l, keys)
    ensures ValidLoc(v, l)
  {
  }

  lemma DesignatesLocates(v: JVal, l: Loc, keys: Path)
    requires Designates(v, l, keys)
    ensures |l| == |keys| && Locate(v, keys) == Some(l)
  {
    hide Leads, Locate;
    if Leads(v, l, keys) { LeadsLocates(v, l, keys); }
  }

  lemma SearchDesignated(cfg: Config, d: Doc, keys: Path, l: Loc)
    requires WfDoc(d) && keys != [] && Designates(d.root, l, keys)
    ensures SearchKeysSpec(cfg, PrintDoc(d), keys) == |d.lead| + SlotOf(d.root, l)
  {
    hide Leads, PrintDoc, SearchRun, Locate, SlotOf;
    if Leads(d.root, l, keys) {
      SearchFindsLeading(cfg, d, keys, l);
    } else {
      SearchIsTreeSearch(cfg, d, keys);
    }
  }

  /** Get at a path that designates a value returns it. */
  lemma DesignatesGot(cfg: Config, d: Doc, l: Loc, keys: Path)
    requires WfDoc(d) && Designates(d.root, l, keys)
    ensures |l| == |keys| && GetSpec(cfg, PrintDoc(d), keys) == GotAt(d, l)
  {
    hide Leads, PrintDoc, GetSpec, GotAt, Locate;
    DesignatesLocates(d.root, l, keys);
    if Leads(d.root, l, keys) {
      GetFindsLeading(cfg, d, keys, l);
    } else {
      GetIsTreeLookup(cfg, d, keys);
    }
  }
}
