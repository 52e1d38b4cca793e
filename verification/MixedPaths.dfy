/**
 * The flat search on paths that mix keys and indexes, exactly. A component that matched a scalar is not taken back
 * when its value turns out to be no container, so an index component behind it strays into the next array among the
 * siblings. Seek says what the search finds, Strays when that is not what the tree holds at the path.
 */
module MixedPaths {
  import opened Bytes
  import opened Strings
  import opened Escapes
  import opened Scanners
  import opened Syntax
  import opened Layout
  import opened Blocks
  import opened Lookup
  import opened TreeValues
  import opened TreeLookup

  // ---- what the search finds ----

  /** First member at or after k with the given name. */
  function MemberNamed(es: seq<Entry>, key: Bytes, k: nat): (r: Option<nat>)
    requires k <= |es|
    ensures r.Some? ==> k <= r.value < |es| && KeyIs(es[r.value], key)
    ensures forall j :: k <= j < (if r.Some? then r.value else |es|) ==> !KeyIs(es[j], key)
    decreases |es| - k
  {
    if k == |es| then None else if KeyIs(es[k], key) then Some(k) else MemberNamed(es, key, k + 1)
  }

  /** First array at or after entry k. */
  function ArrayFrom(es: seq<Entry>, k: nat): (r: Option<nat>)
    requires k <= |es|
    ensures r.Some? ==> k <= r.value < |es| && es[r.value].v.Node? && !es[r.value].v.obj
    decreases |es| - k
  {
    if k == |es| then None else if es[k].v.Node? && !es[k].v.obj then Some(k) else ArrayFrom(es, k + 1)
  }

  /** The entry the search enters for the first component: usually the right one. */
  function Entered(v: JVal, keys: Path): (r: Option<nat>)
    requires keys != [] && v.Node?
    ensures r.Some? ==> r.value < |v.es|
  {
    if !v.obj then
      match IndexOf(keys[0]) case None => None case Some(n) => if n < |v.es| then Some(n) else None
    else
      match MemberNamed(v.es, keys[0], 0)
      case None => None
      case Some(k) =>
        if |keys| > 1 && !v.es[k].v.Node? && IsIndexKey(keys[1]) then ArrayFrom(v.es, k + 1) else Some(k)
  }

  function Seek(v: JVal, keys: Path): (l: Option<Loc>)
    requires keys != []
    ensures l.Some? ==> l.value != [] && ValidLoc(v, l.value)
    decreases |keys|
  {
    if !v.Node? then None
    else match Entered(v, keys)
      case None => None
      case Some(n) =>
        if |keys| == 1 then
          assert [n][1..] == [];
          Some([n])
        else
          var below := Seek(v.es[n].v, keys[1..]);
          if below.Some? then
            assert ([n] + below.value)[1..] == below.value;
            Some([n] + below.value)
          else None
  }

  /** The path comes upon a scalar where an index is due, and the next array among the siblings answers instead. */
  predicate Strays(v: JVal, keys: Path)
    decreases |keys|
  {
    |keys| > 1 && v.Node? && Entered(v, keys).Some?
    && var n := Entered(v, keys).value;
       if v.obj && MemberNamed(v.es, keys[0], 0) != Some(n) then Seek(v.es[n].v, keys[1..]).Some?
       else Strays(v.es[n].v, keys[1..])
  }

  lemma {:induction false} LocateNamed(es: seq<Entry>, keys: Path, k: nat)
    requires keys != [] && k <= |es|
    requires forall j, j' :: 0 <= j < |es| && 0 <= j' < |es| && KeyIs(es[j], keys[0]) && KeyIs(es[j'], keys[0]) ==> j == j'
    ensures var m := MemberNamed(es, keys[0], k);
            LocateMember(es, keys, k) == if m.Some? then Under(m.value, Locate(es[m.value].v, keys[1..])) else None
    decreases |es| - k
  {
    if k < |es| {
      LocateNamed(es, keys, k + 1);
      if KeyIs(es[k], keys[0]) { assert MemberNamed(es, keys[0], k + 1).None?; }
    }
  }

  /** In a tree without duplicate names: Seek is Locate unless the search strays, and then the path has no value at all. */
  lemma {:induction false} SeekIsLocate(v: JVal, keys: Path)
    requires DupFree(v) && keys != []
    ensures !Strays(v, keys) ==> Seek(v, keys) == Locate(v, keys)
    ensures Strays(v, keys) ==> Seek(v, keys).Some? && Locate(v, keys).None?
    decreases |keys|
  {
    if v.Node? {
      if v.obj { LocateNamed(v.es, keys, 0); }
      var m := if v.obj then MemberNamed(v.es, keys[0], 0) else Entered(v, keys);
      if |keys| > 1 {
        if m.Some? { SeekIsLocate(v.es[m.value].v, keys[1..]); }
      } else if m.Some? {
        assert Locate(v.es[m.value].v, keys[1..]) == Some([]);
        assert [m.value] + [] == [m.value];
      }
    }
  }

  // ---- the search finds it ----

  /** The answer of the search for a value printed at i: the slot, or nothing. */
  function SlotAt(v: JVal, keys: Path, i: nat): int
    requires keys != []
  {
    if Seek(v, keys).Some? then i + SlotOf(v, Seek(v, keys).value) else -1
  }

  lemma SlotThrough(v: JVal, keys: Path, i: nat)
    requires keys != [] && v.Node? && Entered(v, keys).Some?
    ensures var n := Entered(v, keys).value;
            SlotAt(v, keys, i) ==
            if |keys| == 1 then i + (if v.obj then Start(v, n) + |KeyPart(true, v.es[n])| else ValueStart(v, n))
            else SlotAt(v.es[n].v, keys[1..], i + ValueStart(v, n))
  {
    var n := Entered(v, keys).value;
    if |keys| == 1 {
      assert [n][1..] == [];
    } else {
      var below := Seek(v.es[n].v, keys[1..]);
      if below.Some? { assert ([n] + below.value)[1..] == below.value; }
    }
  }

  /** The search of a printed scalar finds nothing. */
  lemma ScalarMisses(cfg: Config, t: JVal, keys: Path)
    requires Wf(t) && !t.Node? && keys != []
    ensures SearchKeysSpec(cfg, Print(t), keys) == -1
  {
    hide SearchRun, BlockEndAt, StackFrom, StrEndFrom;
    var data := Print(t);
    AtWhole(data);
    match t
    case Prim(text) =>
      PrimAt(data, 0, text);
      SearchQuiet(cfg, data, keys, 0, |data|, 0, 0, true);
      StepEnd(cfg, data, keys, 0, 0, true);
    case Str(b) =>
      StrAt(data, 0, b);
      StepKey(cfg, data, keys, 0, 0, 0, true);
  }

  /** The index branch at a printed array. */
  lemma {:induction false} SeekIndex(cfg: Config, data: Bytes, keys: Path, v: JVal, base: nat)
    requires Wf(v) && DupFree(v) && v.Node? && !v.obj && At(data, 0, Print(v)) && keys != [] && IsIndexKey(keys[0])
    ensures SearchIndex(cfg, data, keys[0], keys[1..], base) == SlotAt(v, keys, base)
    decreases v, 0, 0
  {
    hide SearchRun, Print, PrintEntry, PrintEntries, EachRoot, At, Atoi, Seek, SlotAt, SlotOf, ValueStart;
    EachArray(cfg, data, v);
    if Entered(v, keys).Some? {
      var n := Entered(v, keys).value;
      var e := v.es[n].v;
      var rest := keys[1..];
      PickedElement(cfg, data, v, n);
      SlotThrough(v, keys, base);
      if rest != [] {
        assert WfEntry(false, v.es[n]);
        SeekWhole(cfg, e, rest);
        SlotShift(e, rest, base + ValueStart(v, n));
      }
    } else {
      SeeksNothing(v, keys, base);
      NothingPicked(cfg, data, v, keys[0]);
    }
  }

  lemma NothingPicked(cfg: Config, data: Bytes, v: JVal, key: Bytes)
    requires Wf(v) && v.Node? && !v.obj && At(data, 0, Print(v))
    requires IndexOf(key).None? || IndexOf(key).value >= |v.es|
    ensures |key| >= 3 && key[0] == LBRACKET && key[|key| - 1] == RBRACKET && Atoi(key[1..|key| - 1]).Some? ==>
              Picked(data, EachRoot(cfg, data).events, Atoi(key[1..|key| - 1]).value) == None
  {
    hide EachRoot, Atoi, Print, At;
    EachArray(cfg, data, v);
  }

  lemma SeeksNothing(v: JVal, keys: Path, i: nat)
    requires keys != [] && v.Node? && Entered(v, keys).None?
    ensures SlotAt(v, keys, i) == -1
  {
  }

  lemma SlotShift(v: JVal, keys: Path, base: nat)
    requires keys != []
    ensures var r := SlotAt(v, keys, 0); SlotAt(v, keys, base) == if r < 0 then -1 else base + r
  {
  }

  /** The search of a value that stands alone, as the index branch sees its element. */
  lemma {:induction false} SeekWhole(cfg: Config, v: JVal, keys: Path)
    requires Wf(v) && DupFree(v) && keys != []
    ensures SearchKeysSpec(cfg, Print(v), keys) == SlotAt(v, keys, 0)
    decreases v, 2, 0
  {
    hide SearchRun, Print, Seek, SlotOf;
    if v.Node? {
      AtWhole(Print(v));
      assert keys[0..] == keys;
      var dead, keyLevel, lastMatched := SeekNode(cfg, Print(v), keys, 0, v, 0);
      if Seek(v, keys).None? && !dead { StepEnd(cfg, Print(v), keys, 0, keyLevel, lastMatched); }
    } else {
      ScalarMisses(cfg, v, keys);
      ScalarSeeks(v, keys);
    }
  }

  lemma ScalarSeeks(v: JVal, keys: Path)
    requires !v.Node? && keys != []
    ensures Seek(v, keys).None?
  {
  }

  /** The search ends with -1, or passes on to j with its counter away from the level. */
  predicate Gives(cfg: Config, data: Bytes, keys: Path, r: int, j: int, level: nat, dead: bool, keyLevel: int, lastMatched: bool) {
    if dead then r == -1
    else 0 <= j <= |data| && level - 1 <= keyLevel < |keys| && r == SearchRun(cfg, data, keys, j, level, keyLevel, lastMatched)
  }

  /** The search of a printed container whose way in is matched: the answer of Seek, or nothing found in it. */
  lemma {:induction false} SeekNode(cfg: Config, data: Bytes, keys: Path, i: nat, v: JVal, level: nat)
    returns (dead: bool, keyLevel: int, lastMatched: bool)
    requires Wf(v) && DupFree(v) && v.Node? && At(data, i, Print(v)) && level < |keys|
    ensures var r := SearchRun(cfg, data, keys, i, level, level, true);
            var rest := keys[level..];
            && (Seek(v, rest).Some? ==> r == i + SlotOf(v, Seek(v, rest).value))
            && (Seek(v, rest).None? ==> Gives(cfg, data, keys, r, i + |Print(v)|, level, dead, keyLevel, lastMatched))
    ensures keyLevel != level || !IsIndexKey(keys[level])
    decreases v, 1, 0
  {
    hide SearchRun, Print, PrintEntry, PrintEntries, SearchIndex, BlockEndAt, Seek, SlotOf, At;
    var rest := keys[level..];
    assert rest[0] == keys[level] && rest[1..] == keys[level + 1..];
    NodeEnds(cfg, data, i, v);
    if v.obj {
      StepBrace(cfg, data, keys, i, level, level, true);
      dead, keyLevel, lastMatched := SeekInside(cfg, data, keys, i, v, level);
      if Seek(v, rest).None? && !dead {
        NodeAt(data, i, v);
        StepBrace(cfg, data, keys, i + |Print(v)| - 1, level + 1, keyLevel, lastMatched);
        if keyLevel == level { keyLevel := level - 1; }
      } else {
        keyLevel := level - 1;
      }
    } else {
      StepBracket(cfg, data, keys, i, level, level, true);
      if IsIndexKey(keys[level]) {
        AtSlide(data, i, Print(v));
        SeekIndex(cfg, data[i..], rest, v, i);
        dead, keyLevel, lastMatched := true, level - 1, true;
      } else {
        NotIndex(keys[level]);
        SeeksNothing(v, rest, i);
        dead, keyLevel, lastMatched := false, level, true;
      }
    }
  }

  /** From behind an opening brace to the closing one. */
  lemma {:induction false} SeekInside(cfg: Config, data: Bytes, keys: Path, i: nat, v: JVal, level: nat)
    returns (dead: bool, keyLevel: int, lastMatched: bool)
    requires Wf(v) && DupFree(v) && v.Node? && v.obj && At(data, i, Print(v)) && level < |keys|
    ensures var r := SearchRun(cfg, data, keys, i + 1, level + 1, level, true);
            var rest := keys[level..];
            && (Seek(v, rest).Some? ==> r == i + SlotOf(v, Seek(v, rest).value))
            && (Seek(v, rest).None? ==> Gives(cfg, data, keys, r, i + |Print(v)| - 1, level + 1, dead, keyLevel, lastMatched))
    decreases v, 0, |v.es| + 1
  {
    hide SearchRun, Print, PrintEntry, PrintEntries, Seek, SlotOf, MemberNamed;
    NodeAt(data, i, v);
    if v.es == [] {
      SpaceAt(data, i + 1, v.ews);
      SearchQuiet(cfg, data, keys, i + 1, i + 1 + |v.ews|, level + 1, level, true);
      NoMembers(v, keys[level..]);
      dead, keyLevel, lastMatched := false, level, true;
    } else {
      EntryPosZero(v.obj, v.es);
      dead, keyLevel, lastMatched := SeekMembers(cfg, data, keys, i, v, 0, level, true);
    }
  }

  lemma NoMembers(v: JVal, keys: Path)
    requires v.Node? && v.obj && v.es == [] && keys != []
    ensures Seek(v, keys).None?
  {
  }

  /** The members from k on, none of which had the wanted name so far. */
  lemma {:induction false} SeekMembers(cfg: Config, data: Bytes, keys: Path, i: nat, v: JVal, k: nat, level: nat, matched: bool)
    returns (dead: bool, keyLevel: int, lastMatched: bool)
    requires Wf(v) && DupFree(v) && v.Node? && v.obj && At(data, i, Print(v)) && level < |keys| && k < |v.es|
    requires MemberNamed(v.es, keys[level], 0) == MemberNamed(v.es, keys[level], k)
    ensures var r := SearchRun(cfg, data, keys, i + Start(v, k), level + 1, level, matched);
            var rest := keys[level..];
            && (Seek(v, rest).Some? ==> r == i + SlotOf(v, Seek(v, rest).value))
            && (Seek(v, rest).None? ==> Gives(cfg, data, keys, r, i + |Print(v)| - 1, level + 1, dead, keyLevel, lastMatched))
    decreases v, 0, |v.es| - k, 4
  {
    hide SearchRun, Print, PrintEntry, PrintEntries, KeyPart, Seek, SlotOf, Start, End, At, Delimited, Gives;
    var e := v.es[k];
    ChildAt(data, i, v, k);
    SearchName(cfg, data, keys, i + Start(v, k), e, level + 1, level, matched);
    assert KeyIs(e, keys[level]) <==> Name(e) == keys[level];
    var q := i + End(v, k);
    if Name(e) != keys[level] {
      SearchSkips(cfg, data, keys, i + ValueStart(v, k), e.v, q, level + 1, level, false);
      if k < |v.es| - 1 {
        SearchComma(cfg, data, keys, q, level + 1, level, false);
        dead, keyLevel, lastMatched := SeekMembers(cfg, data, keys, i, v, k + 1, level, false);
      } else {
        NotNamed(v, keys[level..]);
        dead, keyLevel, lastMatched := false, level, false;
        LastGives(cfg, data, keys, i, v, level, level, false);
      }
    } else {
      dead, keyLevel, lastMatched := SeekNamed(cfg, data, keys, i, v, k, level, matched);
    }
  }

  lemma NotNamed(v: JVal, keys: Path)
    requires v.Node? && v.obj && keys != [] && MemberNamed(v.es, keys[0], 0).None?
    ensures Seek(v, keys).None?
  {
  }

  lemma LastGives(cfg: Config, data: Bytes, keys: Path, i: nat, v: JVal, level: nat, keyLevel: int, lastMatched: bool)
    requires v.Node? && At(data, i, Print(v)) && level <= keyLevel < |keys|
    ensures i + |Print(v)| - 1 <= |data| && 0 <= i + |Print(v)| - 1
    ensures Gives(cfg, data, keys, SearchRun(cfg, data, keys, i + |Print(v)| - 1, level + 1, keyLevel, lastMatched),
                  i + |Print(v)| - 1, level + 1, false, keyLevel, lastMatched)
  {
    hide SearchRun, Print;
  }

  /** The counter stands where an array among the siblings would be searched. */
  predicate Stray(keys: Path, level: nat, keyLevel: int) {
    keyLevel == level + 1 < |keys| && IsIndexKey(keys[level + 1])
  }

  /** From the comma behind member k to the value of the next member, whose name is not the wanted one. */
  lemma NextName(cfg: Config, data: Bytes, keys: Path, i: nat, v: JVal, k: nat, level: nat, keyLevel: int, matched: bool)
    requires Wf(v) && v.Node? && v.obj && At(data, i, Print(v)) && k < |v.es| - 1
    requires level <= keyLevel < |keys| && !KeyIs(v.es[k + 1], keys[level])
    ensures i + End(v, k) <= |data| && i + ValueStart(v, k + 1) <= |data|
    ensures SearchRun(cfg, data, keys, i + End(v, k), level + 1, keyLevel, matched)
         == SearchRun(cfg, data, keys, i + ValueStart(v, k + 1), level + 1, keyLevel, false)
  {
    hide SearchRun, Print, PrintEntry, PrintEntries, KeyPart, Start, End, At, Delimited;
    var e := v.es[k + 1];
    ChildAt(data, i, v, k);
    ChildAt(data, i, v, k + 1);
    SearchComma(cfg, data, keys, i + End(v, k), level + 1, keyLevel, matched);
    SearchName(cfg, data, keys, i + Start(v, k + 1), e, level + 1, keyLevel, matched);
  }

  /** Behind the value of member k, when no later member has the wanted name. */
  lemma {:induction false} Siblings(cfg: Config, data: Bytes, keys: Path, i: nat, v: JVal, k: nat, level: nat, keyLevel: int,
                                    matched: bool) returns (lastMatched: bool)
    requires Wf(v) && DupFree(v) && v.Node? && v.obj && At(data, i, Print(v)) && k < |v.es|
    requires level <= keyLevel < |keys| && MemberNamed(v.es, keys[level], k + 1).None?
    ensures i + End(v, k) <= |data| && i + |Print(v)| - 1 <= |data| && 0 <= i + |Print(v)| - 1
    ensures var r := SearchRun(cfg, data, keys, i + End(v, k), level + 1, keyLevel, matched);
            var a := ArrayFrom(v.es, k + 1);
            && (Stray(keys, level, keyLevel) && a.Some? ==>
                  r == SlotAt(v.es[a.value].v, keys[level + 1..], i + ValueStart(v, a.value)))
            && (!(Stray(keys, level, keyLevel) && a.Some?) ==>
                  r == SearchRun(cfg, data, keys, i + |Print(v)| - 1, level + 1, keyLevel, lastMatched))
    decreases v, 0, |v.es| - k, 0
  {
    hide SearchRun, SearchIndex, Print, PrintEntry, PrintEntries, KeyPart, Start, ValueStart, End, At, Delimited, SlotAt;
    ChildAt(data, i, v, k);
    lastMatched := matched;
    if k < |v.es| - 1 {
      var e := v.es[k + 1];
      NextName(cfg, data, keys, i, v, k, level, keyLevel, matched);
      ChildAt(data, i, v, k + 1);
      var p := i + ValueStart(v, k + 1);
      if e.v.Node? && !e.v.obj && Stray(keys, level, keyLevel) {
        SearchAt(cfg, data, keys, p, e.v, level + 1, false);
      } else {
        SearchSkips(cfg, data, keys, p, e.v, i + End(v, k + 1), level + 1, keyLevel, false);
        lastMatched := Siblings(cfg, data, keys, i, v, k + 1, level, keyLevel, false);
      }
    }
  }

  /** An array in the place where an index component is due: the answer comes from it and from nowhere else. */
  lemma {:induction false} SearchAt(cfg: Config, data: Bytes, keys: Path, p: nat, v: JVal, level: nat, matched: bool)
    requires Wf(v) && DupFree(v) && v.Node? && !v.obj && At(data, p, Print(v)) && level < |keys| && IsIndexKey(keys[level])
    ensures p < |data| && SearchRun(cfg, data, keys, p, level, level, matched) == SlotAt(v, keys[level..], p)
    decreases v, 0, 1
  {
    hide SearchRun, SearchIndex, Print, PrintEntries, SlotAt, At, BlockEndAt;
    NodeEnds(cfg, data, p, v);
    StepBracket(cfg, data, keys, p, level, level, matched);
    AtSlide(data, p, Print(v));
    assert keys[level..][0] == keys[level] && keys[level..][1..] == keys[level + 1..];
    SeekIndex(cfg, data[p..], keys[level..], v, p);
  }

  /** Member k has the wanted name. */
  lemma {:induction false} SeekNamed(cfg: Config, data: Bytes, keys: Path, i: nat, v: JVal, k: nat, level: nat, matched: bool)
    returns (dead: bool, keyLevel: int, lastMatched: bool)
    requires Wf(v) && DupFree(v) && v.Node? && v.obj && At(data, i, Print(v)) && level < |keys| && k < |v.es|
    requires MemberNamed(v.es, keys[level], 0) == Some(k)
    ensures var r := SearchRun(cfg, data, keys, i + Start(v, k), level + 1, level, matched);
            var rest := keys[level..];
            && (Seek(v, rest).Some? ==> r == i + SlotOf(v, Seek(v, rest).value))
            && (Seek(v, rest).None? ==> Gives(cfg, data, keys, r, i + |Print(v)| - 1, level + 1, dead, keyLevel, lastMatched))
    decreases v, 0, |v.es| - k, 3
  {
    hide SearchRun, Print, PrintEntry, PrintEntries, KeyPart, Start, End, ValueStart, At, Delimited, SlotOf, Seek, MemberNamed, ArrayFrom,
         Gives;
    var rest := keys[level..];
    var e := v.es[k];
    ChildAt(data, i, v, k);
    SearchName(cfg, data, keys, i + Start(v, k), e, level + 1, level, matched);
    OneName(v, keys[level], k);
    dead, keyLevel, lastMatched := true, level, true;
    if |rest| == 1 {
      SlotThrough(v, rest, i);
    } else if e.v.Node? {
      dead, keyLevel, lastMatched := SeekBelow(cfg, data, keys, i, v, k, level);
    } else {
      dead, lastMatched := SeekBeside(cfg, data, keys, i, v, k, level);
      keyLevel := level + 1;
    }
  }

  /** The value of the named member is a container: it is searched, and when that fails the siblings are passed. */
  lemma {:induction false} SeekBelow(cfg: Config, data: Bytes, keys: Path, i: nat, v: JVal, k: nat, level: nat)
    returns (dead: bool, keyLevel: int, lastMatched: bool)
    requires Wf(v) && DupFree(v) && v.Node? && v.obj && At(data, i, Print(v)) && level + 1 < |keys| && k < |v.es|
    requires v.es[k].v.Node? && MemberNamed(v.es, keys[level], 0) == Some(k) && MemberNamed(v.es, keys[level], k + 1).None?
    ensures i + ValueStart(v, k) <= |data|
    ensures var r := SearchRun(cfg, data, keys, i + ValueStart(v, k), level + 1, level + 1, true);
            var rest := keys[level..];
            && (Seek(v, rest).Some? ==> r == i + SlotOf(v, Seek(v, rest).value))
            && (Seek(v, rest).None? ==> Gives(cfg, data, keys, r, i + |Print(v)| - 1, level + 1, dead, keyLevel, lastMatched))
    decreases v, 0, |v.es| - k, 1
  {
    hide SearchRun, Print, PrintEntry, PrintEntries, KeyPart, Start, End, ValueStart, At, Delimited, SlotOf, Seek, MemberNamed, ArrayFrom;
    var rest := keys[level..];
    assert rest[0] == keys[level] && rest[1..] == keys[level + 1..];
    var e := v.es[k];
    ChildAt(data, i, v, k);
    var p, q := i + ValueStart(v, k), i + End(v, k);
    SlotThrough(v, rest, i);
    dead, keyLevel, lastMatched := SeekNode(cfg, data, keys, p, e.v, level + 1);
    if Seek(e.v, rest[1..]).None? && !dead {
      DelimitedQuiet(data, p + |Print(e.v)|, q);
      SearchQuiet(cfg, data, keys, p + |Print(e.v)|, q, level + 1, keyLevel, lastMatched);
      lastMatched := Siblings(cfg, data, keys, i, v, k, level, keyLevel, lastMatched);
    }
  }

  /** The value of the named member is a scalar: the next array answers when an index is due, else nothing does. */
  lemma {:induction false} SeekBeside(cfg: Config, data: Bytes, keys: Path, i: nat, v: JVal, k: nat, level: nat)
    returns (dead: bool, lastMatched: bool)
    requires Wf(v) && DupFree(v) && v.Node? && v.obj && At(data, i, Print(v)) && level + 1 < |keys| && k < |v.es|
    requires !v.es[k].v.Node? && MemberNamed(v.es, keys[level], 0) == Some(k) && MemberNamed(v.es, keys[level], k + 1).None?
    ensures i + ValueStart(v, k) <= |data|
    ensures var r := SearchRun(cfg, data, keys, i + ValueStart(v, k), level + 1, level + 1, true);
            var rest := keys[level..];
            && (Seek(v, rest).Some? ==> r == i + SlotOf(v, Seek(v, rest).value))
            && (Seek(v, rest).None? ==> Gives(cfg, data, keys, r, i + |Print(v)| - 1, level + 1, dead, level + 1, lastMatched))
    decreases v, 0, |v.es| - k, 1
  {
    hide SearchRun, Print, PrintEntry, PrintEntries, KeyPart, Start, End, ValueStart, At, Delimited, SlotOf, Seek, MemberNamed, ArrayFrom;
    var rest := keys[level..];
    assert rest[0] == keys[level] && rest[1] == keys[level + 1] && rest[1..] == keys[level + 1..];
    var e := v.es[k];
    ChildAt(data, i, v, k);
    SearchSkips(cfg, data, keys, i + ValueStart(v, k), e.v, i + End(v, k), level + 1, level + 1, true);
    lastMatched := Siblings(cfg, data, keys, i, v, k, level, level + 1, true);
    if Entered(v, rest).Some? {
      SlotThrough(v, rest, i);
      if Entered(v, rest).value == k { ScalarSeeks(e.v, rest[1..]); }
    } else {
      SeeksNothing(v, rest, i);
    }
    dead := Stray(keys, level, level + 1) && ArrayFrom(v.es, k + 1).Some?;
  }

  lemma DelimitedQuiet(data: Bytes, p: nat, q: nat)
    requires Delimited(data, p, q)
    ensures forall k :: p <= k < q ==> IsQuiet(data[k])
  {
  }

  lemma {:induction false} OneName(v: JVal, key: Bytes, k: nat)
    requires DupFree(v) && v.Node? && v.obj && k < |v.es| && KeyIs(v.es[k], key)
    ensures MemberNamed(v.es, key, k + 1).None?
  {
  }

  // ---- documents ----

  /** The search on a document without duplicate names, for every path: exactly what Seek says. */
  lemma SearchIsSeek(cfg: Config, d: Doc, keys: Path)
    requires WfDoc(d) && DupFree(d.root) && keys != []
    ensures SearchKeysSpec(cfg, PrintDoc(d), keys) == SlotAt(d.root, keys, |d.lead|)
  {
    hide SearchRun, Print, PrintDoc, Seek, SlotOf;
    var data := PrintDoc(d);
    var i := |d.lead|;
    DocAt(d);
    SearchQuiet(cfg, data, keys, 0, i, 0, 0, true);
    assert keys[0..] == keys;
    if d.root.Node? {
      var dead, keyLevel, lastMatched := SeekNode(cfg, data, keys, i, d.root, 0);
      if Seek(d.root, keys).None? && !dead { SearchTrail(cfg, data, keys, i + |Print(d.root)|, 0, keyLevel, lastMatched); }
    } else {
      ScalarSeeks(d.root, keys);
      ScalarRootMisses(cfg, data, keys, i, d.root);
    }
  }

  lemma ScalarRootMisses(cfg: Config, data: Bytes, keys: Path, i: nat, v: JVal)
    requires Wf(v) && !v.Node? && At(data, i, Print(v)) && SpaceRun(data, i + |Print(v)|, |data|) && keys != []
    ensures SearchRun(cfg, data, keys, i, 0, 0, true) == -1
  {
    hide SearchRun, BlockEndAt, StrEndFrom;
    match v
    case Prim(t) =>
      PrimAt(data, i, t);
      SearchQuiet(cfg, data, keys, i, i + |t|, 0, 0, true);
      SearchTrail(cfg, data, keys, i + |t|, 0, 0, true);
    case Str(b) =>
      StrAt(data, i, b);
      NextTokSkips(data, i + |Print(v)|, |data|);
      StepKey(cfg, data, keys, i, 0, 0, true);
  }

  /** The answer of tree lookup, as an offset. */
  function TreeAnswer(d: Doc, keys: Path): int {
    if Locate(d.root, keys).Some? then |d.lead| + SlotOf(d.root, LocOf(d.root, keys)) else -1
  }

  /**
   * For all paths of keys and indexes, on documents without duplicate names: the search is tree lookup exactly when
   * the path does not stray. A path that resolves never strays; one that strays has no value, and something is found.
   */
  lemma SearchIsLookupUnlessStray(cfg: Config, d: Doc, keys: Path)
    requires WfDoc(d) && DupFree(d.root) && keys != []
    ensures SearchKeysSpec(cfg, PrintDoc(d), keys) == TreeAnswer(d, keys) <==> !Strays(d.root, keys)
    ensures Strays(d.root, keys) ==> Locate(d.root, keys).None?
  {
    hide SearchRun, Print, PrintDoc, Seek, SlotOf, Locate, Strays;
    SearchIsSeek(cfg, d, keys);
    SeekIsLocate(d.root, keys);
  }

  /** Get on any path, on documents without duplicate names: the value in the tree, exactly when the path does not stray. */
  lemma GetIsLookupUnlessStray(cfg: Config, d: Doc, keys: Path)
    requires WfDoc(d) && DupFree(d.root) && keys != []
    ensures GetSpec(cfg, PrintDoc(d), keys)
         == (if Locate(d.root, keys).Some? then GotAt(d, LocOf(d.root, keys)) else NOT_FOUND)
       <==> !Strays(d.root, keys)
    ensures Seek(d.root, keys).Some? ==> GetSpec(cfg, PrintDoc(d), keys) == GotAt(d, Seek(d.root, keys).value)
    ensures Strays(d.root, keys) ==> Seek(d.root, keys).Some? && Locate(d.root, keys).None?
  {
    hide SearchKeysSpec, GetFrom, Print, PrintDoc, Seek, SlotOf, OffOf, Locate, Strays, Content, TypeOf;
    SearchIsSeek(cfg, d, keys);
    SeekIsLocate(d.root, keys);
    if Seek(d.root, keys).Some? { GetAtSlot(cfg, d, Seek(d.root, keys).value); }
  }

  // ---- an example ----

  function Plainly(key: Bytes, v: JVal): Entry { Entry([], key, [], [], v, []) }

  const ONE := Prim([0x31])
  const FIVE := Node(false, [], [Plainly([], Prim([0x35]))])

  /** The document {"a":1,"c":[5]}. */
  const STRAY_DOC := Doc([], Node(true, [], [Plainly([0x61], ONE), Plainly([0x63], FIVE)]), [])

  /** The path a, [0]. */
  const STRAY_PATH: Path := [[0x61], [LBRACKET, ZERO, RBRACKET]]

  lemma StrayDocWf()
    ensures WfDoc(STRAY_DOC)
  {
    assert NumberParts([0x31], 0, 1, 1) && NumberParts([0x35], 0, 1, 1);
    assert Wf(FIVE);
    assert Wf(STRAY_DOC.root);
  }

  lemma StrayNames(name: Bytes)
    ensures KeyIs(Plainly([0x61], ONE), name) <==> name == [0x61]
    ensures KeyIs(Plainly([0x63], FIVE), name) <==> name == [0x63]
  {
    assert Plain([0x61]) && Plain([0x63]);
    UnescapedIdentity(STRICT, [0x61]);
    UnescapedIdentity(STRICT, [0x63]);
  }

  lemma StrayIndex()
    ensures IndexOf(STRAY_PATH[1]) == Some(0)
  {
    var key := STRAY_PATH[1];
    assert key[1..2] == [ZERO];
    assert [ZERO][..0] == [];
    assert Integers.Nat([]) == 0;
    assert Integers.Nat([ZERO]) == 0;
  }

  /** On that document the path has no value, but the search returns an offset: that of the 5. */
  lemma StrayExample(cfg: Config)
    ensures WfDoc(STRAY_DOC) && DupFree(STRAY_DOC.root)
    ensures Locate(STRAY_DOC.root, STRAY_PATH) == None && Strays(STRAY_DOC.root, STRAY_PATH)
    ensures Seek(STRAY_DOC.root, STRAY_PATH) == Some([1, 0])
    ensures SearchKeysSpec(cfg, PrintDoc(STRAY_DOC), STRAY_PATH) == SlotOf(STRAY_DOC.root, [1, 0])
  {
    hide SearchKeysSpec, PrintDoc, Locate, SlotOf, Unescaped, IndexOf;
    StrayDocWf();
    var root := STRAY_DOC.root;
    var es := root.es;
    forall name { StrayNames(name); }
    assert DupFree(ONE) && DupFree(FIVE) && DupFree(root);
    StrayIndex();
    StrayNames(STRAY_PATH[0]);
    assert MemberNamed(es, STRAY_PATH[0], 0) == Some(0);
    assert ArrayFrom(es, 1) == Some(1);
    assert Entered(root, STRAY_PATH) == Some(1);
    assert STRAY_PATH[1..] == [STRAY_PATH[1]];
    assert Seek(FIVE, STRAY_PATH[1..]) == Some([0]);
    assert [1] + [0] == [1, 0];
    assert Seek(root, STRAY_PATH) == Some([1, 0]);
    SearchIsSeek(cfg, STRAY_DOC, STRAY_PATH);
    SeekIsLocate(root, STRAY_PATH);
  }
}
