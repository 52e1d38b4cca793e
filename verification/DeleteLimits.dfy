/**
 * When Delete removes nothing, and when it does not remove the member that Get finds: the name search decodes the wanted
 * name, the lookup of the value does not, so a wanted name that decodes to something else makes the two disagree.
 */
module DeleteLimits {
  import opened Bytes
  import opened Escapes
  import opened Scanners
  import opened Syntax
  import opened Layout
  import opened Lookup
  import opened TreeValues
  import opened TreeLookup
  import opened Contexts
  import opened Growth
  import opened Appending
  import opened Deleting
  import opened DeleteNames
  import opened DeleteLaws
  import MixedPaths

  lemma {:induction false} StartsGrow(data: Bytes, i: nat, n: JVal, j: nat, k: nat)
    requires Wf(n) && n.Node? && At(data, i, Print(n)) && j < k < |n.es|
    ensures End(n, j) < Start(n, k)
    decreases k
  {
    hide Print, PrintEntry, PrintEntries, KeyPart;
    EntryAt(data, i, n, k - 1);
    if j < k - 1 { StartsGrow(data, i, n, j, k - 1); }
  }

  /** A cut up to the end of the last entry, from anywhere, starts at or before that place. */
  lemma CutToEnd(data: Bytes, ko: nat, eo: nat, close: byte, q: nat) returns (c: nat)
    requires ko <= |data| && eo <= q < |data|
    requires TokEnd(data, eo) == eo && NextTok(data, eo) == q && data[q] != COMMA
    ensures c <= ko && CutSpec(data, ko, eo, close) == Some(data[..c] + data[eo..])
  {
    hide NextTok, LastTok, TokEnd, CommaBefore;
    var start := CutRange(data, ko, eo, close).value.0;
    var prev := LastTok(data, start);
    c := if CutSpec(data, ko, eo, close) == Some(data[..prev + 1] + data[eo..]) then prev + 1 else prev;
  }

  /** The cut that runs from the name of one member to the value of another one keeps too much or too little. */
  lemma CutElsewhere(data: Bytes, i: nat, n: JVal, k: nat, j: nat, ko: nat) returns (c: nat)
    requires CutSite(data, i, n, j, ko) && k < |n.es| && j != k && n.obj && ko < i + ValueStart(n, j)
    ensures c <= |data| && i + CutTo(n, k) <= |data| && i + ValueStart(n, k) + |Print(n.es[k].v)| <= |data|
    ensures CutSpec(data, ko, i + ValueStart(n, k) + |Print(n.es[k].v)|, RBRACE) == Some(data[..c] + data[i + CutTo(n, k)..])
    ensures c != i + CutFrom(n, k)
  {
    hide Wf, Print, At, NextTok, LastTok, TokEnd, CommaBefore, Start, End, ValueStart, CutSpec;
    TokensAfter(data, i, n, k);
    var eo := i + ValueStart(n, k) + |Print(n.es[k].v)|;
    if k < |n.es| - 1 {
      EntryBefore(data, i, n, j);
      TokensBefore(data, i, n, j, ko);
      TokenAfter(data, i, n, k);
      c := i + Start(n, j);
      CutFollowed(data, ko, eo, RBRACE, c, i + End(n, k));
      if j < k { StartsGrow(data, i, n, j, k); } else { StartsGrow(data, i, n, k, j); }
      StartBeforeEnd(n, j);
      StartBeforeEnd(n, k);
    } else {
      c := CutToEnd(data, ko, eo, RBRACE, i + End(n, k));
      LastCutFrom(data, i, n, k, j);
    }
  }

  lemma StartBeforeEnd(n: JVal, k: nat)
    requires n.Node? && k < |n.es|
    ensures Start(n, k) <= End(n, k)
  {
  }

  /** The cut of the last entry starts behind the value of its predecessor. */
  lemma LastCutFrom(data: Bytes, i: nat, n: JVal, k: nat, j: nat)
    requires Wf(n) && n.Node? && At(data, i, Print(n)) && j < k == |n.es| - 1
    ensures ValueStart(n, j) <= CutFrom(n, k)
  {
    hide Print, PrintEntry, PrintEntries, KeyPart, EntryPos;
    if j < k - 1 { StartsGrow(data, i, n, j, k - 1); }
  }

  /** The text of the document without entry k of the container at l. */
  lemma WithoutText(cfg: Config, d: Doc, l: Loc, k: nat)
    requires WfDoc(d) && ValidLoc(d.root, l)
    requires var n := Sub(d.root, l); n.Node? && n.obj && k < |n.es|
    ensures var n := Sub(d.root, l);
            var i, data := |d.lead| + OffOf(d.root, l), PrintDoc(d);
            && i + CutFrom(n, k) <= |data| && i + CutTo(n, k) <= |data|
            && PrintDoc(ReplaceDoc(d, l, Without(n, k))) == data[..i + CutFrom(n, k)] + data[i + CutTo(n, k)..]
  {
    hide Print, PrintDoc, OffOf, Start, ValueStart, CutFrom, CutTo, CutSpec, ReplaceAt, Without, Wf, At, Bounded;
    var n := Sub(d.root, l);
    var i := |d.lead| + OffOf(d.root, l);
    SubPlace(d, l);
    FirstByte(d) by { RootIsNode(d.root, l); }
    NameBlank(PrintDoc(d), i, n, k);
    CutInDoc(cfg, d, l, k, i + Start(n, k) + |n.es[k].w1|);
    CutLookup(cfg, PrintDoc(d), i, n, k, i + Start(n, k) + |n.es[k].w1|);
  }

  /** Cutting from the name of member j to the value of member k does not give the document without member k. */
  lemma CutMisses(cfg: Config, d: Doc, l: Loc, k: nat, j: nat)
    requires WfDoc(d) && ValidLoc(d.root, l)
    requires var n := Sub(d.root, l); n.Node? && n.obj && k < |n.es| && j < |n.es| && j != k
    ensures var n := Sub(d.root, l);
            var i := |d.lead| + OffOf(d.root, l);
            var ko, eo := i + Start(n, j) + |n.es[j].w1|, i + ValueStart(n, k) + |Print(n.es[k].v)|;
            && ko <= |PrintDoc(d)| && eo <= |PrintDoc(d)|
            && CutSpec(PrintDoc(d), ko, eo, RBRACE) != Some(PrintDoc(ReplaceDoc(d, l, Without(n, k))))
  {
    hide Print, PrintDoc, OffOf, Start, ValueStart, CutFrom, CutTo, CutSpec, ReplaceAt, Without, Wf, At, Bounded;
    var n := Sub(d.root, l);
    var i := |d.lead| + OffOf(d.root, l);
    var data := PrintDoc(d);
    SubPlace(d, l);
    FirstByte(d) by { RootIsNode(d.root, l); }
    WithoutText(cfg, d, l, k);
    NameBlank(data, i, n, j);
    NameBeforeValue(n, j);
    var c := CutElsewhere(data, i, n, k, j, i + Start(n, j) + |n.es[j].w1|);
    Different(data, c, i + CutFrom(n, k), i + CutTo(n, k));
  }

  /**
   * Deleting a member by a name that is decoded never yields the document without the member Get finds under it:
   * nothing is removed, or more than it, or nothing although a removal is reported.
   */
  lemma DeleteMisses(cfg: Config, d: Doc, keys: Path, l: Loc, k: nat)
    requires WfDoc(d) && keys != [] && Designates(d.root, l, keys[..|keys| - 1])
    requires var last := keys[|keys| - 1]; !IsIndexKey(last) && !Literal(cfg, last) && FirstNamed(Sub(d.root, l), k, last)
    ensures DeleteSpec(cfg, PrintDoc(d), keys) != (PrintDoc(ReplaceDoc(d, l, Without(Sub(d.root, l), k))), true)
  {
    hide Print, PrintDoc, OffOf, Start, ValueStart, CutSpec, ReplaceAt, Without, KeyStartSpec, Leads, Locate, DeleteSpec, Unescaped;
    var n := Sub(d.root, l);
    var last := keys[|keys| - 1];
    DeleteCuts(cfg, d, keys, l, k);
    var o := InnerDoc(d, keys, l);
    DocAt(o);
    var j := ObjectHits(cfg, PrintDoc(o), |o.lead|, n, last);
    if j < |n.es| {
      DecodedShorter(cfg, last);
      assert j != k;
      CutMisses(cfg, d, l, k, j);
    }
  }

  lemma NameBeforeValue(n: JVal, k: nat)
    requires n.Node? && n.obj && k < |n.es|
    ensures Start(n, k) + |n.es[k].w1| < ValueStart(n, k)
  {
  }

  lemma Different(data: Bytes, a: nat, b: nat, end: nat)
    requires a <= |data| && b <= |data| && end <= |data| && a != b
    ensures data[..a] + data[end..] != data[..b] + data[end..]
  {
    assert |data[..a] + data[end..]| == a + |data| - end && |data[..b] + data[end..]| == b + |data| - end;
  }

  // ---- names that start with a bracket ----

  /** A cut of a value that is followed by the closing bracket of another kind than the expected one. */
  lemma CutValueLast(data: Bytes, ko: nat, eo: nat, close: byte, p: nat, q: nat)
    requires 0 < p <= |data| && ko <= |data| && eo <= q < |data| && LastTok(data, ko) == p - 1
    requires TokEnd(data, eo) == eo && NextTok(data, eo) == q && data[q] != COMMA && data[eo] != close && data[p - 1] != COMMA
    ensures CutSpec(data, ko, eo, close) == Some(data[..p] + data[eo..])
  {
    hide NextTok, LastTok, TokEnd, CommaBefore;
  }

  /** The last token before the value of a member is its colon. */
  lemma ColonBefore(data: Bytes, i: nat, n: JVal, k: nat)
    requires Wf(n) && n.Node? && n.obj && At(data, i, Print(n)) && k < |n.es|
    ensures var c := i + Start(n, k) + |KeyPart(true, n.es[k])|;
            && 0 < c <= i + ValueStart(n, k) <= |data| && LastTok(data, i + ValueStart(n, k)) == c - 1 && data[c - 1] == COLON
  {
    hide Print, PrintEntry, PrintEntries, KeyPart, Start, LastTok, IsStringBody;
    ChildAt(data, i, n, k);
    EntryParts(data, i + Start(n, k), true, n.es[k]);
    KeyPlaces(data, i + Start(n, k), n.es[k]);
    var c := i + Start(n, k) + |KeyPart(true, n.es[k])|;
    LastTokSkips(data, c, i + ValueStart(n, k));
    LastTokHere(data, c);
  }

  /** Cutting a member as if it were an element leaves its name and colon behind. */
  lemma CutAsElement(data: Bytes, i: nat, n: JVal, k: nat)
    requires Wf(n) && n.Node? && n.obj && At(data, i, Print(n)) && k < |n.es|
    ensures var eo := i + ValueStart(n, k) + |Print(n.es[k].v)|;
            var c := i + Start(n, k) + |KeyPart(true, n.es[k])|;
            && eo <= |data| && c <= |data| && i + CutTo(n, k) <= |data|
            && CutSpec(data, i + ValueStart(n, k), eo, RBRACKET) == Some(data[..c] + data[i + CutTo(n, k)..])
  {
    hide Print, At, NextTok, LastTok, TokEnd, CommaBefore, Start, End, ValueStart, CutSpec, Wf, KeyPart;
    ColonBefore(data, i, n, k);
    TokensAfter(data, i, n, k);
    var c := i + Start(n, k) + |KeyPart(true, n.es[k])|;
    var eo := i + ValueStart(n, k) + |Print(n.es[k].v)|;
    if k < |n.es| - 1 {
      TokenAfter(data, i, n, k);
      CutFollowed(data, i + ValueStart(n, k), eo, RBRACKET, c, i + End(n, k));
    } else {
      CutValueLast(data, i + ValueStart(n, k), eo, RBRACKET, c, i + End(n, k));
    }
  }

  lemma CutFromBefore(data: Bytes, i: nat, n: JVal, k: nat)
    requires Wf(n) && n.Node? && n.obj && At(data, i, Print(n)) && k < |n.es|
    ensures CutFrom(n, k) < Start(n, k) + |KeyPart(true, n.es[k])|
  {
    hide Print, PrintEntry, PrintEntries, EntryPos;
    if 0 < k == |n.es| - 1 { EntryAt(data, i, n, k - 1); }
  }

  /**
   * Deleting the member that Get finds under a name that starts with a bracket: the name is taken for an index, and only
   * the value is removed, with the comma behind it. Its name and colon stay, so this is never the document without it.
   */
  lemma DeleteBracketName(cfg: Config, d: Doc, keys: Path, l: Loc, k: nat)
    requires WfDoc(d) && keys != [] && IsIndexKey(keys[|keys| - 1])
    requires ValidLoc(d.root, l) && ValidLoc(d.root, l + [k]) && GetSpec(cfg, PrintDoc(d), keys) == GotAt(d, l + [k])
    requires var n := Sub(d.root, l); n.Node? && n.obj && k < |n.es|
    ensures var n := Sub(d.root, l);
            var i, data := |d.lead| + OffOf(d.root, l), PrintDoc(d);
            var c := i + Start(n, k) + |KeyPart(true, n.es[k])|;
            && c <= |data| && i + CutTo(n, k) <= |data|
            && DeleteSpec(cfg, data, keys) == (data[..c] + data[i + CutTo(n, k)..], true)
            && DeleteSpec(cfg, data, keys) != (PrintDoc(ReplaceDoc(d, l, Without(n, k))), true)
  {
    hide Print, PrintDoc, OffOf, Start, ValueStart, CutFrom, CutTo, CutSpec, ReplaceAt, Without, Wf, At, Bounded, GetSpec, DeleteSpec,
         KeyPart, Content, TypeOf, IsIndexKey;
    var n := Sub(d.root, l);
    var i := |d.lead| + OffOf(d.root, l);
    var data := PrintDoc(d);
    SubPlace(d, l);
    SubInto(d.root, l, k);
    DeleteByIndex(cfg, data, keys);
    CutAsElement(data, i, n, k);
    CutFromBefore(data, i, n, k);
    WithoutText(cfg, d, l, k);
    Different(data, i + Start(n, k) + |KeyPart(true, n.es[k])|, i + CutFrom(n, k), i + CutTo(n, k));
  }

  // ---- exactly when Delete removes what Get finds ----

  lemma {:induction false} LeadsOut(v: JVal, l: Loc, k: nat, keys: Path)
    requires keys != [] && ValidLoc(v, l) && Leads(v, l + [k], keys) && Sub(v, l).Node? && Sub(v, l).obj
    ensures Leads(v, l, keys[..|keys| - 1]) && FirstNamed(Sub(v, l), k, keys[|keys| - 1])
    decreases |l|
  {
    hide KeyIs, IndexOf;
    if l == [] {
      assert l + [k] == [k];
    } else {
      TailOfSum(l, [k]);
      assert keys[..|keys| - 1][1..] == keys[1..][..|keys| - 2];
      LeadsOut(v.es[l[0]].v, l[1..], k, keys[1..]);
    }
  }

  lemma {:induction false} FollowsOut(v: JVal, l: Loc, k: nat, keys: Path)
    requires keys != [] && ValidLoc(v, l) && ValidLoc(v, l + [k]) && Follows(v, l + [k], keys)
    ensures Follows(v, l, keys[..|keys| - 1])
    ensures var n := Sub(v, l);
            n.Node? && k < |n.es| && (if n.obj then KeyIs(n.es[k], keys[|keys| - 1]) else IndexOf(keys[|keys| - 1]) == Some(k))
    decreases |l|
  {
    hide KeyIs, IndexOf;
    if l == [] {
      assert l + [k] == [k];
    } else {
      TailOfSum(l, [k]);
      assert keys[..|keys| - 1][1..] == keys[1..][..|keys| - 2];
      FollowsOut(v.es[l[0]].v, l[1..], k, keys[1..]);
    }
  }

  lemma {:induction false} BeforeLast(a: Loc, b: Loc, j: nat, k: nat)
    requires |a| == |b|
    ensures Before(a + [j], b + [k]) <==> Before(a, b) || (a == b && j < k)
    decreases |a|
  {
    if a == [] {
      assert a + [j] == [j] && b + [k] == [k] && [j][1..] == [] && [k][1..] == [];
    } else {
      TailOfSum(a, [j]);
      TailOfSum(b, [k]);
      BeforeLast(a[1..], b[1..], j, k);
      assert a == b <==> a[0] == b[0] && a[1..] == b[1..] by { assert a == [a[0]] + a[1..] && b == [b[0]] + b[1..]; }
    }
  }

  lemma {:induction false} BeforeStrict(a: Loc, b: Loc)
    requires |a| == |b| && Before(a, b)
    ensures a != b && !Before(b, a)
    decreases |a|
  {
    if a[0] == b[0] { BeforeStrict(a[1..], b[1..]); }
  }

  /** The first match of a whole path is the first member of its name in the container it lies in. */
  lemma FirstMatch(v: JVal, l: Loc, k: nat, keys: Path)
    requires keys != [] && ValidLoc(v, l) && Locate(v, keys) == Some(l + [k]) && Sub(v, l).Node? && Sub(v, l).obj
    ensures FirstNamed(Sub(v, l), k, keys[|keys| - 1]) && Follows(v, l, keys[..|keys| - 1])
  {
    hide Locate, KeyIs, Follows, ValidLoc, Sub, Before;
    var outer, last := keys[..|keys| - 1], keys[|keys| - 1];
    var n := Sub(v, l);
    LocateSound(v, keys);
    FollowsOut(v, l, k, keys);
    assert outer + [last] == keys;
    forall m | 0 <= m < k ensures !KeyIs(n.es[m], last) {
      if KeyIs(n.es[m], last) {
        FollowsFurther(v, l, outer, m, last);
        FirstOfSiblings(v, l, k, m, keys);
      }
    }
  }

  lemma FirstOfSiblings(v: JVal, l: Loc, k: nat, m: nat, keys: Path)
    requires Locate(v, keys) == Some(l + [k]) && ValidLoc(v, l + [m]) && Follows(v, l + [m], keys)
    ensures k <= m
  {
    hide Locate, Follows, ValidLoc, Before;
    LocateFirst(v, keys, l + [m]);
    assert (l + [m])[|l|] == m && (l + [k])[|l|] == k;
    if Before(l + [k], l + [m]) {
      BeforeLast(l, l, k, m);
      NotBeforeItself(l);
    }
  }

  lemma NotBeforeItself(l: Loc)
    ensures !Before(l, l)
  {
    if Before(l, l) { BeforeStrict(l, l); }
  }

  /** When the path without its last component has an earlier match, that one lacks the last component. */
  lemma EarlierLacks(v: JVal, l: Loc, k: nat, keys: Path)
    requires keys != [] && ValidLoc(v, l) && Locate(v, keys) == Some(l + [k]) && Follows(v, l, keys[..|keys| - 1])
    requires Locate(v, keys[..|keys| - 1]) != Some(l)
    ensures Locate(v, keys[..|keys| - 1]).Some? && Locate(Sub(v, LocOf(v, keys[..|keys| - 1])), [keys[|keys| - 1]]).None?
  {
    hide Locate, KeyIs, IndexOf;
    var outer, last := keys[..|keys| - 1], keys[|keys| - 1];
    LocateFirst(v, outer, l);
    LocateSound(v, outer);
    var e := LocOf(v, outer);
    assert Locate(v, outer) == Some(e);
    var n := Sub(v, e);
    if Locate(n, [last]).Some? {
      LocateSound(n, [last]);
      var m := Locate(n, [last]).value[0];
      FollowsFurther(v, e, outer, m, last);
      assert outer + [last] == keys;
      LocateFirst(v, keys, e + [m]);
      BeforeLast(e, l, m, k);
      BeforeStrict(e + [m], l + [k]);
    }
  }

  /** What the path of the container designates, given what the whole path designates. */
  lemma MemberDesignated(v: JVal, l: Loc, k: nat, keys: Path)
    requires keys != [] && ValidLoc(v, l) && Designates(v, l + [k], keys) && Sub(v, l).Node? && Sub(v, l).obj
    ensures FirstNamed(Sub(v, l), k, keys[|keys| - 1])
    ensures !Designates(v, l, keys[..|keys| - 1]) ==>
              PlainPath(keys) && Locate(v, keys) == Some(l + [k]) && Follows(v, l, keys[..|keys| - 1])
              && Locate(v, keys[..|keys| - 1]) != Some(l)
  {
    hide Leads, Locate, Follows, KeyIs;
    if Leads(v, l + [k], keys) { LeadsOut(v, l, k, keys); } else { FirstMatch(v, l, k, keys); }
  }

  /**
   * Delete removes exactly the member that Get finds if and only if its name neither starts with a bracket nor is decoded,
   * and the rest of the path has no earlier match than the container of that member.
   */
  lemma DeleteMemberExactly(cfg: Config, d: Doc, keys: Path, l: Loc, k: nat)
    requires WfDoc(d) && keys != [] && ValidLoc(d.root, l) && Designates(d.root, l + [k], keys)
    requires Sub(d.root, l).Node? && Sub(d.root, l).obj
    ensures GetSpec(cfg, PrintDoc(d), keys) == GotAt(d, l + [k]) && k < |Sub(d.root, l).es|
    ensures DeleteSpec(cfg, PrintDoc(d), keys) == (PrintDoc(ReplaceDoc(d, l, Without(Sub(d.root, l), k))), true)
       <==> Literal(cfg, keys[|keys| - 1]) && !IsIndexKey(keys[|keys| - 1]) && Designates(d.root, l, keys[..|keys| - 1])
  {
    hide *;
    MemberDesignated(d.root, l, k, keys);
    DesignatesGot(cfg, d, l + [k], keys);
    FirstInRange(Sub(d.root, l), k, keys[|keys| - 1]);
    DesignatesValid(d.root, l + [k], keys);
    if IsIndexKey(keys[|keys| - 1]) {
      DeleteBracketName(cfg, d, keys, l, k);
    } else if !Designates(d.root, l, keys[..|keys| - 1]) {
      EarlierLacks(d.root, l, k, keys);
      DeleteEarlier(cfg, d, keys);
    } else if Literal(cfg, keys[|keys| - 1]) {
      DeleteMember(cfg, d, keys, l, k);
    } else {
      DeleteMisses(cfg, d, keys, l, k);
    }
  }

  lemma FirstInRange(n: JVal, k: nat, key: Bytes)
    requires FirstNamed(n, k, key)
    ensures n.Node? && n.obj && k < |n.es|
  {
  }

  /** Delete looks into the first match of the path without its last component, and gives up when that lacks it. */
  lemma DeleteEarlier(cfg: Config, d: Doc, keys: Path)
    requires WfDoc(d) && keys != [] && PlainPath(keys) && Locate(d.root, keys[..|keys| - 1]).Some?
    requires Locate(Sub(d.root, LocOf(d.root, keys[..|keys| - 1])), [keys[|keys| - 1]]).None?
    ensures DeleteSpec(cfg, PrintDoc(d), keys) == (PrintDoc(d), false)
  {
    hide PrintDoc, GetSpec, DeleteSpec, Locate, GotAt, Wf;
    GetIsTreeLookup(cfg, d, keys[..|keys| - 1]);
    LocateNothing(d.root, []);
    DeleteMissingMember(cfg, d, keys, LocOf(d.root, keys[..|keys| - 1]));
  }

  // ---- nothing to delete ----

  /** Delete gives up when the value of the last name is not found in the text it looks at. */
  lemma GivesUp(cfg: Config, data: Bytes, keys: Path, start: nat, end: nat)
    requires keys != [] && !IsIndexKey(keys[|keys| - 1]) && start <= end <= |data|
    requires var outer := GetSpec(cfg, data, keys[..|keys| - 1]);
             if |keys| == 1 then start == 0 && end == |data| else outer.err.None? && outer.off == start && outer.end == end
    requires GetSpec(cfg, data[start..end], [keys[|keys| - 1]]).err.Some?
    ensures DeleteSpec(cfg, data, keys) == (data, false)
  {
    hide GetSpec, KeyStartSpec, CutSpec;
  }

  /** And when the value of the whole path, or the container of the last name, is not found. */
  lemma GivesUpEarly(cfg: Config, data: Bytes, keys: Path)
    requires keys != []
    requires var looked := if IsIndexKey(keys[|keys| - 1]) then keys else keys[..|keys| - 1];
             looked != [] && GetSpec(cfg, data, looked).err.Some?
    ensures DeleteSpec(cfg, data, keys) == (data, false)
  {
    hide GetSpec, KeyStartSpec, CutSpec;
  }

  /** The path leads into a value that has no member of the last name. */
  lemma DeleteMissingMember(cfg: Config, d: Doc, keys: Path, l: Loc)
    requires WfDoc(d) && keys != [] && ValidLoc(d.root, l) && !IsIndexKey(keys[|keys| - 1])
    requires GetSpec(cfg, PrintDoc(d), keys[..|keys| - 1]) == GotAt(d, l) && (|keys| == 1 ==> l == [])
    requires Locate(Sub(d.root, l), [keys[|keys| - 1]]).None?
    ensures DeleteSpec(cfg, PrintDoc(d), keys) == (PrintDoc(d), false)
  {
    hide Print, PrintDoc, OffOf, GetSpec, DeleteSpec, Content, TypeOf, Locate, Wf, Bounded;
    var n := Sub(d.root, l);
    var last := keys[|keys| - 1];
    var data := PrintDoc(d);
    SubPlace(d, l);
    if |keys| == 1 {
      WholeSlice(data);
      GetIsTreeLookup(cfg, d, [last]);
      GivesUp(cfg, data, keys, 0, |data|);
    } else {
      var i := |d.lead| + OffOf(d.root, l);
      PrintAlone(n);
      AtSlice(data, i, Print(n));
      GetIsTreeLookup(cfg, Doc([], n, []), [last]);
      GivesUp(cfg, data, keys, i, i + |Print(n)|);
    }
  }

  lemma {:induction false} FollowsFurther(v: JVal, l: Loc, keys: Path, k: nat, key: Bytes)
    requires ValidLoc(v, l) && Follows(v, l, keys)
    requires var n := Sub(v, l);
             n.Node? && k < |n.es| && if n.obj then KeyIs(n.es[k], key) else IndexOf(key) == Some(k)
    ensures ValidLoc(v, l + [k]) && Follows(v, l + [k], keys + [key])
    decreases |l|
  {
    hide IndexOf, KeyIs;
    if l == [] {
      assert l + [k] == [k] && keys + [key] == [key] && [k][1..] == [] && [key][1..] == [];
    } else {
      FollowsFurther(v.es[l[0]].v, l[1..], keys[1..], k, key);
      TailOfSum(l, [k]);
      TailOfSum(keys, [key]);
    }
  }

  /** A path that resolves up to its last component, and not with it, ends in a value that lacks that component. */
  lemma LacksLast(v: JVal, keys: Path, key: Bytes)
    requires Locate(v, keys).Some? && Locate(v, keys + [key]).None?
    ensures Locate(Sub(v, LocOf(v, keys)), [key]).None?
  {
    hide Locate, IndexOf, KeyIs;
    LocateSound(v, keys);
    var l := Locate(v, keys).value;
    var n := Sub(v, l);
    if Locate(n, [key]).Some? {
      LocateSound(n, [key]);
      var k := Locate(n, [key]).value[0];
      FollowsFurther(v, l, keys, k, key);
      LocateFirst(v, keys + [key], l + [k]);
    }
  }

  /** Delete fails when the lookup of the container does not, but finds nothing of the last name in it. */
  lemma MissingBelow(cfg: Config, d: Doc, keys: Path)
    requires WfDoc(d) && keys != [] && !IsIndexKey(keys[|keys| - 1]) && Locate(d.root, keys).None?
    requires var outer := keys[..|keys| - 1];
             var g := GetSpec(cfg, PrintDoc(d), outer);
             if Locate(d.root, outer).None? then g.err.Some? else g == GotAt(d, LocOf(d.root, outer))
    ensures DeleteSpec(cfg, PrintDoc(d), keys) == (PrintDoc(d), false)
  {
    hide PrintDoc, GetSpec, DeleteSpec, Locate, GotAt, Wf, IsIndexKey;
    var outer := keys[..|keys| - 1];
    LocateNothing(d.root, []);
    if Locate(d.root, outer).Some? {
      assert outer + [keys[|keys| - 1]] == keys;
      LacksLast(d.root, outer, keys[|keys| - 1]);
      DeleteMissingMember(cfg, d, keys, LocOf(d.root, outer));
    } else {
      GivesUpEarly(cfg, PrintDoc(d), keys);
    }
  }

  /** Deleting what is not there, by a path of names: the input comes back, and nothing is reported. Duplicates allowed. */
  lemma DeleteMissing(cfg: Config, d: Doc, keys: Path)
    requires WfDoc(d) && keys != [] && PlainPath(keys) && Locate(d.root, keys).None?
    ensures DeleteSpec(cfg, PrintDoc(d), keys) == (PrintDoc(d), false)
  {
    hide PrintDoc, GetSpec, DeleteSpec, Locate, GotAt, Wf;
    GetIsTreeLookup(cfg, d, keys[..|keys| - 1]);
    MissingBelow(cfg, d, keys);
  }

  lemma MixedGet(cfg: Config, d: Doc, keys: Path)
    requires WfDoc(d) && DupFree(d.root) && keys != [] && !MixedPaths.Strays(d.root, keys)
    ensures Locate(d.root, keys).None? ==> GetSpec(cfg, PrintDoc(d), keys).err.Some?
    ensures Locate(d.root, keys).Some? ==> GetSpec(cfg, PrintDoc(d), keys) == GotAt(d, LocOf(d.root, keys))
  {
    hide PrintDoc, GetSpec, Locate, GotAt, MixedPaths.Strays, MixedPaths.Seek, DupFree, Wf;
    MixedPaths.GetIsLookupUnlessStray(cfg, d, keys);
  }

  /**
   * The same for paths with indexes, on documents without duplicate names: unless the part of the path that is looked up
   * strays, and Delete is led to another value.
   */
  lemma DeleteMissingMixed(cfg: Config, d: Doc, keys: Path)
    requires WfDoc(d) && DupFree(d.root) && keys != [] && Locate(d.root, keys).None?
    requires var looked := if IsIndexKey(keys[|keys| - 1]) then keys else keys[..|keys| - 1];
             looked == [] || !MixedPaths.Strays(d.root, looked)
    ensures DeleteSpec(cfg, PrintDoc(d), keys) == (PrintDoc(d), false)
  {
    hide *;
    var last, outer := keys[|keys| - 1], keys[..|keys| - 1];
    if IsIndexKey(last) {
      MixedGet(cfg, d, keys);
      GivesUpEarly(cfg, PrintDoc(d), keys);
    } else if outer == [] {
      SinglePlain(keys);
      DeleteMissing(cfg, d, keys);
    } else {
      MixedGet(cfg, d, outer);
      MissingBelow(cfg, d, keys);
    }
  }

  /** A value inside another one ends before it does. */
  lemma InsideEnds(data: Bytes, i: nat, v: JVal, l: Loc)
    requires Wf(v) && ValidLoc(v, l) && l != [] && At(data, i, Print(v))
    ensures OffOf(v, l) + |Print(Sub(v, l))| < |Print(v)|
  {
    hide Print, PrintEntry, PrintEntries, KeyPart, At;
    var e := v.es[l[0]];
    ChildAt(data, i, v, l[0]);
    SubAt(data, i + ValueStart(v, l[0]), e.v, l[1..]);
  }

  /** Whatever value Get finds inside a document, Delete removes something. */
  lemma CutsSomething(d: Doc, l: Loc, close: byte)
    requires WfDoc(d) && ValidLoc(d.root, l) && l != []
    ensures var i := |d.lead| + OffOf(d.root, l);
            var eo := i + |Print(Sub(d.root, l))|;
            eo <= |PrintDoc(d)| && CutSpec(PrintDoc(d), i, eo, close).Some?
  {
    hide Print, PrintDoc, OffOf, NextTok, LastTok, CommaBefore;
    DocAt(d);
    SubPlace(d, l);
    InsideEnds(PrintDoc(d), |d.lead|, d.root, l);
  }

  lemma StrayGet(cfg: Config, d: Doc, keys: Path)
    requires WfDoc(d) && DupFree(d.root) && keys != [] && MixedPaths.Strays(d.root, keys)
    ensures MixedPaths.Seek(d.root, keys).Some?
    ensures GetSpec(cfg, PrintDoc(d), keys) == GotAt(d, MixedPaths.Seek(d.root, keys).value)
  {
    hide PrintDoc, GetSpec, Locate, GotAt, MixedPaths.Strays, MixedPaths.Seek, DupFree, Wf;
    MixedPaths.GetIsLookupUnlessStray(cfg, d, keys);
  }

  /** With an index as the last component, nothing is removed for a missing path if and only if the path does not stray. */
  lemma DeleteMissingIndex(cfg: Config, d: Doc, keys: Path)
    requires WfDoc(d) && DupFree(d.root) && keys != [] && IsIndexKey(keys[|keys| - 1]) && Locate(d.root, keys).None?
    ensures DeleteSpec(cfg, PrintDoc(d), keys) == (PrintDoc(d), false) <==> !MixedPaths.Strays(d.root, keys)
  {
    hide Print, PrintDoc, GetSpec, CutSpec, Locate, MixedPaths.Strays, MixedPaths.Seek, DupFree, Wf, OffOf, DeleteSpec, IsIndexKey,
         Content, TypeOf;
    if MixedPaths.Strays(d.root, keys) {
      StrayGet(cfg, d, keys);
      DeleteByIndex(cfg, PrintDoc(d), keys);
      CutsSomething(d, MixedPaths.Seek(d.root, keys).value, RBRACKET);
    } else {
      DeleteMissingMixed(cfg, d, keys);
    }
  }

  lemma SinglePlain(keys: Path)
    requires |keys| == 1 && !IsIndexKey(keys[0])
    ensures PlainPath(keys)
  {
  }
}
