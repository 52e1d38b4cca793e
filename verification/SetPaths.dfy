/**
 * Set on paths that mix names and indexes, on documents without duplicate names: what is created for a missing path, when
 * Get then finds it, and what a path that strays overwrites instead.
 */
module SetPaths {
  import opened Bytes
  import opened Strings
  import opened Escapes
  import opened Scanners
  import opened Syntax
  import opened Layout
  import opened Lookup
  import opened TreeValues
  import opened TreeLookup
  import opened MixedPaths
  import opened Contexts
  import opened Insert
  import opened Setting
  import opened Growth
  import opened Coercion
  import opened Appending

  // ---- straying ----

  /** Setting a path that strays overwrites the value that the search comes upon; every other byte stays. */
  lemma SetStrays(cfg: Config, d: Doc, keys: Path, w: JVal)
    requires WfDoc(d) && Wf(w) && DupFree(d.root) && keys != [] && Strays(d.root, keys)
    ensures Locate(d.root, keys) == None && Seek(d.root, keys).Some?
    ensures SetSpec(cfg, PrintDoc(d), Print(w), keys) == Done(PrintDoc(ReplaceDoc(d, Seek(d.root, keys).value, w)))
  {
    hide Print, PrintDoc, GetSpec, OffOf, ReplaceAt, Strays, Seek, Locate, DupFree, Wf, Content, TypeOf;
    GetIsLookupUnlessStray(cfg, d, keys);
    PrintReplaced(d, Seek(d.root, keys).value, w);
  }

  /** {"a":1,"c":[5]} and the path a, [0], which has no value: Set overwrites the 5. */
  lemma SetStraysExample(cfg: Config, w: JVal)
    requires Wf(w)
    ensures Locate(STRAY_DOC.root, STRAY_PATH) == None && ValidLoc(STRAY_DOC.root, [1, 0])
    ensures SetSpec(cfg, PrintDoc(STRAY_DOC), Print(w), STRAY_PATH) == Done(PrintDoc(ReplaceDoc(STRAY_DOC, [1, 0], w)))
  {
    hide SetSpec, PrintDoc, ReplaceAt;
    StrayExample(cfg);
    SetStrays(cfg, STRAY_DOC, STRAY_PATH, w);
  }

  // ---- what is created ----

  /** The first depth components lead to l, the value there lacks the next one, and the search does not stray. */
  ghost predicate Lacks(d: Doc, keys: Path, depth: nat, l: Loc) {
    && depth < |keys| && DupFree(d.root) && Leads(d.root, l, keys[..depth]) && ValidLoc(d.root, l)
    && Locate(d.root, keys[..depth + 1]) == None
    && !Strays(d.root, keys) && !Strays(d.root, keys[..depth + 1])
  }

  lemma NoneFound(cfg: Config, d: Doc, keys: Path)
    requires WfDoc(d) && DupFree(d.root) && keys != [] && Locate(d.root, keys) == None && !Strays(d.root, keys)
    ensures GetSpec(cfg, PrintDoc(d), keys) == NOT_FOUND
  {
    hide PrintDoc, GetSpec, Strays, Seek, DupFree, Wf, GotAt, Locate;
    GetIsLookupUnlessStray(cfg, d, keys);
  }

  lemma LacksPlan(cfg: Config, d: Doc, keys: Path, depth: nat, l: Loc)
    requires WfDoc(d) && Lacks(d, keys, depth, l)
    ensures GetSpec(cfg, PrintDoc(d), keys) == NOT_FOUND
    ensures PrefixDepth(cfg, PrintDoc(d), keys, 0) == depth
    ensures depth > 0 ==> GetSpec(cfg, PrintDoc(d), keys[..depth]) == GotAt(d, l)
    ensures |l| == depth
  {
    hide GetSpec, PrintDoc, GotAt, PrefixDepth, Strays, Locate, Leads, DupFree, Wf;
    if Locate(d.root, keys).Some? { LocatePrefix(d.root, keys, depth + 1); }
    NoneFound(cfg, d, keys);
    NoneFound(cfg, d, keys[..depth + 1]);
    GetFindsLeading(cfg, d, keys[..depth], l);
    LeadsLength(d.root, l, keys[..depth]);
    forall j | 0 < j <= depth ensures GetSpec(cfg, PrintDoc(d), keys[..j]).err.None? {
      assert keys[..depth][..j] == keys[..j];
      LeadsPrefix(d.root, l, keys[..depth], j);
      GetFindsLeading(cfg, d, keys[..j], l[..j]);
      GotAtOk(d, l[..j]);
    }
    DepthIs(cfg, PrintDoc(d), keys, 0, depth);
  }

  /**
   * What takes the place of the value at which the path breaks off: a name is added to an object, an index to an array that
   * has elements; in any other case the chain of the missing components replaces the value.
   */
  function Created(n: JVal, top: bool, keys: Path, w: JVal): JVal
    requires keys != []
  {
    var sub := Nest(keys[1..], w);
    if IsIndexKey(keys[0]) && n.Node? && !n.obj && n.es != [] then Grown(n, Elem([], sub))
    else if !IsIndexKey(keys[0]) && n.Node? && n.obj then Inserted(n, top, keys[0], sub)
    else Nest(keys, w)
  }

  function CreatedDoc(d: Doc, keys: Path, depth: nat, l: Loc, w: JVal): Doc
    requires depth < |keys| && ValidLoc(d.root, l)
  {
    ReplaceDoc(d, l, Created(Sub(d.root, l), depth == 0, keys[depth..], w))
  }

  /** The component of an index, behind a comma or on its own. */
  lemma ComponentIsElement(keys: Path, w: JVal, wrap: bool)
    requires keys != [] && IsIndexKey(keys[0])
    ensures Component(keys, Print(w), true, false) == [COMMA] + Print(Nest(keys[1..], w))
    ensures Component(keys, Print(w), false, wrap) == Print(Nest(keys, w))
  {
    hide Print, Opens, Closes, Nest;
    PrintNest(keys[1..], w);
    NestStep(keys, w);
    OneElement(keys);
    ElementGroup(Opens(keys[1..]), Print(w), Closes(keys[1..]));
  }

  lemma OneElement(keys: Path)
    requires keys != [] && IsIndexKey(keys[0])
    ensures Opens(keys[..1]) == [LBRACKET] && Closes(keys[..1]) == [RBRACKET]
  {
    assert keys[..1][1..] == [];
  }

  lemma ElementGroup(a: Bytes, b: Bytes, c: Bytes)
    ensures ([COMMA] + ([] + [])) + a + b + c + ([] + []) == [COMMA] + (a + b + c)
    ensures ([] + [LBRACKET]) + a + b + c + ([RBRACKET] + []) == [LBRACKET] + (a + b + c) + [RBRACKET]
  {
  }

  // The five places an index can be missing from.

  lemma PlanFreshArray(d: Doc, key: Bytes, l: Loc) returns (wrap: bool)
    requires WfDoc(d) && ValidLoc(d.root, l) && IsIndexKey(key)
    requires var n := Sub(d.root, l); !(n.Node? && !n.obj && n.es != [])
    ensures var g := GotAt(d, l);
            && 0 <= g.off < g.end <= |PrintDoc(d)|
            && PlanBelow(PrintDoc(d), key, g) == Plan(g.off, g.end, false, wrap)
  {
    hide Print, PrintDoc, NextTok, OffOf, Content, TypeOf;
    var n := Sub(d.root, l);
    wrap := !(n.Node? && n.obj);
    SubPlace(d, l);
    PrintNonempty(n);
    FirstValue(PrintDoc(d), GotAt(d, l).off, n);
    if n.Node? {
      FirstInside(PrintDoc(d), GotAt(d, l).off, n);
    } else {
      NoBrace(PrintDoc(d), GotAt(d, l).off, n);
    }
  }

  lemma PlanRootFresh(cfg: Config, d: Doc, keys: Path)
    requires WfDoc(d) && d.root.Node? && (d.root.obj || d.root.es == []) && keys != [] && IsIndexKey(keys[0])
    ensures var i := |d.lead|;
            PlanTop(cfg, PrintDoc(d), keys) == Planned(Plan(i, i + |Print(d.root)|, false, false))
  {
    hide Print, PrintDoc, NextTok, LastTok, BlockFrom;
    RootTokens(d);
    BlockOfRoot(cfg, d);
    if !d.root.obj { RootBlank(d); }
  }

  /** Nothing but whitespace lies inside an empty root array. */
  lemma RootBlank(d: Doc)
    requires WfDoc(d) && d.root.Node? && !d.root.obj && d.root.es == []
    ensures var a, b := |d.lead| + 1, |d.lead| + |Print(d.root)| - 1;
            a <= b <= |PrintDoc(d)| && LastTok(PrintDoc(d)[a..b], b - a) == -1
  {
    hide Print, PrintDoc;
    DocAt(d);
    var data, i := PrintDoc(d), |d.lead|;
    NodeAt(data, i, d.root);
    SpaceAt(data, i + 1, d.root.ews);
    var inside := data[i + 1..i + |Print(d.root)| - 1];
    forall k | 0 <= k < |inside| ensures IsSpace(inside[k]) { assert inside[k] == data[i + 1 + k]; }
    LastTokSkips(inside, 0, |inside|);
  }

  // ---- the splices ----

  /** Growing the array at l by a nest. */
  lemma GrownSplice(d: Doc, keys: Path, l: Loc, w: JVal)
    requires WfDoc(d) && keys != [] && IsIndexKey(keys[0]) && ValidLoc(d.root, l)
    requires var n := Sub(d.root, l); n.Node? && !n.obj && n.es != []
    ensures var close := GotAt(d, l).end - 1;
            && 0 <= close <= |PrintDoc(d)|
            && Splice(PrintDoc(d), close, close, Component(keys, Print(w), true, false))
               == PrintDoc(ReplaceDoc(d, l, Created(Sub(d.root, l), false, keys, w)))
  {
    hide Print, PrintDoc, ReplaceAt, Component, Nest, OffOf, PrintEntry;
    var n := Sub(d.root, l);
    var sub := Nest(keys[1..], w);
    var m := |Print(n)| - 1;
    ComponentIsElement(keys, w, false);
    PrintGrown(n, Elem([], sub));
    PrintElem([], sub);
    assert [] + Print(sub) == Print(sub);
    NodeSize(n);
    SpliceWithin(d, l, m, m, [COMMA] + Print(sub), Grown(n, Elem([], sub)));
  }

  /** Replacing the value at l by a chain. */
  lemma FreshSplice(d: Doc, keys: Path, l: Loc, w: JVal, wrap: bool)
    requires WfDoc(d) && keys != [] && ValidLoc(d.root, l) && (!IsIndexKey(keys[0]) ==> wrap)
    ensures var i := |d.lead| + OffOf(d.root, l);
            var j := i + |Print(Sub(d.root, l))|;
            && j <= |PrintDoc(d)|
            && Splice(PrintDoc(d), i, j, Component(keys, Print(w), false, wrap)) == PrintDoc(ReplaceDoc(d, l, Nest(keys, w)))
  {
    hide Print, PrintDoc, ReplaceAt, Component, Nest, OffOf;
    if IsIndexKey(keys[0]) { ComponentIsElement(keys, w, wrap); } else { ComponentIsNest(keys, w); }
    WholeSplice(Print(Sub(d.root, l)), Print(Nest(keys, w)));
    SpliceWithin(d, l, 0, |Print(Sub(d.root, l))|, Print(Nest(keys, w)), Nest(keys, w));
  }

  /** Nothing of the path exists. */
  lemma CreatedAtTop(cfg: Config, d: Doc, keys: Path, w: JVal)
    requires WfDoc(d) && d.root.Node? && keys != [] && (keys[0] != [] || d.root.obj)
    ensures PlanTop(cfg, PrintDoc(d), keys).Planned?
    ensures var p := PlanTop(cfg, PrintDoc(d), keys).plan;
            Splice(PrintDoc(d), p.start, p.end, Component(keys, Print(w), p.comma, p.wrap))
            == PrintDoc(ReplaceDoc(d, [], Created(d.root, true, keys, w)))
  {
    hide Print, PrintDoc, ReplaceAt, Component, Nest, PlanTop, Inserted, Grown, Content, TypeOf;
    OffOfRoot(d.root);
    assert Sub(d.root, []) == d.root;
    if IsIndexKey(keys[0]) {
      if d.root.obj || d.root.es == [] {
        PlanRootFresh(cfg, d, keys);
        FreshSplice(d, keys, [], w, false);
      } else {
        RootArrayPlan(cfg, d, keys);
        GrownSplice(d, keys, [], w);
      }
    } else if d.root.obj {
      PlanAtTop(cfg, d, keys);
      TopSplice(d, keys, w);
      assert keys[0..] == keys;
    } else {
      PlanRootCoerced(cfg, d, keys);
      FreshSplice(d, keys, [], w, true);
    }
  }

  /** Part of the path exists. */
  lemma CreatedBelow(d: Doc, keys: Path, l: Loc, w: JVal)
    requires WfDoc(d) && keys != [] && ValidLoc(d.root, l)
    ensures var g := GotAt(d, l);
            && 0 <= g.off < g.end <= |PrintDoc(d)|
            && var p := PlanBelow(PrintDoc(d), keys[0], g);
               Splice(PrintDoc(d), p.start, p.end, Component(keys, Print(w), p.comma, p.wrap))
               == PrintDoc(ReplaceDoc(d, l, Created(Sub(d.root, l), false, keys, w)))
  {
    hide Print, PrintDoc, ReplaceAt, Component, Nest, PlanBelow, Inserted, Grown, OffOf, Content, TypeOf;
    var n := Sub(d.root, l);
    if IsIndexKey(keys[0]) {
      if n.Node? && !n.obj && n.es != [] {
        ArrayPlan(d, keys[0], l);
        GrownSplice(d, keys, l, w);
      } else {
        var wrap := PlanFreshArray(d, keys[0], l);
        FreshSplice(d, keys, l, w, wrap);
      }
    } else if n.Node? && n.obj {
      PlanInside(STRICT, d, keys[0], l);
      BelowSplice(d, keys, l, w);
    } else {
      PlanCoerced(d, keys[0], l);
      FreshSplice(d, keys, l, w, true);
    }
  }

  lemma CreatedWf(n: JVal, top: bool, keys: Path, w: JVal)
    requires keys != [] && BodyPath(keys) && Wf(n) && Wf(w)
    ensures Wf(Created(n, top, keys, w))
  {
    hide Nest, IsStringBody;
    NestWf(keys, w);
    NestWf(keys[1..], w);
    if !IsIndexKey(keys[0]) && n.Node? && n.obj { InsertedWf(n, top, keys[0], Nest(keys[1..], w)); }
  }

  lemma CreatedControlFree(n: JVal, top: bool, keys: Path, w: JVal)
    requires keys != [] && CleanPath(keys) && ControlFree(n) && ControlFree(w)
    ensures ControlFree(Created(n, top, keys, w))
  {
    hide Nest, NoControl;
    NestControlFree(keys, w);
    NestControlFree(keys[1..], w);
  }

  /**
   * Set on any missing path of names and indexes that does not stray: the result is the text of the document in which the
   * missing part is created where the path breaks off; every other byte stays. Only a root scalar, and a root array for an
   * empty name, refuse.
   */
  lemma SetCreates(cfg: Config, d: Doc, keys: Path, depth: nat, l: Loc, w: JVal)
    requires WfDoc(d) && Wf(w) && Lacks(d, keys, depth, l)
    requires depth == 0 ==> d.root.Node? && (keys[0] != [] || d.root.obj)
    ensures SetSpec(cfg, PrintDoc(d), Print(w), keys) == Done(PrintDoc(CreatedDoc(d, keys, depth, l, w)))
    ensures BodyPath(keys[depth..]) ==> WfDoc(CreatedDoc(d, keys, depth, l, w))
    ensures CleanPath(keys[depth..]) && ControlFree(d.root) && ControlFree(w) ==> ControlFree(CreatedDoc(d, keys, depth, l, w).root)
  {
    CreatedKeeps(d, keys, depth, l, w);
    hide Print, PrintDoc, GetSpec, PrefixDepth, ReplaceAt, Component, Created, PlanTop, PlanBelow, GotAt, Leads, Locate, Strays, DupFree,
         Wf, ControlFree, BodyPath, CleanPath;
    LacksPlan(cfg, d, keys, depth, l);
    if depth == 0 {
      assert l == [] && keys[0..] == keys && Sub(d.root, []) == d.root;
      CreatedAtTop(cfg, d, keys, w);
    } else {
      CreatedBelow(d, keys[depth..], l, w);
    }
  }

  /** What refuses, for any path: a root scalar, and a root array for an empty name. */
  lemma SetRefusesPath(cfg: Config, d: Doc, value: Bytes, keys: Path)
    requires WfDoc(d) && DupFree(d.root) && keys != [] && !(d.root.Node? && d.root.obj)
    requires !d.root.Node? || keys[0] == []
    ensures SetSpec(cfg, PrintDoc(d), value, keys) == Failed(KeyPathNotFound)
  {
    hide Print, PrintDoc, GetSpec, PrefixDepth, NextTok, LastTok, DupFree;
    NoneFound(cfg, d, keys);
    NoneFound(cfg, d, keys[..1]);
    FirstPrefix(cfg, PrintDoc(d), keys);
    DocAt(d);
    FirstValue(PrintDoc(d), |d.lead|, d.root);
    NextTokSkips(PrintDoc(d), 0, |d.lead|);
    TokenHere(PrintDoc(d), |d.lead|);
    NoBrace(PrintDoc(d), |d.lead|, d.root);
  }

  lemma CreatedKeeps(d: Doc, keys: Path, depth: nat, l: Loc, w: JVal)
    requires WfDoc(d) && Wf(w) && depth < |keys| && ValidLoc(d.root, l)
    ensures BodyPath(keys[depth..]) ==> WfDoc(CreatedDoc(d, keys, depth, l, w))
    ensures CleanPath(keys[depth..]) && ControlFree(d.root) && ControlFree(w) ==> ControlFree(CreatedDoc(d, keys, depth, l, w).root)
  {
    hide Created, ReplaceAt, BodyPath, CleanPath, Wf, ControlFree;
    var n := Sub(d.root, l);
    var x := Created(n, depth == 0, keys[depth..], w);
    if BodyPath(keys[depth..]) {
      SubWf(d.root, l);
      CreatedWf(n, depth == 0, keys[depth..], w);
      ReplaceWf(d.root, l, x);
    }
    if CleanPath(keys[depth..]) && ControlFree(d.root) && ControlFree(w) {
      SubControlFree(d.root, l);
      CreatedControlFree(n, depth == 0, keys[depth..], w);
      ReplaceControlFree(d.root, l, x);
    }
  }

  // ---- reading back ----

  /** The missing components lead to the new value where it was put: the first index is the one of the new last element. */
  predicate Lands(n: JVal, keys: Path)
    requires keys != []
  {
    if IsIndexKey(keys[0]) && n.Node? && !n.obj && n.es != [] then IndexOf(keys[0]) == Some(|n.es|) && ReadsBack(keys[1..])
    else ReadsBack(keys)
  }

  /** Where the new value is, below what was created. */
  function LandingLoc(n: JVal, keys: Path): Loc
    requires keys != []
  {
    if n.Node? && (if IsIndexKey(keys[0]) then !n.obj && n.es != [] else n.obj) then [|n.es|] + Zeros(|keys| - 1)
    else Zeros(|keys|)
  }

  lemma {:induction false} LeadsLacks(v: JVal, l: Loc, keys: Path, depth: nat)
    requires depth < |keys| && Leads(v, l, keys[..depth]) && ValidLoc(v, l) && Locate(v, keys[..depth + 1]) == None
    ensures Locate(Sub(v, l), keys[depth..][..1]) == None
    decreases depth
  {
    hide Locate, KeyIs, IndexOf;
    if depth == 0 {
      assert keys[0..][..1] == keys[..1] && l == [];
    } else {
      var rest := keys[1..];
      LeadsStep(v, l, keys[..depth]);
      assert keys[..depth][1..] == rest[..depth - 1] && keys[..depth + 1][1..] == rest[..depth] && rest[depth - 1..] == keys[depth..];
      OnlyThrough(v, l[0], keys[..depth + 1]);
      LeadsLacks(v.es[l[0]].v, l[1..], rest, depth - 1);
    }
  }

  lemma LeadsStep(v: JVal, l: Loc, keys: Path)
    requires Leads(v, l, keys) && keys != []
    ensures l != [] && v.Node? && l[0] < |v.es| && Leads(v.es[l[0]].v, l[1..], keys[1..]) && Chosen(v, l[0], keys[0])
  {
  }

  /** Entry k is the only one the component can mean. */
  ghost predicate Chosen(v: JVal, k: nat, key: Bytes)
    requires v.Node?
  {
    k < |v.es| && if v.obj then forall j :: 0 <= j < |v.es| ==> (KeyIs(v.es[j], key) <==> j == k) else IndexOf(key) == Some(k)
  }

  lemma OnlyThrough(v: JVal, k: nat, keys: Path)
    requires v.Node? && keys != [] && Chosen(v, k, keys[0])
    ensures Locate(v, keys) == Under(k, Locate(v.es[k].v, keys[1..]))
  {
    hide KeyIs, IndexOf;
    if v.obj { MemberShape(v.es, keys, 0); }
  }

  lemma ChosenReplaced(v: JVal, k: nat, key: Bytes, x: JVal)
    requires v.Node? && Chosen(v, k, key)
    ensures Chosen(v.(es := v.es[k := v.es[k].(v := x)]), k, key)
  {
    hide Unescaped, IndexOf;
    var r := v.(es := v.es[k := v.es[k].(v := x)]);
    forall j | 0 <= j < |r.es| && v.obj ensures KeyIs(r.es[j], key) <==> j == k {
      assert r.es[j].key == v.es[j].key;
    }
  }

  /** Below the value the path leads to, the path is found where its rest is found. */
  lemma {:induction false} LocateBelow(v: JVal, l: Loc, keys: Path, x: JVal)
    requires |l| <= |keys| && Leads(v, l, keys[..|l|]) && ValidLoc(v, l)
    ensures var m := Locate(x, keys[|l|..]);
            Locate(ReplaceAt(v, l, x), keys) == if m.Some? then Some(l + m.value) else None
    decreases |l|
  {
    hide Locate, Chosen, Leads;
    var m := Locate(x, keys[|l|..]);
    if l == [] {
      assert keys[0..] == keys && (m.Some? ==> [] + m.value == m.value);
    } else {
      LeadsStep(v, l, keys[..|l|]);
      assert keys[..|l|][1..] == keys[1..][..|l| - 1] && keys[1..][|l| - 1..] == keys[|l|..];
      LocateBelow(v.es[l[0]].v, l[1..], keys[1..], x);
      ReplaceStep(v, l, x);
      ChosenReplaced(v, l[0], keys[0], ReplaceAt(v.es[l[0]].v, l[1..], x));
      OnlyThrough(ReplaceAt(v, l, x), l[0], keys);
      if m.Some? { HeadFirst(l, m.value); }
    }
  }

  /** The path leads through the replaced value when its rest leads on inside it. */
  lemma {:induction false} LeadsBelow(v: JVal, l: Loc, keys: Path, x: JVal, m: Loc)
    requires |l| <= |keys| && Leads(v, l, keys[..|l|]) && ValidLoc(v, l) && Leads(x, m, keys[|l|..])
    ensures Leads(ReplaceAt(v, l, x), l + m, keys)
    decreases |l|
  {
    hide Chosen, KeyIs, IndexOf;
    if l == [] {
      assert keys[0..] == keys && [] + m == m;
    } else {
      LeadsStep(v, l, keys[..|l|]);
      assert keys[..|l|][1..] == keys[1..][..|l| - 1] && keys[1..][|l| - 1..] == keys[|l|..];
      LeadsBelow(v.es[l[0]].v, l[1..], keys[1..], x, m);
      ReplaceStep(v, l, x);
      var y := ReplaceAt(v.es[l[0]].v, l[1..], x);
      ChosenReplaced(v, l[0], keys[0], y);
      HeadFirst(l, m);
      LeadsFrom(ReplaceAt(v, l, x), l[0], l[1..] + m, keys);
    }
  }

  lemma LeadsFrom(v: JVal, k: nat, m: Loc, keys: Path)
    requires v.Node? && keys != [] && Chosen(v, k, keys[0]) && Leads(v.es[k].v, m, keys[1..])
    ensures Leads(v, [k] + m, keys)
  {
    assert ([k] + m)[1..] == m;
  }

  lemma {:induction false} LeadsNest(keys: Path, w: JVal)
    requires BodyPath(keys) && ReadsBack(keys)
    ensures Leads(Nest(keys, w), Zeros(|keys|), keys)
    decreases |keys|
  {
    hide IsStringBody, Unescaped, ReadsBack, IndexOf, Plain;
    if keys != [] {
      ReadsBackStep(keys);
      LeadsNest(keys[1..], w);
      if !IsIndexKey(keys[0]) { BodyReadsBack(keys[0]); }
      assert Zeros(|keys|) == [0] + Zeros(|keys| - 1);
      LeadsFrom(Nest(keys, w), 0, Zeros(|keys| - 1), keys);
    }
  }

  /** A landing path leads to the new value. */
  lemma LeadsCreated(n: JVal, top: bool, keys: Path, w: JVal)
    requires keys != [] && BodyPath(keys) && Lands(n, keys) && Locate(n, keys[..1]) == None
    ensures Leads(Created(n, top, keys, w), LandingLoc(n, keys), keys)
  {
    hide IsStringBody, Unescaped, ReadsBack, IndexOf, Plain, Nest, Locate;
    LeadsNest(keys[1..], w) by { if !(IsIndexKey(keys[0]) && n.Node? && !n.obj && n.es != []) { ReadsBackStep(keys); } }
    if IsIndexKey(keys[0]) && n.Node? && !n.obj && n.es != [] {
      LeadsFrom(Created(n, top, keys, w), |n.es|, Zeros(|keys| - 1), keys);
    } else if !IsIndexKey(keys[0]) && n.Node? && n.obj {
      ReadsBackStep(keys);
      InsertedChosen(n, top, keys, Nest(keys[1..], w));
      LeadsFrom(Created(n, top, keys, w), |n.es|, Zeros(|keys| - 1), keys);
    } else {
      LeadsNest(keys, w);
    }
  }

  /** A new name without a backslash is the only one of its kind. */
  lemma InsertedChosen(n: JVal, top: bool, keys: Path, sub: JVal)
    requires n.Node? && n.obj && keys != [] && !IsIndexKey(keys[0]) && BodyPath(keys) && Plain(keys[0]) && Locate(n, keys[..1]) == None
    ensures Chosen(Inserted(n, top, keys[0], sub), |n.es|, keys[0])
  {
    hide IsStringBody, Unescaped, Inserted, Locate, Plain;
    var r := Inserted(n, top, keys[0], sub);
    InsertedLast(n, top, keys[0], sub);
    BodyReadsBack(keys[0]);
    LacksName(n, keys[0], keys[..1]);
    forall j | 0 <= j < |r.es| ensures KeyIs(r.es[j], keys[0]) <==> j == |n.es| {
      if j < |n.es| { assert r.es[j] == n.es[j]; }
    }
  }

  // When the path does not land, the new document has no value for it, and the search does not stray.

  /** Names without a backslash. */
  predicate PlainNames(keys: Path) {
    forall j :: 0 <= j < |keys| ==> IsIndexKey(keys[j]) || Plain(keys[j])
  }

  lemma {:induction false} NestNeverStrays(keys: Path, w: JVal)
    requires BodyPath(keys)
    ensures !Strays(Nest(keys, w), keys)
    decreases |keys|
  {
    hide IsStringBody, KeyIs, IndexOf;
    if |keys| > 1 {
      NestNeverStrays(keys[1..], w);
      assert keys[1..] != [] && Nest(keys[1..], w).Node?;
    }
  }

  lemma CreatedNeverStrays(n: JVal, top: bool, keys: Path, w: JVal)
    requires keys != [] && BodyPath(keys) && PlainNames(keys) && Locate(n, keys[..1]) == None
    ensures !Strays(Created(n, top, keys, w), keys)
  {
    hide IsStringBody, Unescaped, IndexOf, Plain, Nest, Locate, Inserted;
    if |keys| > 1 {
      NestNeverStrays(keys, w);
      NestNeverStrays(keys[1..], w);
      NestIsNode(keys[1..], w);
      var sub := Nest(keys[1..], w);
      if IsIndexKey(keys[0]) && n.Node? && !n.obj && n.es != [] {
        PastEnd(n, keys[0], keys[..1]);
      } else if !IsIndexKey(keys[0]) && n.Node? && n.obj {
        InsertedChosen(n, top, keys, sub);
        InsertedLast(n, top, keys[0], sub);
        NamedOnly(Inserted(n, top, keys[0], sub).es, keys[0], |n.es|);
      }
    }
  }

  lemma NestIsNode(keys: Path, w: JVal)
    requires keys != []
    ensures Nest(keys, w).Node?
  {
  }

  lemma NamedOnly(es: seq<Entry>, key: Bytes, k: nat)
    requires k < |es| && forall j :: 0 <= j < |es| ==> (KeyIs(es[j], key) <==> j == k)
    ensures MemberNamed(es, key, 0) == Some(k)
  {
    hide Unescaped;
    assert KeyIs(es[k], key);
    var r := MemberNamed(es, key, 0);
    assert r.Some? ==> KeyIs(es[r.value], key);
  }

  /** An index that an array lacks is past its end or no index at all. */
  lemma PastEnd(n: JVal, key: Bytes, keys: Path)
    requires n.Node? && !n.obj && keys == [key] && Locate(n, keys) == None
    ensures IndexOf(key).Some? ==> IndexOf(key).value >= |n.es|
  {
    hide IndexOf;
    forall k | 0 <= k < |n.es| ensures Locate(n.es[k].v, keys[1..]).Some? {
    }
  }

  /** Straying is decided below the value the path leads to. */
  lemma {:induction false} StraysBelow(v: JVal, l: Loc, keys: Path, x: JVal)
    requires |l| < |keys| && Leads(v, l, keys[..|l|]) && ValidLoc(v, l) && x.Node?
    ensures Strays(ReplaceAt(v, l, x), keys) <==> Strays(x, keys[|l|..])
    decreases |l|
  {
    hide Chosen, KeyIs, IndexOf, Leads, Seek;
    if l == [] {
      assert keys[0..] == keys;
    } else {
      LeadsStep(v, l, keys[..|l|]);
      assert keys[..|l|][1..] == keys[1..][..|l| - 1] && keys[1..][|l| - 1..] == keys[|l|..];
      StraysBelow(v.es[l[0]].v, l[1..], keys[1..], x);
      ReplaceStep(v, l, x);
      var y := ReplaceAt(v.es[l[0]].v, l[1..], x);
      ChosenReplaced(v, l[0], keys[0], y);
      StraysThrough(ReplaceAt(v, l, x), l[0], keys);
    }
  }

  lemma StraysThrough(v: JVal, k: nat, keys: Path)
    requires v.Node? && |keys| > 1 && Chosen(v, k, keys[0]) && v.es[k].v.Node?
    ensures Strays(v, keys) <==> Strays(v.es[k].v, keys[1..])
  {
    hide KeyIs, IndexOf, Seek;
    if v.obj { NamedOnly(v.es, keys[0], k); }
  }

  lemma {:induction false} DupFreeBelow(v: JVal, l: Loc, x: JVal)
    requires ValidLoc(v, l) && DupFree(v) && DupFree(x)
    ensures DupFree(ReplaceAt(v, l, x))
    decreases |l|
  {
    hide KeyIs;
    if l != [] {
      DupFreeBelow(v.es[l[0]].v, l[1..], x);
      ReplaceStep(v, l, x);
      SameNames(v, l[0], ReplaceAt(v.es[l[0]].v, l[1..], x));
    }
  }

  lemma SameNames(v: JVal, k: nat, x: JVal)
    requires v.Node? && k < |v.es| && DupFree(v) && DupFree(x)
    ensures DupFree(v.(es := v.es[k := v.es[k].(v := x)]))
  {
    hide Unescaped;
    var r := v.(es := v.es[k := v.es[k].(v := x)]);
    forall i, j, name | r.obj && 0 <= i < |r.es| && 0 <= j < |r.es| && KeyIs(r.es[i], name) && KeyIs(r.es[j], name) ensures i == j {
      assert KeyIs(v.es[i], name) && KeyIs(v.es[j], name);
    }
    forall i | 0 <= i < |r.es| ensures DupFree(r.es[i].v) {
      assert i != k ==> r.es[i] == v.es[i];
    }
  }

  lemma {:induction false} DupFreeNest(keys: Path, w: JVal)
    requires DupFree(w)
    ensures DupFree(Nest(keys, w))
    decreases |keys|
  {
    hide KeyIs;
    if keys != [] { DupFreeNest(keys[1..], w); }
  }

  lemma DupFreeCreated(n: JVal, top: bool, keys: Path, w: JVal)
    requires keys != [] && BodyPath(keys) && PlainNames(keys) && Locate(n, keys[..1]) == None && DupFree(n) && DupFree(w)
    ensures DupFree(Created(n, top, keys, w))
  {
    hide IsStringBody, KeyIs, Plain, Nest, Locate, Inserted;
    var sub := Nest(keys[1..], w);
    DupFreeNest(keys, w);
    DupFreeNest(keys[1..], w);
    if !IsIndexKey(keys[0]) && n.Node? && n.obj {
      InsertedChosen(n, top, keys, sub);
      InsertedLast(n, top, keys[0], sub);
      DupFreeInserted(n, Inserted(n, top, keys[0], sub), keys[0]);
    }
  }

  lemma DupFreeInserted(n: JVal, r: JVal, key: Bytes)
    requires n.Node? && n.obj && DupFree(n) && r.Node? && r.obj && |r.es| == |n.es| + 1 && r.es[..|n.es|] == n.es
    requires Chosen(r, |n.es|, key) && DupFree(r.es[|n.es|].v)
    ensures DupFree(r)
  {
    var m := |n.es|;
    assert forall i :: 0 <= i < m ==> r.es[i] == n.es[i];
    assert KeyIs(r.es[m], key);
    forall i, j, name | 0 <= i < |r.es| && 0 <= j < |r.es| && KeyIs(r.es[i], name) && KeyIs(r.es[j], name) ensures i == j {
      if i == m || j == m {
        assert name == key;
      } else {
        assert KeyIs(n.es[i], name) && KeyIs(n.es[j], name);
      }
    }
  }

  /** Not landing, the path has no match in what was created. */
  lemma CreatedLocated(n: JVal, top: bool, keys: Path, w: JVal)
    requires keys != [] && BodyPath(keys) && Locate(n, keys[..1]) == None
    ensures !Lands(n, keys) ==> Locate(Created(n, top, keys, w), keys) == None
    ensures ValidLoc(Created(n, top, keys, w), LandingLoc(n, keys)) && Sub(Created(n, top, keys, w), LandingLoc(n, keys)) == w
  {
    hide IsStringBody, Unescaped, IndexOf, Plain, Nest, ReadsBack, Inserted;
    LocateNest(keys, w);
    LocateNest(keys[1..], w);
    var sub := Nest(keys[1..], w);
    if IsIndexKey(keys[0]) && n.Node? && !n.obj && n.es != [] {
      PastEnd(n, keys[0], keys[..1]);
      var m := [|n.es|] + Zeros(|keys| - 1);
      assert m[1..] == Zeros(|keys| - 1);
    } else if !IsIndexKey(keys[0]) && n.Node? && n.obj {
      InsertedHere(n, top, keys, w);
    }
  }

  /**
   * After Set has created the missing part of a path, Get at the path returns the new value if and only if the path lands
   * there: every new index is the one of the element it created, 0 or the old length of the array.
   */
  lemma SetCreatesThenGet(cfg: Config, d: Doc, keys: Path, depth: nat, l: Loc, w: JVal)
    requires WfDoc(d) && Wf(w) && Lacks(d, keys, depth, l) && BodyPath(keys[depth..])
    requires depth == 0 ==> d.root.Node? && (keys[0] != [] || d.root.obj)
    ensures SetSpec(cfg, PrintDoc(d), Print(w), keys).Done?
    ensures var g := GetSpec(cfg, SetSpec(cfg, PrintDoc(d), Print(w), keys).data, keys);
            && (Lands(Sub(d.root, l), keys[depth..]) ==> g.err.None? && g.value == Content(w) && g.t == TypeOf(w))
            && (!Lands(Sub(d.root, l), keys[depth..]) && PlainNames(keys[depth..]) && DupFree(w) ==> g == NOT_FOUND)
  {
    hide Print, PrintDoc, GetSpec, SetSpec, Created, ReplaceAt, Sub, Content, TypeOf, Locate, Lands, LandingLoc, BodyPath, PlainNames,
         Leads, Strays, DupFree, Wf, OffOf;
    var n, rest := Sub(d.root, l), keys[depth..];
    var d' := CreatedDoc(d, keys, depth, l, w);
    SetCreates(cfg, d, keys, depth, l, w);
    LacksPlan(cfg, d, keys, depth, l);
    LeadsLacks(d.root, l, keys, depth);
    CreatedLocated(n, depth == 0, rest, w);
    if Lands(n, rest) {
      LeadsCreated(n, depth == 0, rest, w);
      var x, m := Created(n, depth == 0, rest, w), LandingLoc(n, rest);
      LeadsBelow(d.root, l, keys, x, m);
      SubReplaced(d.root, l, x, m);
      GetFindsLeading(cfg, d', keys, l + m);
    } else if PlainNames(rest) && DupFree(w) {
      NotLanding(d, keys, depth, l, w);
      NoneFound(cfg, d', keys);
    }
  }

  lemma NotLanding(d: Doc, keys: Path, depth: nat, l: Loc, w: JVal)
    requires WfDoc(d) && Lacks(d, keys, depth, l) && |l| == depth && BodyPath(keys[depth..]) && PlainNames(keys[depth..]) && DupFree(w)
    requires !Lands(Sub(d.root, l), keys[depth..])
    ensures var r := CreatedDoc(d, keys, depth, l, w).root;
            DupFree(r) && Locate(r, keys) == None && !Strays(r, keys)
  {
    hide ReplaceAt, Locate, Lands, LandingLoc, BodyPath, PlainNames, Leads, Strays, DupFree, Wf, Created, Sub;
    var n, rest := Sub(d.root, l), keys[depth..];
    var x := Created(n, depth == 0, rest, w);
    LeadsLacks(d.root, l, keys, depth);
    CreatedLocated(n, depth == 0, rest, w);
    LocateBelow(d.root, l, keys, x);
    CreatedNeverStrays(n, depth == 0, rest, w);
    CreatedIsNode(n, depth == 0, rest, w);
    StraysBelow(d.root, l, keys, x);
    DupFreeSub(d.root, l);
    DupFreeCreated(n, depth == 0, rest, w);
    DupFreeBelow(d.root, l, x);
  }

  lemma CreatedIsNode(n: JVal, top: bool, keys: Path, w: JVal)
    requires keys != []
    ensures Created(n, top, keys, w).Node?
  {
  }

  lemma {:induction false} DupFreeSub(v: JVal, l: Loc)
    requires ValidLoc(v, l) && DupFree(v)
    ensures DupFree(Sub(v, l))
    decreases |l|
  {
    hide KeyIs;
    if l != [] { DupFreeSub(v.es[l[0]].v, l[1..]); }
  }
}
