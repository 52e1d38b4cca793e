/**
 * Set on a plain path that runs into something other than an object: the value in the way gives place to the
 * nested chain of the missing components.
 */
module Coercion {
  import opened Bytes
  import opened Scanners
  import opened Syntax
  import opened Layout
  import opened Lookup
  import opened TreeValues
  import opened TreeLookup
  import opened Contexts
  import opened Insert
  import opened Setting
  import opened Growth

  /** The value at l is no object. At the root only an array gives way, and only to a component that is not empty. */
  ghost predicate InTheWay(d: Doc, keys: Path, depth: nat, l: Loc) {
    && Absent(d, keys, depth, l)
    && !(Sub(d.root, l).Node? && Sub(d.root, l).obj)
    && (depth == 0 ==> d.root.Node? && keys[0] != [])
  }

  function Coerced(d: Doc, keys: Path, depth: nat, l: Loc, w: JVal): Doc
    requires depth < |keys| && ValidLoc(d.root, l)
  {
    ReplaceDoc(d, l, Nest(keys[depth..], w))
  }

  /** The component written in braces of its own is the printed chain. */
  lemma ComponentIsNest(keys: Path, w: JVal)
    requires keys != [] && !IsIndexKey(keys[0])
    ensures Component(keys, Print(w), false, true) == Print(Nest(keys, w))
  {
    hide Component, Print, PrintEntry;
    var x := PrintEntry(true, Fresh([], keys[0], Nest(keys[1..], w)));
    ComponentIsMember(keys, w, false, true);
    PrintFirst(true, [], Fresh([], keys[0], Nest(keys[1..], w)));
    BraceText(x);
  }

  lemma BraceText(x: Bytes)
    ensures [] + ([LBRACE] + x + [RBRACE]) == [LBRACE] + (x + [RBRACE])
  {
  }

  lemma NoBrace(data: Bytes, i: nat, v: JVal)
    requires Wf(v) && At(data, i, Print(v)) && !(v.Node? && v.obj)
    ensures i < |data| && data[i] != LBRACE
    ensures data[i] == LBRACKET <==> v.Node?
  {
    hide PrintEntries;
    match v
    case Prim(t) => PrimAt(data, i, t);
    case Str(b) => StrAt(data, i, b);
    case Node(_, _, _) => NodeAt(data, i, v);
  }

  lemma PlanCoerced(d: Doc, key: Bytes, l: Loc)
    requires WfDoc(d) && ValidLoc(d.root, l) && !(Sub(d.root, l).Node? && Sub(d.root, l).obj) && !IsIndexKey(key)
    ensures var g := GotAt(d, l);
            && 0 <= g.off < g.end <= |PrintDoc(d)|
            && PlanBelow(PrintDoc(d), key, g) == Plan(g.off, g.end, false, true)
  {
    hide Print, PrintDoc, NextTok, OffOf, Content, TypeOf;
    SubPlace(d, l);
    PrintNonempty(Sub(d.root, l));
    NoBrace(PrintDoc(d), GotAt(d, l).off, Sub(d.root, l));
  }

  lemma PlanRootCoerced(cfg: Config, d: Doc, keys: Path)
    requires WfDoc(d) && d.root.Node? && !d.root.obj && keys != [] && keys[0] != [] && !IsIndexKey(keys[0])
    ensures var i := |d.lead|;
            PlanTop(cfg, PrintDoc(d), keys) == Planned(Plan(i, i + |Print(d.root)|, false, true))
  {
    hide Print, PrintDoc, NextTok, LastTok;
    RootTokens(d);
  }

  lemma CoercedSplice(d: Doc, keys: Path, l: Loc, w: JVal)
    requires WfDoc(d) && keys != [] && !IsIndexKey(keys[0]) && ValidLoc(d.root, l)
    ensures var i := |d.lead| + OffOf(d.root, l);
            var j := i + |Print(Sub(d.root, l))|;
            j <= |PrintDoc(d)|
            && Splice(PrintDoc(d), i, j, Component(keys, Print(w), false, true)) == PrintDoc(ReplaceDoc(d, l, Nest(keys, w)))
  {
    hide Print, PrintDoc, ReplaceAt, Component, Nest, OffOf;
    ComponentIsNest(keys, w);
    WholeSplice(Print(Sub(d.root, l)), Print(Nest(keys, w)));
    SpliceWithin(d, l, 0, |Print(Sub(d.root, l))|, Print(Nest(keys, w)), Nest(keys, w));
  }

  lemma WholeSplice(p: Bytes, s: Bytes)
    ensures s == p[..0] + s + p[|p|..]
  {
  }

  /**
   * The value that the path runs into, be it a scalar or an array, is replaced by the nested chain; every other byte
   * of the document stays.
   */
  lemma SetCoerces(cfg: Config, d: Doc, keys: Path, depth: nat, l: Loc, w: JVal)
    requires WfDoc(d) && Wf(w) && InTheWay(d, keys, depth, l)
    ensures SetSpec(cfg, PrintDoc(d), Print(w), keys) == Done(PrintDoc(Coerced(d, keys, depth, l, w)))
    ensures BodyPath(keys[depth..]) ==> WfDoc(Coerced(d, keys, depth, l, w))
    ensures CleanPath(keys[depth..]) && ControlFree(d.root) && ControlFree(w) ==> ControlFree(Coerced(d, keys, depth, l, w).root)
  {
    hide Print, PrintDoc, GetSpec, PrefixDepth, ReplaceAt, Component, Nest, PlanTop, PlanBelow, OffOf, Content, TypeOf,
         IsStringBody, ControlFree, NoControl;
    MissingPlan(cfg, d, keys, depth, l);
    if BodyPath(keys[depth..]) {
      NestWf(keys[depth..], w);
      ReplaceWf(d.root, l, Nest(keys[depth..], w));
    }
    if CleanPath(keys[depth..]) && ControlFree(d.root) && ControlFree(w) {
      NestControlFree(keys[depth..], w);
      ReplaceControlFree(d.root, l, Nest(keys[depth..], w));
    }
    CoercedSplice(d, keys[depth..], l, w);
    if depth == 0 {
      assert l == [] && keys[0..] == keys;
      OffOfRoot(d.root);
      assert Sub(d.root, []) == d.root;
      PlanRootCoerced(cfg, d, keys);
    } else {
      PlanCoerced(d, keys[depth], l);
    }
  }

  /** A root scalar never gives way, and a root array not to an empty component: Set refuses. */
  lemma SetRefuses(cfg: Config, d: Doc, value: Bytes, keys: Path)
    requires WfDoc(d) && keys != [] && PlainPath(keys) && !(d.root.Node? && d.root.obj)
    requires !d.root.Node? || keys[0] == []
    ensures SetSpec(cfg, PrintDoc(d), value, keys) == Failed(KeyPathNotFound)
  {
    hide Print, PrintDoc, GetSpec, PrefixDepth, NextTok, LastTok;
    GetIsTreeLookup(cfg, d, keys);
    GetIsTreeLookup(cfg, d, keys[..1]);
    FirstPrefix(cfg, PrintDoc(d), keys);
    DocAt(d);
    FirstValue(PrintDoc(d), |d.lead|, d.root);
    NextTokSkips(PrintDoc(d), 0, |d.lead|);
    TokenHere(PrintDoc(d), |d.lead|);
    NoBrace(PrintDoc(d), |d.lead|, d.root);
  }

  lemma TokenHere(data: Bytes, i: nat)
    requires i < |data| && !IsSpace(data[i])
    ensures NextTok(data, i) == i
  {
  }

  lemma FirstPrefix(cfg: Config, data: Bytes, keys: Path)
    requires keys != [] && GetSpec(cfg, data, keys[..1]).err.Some?
    ensures PrefixDepth(cfg, data, keys, 0) == 0
  {
    hide GetSpec;
  }

  /**
   * The chain is the first match of the path in the new tree, duplicates or not, if and only if its components have no
   * backslash.
   */
  lemma LocateCoerced(v: JVal, keys: Path, depth: nat, l: Loc, w: JVal)
    requires depth < |keys| && PlainPath(keys) && BodyPath(keys[depth..])
    requires Locate(v, keys[..depth]) == Some(l) && Locate(v, keys[..depth + 1]) == None && ValidLoc(v, l)
    ensures var r := ReplaceAt(v, l, Nest(keys[depth..], w));
            var m := l + Zeros(|keys| - depth);
            && Locate(r, keys) == (if ReadsBack(keys[depth..]) then Some(m) else None)
            && ValidLoc(r, m) && Sub(r, m) == w
  {
    hide Nest, ReplaceAt, Locate, Sub, ValidLoc, IsStringBody;
    LocateNest(keys[depth..], w);
    LocateReplaced(v, keys, depth, l, Nest(keys[depth..], w));
    SubReplaced(v, l, Nest(keys[depth..], w), Zeros(|keys| - depth));
  }

  /** And Get at the path returns the value that was set, under the same condition. */
  lemma SetCoercesThenGet(cfg: Config, d: Doc, keys: Path, depth: nat, l: Loc, w: JVal)
    requires WfDoc(d) && Wf(w) && InTheWay(d, keys, depth, l) && BodyPath(keys[depth..])
    ensures SetSpec(cfg, PrintDoc(d), Print(w), keys).Done?
    ensures var g := GetSpec(cfg, SetSpec(cfg, PrintDoc(d), Print(w), keys).data, keys);
            if ReadsBack(keys[depth..]) then g.err.None? && g.value == Content(w) && g.t == TypeOf(w) else g == NOT_FOUND
  {
    hide Print, PrintDoc, GetSpec, SetSpec, Nest, ReplaceAt, OffOf, Sub, Content, TypeOf, Locate, ReadsBack, IsStringBody;
    SetCoerces(cfg, d, keys, depth, l, w);
    LocateCoerced(d.root, keys, depth, l, w);
    GetIsTreeLookup(cfg, Coerced(d, keys, depth, l, w), keys);
  }
}
