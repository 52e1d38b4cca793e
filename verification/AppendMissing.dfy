/** Append where there is no array yet: a missing path gets an array of the one value, any other kind of value refuses. */
module AppendMissing {
  import opened Bytes
  import opened Syntax
  import opened Lookup
  import opened TreeValues
  import opened TreeLookup
  import opened MixedPaths
  import opened Contexts
  import opened Setting
  import opened Growth
  import opened Coercion
  import opened Appending
  import opened SetPaths

  /** The array [w]. */
  function Alone(w: JVal): JVal {
    Node(false, [], [Elem([], w)])
  }

  lemma AloneText(w: JVal)
    ensures Print(Alone(w)) == [LBRACKET] + Print(w) + [RBRACKET]
    ensures Wf(w) ==> Wf(Alone(w))
    ensures Values(Alone(w)) == [w]
  {
    hide Print, PrintEntry;
    PrintFirst(false, [], Elem([], w));
    PrintElem([], w);
    assert [] + Print(w) == Print(w);
    Associate([LBRACKET], Print(w), [RBRACKET]);
  }

  /** At a path that Get does not find, Append sets the array of the one value. */
  lemma AppendIsSet(data: Bytes, keys: Path, w: JVal)
    requires keys != [] && GetSpec(STRICT, data, keys) == NOT_FOUND
    ensures AppendSpec(data, Print(w), keys) == SetSpec(STRICT, data, Print(Alone(w)), keys)
  {
    hide GetSpec, SetSpec, Print;
    AloneText(w);
  }

  /**
   * The path breaks off at l: behind names alone, duplicates or not, or behind names and indexes in a document without
   * duplicates. A scalar root gives way to nothing, and a root array not to an empty name.
   */
  ghost predicate BreaksOff(d: Doc, keys: Path, depth: nat, l: Loc) {
    || Missing(d, keys, depth, l)
    || InTheWay(d, keys, depth, l)
    || (Lacks(d, keys, depth, l) && (depth == 0 ==> d.root.Node? && (keys[0] != [] || d.root.obj)))
  }

  lemma BreaksOffInside(d: Doc, keys: Path, depth: nat, l: Loc)
    requires BreaksOff(d, keys, depth, l)
    ensures depth < |keys| && ValidLoc(d.root, l)
  {
    hide Leads, Locate, Strays, DupFree;
    if !Lacks(d, keys, depth, l) { LocateSound(d.root, keys[..depth]); }
  }

  /** The chain of the missing components, down to [w], is created where the path breaks off; every other byte stays. */
  lemma AppendCreates(d: Doc, keys: Path, depth: nat, l: Loc, w: JVal)
    requires WfDoc(d) && Wf(w) && BreaksOff(d, keys, depth, l)
    ensures depth < |keys| && ValidLoc(d.root, l)
    ensures AppendSpec(PrintDoc(d), Print(w), keys) == Done(PrintDoc(CreatedDoc(d, keys, depth, l, Alone(w))))
    ensures BodyPath(keys[depth..]) ==> WfDoc(CreatedDoc(d, keys, depth, l, Alone(w)))
  {
    hide AppendSpec, SetSpec, GetSpec, PrintDoc, Print, Wf, Leads, Locate, Strays, DupFree, Nest, Inserted, ReplaceAt, Alone, BodyPath,
         CleanPath, ControlFree;
    BreaksOffInside(d, keys, depth, l);
    AloneText(w);
    CreatedKeeps(d, keys, depth, l, Alone(w));
    if Lacks(d, keys, depth, l) && (depth == 0 ==> d.root.Node? && (keys[0] != [] || d.root.obj)) {
      LacksPlan(STRICT, d, keys, depth, l);
      SetCreates(STRICT, d, keys, depth, l, Alone(w));
    } else {
      assert keys[depth..][0] == keys[depth] && keys[depth..][1..] == keys[depth + 1..];
      MissingPlan(STRICT, d, keys, depth, l);
      if Missing(d, keys, depth, l) {
        SetInserts(STRICT, d, keys, depth, l, Alone(w));
      } else {
        SetCoerces(STRICT, d, keys, depth, l, Alone(w));
      }
    }
    AppendIsSet(PrintDoc(d), keys, w);
  }

  /** Where [w] is. */
  function CreatedLoc(d: Doc, keys: Path, depth: nat, l: Loc): Loc
    requires depth < |keys| && ValidLoc(d.root, l)
  {
    l + LandingLoc(Sub(d.root, l), keys[depth..])
  }

  /** The path designates [w] in the new document, when it lands there. */
  lemma CreatedDesignated(d: Doc, keys: Path, depth: nat, l: Loc, w: JVal)
    requires WfDoc(d) && BreaksOff(d, keys, depth, l) && depth < |keys| && ValidLoc(d.root, l)
    requires BodyPath(keys[depth..]) && Lands(Sub(d.root, l), keys[depth..])
    ensures var d' := CreatedDoc(d, keys, depth, l, Alone(w));
            ArrayAt(d', keys, CreatedLoc(d, keys, depth, l)) && Sub(d'.root, CreatedLoc(d, keys, depth, l)) == Alone(w)
  {
    hide Leads, Locate, Strays, DupFree, Nest, Inserted, ReplaceAt, Sub, BodyPath, ReadsBack, Created, LandingLoc, Lands;
    var n, rest := Sub(d.root, l), keys[depth..];
    if Lacks(d, keys, depth, l) {
      LeadsLength(d.root, l, keys[..depth]);
      LeadsLacks(d.root, l, keys, depth);
      CreatedLocated(n, depth == 0, rest, Alone(w));
      LeadsCreated(n, depth == 0, rest, Alone(w));
      var x, m := Created(n, depth == 0, rest, Alone(w)), LandingLoc(n, rest);
      LeadsBelow(d.root, l, keys, x, m);
      SubReplaced(d.root, l, x, m);
    } else {
      PlainCreated(d, keys, depth, l, w);
    }
  }

  lemma PlainCreated(d: Doc, keys: Path, depth: nat, l: Loc, w: JVal)
    requires WfDoc(d) && (Missing(d, keys, depth, l) || InTheWay(d, keys, depth, l)) && ValidLoc(d.root, l)
    requires BodyPath(keys[depth..]) && Lands(Sub(d.root, l), keys[depth..])
    ensures var d' := CreatedDoc(d, keys, depth, l, Alone(w));
            ArrayAt(d', keys, CreatedLoc(d, keys, depth, l)) && Sub(d'.root, CreatedLoc(d, keys, depth, l)) == Alone(w)
  {
    hide Leads, Locate, Nest, Inserted, ReplaceAt, Sub, BodyPath, ReadsBack;
    assert keys[depth..][0] == keys[depth] && keys[depth..][1..] == keys[depth + 1..];
    if Missing(d, keys, depth, l) {
      LocateInserted(d.root, depth == 0, keys, depth, l, Alone(w));
    } else {
      LocateCoerced(d.root, keys, depth, l, Alone(w));
    }
  }

  /**
   * Append at a path that does not exist yet: the text of a well-formed document, in which Get at the path returns the array
   * of the value and ArrayEach calls back for the value and for nothing else.
   */
  lemma AppendStarts(cfg: Config, d: Doc, keys: Path, depth: nat, l: Loc, w: JVal)
    requires WfDoc(d) && Wf(w) && BreaksOff(d, keys, depth, l) && depth < |keys| && ValidLoc(d.root, l)
    requires BodyPath(keys[depth..]) && Lands(Sub(d.root, l), keys[depth..])
    ensures var r := AppendSpec(PrintDoc(d), Print(w), keys);
            && r.Done? && r.data == PrintDoc(CreatedDoc(d, keys, depth, l, Alone(w)))
            && WfDoc(CreatedDoc(d, keys, depth, l, Alone(w)))
            && (var g := GetSpec(cfg, r.data, keys);
                g.err.None? && g.t == Array && g.value == [LBRACKET] + Print(w) + [RBRACKET])
            && (var each := EachSpec(cfg, r.data, keys);
                && each.err.None? && |each.events| == 1
                && each.events[0].value == Content(w) && each.events[0].t == TypeOf(w) && each.events[0].err.None?)
  {
    hide AppendSpec, GetSpec, EachSpec, PrintDoc, Print, Wf, Content, TypeOf, OffOf, Designates, BreaksOff, Lands, BodyPath, Created,
         ReplaceAt, LandingLoc;
    AppendCreates(d, keys, depth, l, w);
    CreatedDesignated(d, keys, depth, l, w);
    var d', m := CreatedDoc(d, keys, depth, l, Alone(w)), CreatedLoc(d, keys, depth, l);
    AloneText(w);
    DesignatesGot(cfg, d', m, keys);
    AloneGot(w);
    EachDesignated(cfg, d', keys, m);
  }

  lemma AloneGot(w: JVal)
    ensures TypeOf(Alone(w)) == Array && Content(Alone(w)) == Print(Alone(w))
  {
  }

  /**
   * Whatever is appended at a path that does not exist yet, one value after the other, is read back in order, exactly once
   * each.
   */
  lemma AppendsFromNothing(cfg: Config, d: Doc, ws: seq<JVal>, keys: Path, depth: nat, l: Loc)
    requires WfDoc(d) && BreaksOff(d, keys, depth, l) && depth < |keys| && ValidLoc(d.root, l)
    requires BodyPath(keys[depth..]) && Lands(Sub(d.root, l), keys[depth..])
    requires ws != [] && forall k :: 0 <= k < |ws| ==> Wf(ws[k])
    ensures AppendAll(PrintDoc(d), ws, keys).Done?
    ensures var each := EachSpec(cfg, AppendAll(PrintDoc(d), ws, keys).data, keys);
            && each.err.None? && |each.events| == |ws|
            && forall k :: 0 <= k < |ws| ==>
                 each.events[k].value == Content(ws[k]) && each.events[k].t == TypeOf(ws[k]) && each.events[k].err.None?
  {
    hide AppendSpec, GetSpec, EachSpec, PrintDoc, Print, Wf, Content, TypeOf, OffOf, Designates, BreaksOff, Lands, BodyPath, Created,
         ReplaceAt, LandingLoc, Alone;
    AppendCreates(d, keys, depth, l, ws[0]);
    CreatedDesignated(d, keys, depth, l, ws[0]);
    AloneText(ws[0]);
    var d1, m := CreatedDoc(d, keys, depth, l, Alone(ws[0])), CreatedLoc(d, keys, depth, l);
    var d2 := AppendRun(d1, ws[1..], keys, m);
    DesignatesValid(d2.root, m, keys);
    assert Values(Sub(d2.root, m)) == [ws[0]] + ws[1..] == ws;
    EachDesignated(cfg, d2, keys, m);
  }

  /** At a path that designates anything but an array, Append refuses, and so it does where Set of a missing path refuses. */
  lemma AppendRefuses(d: Doc, value: Bytes, keys: Path, l: Loc)
    requires WfDoc(d) && Designates(d.root, l, keys) && !IsArray(Sub(d.root, l))
    ensures AppendSpec(PrintDoc(d), value, keys) == Failed(MalformedArray)
  {
    hide PrintDoc, Print, GetSpec, SetSpec, Leads, Locate, OffOf;
    DesignatesGot(STRICT, d, l, keys);
  }

  lemma AppendRefusesRoot(d: Doc, w: JVal, keys: Path)
    requires WfDoc(d) && keys != [] && !(d.root.Node? && d.root.obj) && (!d.root.Node? || keys[0] == [])
    requires PlainPath(keys) || DupFree(d.root)
    ensures AppendSpec(PrintDoc(d), Print(w), keys) == Failed(KeyPathNotFound)
  {
    hide PrintDoc, Print, GetSpec, SetSpec, AppendSpec, DupFree;
    if PlainPath(keys) {
      GetIsTreeLookup(STRICT, d, keys);
      SetRefuses(STRICT, d, Print(Alone(w)), keys);
    } else {
      NoneFound(STRICT, d, keys);
      SetRefusesPath(STRICT, d, Print(Alone(w)), keys);
    }
    AppendIsSet(PrintDoc(d), keys, w);
  }
}
