/** Laws that tie Set to Get. */
module SetLaws {
  import opened Bytes
  import opened Escapes
  import opened Strings
  import opened Scanners
  import opened Syntax
  import opened Layout
  import opened Lookup
  import opened TreeValues
  import opened TreeLookup
  import opened Contexts
  import opened Stability
  import opened Setting

  // ---- overwriting, on arbitrary bytes ----

  /** t is one complete string, array or object, by the parser's own reading. */
  predicate IsToken(cfg: Config, t: Bytes) {
    && t != [] && !IsSpace(t[0])
    && (var r := TypeAt(cfg, t, 0);
        r.err.None? && r.end == |t| && (r.t == String || r.t == Array || r.t == Object))
  }

  /** A token is read the same way wherever it stands. */
  lemma TokenAnywhere(cfg: Config, t: Bytes, data: Bytes, i: nat)
    requires IsToken(cfg, t) && At(data, i, t)
    ensures data[i] == t[0]
    ensures TypeAt(cfg, data, i) == Typed(TypeAt(cfg, t, 0).t, i + |t|, None)
  {
    hide StrEndFrom, BlockFrom, TokEnd;
    assert data[i + 0] == t[0];
    var tail := data[i..];
    assert forall k :: 0 <= k < |t| ==> tail[k] == t[k] by { AtSlide(data, i, t); TokenBytes(tail, t); }
    if IsQuote(cfg, t[0]) {
      StrEndStable(t, tail, 1, false, t[0]);
      StrEndShift(data, i, 1, false, t[0]);
    } else if t[0] == LBRACKET {
      BlockStable(cfg, t, tail, 0, 0, LBRACKET, RBRACKET);
      BlockShift(cfg, data, i, 0, 0, LBRACKET, RBRACKET);
    } else {
      BlockStable(cfg, t, tail, 0, 0, LBRACE, RBRACE);
      BlockShift(cfg, data, i, 0, 0, LBRACE, RBRACE);
    }
  }

  lemma TokenBytes(tail: Bytes, t: Bytes)
    requires At(tail, 0, t)
    ensures |t| <= |tail| && forall k :: 0 <= k < |t| ==> tail[k] == t[k]
  {
    forall k | 0 <= k < |t| ensures tail[k] == t[k] { assert tail[0 + k] == t[k]; }
  }

  /** What Get reports for a token that stands at i. */
  function GotToken(cfg: Config, t: Bytes, i: nat): Got
    requires IsToken(cfg, t)
  {
    var ty := TypeAt(cfg, t, 0).t;
    Got(if ty == String then t[1..|t| - 1] else t, ty, i, i + |t|, None)
  }

  lemma GetToken(cfg: Config, t: Bytes, data: Bytes, r: nat, i: nat)
    requires IsToken(cfg, t) && At(data, i, t) && r <= i && SpaceRun(data, r, i)
    ensures GetFrom(cfg, data, r) == GotToken(cfg, t, i)
  {
    hide TypeAt;
    TokenAnywhere(cfg, t, data, i);
    NextTokSkips(data, r, i);
    AtSlice(data, i, t);
    assert TypeAt(cfg, t, 0).t == String ==> 2 <= |t|;
    if TypeAt(cfg, t, 0).t == String { InnerSlice(data, i, i + |t|, t); }
  }

  lemma SpliceParts(data: Bytes, i: nat, j: nat, s: Bytes)
    requires i <= j <= |data|
    ensures var d := Splice(data, i, j, s);
            At(d, i, s) && SameBefore(data, d, i) && d[..i] == data[..i] && d[i + |s|..] == data[j..]
            && |d| == |data| - (j - i) + |s|
  {
    var d := Splice(data, i, j, s);
    assert d == data[..i] + (s + data[j..]);
    AtWhole(d);
    AtSplit(d, 0, data[..i], s + data[j..]);
    AtSplit(d, i, s, data[j..]);
    forall k | 0 <= k < i ensures data[k] == d[k] { assert d[k] == data[..i][k]; }
  }

  /** After overwriting what Get found, the search stops where it did, and the new bytes stand there. */
  lemma FoundAgain(cfg: Config, data: Bytes, keys: Path, t: Bytes) returns (r: nat)
    requires keys != [] && PlainPath(keys) && GetSpec(cfg, data, keys).err.None?
    ensures var g := GetSpec(cfg, data, keys);
            && SetSpec(cfg, data, t, keys).Done?
            && var d := SetSpec(cfg, data, t, keys).data;
               && r <= g.off && SpaceRun(d, r, g.off) && At(d, g.off, t) && d[g.off + |t|..] == data[g.end..]
               && GetSpec(cfg, d, keys) == GetFrom(cfg, d, r)
  {
    hide SearchRun, TypeAt;
    var g := GetSpec(cfg, data, keys);
    var d := SetSpec(cfg, data, t, keys).data;
    SpliceParts(data, g.off, g.end, t);
    r := SearchKeysSpec(cfg, data, keys);
    assert g.off == NextTok(data, r) && r <= g.off;
    SearchStable(cfg, data, d, keys, 0, 0, 0, true, r);
    assert SpaceRun(d, r, g.off);
  }

  /**
   * On any bytes at all: if Get finds a path of plain keys, then after overwriting it with any complete string,
   * array or object Get finds exactly that token there. Nothing is assumed about the text around it.
   */
  lemma GetAfterSet(cfg: Config, data: Bytes, keys: Path, t: Bytes)
    requires keys != [] && PlainPath(keys) && IsToken(cfg, t)
    requires GetSpec(cfg, data, keys).err.None?
    ensures SetSpec(cfg, data, t, keys).Done?
    ensures GetSpec(cfg, SetSpec(cfg, data, t, keys).data, keys) == GotToken(cfg, t, GetSpec(cfg, data, keys).off)
  {
    hide GetSpec, SetSpec, GetFrom, IsToken, GotToken;
    var r := FoundAgain(cfg, data, keys, t);
    GetToken(cfg, t, SetSpec(cfg, data, t, keys).data, r, GetSpec(cfg, data, keys).off);
  }

  /** A number or literal runs on up to the next delimiter. */
  lemma {:induction false} TokEndBehind(data: Bytes, i: nat, j: nat)
    requires i <= j <= |data| && forall k :: i <= k < j ==> IsPrimByte(data[k])
    ensures TokEnd(data, i) == TokEnd(data, j)
    decreases j - i
  {
    if i < j { TokEndBehind(data, i + 1, j); }
  }

  /** A number or literal that no delimiter follows is not what is read there. */
  lemma RunsOn(cfg: Config, data: Bytes, r: nat, i: nat, t: Bytes)
    requires IsPrimitive(t) && At(data, i, t) && SpaceRun(data, r, i) && !Bounded(data, i + |t|)
    ensures GetFrom(cfg, data, r).value != t
  {
    hide StrEndFrom, BlockFrom;
    PrimAt(data, i, t);
    NextTokSkips(data, r, i);
    TokEndBehind(data, i, i + |t|);
  }

  /**
   * The same for a number or literal: Get reads it back if and only if a delimiter, or the end, follows the value it took
   * the place of.
   */
  lemma GetAfterSetPrimitive(cfg: Config, data: Bytes, keys: Path, t: Bytes)
    requires keys != [] && PlainPath(keys) && IsPrimitive(t)
    requires GetSpec(cfg, data, keys).err.None?
    ensures SetSpec(cfg, data, t, keys).Done?
    ensures var g, g' := GetSpec(cfg, data, keys), GetSpec(cfg, SetSpec(cfg, data, t, keys).data, keys);
            g' == Got(t, TypeOf(Prim(t)), g.off, g.off + |t|, None) <==> Bounded(data, g.end)
  {
    hide GetSpec, SetSpec, GetFrom, IsPrimitive, TypeOf, Bounded;
    var g := GetSpec(cfg, data, keys);
    var r := FoundAgain(cfg, data, keys, t);
    var d := SetSpec(cfg, data, t, keys).data;
    SameBound(data, d, g.end, g.off + |t|);
    if Bounded(data, g.end) {
      GetValue(cfg, d, r, g.off, Prim(t));
    } else {
      RunsOn(cfg, d, r, g.off, t);
    }
  }

  lemma SameBound(a: Bytes, b: Bytes, i: nat, j: nat)
    requires i <= |a| && j <= |b| && a[i..] == b[j..]
    ensures Bounded(a, i) <==> Bounded(b, j)
  {
    assert |a| - i == |b| - j;
    assert i < |a| ==> a[i..][0] == b[j..][0];
  }

  /** Setting the same token twice is setting it once. */
  lemma SetTwice(cfg: Config, data: Bytes, keys: Path, t: Bytes)
    requires keys != [] && PlainPath(keys) && IsToken(cfg, t)
    requires GetSpec(cfg, data, keys).err.None?
    ensures SetSpec(cfg, data, t, keys).Done?
    ensures SetSpec(cfg, SetSpec(cfg, data, t, keys).data, t, keys) == SetSpec(cfg, data, t, keys)
  {
    hide GetSpec, IsToken;
    GetAfterSet(cfg, data, keys, t);
    var g := GetSpec(cfg, data, keys);
    var d := SetSpec(cfg, data, t, keys).data;
    SpliceParts(data, g.off, g.end, t);
    SpliceParts(d, g.off, g.off + |t|, t);
    assert Splice(d, g.off, g.off + |t|, t) == d;
  }

  // ---- overwriting in well-formed documents ----

  /** Set at a path that designates a value replaces exactly that value in the tree. */
  lemma SetReplaces(cfg: Config, d: Doc, keys: Path, l: Loc, w: JVal)
    requires WfDoc(d) && Wf(w) && keys != [] && Designates(d.root, l, keys)
    ensures ValidLoc(d.root, l)
    ensures SetSpec(cfg, PrintDoc(d), Print(w), keys) == Done(PrintDoc(ReplaceDoc(d, l, w)))
    ensures WfDoc(ReplaceDoc(d, l, w))
    ensures ControlFree(d.root) && ControlFree(w) ==> ControlFree(ReplaceAt(d.root, l, w))
  {
    hide Print, PrintDoc, GetSpec, OffOf, ReplaceAt, Leads, Wf, Content, TypeOf, ControlFree, Sub;
    DesignatesGot(cfg, d, l, keys);
    PrintReplaced(d, l, w);
    ReplaceWf(d.root, l, w);
    if ControlFree(d.root) && ControlFree(w) { ReplaceControlFree(d.root, l, w); }
  }

  /** Neither location lies on the way to the other. */
  predicate Diverge(a: Loc, b: Loc) {
    !(a <= b) && !(b <= a)
  }

  lemma Split(l: Loc)
    requires l != []
    ensures l == [l[0]] + l[1..]
  {
  }

  /** Replacing the value at one place does not disturb a path that does not run through that place. */
  lemma {:induction false} ReplaceLeads(v: JVal, l: Loc, w: JVal, m: Loc, keys: Path)
    requires ValidLoc(v, l) && Leads(v, m, keys) && (l <= m ==> l == m)
    ensures Leads(ReplaceAt(v, l, w), m, keys)
    decreases |l|
  {
    if m != [] && l != [] {
      Split(l);
      Split(m);
      if l[0] == m[0] { ReplaceLeads(v.es[l[0]].v, l[1..], w, m[1..], keys[1..]); }
    }
  }

  /** The first match of a path of names stays the first when its value is replaced. */
  lemma {:induction false} ReplaceLocates(v: JVal, l: Loc, w: JVal, keys: Path)
    requires ValidLoc(v, l) && PlainPath(keys) && Locate(v, keys) == Some(l)
    ensures Locate(ReplaceAt(v, l, w), keys) == Some(l)
    decreases |l|
  {
    hide KeyIs, IndexOf;
    if l != [] {
      var k := l[0];
      NotIndex(keys[0]);
      MemberShape(v.es, keys, 0);
      var below := Locate(v.es[k].v, keys[1..]);
      assert ([k] + below.value)[1..] == below.value;
      ReplaceLocates(v.es[k].v, l[1..], w, keys[1..]);
      var r := ReplaceAt(v, l, w);
      SameNames(v, l, w);
      MemberShape(r.es, keys, 0);
      Split(l);
    }
  }

  lemma SameNames(v: JVal, l: Loc, w: JVal)
    requires ValidLoc(v, l) && l != []
    ensures var r := ReplaceAt(v, l, w);
            && r.Node? && r.obj == v.obj && |r.es| == |v.es|
            && r.es[l[0]].v == ReplaceAt(v.es[l[0]].v, l[1..], w)
            && (forall j, name :: 0 <= j < |v.es| ==> (KeyIs(r.es[j], name) <==> KeyIs(v.es[j], name)))
            && (forall j :: 0 <= j < |v.es| && j != l[0] ==> r.es[j] == v.es[j])
  {
  }

  lemma ReplaceDesignates(v: JVal, l: Loc, w: JVal, keys: Path)
    requires Designates(v, l, keys)
    ensures Designates(ReplaceAt(v, l, w), l, keys)
  {
    hide Leads, Locate, ReplaceAt;
    ReplaceKeepsContext(v, l, w);
    if Leads(v, l, keys) {
      ReplaceLeads(v, l, w, l, keys);
    } else {
      ReplaceLocates(v, l, w, keys);
    }
  }

  lemma {:induction false} ReplaceElsewhere(v: JVal, l: Loc, w: JVal, m: Loc)
    requires ValidLoc(v, l) && ValidLoc(v, m) && Diverge(l, m)
    ensures ValidLoc(ReplaceAt(v, l, w), m) && Sub(ReplaceAt(v, l, w), m) == Sub(v, m)
    decreases |l|
  {
    Split(l);
    Split(m);
    if l[0] == m[0] { ReplaceElsewhere(v.es[l[0]].v, l[1..], w, m[1..]); }
  }

  /**
   * The frame of Set: overwriting the value at one path leaves value and type at every diverging path as they
   * were. The new value may be any well-formed value, with or without duplicate names.
   */
  lemma SetFrame(cfg: Config, d: Doc, keys: Path, l: Loc, w: JVal, other: Path, m: Loc)
    requires WfDoc(d) && Wf(w) && keys != [] && Leads(d.root, l, keys) && Leads(d.root, m, other) && Diverge(l, m)
    ensures SetSpec(cfg, PrintDoc(d), Print(w), keys).Done?
    ensures var before := GetSpec(cfg, PrintDoc(d), other);
            var after := GetSpec(cfg, SetSpec(cfg, PrintDoc(d), Print(w), keys).data, other);
            after.err.None? && before.err.None? && after.value == before.value && after.t == before.t
  {
    hide Print, PrintDoc, GetSpec, SetSpec, OffOf, ReplaceAt, Leads, Sub, Content, TypeOf;
    LeadsLocates(d.root, l, keys);
    SetReplaces(cfg, d, keys, l, w);
    ReplaceLeads(d.root, l, w, m, other);
    LeadsLocates(d.root, m, other);
    ReplaceElsewhere(d.root, l, w, m);
    GetFindsLeading(cfg, d, other, m);
    GetFindsLeading(cfg, ReplaceDoc(d, l, w), other, m);
  }

  /** After Set, Get at the path returns the new value, of whatever type; setting it again changes nothing. */
  lemma SetThenGet(cfg: Config, d: Doc, keys: Path, l: Loc, w: JVal)
    requires WfDoc(d) && Wf(w) && keys != [] && Designates(d.root, l, keys)
    ensures SetSpec(cfg, PrintDoc(d), Print(w), keys).Done?
    ensures var after := SetSpec(cfg, PrintDoc(d), Print(w), keys).data;
            && GetSpec(cfg, after, keys).err.None?
            && GetSpec(cfg, after, keys).value == Content(w) && GetSpec(cfg, after, keys).t == TypeOf(w)
            && SetSpec(cfg, after, Print(w), keys) == Done(after)
  {
    hide Print, PrintDoc, GetSpec, SetSpec, OffOf, Leads, Sub, Content, TypeOf, WfDoc;
    SetReplaces(cfg, d, keys, l, w);
    ReplaceDesignates(d.root, l, w, keys);
    ReplaceKeepsContext(d.root, l, w);
    var d' := ReplaceDoc(d, l, w);
    DesignatesGot(cfg, d', l, keys);
    SetReplaces(cfg, d', keys, l, w);
    ReplaceTwice(d.root, l, w);
  }

  /** SetString stores any bytes: what is then read at the path is a string that unescapes to them. */
  lemma SetStringThenGet(cfg: Config, d: Doc, keys: Path, l: Loc, text: Bytes)
    requires WfDoc(d) && keys != [] && Designates(d.root, l, keys)
    ensures SetSpec(cfg, PrintDoc(d), Escaped(text), keys).Done?
    ensures var g := GetSpec(cfg, SetSpec(cfg, PrintDoc(d), Escaped(text), keys).data, keys);
            g.err.None? && g.t == String && Unescaped(cfg, g.value) == Some(text)
  {
    hide PrintDoc, GetSpec, SetSpec, Designates, EscapeBody, IsStringBody, Unescaped;
    var w := Str(EscapeBody(text));
    EscapedIsBody(text);
    Associate([QUOTE], EscapeBody(text), [QUOTE]);
    assert Print(w) == Escaped(text);
    SetThenGet(cfg, d, keys, l, w);
    EscapeRoundTrip(cfg, text);
  }

  lemma {:induction false} ReplaceTwice(v: JVal, l: Loc, w: JVal)
    requires ValidLoc(v, l)
    ensures ValidLoc(ReplaceAt(v, l, w), l) && ReplaceAt(ReplaceAt(v, l, w), l, w) == ReplaceAt(v, l, w)
    decreases |l|
  {
    if l != [] {
      ReplaceTwice(v.es[l[0]].v, l[1..], w);
      var r := ReplaceAt(v, l, w);
      assert ReplaceAt(r, l, w).es == r.es;
    }
  }
}
