/** Edits that add to a document: Set on a path that is partly missing, and Append. */
module Growth {
  import opened Bytes
  import opened Strings
  import opened Escapes
  import opened Scanners
  import opened Syntax
  import opened Layout
  import opened Lookup
  import opened TreeValues
  import opened TreeLookup
  import opened Contexts
  import opened Insert
  import opened Setting

  // ---- a value inside freshly written objects ----

  /**
   * Components that find their way through the containers written for them: names without a backslash, and indexes of the
   * only element there is.
   */
  predicate ReadsBack(keys: Path) {
    forall j :: 0 <= j < |keys| ==> if IsIndexKey(keys[j]) then IndexOf(keys[j]) == Some(0) else Plain(keys[j])
  }

  /** Names that are well-formed between quotes, escapes included. */
  predicate BodyPath(keys: Path) {
    forall j :: 0 <= j < |keys| ==> IsIndexKey(keys[j]) || IsStringBody(keys[j])
  }

  /** Names without control bytes. */
  predicate CleanPath(keys: Path) {
    forall j :: 0 <= j < |keys| ==> IsIndexKey(keys[j]) || NoControl(keys[j])
  }

  function Fresh(w1: Bytes, key: Bytes, v: JVal): Entry {
    Entry(w1, key, [], [], v, [])
  }

  function Elem(w3: Bytes, w: JVal): Entry { Entry([], [], [], w3, w, []) }

  /** The value wrapped in one object with a single member for every name, and in one array of one element for every index. */
  function Nest(keys: Path, w: JVal): JVal {
    if keys == [] then w
    else if IsIndexKey(keys[0]) then Node(false, [], [Elem([], Nest(keys[1..], w))])
    else Node(true, [], [Fresh([], keys[0], Nest(keys[1..], w))])
  }

  lemma {:induction false} PlainBody(key: Bytes)
    requires Plain(key) && forall k :: 0 <= k < |key| ==> key[k] != QUOTE
    ensures IsStringBody(key) && Unescaped(STRICT, key) == Some(key)
  {
    UnescapedIdentity(STRICT, key);
    if key != [] { PlainBody(key[1..]); }
  }

  /** A component that is well-formed between quotes is read back as itself exactly when it has no backslash. */
  lemma BodyReadsBack(key: Bytes)
    requires IsStringBody(key)
    ensures Unescaped(STRICT, key) == Some(key) <==> Plain(key)
  {
    if HasBackslash(key) {
      DecodedShorter(STRICT, key) by { BodyDecodes(STRICT, key); }
    } else {
      UnescapedIdentity(STRICT, key);
    }
  }

  lemma PrintFresh(w1: Bytes, key: Bytes, v: JVal)
    ensures PrintEntry(true, Fresh(w1, key, v)) == w1 + ([QUOTE] + key + [QUOTE, COLON] + Print(v))
  {
    var e := Fresh(w1, key, v);
    assert KeyPart(true, e) == w1 + ([QUOTE] + key + [QUOTE, COLON]);
    assert [] + (Print(v) + []) == Print(v);
    Associate(w1, [QUOTE] + key + [QUOTE, COLON], Print(v));
  }

  lemma PrintElem(w3: Bytes, w: JVal)
    ensures PrintEntry(false, Elem(w3, w)) == w3 + Print(w)
  {
    assert [] + (w3 + (Print(w) + [])) == w3 + Print(w);
  }

  /** The nested part that createInsertComponent writes is the printed nest. */
  lemma {:induction false} PrintNest(keys: Path, w: JVal)
    ensures Print(Nest(keys, w)) == Opens(keys) + Print(w) + Closes(keys)
  {
    if keys == [] {
      assert [] + Print(w) + [] == Print(w);
    } else {
      hide Print, Opens, Closes, Nest, PrintEntry;
      var inner := Nest(keys[1..], w);
      PrintNest(keys[1..], w);
      OpensOf(keys);
      NestStep(keys, w);
      NestBytes(Opens(keys[..1]), Opens(keys[1..]), Print(w), Closes(keys[1..]), Closes(keys[..1]));
    }
  }

  /** One more container around a nest. */
  lemma NestStep(keys: Path, w: JVal)
    requires keys != []
    ensures Print(Nest(keys, w)) == Opens(keys[..1]) + Print(Nest(keys[1..], w)) + Closes(keys[..1])
  {
    var inner := Nest(keys[1..], w);
    assert keys[..1][1..] == [];
    if IsIndexKey(keys[0]) {
      PrintFirst(false, [], Elem([], inner));
      PrintElem([], inner);
      ElementBytes(Print(inner));
    } else {
      PrintFirst(true, [], Fresh([], keys[0], inner));
      PrintFresh([], keys[0], inner);
      MemberBytes(keys[0], Print(inner));
    }
  }

  lemma ElementBytes(x: Bytes)
    ensures [LBRACKET] + (([] + x) + [RBRACKET]) == ([LBRACKET] + []) + x + ([] + [RBRACKET])
  {
  }

  lemma MemberBytes(key: Bytes, x: Bytes)
    ensures [LBRACE] + (([] + ([QUOTE] + key + [QUOTE, COLON] + x)) + [RBRACE])
         == ([LBRACE, QUOTE] + key + [QUOTE, COLON] + []) + x + ([] + [RBRACE])
  {
  }

  lemma OpensOf(keys: Path)
    requires keys != []
    ensures Opens(keys) == Opens(keys[..1]) + Opens(keys[1..])
    ensures Closes(keys) == Closes(keys[1..]) + Closes(keys[..1])
  {
    assert keys[..1][1..] == [];
    var o := if IsIndexKey(keys[0]) then [LBRACKET] else [LBRACE, QUOTE] + keys[0] + [QUOTE, COLON];
    assert o + [] == o;
  }

  lemma NestBytes(o: Bytes, a: Bytes, b: Bytes, c: Bytes, e: Bytes)
    ensures o + (a + b + c) + e == (o + a) + b + (c + e)
  {
  }

  lemma {:induction false} NestWf(keys: Path, w: JVal)
    requires BodyPath(keys) && Wf(w)
    ensures Wf(Nest(keys, w))
  {
    if keys != [] {
      NestWf(keys[1..], w);
    }
  }

  lemma {:induction false} NestControlFree(keys: Path, w: JVal)
    requires CleanPath(keys) && ControlFree(w)
    ensures ControlFree(Nest(keys, w))
  {
    hide NoControl;
    if keys != [] { NestControlFree(keys[1..], w); }
  }

  // ---- adding an entry to a node ----

  /** The node with one more entry at its end; an empty node keeps its whitespace only when asked to. */
  function Grown(n: JVal, e: Entry): JVal
    requires n.Node?
  {
    n.(es := n.es + [e])
  }

  lemma {:induction false} LeadWhole(obj: bool, es: seq<Entry>)
    requires es != []
    ensures PrintLead(obj, es) == PrintEntries(obj, es) + [COMMA]
  {
    var n := |es| - 1;
    EntriesSplit(obj, es, n);
    assert es[n + 1..] == [];
    hide PrintEntry, PrintEntries, PrintLead;
    assert PrintLead(obj, es) == PrintLead(obj, es[..n]) + (PrintEntry(obj, es[n]) + [COMMA]) by { LeadOf(obj, es); }
    assert PrintEntry(obj, es[n]) + [] == PrintEntry(obj, es[n]);
    Associate(PrintLead(obj, es[..n]), PrintEntry(obj, es[n]), [COMMA]);
  }

  lemma LeadOf(obj: bool, es: seq<Entry>)
    requires es != []
    ensures PrintLead(obj, es) == PrintLead(obj, es[..|es| - 1]) + (PrintEntry(obj, es[|es| - 1]) + [COMMA])
  {
  }

  /** A comma and the new entry, written before the closing bracket. */
  lemma PrintGrown(n: JVal, e: Entry)
    requires n.Node? && n.es != []
    ensures Print(Grown(n, e)) == Print(n)[..|Print(n)| - 1] + ([COMMA] + PrintEntry(n.obj, e)) + Print(n)[|Print(n)| - 1..]
  {
    var es := n.es + [e];
    EntriesSplit(n.obj, es, |n.es|);
    assert es[..|n.es|] == n.es && es[|n.es| + 1..] == [];
    LeadWhole(n.obj, n.es);
    GrownText(n, e, PrintEntry(n.obj, e), PrintEntries(n.obj, n.es), PrintEntries(n.obj, es));
  }

  lemma GrownText(n: JVal, e: Entry, x: Bytes, inner: Bytes, all: Bytes)
    requires n.Node? && n.es != [] && inner == PrintEntries(n.obj, n.es) && all == PrintEntries(n.obj, n.es + [e])
    requires all == inner + [COMMA] + (x + [])
    ensures Print(Grown(n, e)) == Print(n)[..|Print(n)| - 1] + ([COMMA] + x) + Print(n)[|Print(n)| - 1..]
  {
    hide PrintEntries;
    var p := Print(n);
    assert p == [Open(n.obj)] + (inner + [Close(n.obj)]);
    assert p[..|p| - 1] == [Open(n.obj)] + inner && p[|p| - 1..] == [Close(n.obj)];
    assert Print(Grown(n, e)) == [Open(n.obj)] + (all + [Close(n.obj)]);
    assert [Open(n.obj)] + ((inner + [COMMA] + (x + [])) + [Close(n.obj)])
        == ([Open(n.obj)] + inner) + ([COMMA] + x) + [Close(n.obj)];
  }

  /** The first entry of an empty node, written with or without its old whitespace. */
  lemma PrintFirst(obj: bool, ews: Bytes, e: Entry)
    ensures Print(Node(obj, ews, [e])) == [Open(obj)] + (PrintEntry(obj, e) + [Close(obj)])
  {
  }

  /** A splice inside the value at l is the printed document with that value replaced. */
  lemma SpliceWithin(d: Doc, l: Loc, a: nat, b: nat, s: Bytes, w: JVal)
    requires ValidLoc(d.root, l)
    requires var p := Print(Sub(d.root, l)); a <= b <= |p| && Print(w) == p[..a] + s + p[b..]
    ensures var i := |d.lead| + OffOf(d.root, l);
            && i + b <= |PrintDoc(d)|
            && Splice(PrintDoc(d), i + a, i + b, s) == PrintDoc(ReplaceDoc(d, l, w))
  {
    hide Print, PrintDoc, ReplaceAt;
    var p := Print(Sub(d.root, l));
    DocContext(d, l);
    PrintReplaced(d, l, w);
    var x, y := PreDoc(d, l), PostDoc(d, l);
    SpliceBytes(x, p, y, a, b, s);
  }

  lemma SpliceBytes(x: Bytes, p: Bytes, y: Bytes, a: nat, b: nat, s: Bytes)
    requires a <= b <= |p|
    ensures var t := x + (p + y); t[..|x| + a] + s + t[|x| + b..] == x + (p[..a] + s + p[b..]) + y
    ensures var t := x + (p + y); t[..|x|] == x && t[|x| + |p|..] == y
  {
    var t := x + (p + y);
    assert t[..|x| + a] == x + p[..a];
    assert t[|x| + b..] == p[b..] + y;
  }

  // ---- Set on a partly missing path ----

  /** The object with a new last member; the root object keeps the whitespace it had while empty. */
  function Inserted(n: JVal, top: bool, key: Bytes, sub: JVal): JVal
    requires n.Node?
  {
    if n.es != [] then Grown(n, Fresh([], key, sub)) else Node(n.obj, [], [Fresh(if top then n.ews else [], key, sub)])
  }

  lemma InsertedWf(n: JVal, top: bool, key: Bytes, sub: JVal)
    requires n.Node? && n.obj && Wf(n) && Wf(sub) && IsStringBody(key)
    ensures Wf(Inserted(n, top, key, sub))
  {
  }

  /** The component is the printed member, after a comma or inside new braces as asked. */
  lemma ComponentIsMember(keys: Path, w: JVal, comma: bool, wrap: bool)
    requires keys != [] && !IsIndexKey(keys[0])
    ensures var x := PrintEntry(true, Fresh([], keys[0], Nest(keys[1..], w)));
            Component(keys, Print(w), comma, wrap)
            == (if comma then [COMMA] else []) + ((if wrap then [LBRACE] else []) + x + (if wrap then [RBRACE] else []))
  {
    hide Print, PrintEntry, Opens, Closes;
    PrintNest(keys[1..], w);
    PrintFresh([], keys[0], Nest(keys[1..], w));
    var c := if comma then [COMMA] else [];
    var o := if wrap then [LBRACE] else [];
    var f := if wrap then [RBRACE] else [];
    var k := [QUOTE] + keys[0] + [QUOTE, COLON];
    assert Head(keys, comma, wrap) == c + (o + k);
    assert Foot(keys, comma, wrap) == f by { assert [] + f == f; }
    assert [] + (k + (Opens(keys[1..]) + Print(w) + Closes(keys[1..])))
        == k + (Opens(keys[1..]) + Print(w) + Closes(keys[1..]));
    ComponentGroup(c, o, k, Opens(keys[1..]), Print(w), Closes(keys[1..]), f);
  }

  lemma ComponentGroup(c: Bytes, o: Bytes, k: Bytes, a: Bytes, b: Bytes, z: Bytes, f: Bytes)
    ensures (c + (o + k)) + a + b + z + f == c + (o + (k + (a + b + z)) + f)
  {
  }

  /** The printed result of inserting, as a splice of the printed object. */
  lemma PrintInserted(n: JVal, top: bool, key: Bytes, sub: JVal)
    requires n.Node? && n.obj
    ensures var p := Print(n);
            var x := PrintEntry(true, Fresh([], key, sub));
            var r := Print(Inserted(n, top, key, sub));
            && (n.es != [] ==> r == p[..|p| - 1] + ([COMMA] + x) + p[|p| - 1..])
            && (n.es == [] && top ==> r == p[..|p| - 1] + x + p[|p| - 1..])
            && (n.es == [] && !top ==> r == p[..0] + ([LBRACE] + x + [RBRACE]) + p[|p|..])
  {
    var p := Print(n);
    var x := PrintEntry(true, Fresh([], key, sub));
    if n.es != [] {
      PrintGrown(n, Fresh([], key, sub));
    } else {
      var e := Fresh(if top then n.ews else [], key, sub);
      PrintFirst(true, [], e);
      PrintFresh(e.w1, key, sub);
      PrintFresh([], key, sub);
      InsertedBytes(n.ews, [QUOTE] + key + [QUOTE, COLON] + Print(sub));
      assert p == [LBRACE] + (n.ews + [RBRACE]);
    }
  }

  lemma InsertedBytes(ews: Bytes, m: Bytes)
    ensures var p := [LBRACE] + (ews + [RBRACE]);
            && [LBRACE] + ((ews + m) + [RBRACE]) == p[..|p| - 1] + ([] + m) + p[|p| - 1..]
            && [LBRACE] + (([] + m) + [RBRACE]) == p[..0] + ([LBRACE] + ([] + m) + [RBRACE]) + p[|p|..]
  {
    var p := [LBRACE] + (ews + [RBRACE]);
    assert p[..|p| - 1] == [LBRACE] + ews && p[|p| - 1..] == [RBRACE];
  }

  lemma {:induction false} LastTokSkips(data: Bytes, i: nat, j: nat)
    requires i <= j <= |data| && forall k :: i <= k < j ==> IsSpace(data[k])
    ensures LastTok(data, j) == LastTok(data, i)
    decreases j - i
  {
    if i < j { LastTokSkips(data, i, j - 1); }
  }

  /** First and last token of a document whose root is an object or array. */
  lemma RootTokens(d: Doc)
    requires WfDoc(d) && d.root.Node?
    ensures var data := PrintDoc(d);
            && NextTok(data, 0) == |d.lead| && data[|d.lead|] == Open(d.root.obj)
            && LastTok(data, |data|) == |d.lead| + |Print(d.root)| - 1
            && At(data, |d.lead|, Print(d.root)) && |d.lead| + |Print(d.root)| <= |data|
  {
    hide Print, PrintDoc;
    var data := PrintDoc(d);
    DocAt(d);
    NodeAt(data, |d.lead|, d.root);
    NextTokSkips(data, 0, |d.lead|);
    LastTokSkips(data, |d.lead| + |Print(d.root)|, |data|);
  }

  lemma {:induction false} LocatePrefix(v: JVal, keys: Path, m: nat)
    requires m <= |keys| && Locate(v, keys).Some?
    ensures Locate(v, keys[..m]).Some?
    decreases |keys|
  {
    if m > 0 {
      var l := Locate(v, keys).value;
      assert keys[..m][0] == keys[0] && keys[..m][1..] == keys[1..][..m - 1];
      if v.obj {
        MemberShape(v.es, keys, 0);
        LocatePrefix(v.es[l[0]].v, keys[1..], m - 1);
        MemberShape(v.es, keys[..m], 0);
      } else {
        LocatePrefix(v.es[l[0]].v, keys[1..], m - 1);
      }
    }
  }

  /** The prefix walk stops at depth when the prefixes up to depth resolve and the next one does not. */
  lemma {:induction false} DepthIs(cfg: Config, data: Bytes, keys: Path, i: nat, depth: nat)
    requires i <= depth <= |keys|
    requires forall j :: i < j <= depth ==> GetSpec(cfg, data, keys[..j]).err.None?
    requires depth < |keys| ==> GetSpec(cfg, data, keys[..depth + 1]).err.Some?
    ensures PrefixDepth(cfg, data, keys, i) == depth
    decreases depth - i
  {
    hide GetSpec;
    if i < depth {
      assert GetSpec(cfg, data, keys[..i + 1]).err.None?;
      DepthIs(cfg, data, keys, i + 1, depth);
    }
  }

  /** The first depth components of a plain path resolve, to l, and the next one does not. */
  ghost predicate Absent(d: Doc, keys: Path, depth: nat, l: Loc) {
    && depth < |keys| && PlainPath(keys)
    && Locate(d.root, keys[..depth]) == Some(l) && Locate(d.root, keys[..depth + 1]) == None
    && ValidLoc(d.root, l)
  }

  /** The value at l is an object, which lacks the next component. */
  ghost predicate Missing(d: Doc, keys: Path, depth: nat, l: Loc) {
    Absent(d, keys, depth, l) && Sub(d.root, l).Node? && Sub(d.root, l).obj
  }

  lemma MissingPlan(cfg: Config, d: Doc, keys: Path, depth: nat, l: Loc)
    requires WfDoc(d) && Absent(d, keys, depth, l)
    ensures GetSpec(cfg, PrintDoc(d), keys) == NOT_FOUND
    ensures PrefixDepth(cfg, PrintDoc(d), keys, 0) == depth
    ensures depth > 0 ==> GetSpec(cfg, PrintDoc(d), keys[..depth]) == GotAt(d, l)
  {
    hide GetSpec, PrintDoc, GotAt, PrefixDepth;
    GetIsTreeLookup(cfg, d, keys[..depth]);
    GetIsTreeLookup(cfg, d, keys[..depth + 1]);
    GetIsTreeLookup(cfg, d, keys);
    if Locate(d.root, keys).Some? { LocatePrefix(d.root, keys, depth + 1); }
    forall j | 0 < j <= depth ensures GetSpec(cfg, PrintDoc(d), keys[..j]).err.None? {
      assert keys[..depth][..j] == keys[..j];
      LocatePrefix(d.root, keys[..depth], j);
      GetIsTreeLookup(cfg, d, keys[..j]);
      GotAtOk(d, LocOf(d.root, keys[..j]));
    }
    DepthIs(cfg, PrintDoc(d), keys, 0, depth);
  }

  lemma GotAtOk(d: Doc, l: Loc)
    requires ValidLoc(d.root, l)
    ensures GotAt(d, l).err.None?
  {
  }

  /** The document with the nested chain for the missing components as last member of the object at l. */
  function InsertedDoc(d: Doc, keys: Path, depth: nat, l: Loc, w: JVal): Doc
    requires depth < |keys| && ValidLoc(d.root, l) && Sub(d.root, l).Node?
  {
    ReplaceDoc(d, l, Inserted(Sub(d.root, l), depth == 0, keys[depth], Nest(keys[depth + 1..], w)))
  }

  /** The splice Set makes when nothing of the path exists. */
  lemma TopSplice(d: Doc, keys: Path, w: JVal)
    requires WfDoc(d) && d.root.Node? && d.root.obj && keys != [] && !IsIndexKey(keys[0])
    ensures var last := |d.lead| + |Print(d.root)| - 1;
            && last <= |PrintDoc(d)|
            && Splice(PrintDoc(d), last, last, Component(keys, Print(w), d.root.es != [], false))
               == PrintDoc(InsertedDoc(d, keys, 0, [], w))
  {
    hide Print, PrintDoc, PrintEntry, ReplaceAt, Component, Inserted, Nest, OffOf;
    var n := d.root;
    var sub := Nest(keys[1..], w);
    var m := |Print(n)| - 1;
    OffOfRoot(n);
    assert Sub(d.root, []) == n;
    PrintInserted(n, true, keys[0], sub);
    ComponentIsMember(keys, w, n.es != [], false);
    MemberText(PrintEntry(true, Fresh([], keys[0], sub)));
    SpliceWithin(d, [], m, m, Component(keys, Print(w), n.es != [], false), Inserted(n, true, keys[0], sub));
  }

  /** The splice Set makes inside an existing object. */
  lemma BelowSplice(d: Doc, keys: Path, l: Loc, w: JVal)
    requires WfDoc(d) && keys != [] && !IsIndexKey(keys[0])
    requires ValidLoc(d.root, l) && Sub(d.root, l).Node? && Sub(d.root, l).obj
    ensures var n := Sub(d.root, l);
            var i := |d.lead| + OffOf(d.root, l);
            var j := i + |Print(n)|;
            var r := PrintDoc(ReplaceDoc(d, l, Inserted(n, false, keys[0], Nest(keys[1..], w))));
            && i < j <= |PrintDoc(d)|
            && (n.es == [] ==> Splice(PrintDoc(d), i, j, Component(keys, Print(w), false, true)) == r)
            && (n.es != [] ==> Splice(PrintDoc(d), j - 1, j - 1, Component(keys, Print(w), true, false)) == r)
  {
    hide Print, PrintDoc, PrintEntry, ReplaceAt, Component, Inserted, Nest, OffOf;
    var n := Sub(d.root, l);
    var sub := Nest(keys[1..], w);
    var wrap := n.es == [];
    SubPlace(d, l);
    PrintNonempty(n);
    PrintInserted(n, false, keys[0], sub);
    ComponentIsMember(keys, w, !wrap, wrap);
    MemberText(PrintEntry(true, Fresh([], keys[0], sub)));
    var a := if wrap then 0 else |Print(n)| - 1;
    var b := if wrap then |Print(n)| else |Print(n)| - 1;
    SpliceWithin(d, l, a, b, Component(keys, Print(w), !wrap, wrap), Inserted(n, false, keys[0], sub));
    assert |d.lead| + OffOf(d.root, l) + |Print(n)| <= |PrintDoc(d)| by { SubPlace(d, l); }
  }

  /**
   * Set on a path whose longest existing prefix is an object yields the text of the document in which the
   * missing chain is that object's new last member; every other byte stays. The missing components are written as they
   * are, so the result is well-formed when they are well-formed between quotes.
   */
  lemma SetInserts(cfg: Config, d: Doc, keys: Path, depth: nat, l: Loc, w: JVal)
    requires WfDoc(d) && Wf(w) && Missing(d, keys, depth, l)
    ensures SetSpec(cfg, PrintDoc(d), Print(w), keys) == Done(PrintDoc(InsertedDoc(d, keys, depth, l, w)))
    ensures BodyPath(keys[depth..]) ==> WfDoc(InsertedDoc(d, keys, depth, l, w))
    ensures CleanPath(keys[depth..]) && ControlFree(d.root) && ControlFree(w) ==>
              ControlFree(InsertedDoc(d, keys, depth, l, w).root)
  {
    hide Leads, Locate, Wf, Print, PrintDoc, GetSpec, PrefixDepth, ReplaceAt, Component, Inserted, Nest, PlanTop, PlanBelow, OffOf,
         Content, TypeOf, IsStringBody, ControlFree, NoControl;
    if BodyPath(keys[depth..]) { InsertedDocWf(d, keys, depth, l, w); }
    if CleanPath(keys[depth..]) && ControlFree(d.root) && ControlFree(w) { InsertedControlFree(d, keys, depth, l, w); }
    MissingPlan(cfg, d, keys, depth, l);
    if depth == 0 {
      assert l == [] && keys[0..] == keys;
      PlanAtTop(cfg, d, keys);
      TopSplice(d, keys, w);
    } else {
      assert keys[depth..][0] == keys[depth] && keys[depth..][1..] == keys[depth + 1..];
      PlanInside(cfg, d, keys[depth], l);
      BelowSplice(d, keys[depth..], l, w);
    }
  }

  lemma {:induction false} SubWf(v: JVal, l: Loc)
    requires ValidLoc(v, l) && Wf(v)
    ensures Wf(Sub(v, l))
    decreases |l|
  {
    if l != [] { SubWf(v.es[l[0]].v, l[1..]); }
  }

  lemma InsertedDocWf(d: Doc, keys: Path, depth: nat, l: Loc, w: JVal)
    requires WfDoc(d) && Wf(w) && Missing(d, keys, depth, l) && BodyPath(keys[depth..])
    ensures WfDoc(InsertedDoc(d, keys, depth, l, w))
  {
    assert keys[depth..][0] == keys[depth] && keys[depth..][1..] == keys[depth + 1..];
    hide Wf, Inserted, ReplaceAt, Nest, Locate, PlainPath, IsStringBody;
    var n := Sub(d.root, l);
    var sub := Nest(keys[depth + 1..], w);
    SubWf(d.root, l);
    NestWf(keys[depth + 1..], w);
    InsertedWf(n, depth == 0, keys[depth], sub);
    ReplaceWf(d.root, l, Inserted(n, depth == 0, keys[depth], sub));
  }

  lemma InsertedControlFree(d: Doc, keys: Path, depth: nat, l: Loc, w: JVal)
    requires depth < |keys| && ValidLoc(d.root, l) && Sub(d.root, l).Node? && Sub(d.root, l).obj
    requires !IsIndexKey(keys[depth]) && CleanPath(keys[depth..]) && ControlFree(d.root) && ControlFree(w)
    ensures ControlFree(InsertedDoc(d, keys, depth, l, w).root)
  {
    hide ReplaceAt, Nest, NoControl;
    assert keys[depth..][0] == keys[depth] && keys[depth..][1..] == keys[depth + 1..];
    var sub := Nest(keys[depth + 1..], w);
    SubControlFree(d.root, l);
    NestControlFree(keys[depth + 1..], w);
    ReplaceControlFree(d.root, l, Inserted(Sub(d.root, l), depth == 0, keys[depth], sub));
  }

  lemma OffOfRoot(v: JVal)
    ensures ValidLoc(v, []) && OffOf(v, []) == 0
  {
  }

  lemma MemberText(x: Bytes)
    ensures [COMMA] + ([] + x + []) == [COMMA] + x && [] + ([] + x + []) == x
    ensures [] + ([LBRACE] + x + [RBRACE]) == [LBRACE] + x + [RBRACE]
  {
  }

  lemma PlanAtTop(cfg: Config, d: Doc, keys: Path)
    requires WfDoc(d) && d.root.Node? && d.root.obj && keys != [] && !IsIndexKey(keys[0])
    ensures var last := |d.lead| + |Print(d.root)| - 1;
            PlanTop(cfg, PrintDoc(d), keys) == Planned(Plan(last, last, d.root.es != [], false))
  {
    hide Print, PrintDoc, NextTok, LastTok;
    RootTokens(d);
    FirstInside(PrintDoc(d), |d.lead|, d.root);
  }

  lemma PlanInside(cfg: Config, d: Doc, key: Bytes, l: Loc)
    requires WfDoc(d) && ValidLoc(d.root, l) && Sub(d.root, l).Node? && Sub(d.root, l).obj && !IsIndexKey(key)
    ensures var g := GotAt(d, l);
            && 0 <= g.off < g.end <= |PrintDoc(d)|
            && PlanBelow(PrintDoc(d), key, g)
               == if Sub(d.root, l).es == [] then Plan(g.off, g.end, false, true) else Plan(g.end - 1, g.end - 1, true, false)
  {
    hide Print, PrintDoc, NextTok, OffOf, Content, TypeOf;
    SubPlace(d, l);
    PrintNonempty(Sub(d.root, l));
    FirstInside(PrintDoc(d), GotAt(d, l).off, Sub(d.root, l));
  }

  function Zeros(n: nat): Loc { seq(n, _ => 0) }

  /** The nest holds the value at the path if and only if the path reads back. */
  lemma {:induction false} LocateNest(keys: Path, w: JVal)
    requires BodyPath(keys)
    ensures Locate(Nest(keys, w), keys) == if ReadsBack(keys) then Some(Zeros(|keys|)) else None
    ensures ValidLoc(Nest(keys, w), Zeros(|keys|)) && Sub(Nest(keys, w), Zeros(|keys|)) == w
    decreases |keys|
  {
    hide IsStringBody, Unescaped, ReadsBack, IndexOf, Plain;
    if keys == [] {
      ReadsBackNothing();
    } else {
      var v := Nest(keys, w);
      LocateNest(keys[1..], w);
      ReadsBackStep(keys);
      assert [0] + Zeros(|keys| - 1) == Zeros(|keys|);
      assert Zeros(|keys|)[1..] == Zeros(|keys| - 1);
      if !IsIndexKey(keys[0]) {
        BodyReadsBack(keys[0]);
        MemberShape(v.es, keys, 0);
      }
    }
  }

  lemma ReadsBackNothing()
    ensures ReadsBack([])
  {
  }

  lemma ReadsBackStep(keys: Path)
    requires keys != []
    ensures ReadsBack(keys) <==>
              (if IsIndexKey(keys[0]) then IndexOf(keys[0]) == Some(0) else Plain(keys[0])) && ReadsBack(keys[1..])
  {
    hide Plain, IndexOf;
    if (if IsIndexKey(keys[0]) then IndexOf(keys[0]) == Some(0) else Plain(keys[0])) && ReadsBack(keys[1..]) {
      forall j | 0 <= j < |keys| ensures if IsIndexKey(keys[j]) then IndexOf(keys[j]) == Some(0) else Plain(keys[j]) {
        if j > 0 { assert keys[j] == keys[1..][j - 1]; }
      }
    }
  }

  /** A member search answers entry k when k is the only entry that can. */
  lemma MemberOnly(es: seq<Entry>, keys: Path, k: nat)
    requires keys != [] && k < |es| && KeyIs(es[k], keys[0]) && Locate(es[k].v, keys[1..]).Some?
    requires forall j :: 0 <= j < k ==> !(KeyIs(es[j], keys[0]) && Locate(es[j].v, keys[1..]).Some?)
    ensures LocateMember(es, keys, 0) == Under(k, Locate(es[k].v, keys[1..]))
  {
    MemberShape(es, keys, 0);
  }

  /** When a member search fails, no entry can answer. */
  lemma MemberNone(es: seq<Entry>, keys: Path)
    requires keys != [] && LocateMember(es, keys, 0) == None
    ensures forall j :: 0 <= j < |es| ==> !(KeyIs(es[j], keys[0]) && Locate(es[j].v, keys[1..]).Some?)
  {
    MemberShape(es, keys, 0);
  }

  /** Where the inserted value is: below the new last entry of the object at l, at the first place in every nest. */
  function InsertedLoc(v: JVal, l: Loc, rest: nat): Loc
    requires ValidLoc(v, l) && Sub(v, l).Node?
  {
    l + ([|Sub(v, l).es|] + Zeros(rest))
  }

  lemma InsertedHere(n: JVal, top: bool, keys: Path, w: JVal)
    requires n.Node? && n.obj && keys != [] && !IsIndexKey(keys[0]) && BodyPath(keys) && Locate(n, keys[..1]) == None
    ensures var r := Inserted(n, top, keys[0], Nest(keys[1..], w));
            var l := [|n.es|] + Zeros(|keys| - 1);
            && Locate(r, keys) == (if ReadsBack(keys) then Some(l) else None)
            && ValidLoc(r, l) && Sub(r, l) == w
  {
    hide IsStringBody, Unescaped, Inserted, Nest, Locate, ReadsBack, Plain;
    var sub := Nest(keys[1..], w);
    var r := Inserted(n, top, keys[0], sub);
    var k := |n.es|;
    var l := [k] + Zeros(|keys| - 1);
    InsertedLast(n, top, keys[0], sub);
    BodyReadsBack(keys[0]);
    LocateNest(keys[1..], w);
    ReadsBackStep(keys);
    LacksName(n, keys[0], keys[..1]);
    forall j | 0 <= j < k ensures !KeyIs(r.es[j], keys[0]) {
      assert r.es[j] == n.es[j];
    }
    LocateObject(r, keys);
    MemberShape(r.es, keys, 0);
    assert l[1..] == Zeros(|keys| - 1);
  }

  lemma InsertedLast(n: JVal, top: bool, key: Bytes, sub: JVal)
    requires n.Node?
    ensures var r := Inserted(n, top, key, sub);
            && r.Node? && r.obj == n.obj && |r.es| == |n.es| + 1 && r.es[..|n.es|] == n.es
            && r.es[|n.es|].key == key && r.es[|n.es|].v == sub
  {
  }

  lemma LacksName(n: JVal, key: Bytes, keys: Path)
    requires n.Node? && n.obj && keys == [key] && Locate(n, keys) == None
    ensures forall j :: 0 <= j < |n.es| ==> !KeyIs(n.es[j], key)
  {
    hide KeyIs;
    MemberNone(n.es, keys);
    forall j | 0 <= j < |n.es| ensures !KeyIs(n.es[j], key) {
      assert Locate(n.es[j].v, keys[1..]) == Some([]);
    }
  }

  /** Changing the value of one member changes the answer of the search there, when no other member answers. */
  lemma LocateThrough(v: JVal, keys: Path, k: nat, x: JVal)
    requires v.Node? && v.obj && k < |v.es| && keys != [] && KeyIs(v.es[k], keys[0])
    requires forall j :: 0 <= j < |v.es| && j != k ==> !(KeyIs(v.es[j], keys[0]) && Locate(v.es[j].v, keys[1..]).Some?)
    ensures Locate(v.(es := v.es[k := v.es[k].(v := x)]), keys) == Under(k, Locate(x, keys[1..]))
  {
    hide Locate, Unescaped;
    var r := v.(es := v.es[k := v.es[k].(v := x)]);
    assert KeyIs(r.es[k], keys[0]) && r.es[k].v == x;
    forall j | 0 <= j < |r.es| && j != k ensures !(KeyIs(r.es[j], keys[0]) && Locate(r.es[j].v, keys[1..]).Some?) {
      assert r.es[j] == v.es[j];
    }
    LocateObject(r, keys);
    MemberShape(r.es, keys, 0);
  }

  lemma LocateObject(v: JVal, keys: Path)
    requires v.Node? && v.obj && keys != []
    ensures Locate(v, keys) == LocateMember(v.es, keys, 0)
  {
  }

  /**
   * Replacing the value at which a path breaks off by x: the path is then found exactly when its rest is found in x,
   * duplicates or not.
   */
  lemma {:induction false} LocateReplaced(v: JVal, keys: Path, depth: nat, l: Loc, x: JVal)
    requires depth < |keys| && PlainPath(keys) && ValidLoc(v, l)
    requires Locate(v, keys[..depth]) == Some(l) && Locate(v, keys[..depth + 1]) == None
    ensures var m := Locate(x, keys[depth..]);
            Locate(ReplaceAt(v, l, x), keys) == if m.Some? then Some(l + m.value) else None
    decreases depth
  {
    var m := Locate(x, keys[depth..]);
    if depth == 0 {
      assert l == [] && keys[0..] == keys;
      assert m.Some? ==> [] + m.value == m.value;
    } else {
      var rest := keys[1..];
      var y := InsertionSplit(v, keys, depth, l);
      assert rest[depth - 1..] == keys[depth..];
      LocateReplaced(y, rest, depth - 1, l[1..], x);
      hide ReplaceAt, Locate, Sub, ValidLoc;
      ReplaceStep(v, l, x);
      LocateThrough(v, keys, l[0], ReplaceAt(y, l[1..], x));
      if m.Some? { HeadFirst(l, m.value); }
    }
  }

  /** The member on the way to where the path breaks off: it breaks off below it as well, and no other member answers. */
  lemma InsertionSplit(v: JVal, keys: Path, depth: nat, l: Loc) returns (y: JVal)
    requires 0 < depth < |keys| && PlainPath(keys)
    requires Locate(v, keys[..depth]) == Some(l) && Locate(v, keys[..depth + 1]) == None && ValidLoc(v, l)
    ensures l != [] && v.Node? && v.obj && l[0] < |v.es| && KeyIs(v.es[l[0]], keys[0]) && y == v.es[l[0]].v
    ensures Locate(y, keys[1..][..depth - 1]) == Some(l[1..]) && Locate(y, keys[1..][..depth]) == None
    ensures ValidLoc(y, l[1..]) && Sub(y, l[1..]) == Sub(v, l)
    ensures forall j :: 0 <= j < |v.es| && j != l[0] ==> !(KeyIs(v.es[j], keys[0]) && Locate(v.es[j].v, keys[1..]).Some?)
  {
    hide KeyIs;
    var rest := keys[1..];
    assert keys[..depth][1..] == rest[..depth - 1] && keys[..depth + 1][1..] == rest[..depth];
    NotIndex(keys[0]);
    MemberShape(v.es, keys[..depth], 0);
    MemberNone(v.es, keys[..depth + 1]);
    var k := l[0];
    y := v.es[k].v;
    var below := Locate(y, rest[..depth - 1]);
    assert Some(l) == Under(k, below);
    assert ([k] + below.value)[1..] == below.value;
    forall j | 0 <= j < |v.es| && j != k ensures !(KeyIs(v.es[j], keys[0]) && Locate(v.es[j].v, rest).Some?) {
      if Locate(v.es[j].v, rest).Some? { LocatePrefix(v.es[j].v, rest, depth); }
    }
  }

  lemma ReplaceStep(v: JVal, l: Loc, x: JVal)
    requires ValidLoc(v, l) && l != []
    ensures v.Node? && l[0] < |v.es| && ValidLoc(v.es[l[0]].v, l[1..]) && Sub(v, l) == Sub(v.es[l[0]].v, l[1..])
    ensures ReplaceAt(v, l, x) == v.(es := v.es[l[0] := v.es[l[0]].(v := ReplaceAt(v.es[l[0]].v, l[1..], x))])
  {
  }

  lemma HeadFirst(l: Loc, a: Loc)
    requires l != []
    ensures l + a == [l[0]] + (l[1..] + a)
  {
  }

  /** What lies below the replaced value. */
  lemma {:induction false} SubReplaced(v: JVal, l: Loc, x: JVal, m: Loc)
    requires ValidLoc(v, l) && ValidLoc(x, m)
    ensures ValidLoc(ReplaceAt(v, l, x), l + m) && Sub(ReplaceAt(v, l, x), l + m) == Sub(x, m)
    decreases |l|
  {
    if l == [] {
      assert [] + m == m;
    } else {
      HeadFirst(l, m);
      assert (l + m)[1..] == l[1..] + m;
      SubReplaced(v.es[l[0]].v, l[1..], x, m);
    }
  }

  /**
   * The new value is the first match of the path in the new tree, duplicates or not, if and only if the missing
   * components have no backslash; otherwise the path has still no value.
   */
  lemma LocateInserted(v: JVal, top: bool, keys: Path, depth: nat, l: Loc, w: JVal)
    requires depth < |keys| && PlainPath(keys) && BodyPath(keys[depth..])
    requires Locate(v, keys[..depth]) == Some(l) && Locate(v, keys[..depth + 1]) == None
    requires ValidLoc(v, l) && Sub(v, l).Node? && Sub(v, l).obj
    ensures var r := ReplaceAt(v, l, Inserted(Sub(v, l), top, keys[depth], Nest(keys[depth + 1..], w)));
            var m := InsertedLoc(v, l, |keys| - depth - 1);
            && Locate(r, keys) == (if ReadsBack(keys[depth..]) then Some(m) else None)
            && ValidLoc(r, m) && Sub(r, m) == w
  {
    hide Inserted, Nest, ReplaceAt, Locate, ValidLoc, Sub, IsStringBody;
    var rest := keys[depth..];
    var n := Sub(v, l);
    var x := Inserted(n, top, keys[depth], Nest(keys[depth + 1..], w));
    assert rest[0] == keys[depth] && rest[1..] == keys[depth + 1..];
    LacksNext(v, keys, depth, l);
    InsertedHere(n, top, rest, w);
    LocateReplaced(v, keys, depth, l, x);
    SubReplaced(v, l, x, [|n.es|] + Zeros(|rest| - 1));
  }

  /** The value at which the path breaks off lacks the next component. */
  lemma {:induction false} LacksNext(v: JVal, keys: Path, depth: nat, l: Loc)
    requires depth < |keys| && PlainPath(keys) && ValidLoc(v, l)
    requires Locate(v, keys[..depth]) == Some(l) && Locate(v, keys[..depth + 1]) == None
    ensures Locate(Sub(v, l), keys[depth..][..1]) == None
    decreases depth
  {
    hide Locate;
    if depth == 0 {
      assert keys[0..][..1] == keys[..1];
      assert l == [];
    } else {
      var y := InsertionSplit(v, keys, depth, l);
      assert keys[1..][depth - 1..] == keys[depth..];
      LacksNext(y, keys[1..], depth - 1, l[1..]);
    }
  }

  /**
   * After Set has created the missing part of a path, Get at the path returns the value that was set if and only if
   * the components it wrote have no backslash. A component with an escape in it is read back as another name, and the
   * path is still not found. Components with a bare quote or an undefined escape are not looked at.
   */
  lemma SetInsertsThenGet(cfg: Config, d: Doc, keys: Path, depth: nat, l: Loc, w: JVal)
    requires WfDoc(d) && Wf(w) && Missing(d, keys, depth, l) && BodyPath(keys[depth..])
    ensures SetSpec(cfg, PrintDoc(d), Print(w), keys).Done?
    ensures var g := GetSpec(cfg, SetSpec(cfg, PrintDoc(d), Print(w), keys).data, keys);
            if ReadsBack(keys[depth..]) then g.err.None? && g.value == Content(w) && g.t == TypeOf(w) else g == NOT_FOUND
  {
    hide Print, PrintDoc, GetSpec, SetSpec, Inserted, Nest, ReplaceAt, OffOf, Sub, Content, TypeOf, Locate, ReadsBack,
         IsStringBody;
    SetInserts(cfg, d, keys, depth, l, w);
    LocateInserted(d.root, depth == 0, keys, depth, l, w);
    GetIsTreeLookup(cfg, InsertedDoc(d, keys, depth, l, w), keys);
  }

  /** Setting the name \n, backslash and all, in {} gives {"\n":1}, where the name reads as a newline: Get does not find it. */
  lemma EscapedNameExample(cfg: Config)
    ensures var d := Doc([], Node(true, [], []), []);
            var keys: Path := [[BACKSLASH, LOWER_N]];
            var r := SetSpec(cfg, PrintDoc(d), [0x31], keys);
            && r == Done([LBRACE, QUOTE, BACKSLASH, LOWER_N, QUOTE, COLON, 0x31, RBRACE])
            && GetSpec(cfg, r.data, keys) == NOT_FOUND
  {
    hide GetSpec, SetSpec, PrintDoc;
    var d := Doc([], Node(true, [], []), []);
    var name: Bytes := [BACKSLASH, LOWER_N];
    var w := Prim([0x31]);
    assert IsPrimitive([0x31]) by { assert NumberParts([0x31], 0, 1, 1); }
    assert IsStringBody(name) by { assert name[2..] == []; }
    assert [name][0..] == [name] && [name][..0] == [] && [name][..1] == [name];
    assert !ReadsBack([name]) by { assert [name][0] == name && name[0] == BACKSLASH; }
    assert Locate(d.root, [name]) == None;
    SetInsertsThenGet(cfg, d, [name], 0, [], w);
    SetInserts(cfg, d, [name], 0, [], w);
    EscapedNameText(w);
  }

  lemma EscapedNameText(w: JVal)
    requires w == Prim([0x31])
    ensures PrintDoc(InsertedDoc(Doc([], Node(true, [], []), []), [[BACKSLASH, LOWER_N]], 0, [], w))
         == [LBRACE, QUOTE, BACKSLASH, LOWER_N, QUOTE, COLON, 0x31, RBRACE]
  {
    var e := Fresh([], [BACKSLASH, LOWER_N], w);
    assert [[BACKSLASH, LOWER_N]][0 + 1..] == [];
    PrintFirst(true, [], e);
    PrintFresh([], e.key, w);
  }
}
