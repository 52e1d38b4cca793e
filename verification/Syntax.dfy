/**
 * Concrete syntax trees of JSON texts (sections 2 to 7 of RFC 8259). A tree keeps every byte of the text:
 * Print gives the text back.
 */
module Syntax {
  import opened Bytes
  import opened Escapes
  import Integers

  /** A node is an object or an array; ews is the whitespace of an empty one. */
  datatype JVal =
    | Prim(text: Bytes)
    | Str(body: Bytes)
    | Node(obj: bool, ews: Bytes, es: seq<Entry>)

  /** One member "w1 key w2 : w3 v w4", or one element "w3 v w4" where w1, key and w2 play no part. */
  datatype Entry = Entry(w1: Bytes, key: Bytes, w2: Bytes, w3: Bytes, v: JVal, w4: Bytes)

  datatype Doc = Doc(lead: Bytes, root: JVal, trail: Bytes)

  // ---- printing ----

  function Open(obj: bool): byte { if obj then LBRACE else LBRACKET }
  function Close(obj: bool): byte { if obj then RBRACE else RBRACKET }

  /** Everything of a member up to and including its colon; nothing for an element. */
  function KeyPart(obj: bool, e: Entry): Bytes {
    if obj then e.w1 + ([QUOTE] + (e.key + ([QUOTE] + (e.w2 + [COLON])))) else []
  }

  function Print(v: JVal): (s: Bytes)
    ensures v.Node? ==> |s| >= 2
    decreases v
  {
    match v
    case Prim(text) => text
    case Str(body) => [QUOTE] + (body + [QUOTE])
    case Node(obj, ews, es) => [Open(obj)] + ((if es == [] then ews else PrintEntries(obj, es)) + [Close(obj)])
  }

  function PrintEntry(obj: bool, e: Entry): Bytes
    decreases e
  {
    KeyPart(obj, e) + (e.w3 + (Print(e.v) + e.w4))
  }

  function PrintEntries(obj: bool, es: seq<Entry>): Bytes
    decreases es
  {
    if es == [] then []
    else if |es| == 1 then PrintEntry(obj, es[0])
    else PrintEntry(obj, es[0]) + ([COMMA] + PrintEntries(obj, es[1..]))
  }

  function PrintDoc(d: Doc): Bytes {
    d.lead + (Print(d.root) + d.trail)
  }

  // ---- well-formedness ----

  const TRUE: Bytes := [0x74, 0x72, 0x75, 0x65]
  const FALSE: Bytes := [0x66, 0x61, 0x6C, 0x73, 0x65]
  const NULL: Bytes := [0x6E, 0x75, 0x6C, 0x6C]
  const LOWER_E: byte := 0x65
  const UPPER_E: byte := 0x45

  predicate IsInt(s: Bytes) {
    s != [] && AllDigits(s) && (|s| == 1 || s[0] != ZERO)
  }

  predicate IsFrac(s: Bytes) {
    s == [] || (|s| >= 2 && s[0] == DOT && AllDigits(s[1..]))
  }

  predicate IsExp(s: Bytes) {
    s == []
    || (|s| >= 2 && (s[0] == LOWER_E || s[0] == UPPER_E)
        && (AllDigits(s[1..]) || (|s| >= 3 && (s[1] == PLUS || s[1] == MINUS) && AllDigits(s[2..]))))
  }

  /** The four parts of a number, cut at a, b and c. */
  predicate NumberParts(s: Bytes, a: nat, b: nat, c: nat) {
    && a <= b <= c <= |s|
    && (a == 0 || (a == 1 && s[0] == MINUS))
    && IsInt(s[a..b]) && IsFrac(s[b..c]) && IsExp(s[c..])
  }

  /** Section 6 of RFC 8259. */
  ghost predicate IsNumber(s: Bytes) {
    exists a: nat, b: nat, c: nat :: NumberParts(s, a, b, c)
  }

  ghost predicate IsPrimitive(s: Bytes) {
    s == TRUE || s == FALSE || s == NULL || IsNumber(s)
  }

  /**
   * Section 7 of RFC 8259, on bytes: no bare quote and only the defined escapes. Control bytes are let through, as every
   * scanner of the library lets them through; ControlFree forbids them.
   */
  predicate IsStringBody(s: Bytes) {
    if s == [] then true
    else if s[0] == BACKSLASH then
      |s| >= 2
      && (if s[1] == LOWER_U then
            |s| >= 6 && IsHex(s[2]) && IsHex(s[3]) && IsHex(s[4]) && IsHex(s[5]) && IsStringBody(s[6..])
          else SimpleEscape(s[1]).Some? && IsStringBody(s[2..]))
    else s[0] != QUOTE && IsStringBody(s[1..])
  }

  ghost predicate Wf(v: JVal)
    decreases v
  {
    match v
    case Prim(text) => IsPrimitive(text)
    case Str(body) => IsStringBody(body)
    case Node(obj, ews, es) => AllSpace(ews) && forall k :: 0 <= k < |es| ==> WfEntry(obj, es[k])
  }

  ghost predicate WfEntry(obj: bool, e: Entry)
    decreases e
  {
    && AllSpace(e.w1) && AllSpace(e.w2) && AllSpace(e.w3) && AllSpace(e.w4)
    && (obj ==> IsStringBody(e.key))
    && Wf(e.v)
  }

  ghost predicate WfDoc(d: Doc) {
    AllSpace(d.lead) && AllSpace(d.trail) && Wf(d.root)
  }

  predicate NoControl(s: Bytes) {
    forall k :: 0 <= k < |s| ==> s[k] >= 0x20
  }

  /** No string and no name holds a raw control byte: with Wf, exactly the values of RFC 8259. */
  predicate ControlFree(v: JVal)
    decreases v
  {
    match v
    case Prim(_) => true
    case Str(body) => NoControl(body)
    case Node(obj, _, es) => forall k :: 0 <= k < |es| ==> (obj ==> NoControl(es[k].key)) && ControlFree(es[k].v)
  }

  // ---- paths ----

  type Path = seq<Bytes>
  /** A position in a tree: the entry index to follow at each level. */
  type Loc = seq<nat>

  /** strconv.Atoi on 64-bit ints: optional sign, digits, in range. */
  function Atoi(s: Bytes): Option<int> {
    var signed := s != [] && (s[0] == MINUS || s[0] == PLUS);
    var ds := if signed then s[1..] else s;
    if ds == [] || !AllDigits(ds) then None
    else
      var n := Integers.Nat(ds);
      if signed && s[0] == MINUS then (if n <= 0x8000_0000_0000_0000 then Some(-(n as int)) else None)
      else if n < 0x8000_0000_0000_0000 then Some(n)
      else None
  }

  predicate IsIndexKey(k: Bytes) {
    k != [] && k[0] == LBRACKET
  }

  lemma NotIndex(key: Bytes)
    requires !IsIndexKey(key)
    ensures IndexOf(key).None?
  {
  }

  /** The element number an index component "[n]" selects. */
  function IndexOf(k: Bytes): Option<nat> {
    if |k| < 3 || k[0] != LBRACKET || k[|k| - 1] != RBRACKET then None
    else match Atoi(k[1..|k| - 1])
      case None => None
      case Some(n) => if n >= 0 then Some(n) else None
  }

  /** The member's decoded name is k. */
  predicate KeyIs(e: Entry, k: Bytes) {
    Unescaped(STRICT, e.key) == Some(k)
  }

  /** Backtracking search in document order: the first chain of entries that follows the whole path. */
  function Locate(v: JVal, keys: Path): (l: Option<Loc>)
    ensures l.Some? ==> |l.value| == |keys|
    decreases |keys|, 1, 0
  {
    if keys == [] then Some([])
    else if !v.Node? then None
    else if v.obj then LocateMember(v.es, keys, 0)
    else match IndexOf(keys[0])
      case None => None
      case Some(n) => if n < |v.es| then Under(n, Locate(v.es[n].v, keys[1..])) else None
  }

  function Under(n: nat, l: Option<Loc>): Option<Loc> {
    if l.Some? then Some([n] + l.value) else None
  }

  function LocateMember(es: seq<Entry>, keys: Path, k: nat): (l: Option<Loc>)
    requires keys != [] && k <= |es|
    ensures l.Some? ==> |l.value| == |keys| && k <= l.value[0] < |es|
    decreases |keys|, 0, |es| - k
  {
    if k == |es| then None
    else if KeyIs(es[k], keys[0]) && Locate(es[k].v, keys[1..]).Some? then Under(k, Locate(es[k].v, keys[1..]))
    else LocateMember(es, keys, k + 1)
  }

  predicate ValidLoc(v: JVal, l: Loc) {
    l == [] || (v.Node? && l[0] < |v.es| && ValidLoc(v.es[l[0]].v, l[1..]))
  }

  function Sub(v: JVal, l: Loc): JVal
    requires ValidLoc(v, l)
  {
    if l == [] then v else Sub(v.es[l[0]].v, l[1..])
  }

  /** The chain l spells the path: names decode to the components, index components select elements. */
  predicate Follows(v: JVal, l: Loc, keys: Path)
    requires ValidLoc(v, l)
  {
    && |l| == |keys|
    && (l != [] ==>
          && (if v.obj then KeyIs(v.es[l[0]], keys[0]) else IndexOf(keys[0]) == Some(l[0]))
          && Follows(v.es[l[0]].v, l[1..], keys[1..]))
  }

  /** a comes before b in document order. */
  predicate Before(a: Loc, b: Loc)
    requires |a| == |b|
  {
    a != [] && (a[0] < b[0] || (a[0] == b[0] && Before(a[1..], b[1..])))
  }

  /** Locate is sound, complete and first: it answers exactly the earliest chain that spells the path. */
  lemma {:induction false} LocateSound(v: JVal, keys: Path)
    ensures Locate(v, keys).Some? ==> ValidLoc(v, Locate(v, keys).value) && Follows(v, Locate(v, keys).value, keys)
    decreases |keys|
  {
    if keys != [] && Locate(v, keys).Some? {
      var l := Locate(v, keys).value;
      if v.obj { MemberShape(v.es, keys, 0); }
      var n := l[0];
      assert l == [n] + Locate(v.es[n].v, keys[1..]).value;
      assert l[1..] == Locate(v.es[n].v, keys[1..]).value;
      LocateSound(v.es[n].v, keys[1..]);
    }
  }

  /** The member search stops at the first entry that matches and whose value resolves the rest. */
  lemma {:induction false} MemberShape(es: seq<Entry>, keys: Path, k: nat)
    requires keys != [] && k <= |es|
    ensures var l := LocateMember(es, keys, k);
            l.Some? ==> KeyIs(es[l.value[0]], keys[0]) && l == Under(l.value[0], Locate(es[l.value[0]].v, keys[1..]))
    ensures var l := LocateMember(es, keys, k);
            forall j :: k <= j < (if l.Some? then l.value[0] else |es|)
              ==> !(KeyIs(es[j], keys[0]) && Locate(es[j].v, keys[1..]).Some?)
    decreases |es| - k
  {
    if k < |es| { MemberShape(es, keys, k + 1); }
  }

  lemma {:induction false} LocateFirst(v: JVal, keys: Path, l: Loc)
    requires ValidLoc(v, l) && Follows(v, l, keys)
    ensures Locate(v, keys).Some?
    ensures Locate(v, keys).value == l || Before(Locate(v, keys).value, l)
    decreases |keys|
  {
    if keys != [] {
      LocateFirst(v.es[l[0]].v, keys[1..], l[1..]);
      if v.obj { MemberShape(v.es, keys, 0); }
    }
  }

  // ---- layout: where things are in the printed text ----

  /** Offset of entry k inside PrintEntries(obj, es). */
  function EntryPos(obj: bool, es: seq<Entry>, k: nat): (p: nat)
    requires k < |es|
    ensures p + |PrintEntry(obj, es[k])| <= |PrintEntries(obj, es)|
  {
    if k == 0 then 0 else |PrintEntry(obj, es[0])| + 1 + EntryPos(obj, es[1..], k - 1)
  }

  /** Offset, inside Print(v), of the value at l. */
  function OffOf(v: JVal, l: Loc): nat
    requires ValidLoc(v, l)
  {
    if l == [] then 0
    else
      var e := v.es[l[0]];
      1 + EntryPos(v.obj, v.es, l[0]) + |KeyPart(v.obj, e)| + |e.w3| + OffOf(e.v, l[1..])
  }

  /** Offset just after the colon of the member at l; for an element, where its value starts. */
  function SlotOf(v: JVal, l: Loc): nat
    requires ValidLoc(v, l)
  {
    if l == [] then 0
    else
      var e := v.es[l[0]];
      var start := 1 + EntryPos(v.obj, v.es, l[0]) + |KeyPart(v.obj, e)|;
      if |l| == 1 then (if v.obj then start else start + |e.w3|)
      else start + |e.w3| + SlotOf(e.v, l[1..])
  }
}
