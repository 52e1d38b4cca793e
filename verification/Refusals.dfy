/** What the operations return when there is nothing to operate on: no path, no value, a value of another kind, a blank text. */
module Refusals {
  import opened Bytes
  import opened Scanners
  import opened Syntax
  import opened Blocks
  import opened Lookup
  import opened TreeValues
  import opened TreeLookup
  import opened Setting
  import opened Coercion
  import opened Appending
  import opened Deleting
  import opened Containers
  import opened Streams
  import Grammar

  // ---- no path ----

  /** Without a path Set refuses and Delete leaves nothing, on any bytes. */
  lemma EditsWithoutPath(cfg: Config, data: Bytes, value: Bytes)
    ensures SetSpec(cfg, data, value, []) == Outcome.Failed(KeyPathNotFound)
    ensures DeleteSpec(cfg, data, []) == ([], true)
  {
  }

  // ---- no value ----

  /** Where Get finds nothing at a path, on any bytes, nothing is iterated and nothing is counted. */
  lemma NothingAt(cfg: Config, data: Bytes, keys: Path)
    requires keys != [] && NextTok(data, 0) != -1 && GetSpec(cfg, data, keys) == NOT_FOUND
    ensures EachSpec(cfg, data, keys) == Each([], -1, Some(KeyPathNotFound))
    ensures MembersSpec(cfg, data, keys) == Members([], Some(KeyPathNotFound))
    ensures cfg == STRICT ==> forall obj :: LenSpec(data, obj, keys) == (0, Some(KeyPathNotFound))
  {
    hide SearchRun, TypeAt;
  }

  /** A path of names that a document does not have. */
  lemma MissingPath(cfg: Config, d: Doc, keys: Path)
    requires WfDoc(d) && PlainPath(keys) && Locate(d.root, keys) == None
    ensures EachSpec(cfg, PrintDoc(d), keys) == Each([], -1, Some(KeyPathNotFound))
    ensures MembersSpec(cfg, PrintDoc(d), keys) == Members([], Some(KeyPathNotFound))
    ensures forall obj :: LenSpec(PrintDoc(d), obj, keys) == (0, Some(KeyPathNotFound))
  {
    hide PrintDoc, GetSpec, EachSpec, MembersSpec, LenSpec;
    DocToken(d);
    GetIsTreeLookup(cfg, d, keys);
    GetIsTreeLookup(STRICT, d, keys);
    NothingAt(cfg, PrintDoc(d), keys);
    NothingAt(STRICT, PrintDoc(d), keys);
  }

  // ---- a value of another kind ----

  /** ArrayEach at a path that designates anything but an array makes no callback; the offset is that of the value. */
  lemma NotAnArray(cfg: Config, d: Doc, keys: Path, l: Loc)
    requires WfDoc(d) && Designates(d.root, l, keys) && !IsArray(Sub(d.root, l))
    ensures EachSpec(cfg, PrintDoc(d), keys)
         == Each([], if keys == [] then -1 else |d.lead| + OffOf(d.root, l), Some(MalformedArray))
  {
    hide Print, PrintDoc, SearchKeysSpec, EachInside, OffOf, SlotOf, Bounded, Leads, Locate, Sub, Wf;
    var data, i := PrintDoc(d), |d.lead| + OffOf(d.root, l);
    DocToken(d);
    DesignatesLocates(d.root, l, keys);
    SubPlace(d, l);
    FirstByteOf(data, i, Sub(d.root, l));
    if keys == [] {
      NextTokSkips(data, 0, i);
    } else {
      SearchDesignated(cfg, d, keys, l);
      NextTokSkips(data, |d.lead| + SlotOf(d.root, l), i);
    }
  }

  /** A value starts with a bracket exactly when it is an array. */
  lemma FirstByteOf(data: Bytes, i: nat, v: JVal)
    requires Wf(v) && At(data, i, Print(v))
    ensures i < |data| && !IsSpace(data[i]) && (data[i] == LBRACKET <==> IsArray(v))
  {
    hide Print;
    FirstValue(data, i, v);
    if v.Node? { NodeEnds(STRICT, data, i, v); } else { NoBrace(data, i, v); }
  }

  /** The streaming ArrayEach on a document that is no array. */
  lemma StreamOfOther(cfg: Config, d: Doc, final: ReadError)
    requires WfDoc(d) && !IsArray(d.root)
    ensures StreamEach(cfg, PrintDoc(d), final) == Calls([], Some(Parsing(MalformedArray)))
  {
    hide Print, PrintDoc, CallsFrom;
    DocAt(d);
    FirstByteOf(PrintDoc(d), |d.lead|, d.root);
    NextTokSkips(PrintDoc(d), 0, |d.lead|);
  }

  // ---- a bare token ----

  /** A token that is no string, array or object: the three words, whatever starts like a number, and nothing else. */
  lemma BareToken(cfg: Config, t: Bytes)
    requires t != [] && !IsQuote(cfg, t[0]) && t[0] != LBRACKET && t[0] != LBRACE
    requires forall k :: 0 <= k < |t| ==> !EndsPrimitive(t[k])
    ensures GetSpec(cfg, t, [])
         == if t == Ascii("true") || t == Ascii("false") then Got(t, Boolean, 0, |t|, None)
            else if t == Ascii("null") then Got(t, NullType, 0, |t|, None)
            else if t[0] in Ascii("-0123456789") then Got(t, Number, 0, |t|, None)
            else Got([], Unknown, 0, 0, Some(UnknownValueType))
  {
    hide BlockFrom;
    Grammar.Characters();
    assert t[0] in Ascii("-0123456789") <==> IsDigit(t[0]) || t[0] == MINUS by { NumberStarts(t[0]); }
    TokenHere(t, 0);
    assert TokEnd(t, 0) == |t|;
    assert t[0..|t|] == t;
    assert TRUE[0] == LOWER_T_BYTE && FALSE[0] == LOWER_F_BYTE && NULL[0] == LOWER_N_BYTE;
  }

  lemma NumberStarts(c: byte)
    ensures c in Ascii("-0123456789") <==> IsDigit(c) || c == MINUS
  {
    var a := Ascii("-0123456789");
    assert a[0] == MINUS && forall k :: 1 <= k <= 10 ==> a[k] == ZERO + k - 1;
    if IsDigit(c) { assert a[c - ZERO + 1] == c; }
  }

  // ---- a blank text ----

  /** Whitespace alone. */
  lemma BlankText(cfg: Config, data: Bytes, final: ReadError, keys: Path, value: Bytes)
    requires AllSpace(data)
    ensures GetSpec(cfg, data, keys) == if keys == [] then Got([], NotExist, 0, -1, Some(MalformedJson)) else NOT_FOUND
    ensures EachSpec(cfg, data, keys) == Each([], -1, Some(if data == [] then MalformedObject else MalformedJson))
    ensures MembersSpec(cfg, data, keys) == Members([], Some(if keys == [] then MalformedObject else KeyPathNotFound))
    ensures forall obj :: LenSpec(data, obj, keys) == (0, Some(KeyPathNotFound))
    ensures SetSpec(cfg, data, value, keys) == Outcome.Failed(KeyPathNotFound)
    ensures StreamGet(cfg, data, final, keys) == Missing(if [] in keys then PATH_NOT_FOUND else RanOut(final, KeyPathNotFound))
    ensures StreamEach(cfg, data, final) == Calls([], Some(RanOut(final, MalformedObject)))
  {
    hide SearchRun, PrefixDepth, FindValue;
    NextTokSkips(data, 0, |data|);
    if keys != [] {
      BlankSearch(cfg, data, keys);
      BlankSearch(STRICT, data, keys);
      BlankSearch(cfg, data, keys[..1]);
      FirstPrefix(cfg, data, keys);
    }
  }

  lemma BlankSearch(cfg: Config, data: Bytes, keys: Path)
    requires AllSpace(data) && keys != []
    ensures SearchKeysSpec(cfg, data, keys) == -1
  {
    hide SearchRun;
    SearchTrail(cfg, data, keys, 0, 0, 0, true);
  }
}
