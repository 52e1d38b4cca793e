/** setConfig: overwrite an existing value, or insert the missing part of the path. */
module Setting {
  import opened Bytes
  import opened Scanners
  import opened Syntax
  import opened Lookup
  import opened Insert

  datatype Outcome = Done(data: Bytes) | Failed(error: Error)

  /** data with the bytes from i to j replaced by s. */
  function Splice(data: Bytes, i: int, j: int, s: Bytes): Bytes
    requires 0 <= i <= |data| && 0 <= j <= |data|
  {
    data[..i] + s + data[j..]
  }

  /** Number of leading components, from i on, whose prefixes all resolve without an error. */
  function PrefixDepth(cfg: Config, data: Bytes, keys: Path, i: nat): (n: nat)
    requires i <= |keys|
    ensures i <= n <= |keys|
    ensures i < n ==> GetSpec(cfg, data, keys[..n]).err.None?
    decreases |keys| - i
  {
    if i < |keys| && GetSpec(cfg, data, keys[..i + 1]).err.None? then PrefixDepth(cfg, data, keys, i + 1) else i
  }

  /** How a component is inserted: the bytes from start to end make room for it. */
  datatype Plan = Plan(start: int, end: int, comma: bool, wrap: bool)

  predicate PlanFits(data: Bytes, p: Plan) {
    0 <= p.start <= |data| && 0 <= p.end <= |data|
  }

  /** Inserting at a root array: append to it, replace it when empty, or take the place of a trailing comma. */
  function PlanRootArray(cfg: Config, data: Bytes, first: nat): (p: Option<Plan>)
    requires first < |data| && data[first] == LBRACKET
    ensures p.Some? ==> PlanFits(data, p.value)
  {
    var block := BlockEndAt(cfg, data, first, LBRACKET, RBRACKET);
    if block == -1 then None
    else
      ClosesLater(cfg, data, first);
      var end := block - 1;
      var interior := data[first + 1..end];
      var last := LastTok(interior, |interior|);
      if last == -1 then Some(Plan(first, end + 1, false, false))
      else if interior[last] == COMMA then
        if LastTok(interior, last) == -1 then Some(Plan(first, end + 1, false, false))
        else Some(Plan(first + 1 + last, end, true, false))
      else Some(Plan(end, end, true, false))
  }

  /** Nothing of the path exists. */
  function PlanTop(cfg: Config, data: Bytes, keys: Path): (p: Result)
    requires keys != []
    ensures p.Planned? ==> PlanFits(data, p.plan)
  {
    var first := NextTok(data, 0);
    if first < 0 then Refused(KeyPathNotFound)
    else
      var last := LastTok(data, |data|);
      var index := IsIndexKey(keys[0]);
      if index && data[first] == LBRACE then Planned(Plan(first, last + 1, false, false))
      else if keys[0] != [] && !index && data[first] == LBRACKET then Planned(Plan(first, last + 1, false, true))
      else if index && data[first] == LBRACKET then
        var p := PlanRootArray(cfg, data, first);
        if p.None? then Refused(MalformedArray) else Planned(p.value)
      else if data[first] != LBRACE then Refused(KeyPathNotFound)
      else
        var next := NextTok(data, first + 1);
        var second := if next == -1 then first else next;
        Planned(Plan(last, last, data[second] != RBRACE, false))
  }

  datatype Result = Planned(plan: Plan) | Refused(error: Error)

  /** The first depth components exist; g is what they address. */
  function PlanBelow(data: Bytes, key: Bytes, g: Got): (p: Plan)
    requires 0 <= g.off < g.end <= |data|
    ensures PlanFits(data, p)
  {
    var index := IsIndexKey(key);
    var isObject, isArray := data[g.off] == LBRACE, data[g.off] == LBRACKET;
    if (index && isObject) || (!index && isArray) then Plan(g.off, g.end, false, !index)
    else
      var next := NextTok(data, g.off + 1);
      var sub := if next == -1 then g.off else next;
      if (isObject && data[sub] != RBRACE) || (isArray && data[sub] != RBRACKET && index)
      then Plan(g.end - 1, g.end - 1, true, false)
      else Plan(g.off, g.end, false, true)
  }

  /** What Set returns. */
  function SetSpec(cfg: Config, data: Bytes, value: Bytes, keys: Path): Outcome {
    if keys == [] then Failed(KeyPathNotFound)
    else
      var g := GetSpec(cfg, data, keys);
      if g.err.None? then Done(Splice(data, g.off, g.end, value))
      else if g.err != Some(KeyPathNotFound) then Failed(g.err.value)
      else
        DepthShort(cfg, data, keys, 0);
        var depth := PrefixDepth(cfg, data, keys, 0);
        if depth == 0 then
          match PlanTop(cfg, data, keys)
          case Refused(e) => Failed(e)
          case Planned(p) => Done(Splice(data, p.start, p.end, Component(keys, value, p.comma, p.wrap)))
        else
          var p := PlanBelow(data, keys[depth], GetSpec(cfg, data, keys[..depth]));
          Done(Splice(data, p.start, p.end, Component(keys[depth..], value, p.comma, p.wrap)))
  }

  /** The full path never resolves after it has failed, so the prefix walk stops before it. */
  lemma {:induction false} DepthShort(cfg: Config, data: Bytes, keys: Path, i: nat)
    requires i <= |keys| && keys != [] && GetSpec(cfg, data, keys).err.Some?
    ensures i < |keys| ==> PrefixDepth(cfg, data, keys, i) < |keys|
    decreases |keys| - i
  {
    hide GetSpec;
    if i < |keys| {
      assert keys[..|keys|] == keys;
      if i + 1 < |keys| { DepthShort(cfg, data, keys, i + 1); }
    }
  }

  // ---- the code ----

  /** Allocates the result and copies the three parts into it. */
  method CopyParts(data: Bytes, start: nat, end: nat, component: Bytes) returns (value: array<byte>)
    requires start <= |data| && end <= |data|
    ensures fresh(value) && value[..] == Splice(data, start, end, component)
  {
    value := new byte[start + |component| + |data| - end](_ => 0);
    var offset := Write(value, 0, data[..start]);
    assert value[..offset] == data[..start];
    offset := Write(value, offset, component);
    offset := Write(value, offset, data[end..]);
    assert value[..offset] == value[..];
  }

  /** How many leading components resolve, and what the last resolving prefix addresses. */
  method WalkPrefixes(cfg: Config, data: Bytes, keys: Path) returns (depth: nat, startOffset: int, endOffset: int)
    ensures depth == PrefixDepth(cfg, data, keys, 0)
    ensures depth == 0 ==> startOffset == -1 && endOffset == -1
    ensures depth > 0 ==> var g := GetSpec(cfg, data, keys[..depth]); startOffset == g.off && endOffset == g.end
  {
    hide GetSpec;
    depth, startOffset, endOffset := 0, -1, -1;
    for i := 0 to |keys|
      invariant depth == i
      invariant PrefixDepth(cfg, data, keys, 0) == PrefixDepth(cfg, data, keys, i)
      invariant i == 0 ==> startOffset == -1 && endOffset == -1
      invariant i > 0 ==> var g := GetSpec(cfg, data, keys[..i]); startOffset == g.off && endOffset == g.end
    {
      var g := Get(cfg, data, keys[..i + 1]);
      if g.err.Some? {
        return;
      }
      endOffset := g.end;
      startOffset := g.off;
      depth := depth + 1;
    }
  }

  /** The branch for a path of which nothing exists yet. */
  method ChooseTop(cfg: Config, data: Bytes, keys: Path) returns (r: Result)
    requires keys != []
    ensures r == PlanTop(cfg, data, keys)
  {
    hide BlockFrom, NextTok, LastTok;
    var firstToken := NextToken(data);
    if firstToken < 0 {
      return Refused(KeyPathNotFound);
    }
    var comma := true;
    var pathIsIndex := |keys[0]| > 0 && keys[0][0] == LBRACKET;
    var pathIsObjectKey := |keys[0]| > 0 && !pathIsIndex;
    var dataIsObject := data[firstToken] == LBRACE;
    var dataIsArray := data[firstToken] == LBRACKET;
    if (pathIsIndex && dataIsObject) || (pathIsObjectKey && dataIsArray) {
      var last := LastToken(data);
      return Planned(Plan(firstToken, last + 1, false, !pathIsIndex));
    } else if pathIsIndex && dataIsArray {
      var arrayEnd := BlockEndFrom(cfg, data, firstToken, LBRACKET, RBRACKET);
      if arrayEnd == -1 {
        return Refused(MalformedArray);
      }
      var endOffset := firstToken + arrayEnd - 1;
      ClosesLater(cfg, data, firstToken);
      var interior := data[firstToken + 1..endOffset];
      var lastInterior := LastToken(interior);
      if lastInterior == -1 {
        return Planned(Plan(firstToken, endOffset + 1, false, false));
      } else if interior[lastInterior] == COMMA {
        var beforeComma := LastTokenBefore(interior, lastInterior);
        if beforeComma == -1 {
          return Planned(Plan(firstToken, endOffset + 1, false, false));
        }
        return Planned(Plan(firstToken + 1 + lastInterior, endOffset, true, false));
      }
      return Planned(Plan(endOffset, endOffset, true, false));
    } else if !dataIsObject {
      return Refused(KeyPathNotFound);
    } else {
      var next := NextTokenFrom(data, firstToken + 1);
      var secondToken := firstToken + 1 + next;
      if data[secondToken] == RBRACE {
        comma := false;
      }
      var last := LastToken(data);
      return Planned(Plan(last, last, comma, false));
    }
  }

  /** A matched block is at least two bytes long. */
  lemma ClosesLater(cfg: Config, data: Bytes, i: nat)
    requires i < |data| && data[i] == LBRACKET
    ensures var e := BlockEndAt(cfg, data, i, LBRACKET, RBRACKET); e == -1 || i + 2 <= e
  {
    assert BlockEndAt(cfg, data, i, LBRACKET, RBRACKET) == BlockFrom(cfg, data, i + 1, 1, LBRACKET, RBRACKET);
  }

  /** LastToken(data[:n]). */
  method LastTokenBefore(data: Bytes, n: nat) returns (r: int)
    requires n <= |data|
    ensures r == LastTok(data, n)
  {
    r := LastToken(data[..n]);
    LastTokPrefix(data, n, n);
  }

  /** The branch for a path whose first depth components exist. */
  method ChooseBelow(data: Bytes, key: Bytes, startOffset: nat, endOffset: nat) returns (p: Plan)
    requires startOffset < endOffset <= |data|
    ensures forall g: Got :: g.off == startOffset && g.end == endOffset ==> p == PlanBelow(data, key, g)
  {
    var pathIsIndex := |key| > 0 && key[0] == LBRACKET;
    var containerIsObject := data[startOffset] == LBRACE;
    var containerIsArray := data[startOffset] == LBRACKET;
    if (pathIsIndex && containerIsObject) || (!pathIsIndex && containerIsArray) {
      return Plan(startOffset, endOffset, false, !pathIsIndex);
    }
    var next := NextTokenFrom(data, startOffset + 1);
    var subObjOff := startOffset + 1 + next;
    if (containerIsObject && subObjOff >= 0 && subObjOff < |data| && data[subObjOff] != RBRACE)
       || (containerIsArray && subObjOff >= 0 && subObjOff < |data| && data[subObjOff] != RBRACKET && pathIsIndex) {
      return Plan(endOffset - 1, endOffset - 1, true, false);
    }
    return Plan(startOffset, endOffset, false, true);
  }

  method Set(cfg: Config, data: Bytes, setValue: Bytes, keys: Path) returns (r: Outcome)
    ensures r == SetSpec(cfg, data, setValue, keys)
  {
    hide GetSpec, PlanTop, PlanBelow, Component;
    if |keys| == 0 {
      return Failed(KeyPathNotFound);
    }
    var g := Get(cfg, data, keys);
    if g.err.None? {
      var value := CopyParts(data, g.off, g.end, setValue);
      return Done(value[..]);
    }
    if g.err != Some(KeyPathNotFound) {
      return Failed(g.err.value);
    }
    DepthShort(cfg, data, keys, 0);
    var depth, startOffset, endOffset := WalkPrefixes(cfg, data, keys);
    var plan: Plan;
    if endOffset == -1 {
      var choice := ChooseTop(cfg, data, keys);
      if choice.Refused? {
        return Failed(choice.error);
      }
      plan := choice.plan;
      assert keys[0..] == keys;
    } else {
      plan := ChooseBelow(data, keys[depth], startOffset, endOffset);
    }
    var component := CreateInsertComponent(keys[depth..], setValue, plan.comma, plan.wrap);
    var value := CopyParts(data, plan.start, plan.end, component[..]);
    return Done(value[..]);
  }
}
