/** createInsertComponent and calcAllocateSpace: the text inserted for the missing part of a path. */
module Insert {
  import opened Bytes
  import opened Syntax

  /** What stands before the value for the components after the first. */
  function Opens(keys: Path): Bytes {
    if keys == [] then []
    else (if IsIndexKey(keys[0]) then [LBRACKET] else [LBRACE, QUOTE] + keys[0] + [QUOTE, COLON]) + Opens(keys[1..])
  }

  /** What closes them again, innermost first. */
  function Closes(keys: Path): Bytes {
    if keys == [] then [] else Closes(keys[1..]) + [if IsIndexKey(keys[0]) then RBRACKET else RBRACE]
  }

  /** What stands before everything else: a comma, and the opening of the first component. */
  function Head(keys: Path, comma: bool, wrap: bool): Bytes
    requires keys != []
  {
    var isIndex := IsIndexKey(keys[0]);
    (if comma then [COMMA] else [])
    + (if isIndex && !comma then [LBRACKET]
       else (if wrap then [LBRACE] else []) + (if isIndex then [] else [QUOTE] + keys[0] + [QUOTE, COLON]))
  }

  function Foot(keys: Path, comma: bool, wrap: bool): Bytes
    requires keys != []
  {
    var isIndex := IsIndexKey(keys[0]);
    (if isIndex && !comma then [RBRACKET] else []) + (if wrap && !isIndex then [RBRACE] else [])
  }

  /** The inserted text: the first component opened, the nested containers, the value, everything closed. */
  function Component(keys: Path, value: Bytes, comma: bool, wrap: bool): Bytes
    requires keys != []
  {
    Head(keys, comma, wrap) + Opens(keys[1..]) + value + Closes(keys[1..]) + Foot(keys, comma, wrap)
  }

  /** The bytes the components after the first need besides the value. */
  function NestSize(keys: Path): nat {
    if keys == [] then 0 else (if IsIndexKey(keys[0]) then 2 else |keys[0]| + 5) + NestSize(keys[1..])
  }

  lemma {:induction false} NestSizeExact(keys: Path)
    ensures |Opens(keys)| + |Closes(keys)| == NestSize(keys)
  {
    if keys != [] { NestSizeExact(keys[1..]); }
  }

  lemma {:induction false} NestSizeStep(keys: Path, i: nat)
    requires i < |keys|
    ensures NestSize(keys[..i + 1]) == NestSize(keys[..i]) + if IsIndexKey(keys[i]) then 2 else |keys[i]| + 5
    decreases i
  {
    if i > 0 {
      assert keys[1..][..i] == keys[..i + 1][1..] && keys[1..][..i - 1] == keys[..i][1..];
      NestSizeStep(keys[1..], i - 1);
    } else {
      assert keys[..1][1..] == [] && keys[..0] == [];
    }
  }

  /** calcAllocateSpace: exactly the length of the component that will be written. */
  method CalcAllocateSpace(keys: Path, value: Bytes, comma: bool, wrap: bool) returns (lk: nat)
    requires keys != []
    ensures lk == |Component(keys, value, comma, wrap)|
  {
    var isIndex := |keys[0]| > 0 && keys[0][0] == LBRACKET;
    lk := 0;
    if comma {
      lk := lk + 1;
    }
    if isIndex && !comma {
      lk := lk + 2;
    } else {
      if wrap {
        lk := lk + 1;
      }
      if !isIndex {
        lk := lk + |keys[0]| + 3;
      }
    }
    lk := lk + |value|;
    ghost var first := lk;
    ghost var rest := keys[1..];
    assert rest[..0] == [];
    var i := 1;
    while i < |keys|
      invariant 1 <= i <= |keys|
      invariant lk == first + NestSize(rest[..i - 1])
    {
      NestSizeStep(rest, i - 1);
      if |keys[i]| > 0 && keys[i][0] == LBRACKET {
        lk := lk + 2;
      } else {
        lk := lk + |keys[i]| + 5;
      }
      i := i + 1;
    }
    assert rest[..|keys| - 1] == rest;
    NestSizeExact(rest);
    if wrap && !isIndex {
      lk := lk + 1;
    }
  }

  /** WriteToBuffer(buffer[offset:], s), for an s that fits. */
  method Write(buffer: array<byte>, offset: nat, s: Bytes) returns (next: nat)
    requires offset + |s| <= buffer.Length
    modifies buffer
    ensures next == offset + |s|
    ensures buffer[..next] == old(buffer[..offset]) + s
  {
    forall k | 0 <= k < |s| { buffer[offset + k] := s[k]; }
    next := offset + |s|;
  }

  lemma {:induction false} OpensStep(keys: Path, i: nat)
    requires i < |keys|
    ensures Opens(keys[..i + 1]) == Opens(keys[..i])
            + (if IsIndexKey(keys[i]) then [LBRACKET] else [LBRACE, QUOTE] + keys[i] + [QUOTE, COLON])
    decreases i
  {
    if i > 0 {
      assert keys[1..][..i] == keys[..i + 1][1..] && keys[1..][..i - 1] == keys[..i][1..];
      OpensStep(keys[1..], i - 1);
      Associate(if IsIndexKey(keys[0]) then [LBRACKET] else [LBRACE, QUOTE] + keys[0] + [QUOTE, COLON],
                 Opens(keys[..i][1..]),
                 if IsIndexKey(keys[i]) then [LBRACKET] else [LBRACE, QUOTE] + keys[i] + [QUOTE, COLON]);
    } else {
      assert keys[..1][1..] == [] && keys[..0] == [];
      var o := if IsIndexKey(keys[0]) then [LBRACKET] else [LBRACE, QUOTE] + keys[0] + [QUOTE, COLON];
      assert o + [] == [] + o;
    }
  }

  lemma {:induction false} OpensPrefix(keys: Path, i: nat)
    requires i <= |keys|
    ensures |Opens(keys[..i])| <= |Opens(keys)|
    decreases |keys| - i
  {
    if i < |keys| {
      OpensStep(keys, i);
      OpensPrefix(keys, i + 1);
    } else {
      assert keys[..i] == keys;
    }
  }

  lemma {:induction false} ClosesSuffix(keys: Path, i: nat)
    requires i <= |keys|
    ensures |Closes(keys[i..])| <= |Closes(keys)|
    decreases i
  {
    if i > 0 {
      ClosesSuffix(keys, i - 1);
      assert keys[i - 1..][1..] == keys[i..];
    }
  }

  /** Writes the openings of keys[1..] from offset on. */
  method WriteOpens(buffer: array<byte>, offset: nat, keys: Path) returns (next: nat)
    requires keys != [] && offset + |Opens(keys[1..])| <= buffer.Length
    modifies buffer
    ensures next == offset + |Opens(keys[1..])|
    ensures buffer[..next] == old(buffer[..offset]) + Opens(keys[1..])
  {
    ghost var rest := keys[1..];
    next := offset;
    var i := 1;
    assert rest[..0] == [];
    assert buffer[..offset] + Opens([]) == buffer[..offset];
    while i < |keys|
      invariant 1 <= i <= |keys|
      invariant next == offset + |Opens(rest[..i - 1])| <= buffer.Length
      invariant buffer[..next] == old(buffer[..offset]) + Opens(rest[..i - 1])
    {
      OpensStep(rest, i - 1);
      OpensPrefix(rest, i);
      ghost var done := Opens(rest[..i - 1]);
      assert rest[i - 1] == keys[i];
      if |keys[i]| > 0 && keys[i][0] == LBRACKET {
        next := Write(buffer, next, [LBRACKET]);
        Associate(old(buffer[..offset]), done, [LBRACKET]);
      } else {
        next := Write(buffer, next, [LBRACE, QUOTE] + keys[i] + [QUOTE, COLON]);
        Associate(old(buffer[..offset]), done, [LBRACE, QUOTE] + keys[i] + [QUOTE, COLON]);
      }
      i := i + 1;
    }
    assert rest[..|keys| - 1] == rest;
  }

  /** Writes the closings of keys[1..] from offset on, last component first. */
  method WriteCloses(buffer: array<byte>, offset: nat, keys: Path) returns (next: nat)
    requires keys != [] && offset + |Closes(keys[1..])| <= buffer.Length
    modifies buffer
    ensures next == offset + |Closes(keys[1..])|
    ensures buffer[..next] == old(buffer[..offset]) + Closes(keys[1..])
  {
    next := offset;
    var i: int := |keys| - 1;
    assert keys[i + 1..] == [];
    assert buffer[..offset] + Closes([]) == buffer[..offset];
    while i > 0
      invariant 0 <= i < |keys|
      invariant next == offset + |Closes(keys[i + 1..])| <= buffer.Length
      invariant buffer[..next] == old(buffer[..offset]) + Closes(keys[i + 1..])
    {
      assert keys[i..][1..] == keys[i + 1..];
      assert keys[1..][i - 1..] == keys[i..];
      ClosesSuffix(keys[1..], i - 1);
      ghost var done := Closes(keys[i + 1..]);
      if |keys[i]| > 0 && keys[i][0] == LBRACKET {
        next := Write(buffer, next, [RBRACKET]);
        Associate(old(buffer[..offset]), done, [RBRACKET]);
      } else {
        next := Write(buffer, next, [RBRACE]);
        Associate(old(buffer[..offset]), done, [RBRACE]);
      }
      i := i - 1;
    }
  }

  /** Fills a buffer of exactly calcAllocateSpace bytes with the component. */
  method CreateInsertComponent(keys: Path, value: Bytes, comma: bool, wrap: bool) returns (buffer: array<byte>)
    requires keys != []
    ensures fresh(buffer) && buffer[..] == Component(keys, value, comma, wrap)
  {
    hide Opens, Closes, Component;
    var head, foot := WriteHead(keys, comma, wrap);
    var lk := CalcAllocateSpace(keys, value, comma, wrap);
    ComponentParts(keys, value, comma, wrap);
    buffer := new byte[lk](_ => 0);
    var o1 := Write(buffer, 0, head);
    assert buffer[..o1] == head;
    var o2 := WriteOpens(buffer, o1, keys);
    var o3 := Write(buffer, o2, value);
    var o4 := WriteCloses(buffer, o3, keys);
    var o5 := Write(buffer, o4, foot);
    assert buffer[..o5] == buffer[..];
  }

  lemma ComponentParts(keys: Path, value: Bytes, comma: bool, wrap: bool)
    requires keys != []
    ensures Component(keys, value, comma, wrap)
         == Head(keys, comma, wrap) + Opens(keys[1..]) + value + Closes(keys[1..]) + Foot(keys, comma, wrap)
    ensures |Component(keys, value, comma, wrap)|
         == |Head(keys, comma, wrap)| + |Opens(keys[1..])| + |value| + |Closes(keys[1..])| + |Foot(keys, comma, wrap)|
  {
  }

  /** The writes before and after the nested part, collected in order. */
  method WriteHead(keys: Path, comma: bool, wrap: bool) returns (head: Bytes, foot: Bytes)
    requires keys != []
    ensures head == Head(keys, comma, wrap) && foot == Foot(keys, comma, wrap)
  {
    var isIndex := |keys[0]| > 0 && keys[0][0] == LBRACKET;
    head := if comma then [COMMA] else [];
    if isIndex && !comma {
      head := head + [LBRACKET];
    } else {
      if wrap {
        head := head + [LBRACE];
      }
      if !isIndex {
        head := head + [QUOTE];
        head := head + keys[0];
        head := head + [QUOTE, COLON];
      }
    }
    foot := [];
    if isIndex && !comma {
      foot := foot + [RBRACKET];
    }
    if wrap && !isIndex {
      foot := foot + [RBRACE];
    }
  }
}
