/** Bytes, the ASCII codes the scanners compare against, and the vocabulary shared by every module. */
module Bytes {
  type byte = x: int | 0 <= x < 256
  type Bytes = seq<byte>

  const TAB: byte := 0x09
  const NEWLINE: byte := 0x0A
  const RETURN: byte := 0x0D
  const SPACE: byte := 0x20
  const QUOTE: byte := 0x22
  const DOLLAR: byte := 0x24
  const APOSTROPHE: byte := 0x27
  const STAR: byte := 0x2A
  const PLUS: byte := 0x2B
  const COMMA: byte := 0x2C
  const MINUS: byte := 0x2D
  const DOT: byte := 0x2E
  const SLASH: byte := 0x2F
  const ZERO: byte := 0x30
  const NINE: byte := 0x39
  const COLON: byte := 0x3A
  const LBRACKET: byte := 0x5B
  const BACKSLASH: byte := 0x5C
  const RBRACKET: byte := 0x5D
  const LBRACE: byte := 0x7B
  const RBRACE: byte := 0x7D

  /** The two parsing switches of the library's Config; the window size belongs to the reader module. */
  datatype Config = Config(allowSingleQuotes: bool, allowUnknownEscapes: bool)

  const STRICT := Config(false, false)

  datatype Option<+T> = None | Some(value: T)

  predicate IsSpace(b: byte) {
    b == SPACE || b == NEWLINE || b == RETURN || b == TAB
  }

  predicate IsDigit(b: byte) {
    ZERO <= b <= NINE
  }

  /** A byte that opens a string under the given configuration. */
  predicate IsQuote(cfg: Config, b: byte) {
    b == QUOTE || (b == APOSTROPHE && cfg.allowSingleQuotes)
  }

  predicate AllSpace(s: Bytes) {
    forall k :: 0 <= k < |s| ==> IsSpace(s[k])
  }

  predicate AllDigits(s: Bytes) {
    forall k :: 0 <= k < |s| ==> IsDigit(s[k])
  }

  /** A text of ASCII characters, as bytes. */
  function Ascii(s: string): (b: Bytes)
    requires forall k :: 0 <= k < |s| ==> s[k] as int < 128
    ensures |b| == |s|
  {
    seq(|s|, k requires 0 <= k < |s| => s[k] as int)
  }

  /** The bytes s occur in data starting at offset i. */
  predicate At(data: Bytes, i: int, s: Bytes) {
    0 <= i && i + |s| <= |data| && forall k :: 0 <= k < |s| ==> data[i + k] == s[k]
  }

  lemma AtSplit(data: Bytes, i: int, a: Bytes, b: Bytes)
    ensures At(data, i, a + b) <==> At(data, i, a) && At(data, i + |a|, b)
  {
    if At(data, i, a) && At(data, i + |a|, b) {
      forall k | 0 <= k < |a + b| ensures data[i + k] == (a + b)[k] {
        if k >= |a| { assert data[i + |a| + (k - |a|)] == b[k - |a|]; }
      }
    }
    if At(data, i, a + b) {
      forall k | 0 <= k < |a| ensures data[i + k] == a[k] { assert (a + b)[k] == a[k]; }
      forall k | 0 <= k < |b| ensures data[i + |a| + k] == b[k] { assert (a + b)[|a| + k] == b[k]; }
    }
  }

  lemma AtSlice(data: Bytes, i: int, s: Bytes)
    requires 0 <= i && i + |s| <= |data|
    ensures At(data, i, s) <==> data[i..i + |s|] == s
  {
    if data[i..i + |s|] == s {
      forall k | 0 <= k < |s| ensures data[i + k] == s[k] { assert data[i..i + |s|][k] == s[k]; }
    }
  }

  lemma AtWhole(s: Bytes)
    ensures At(s, 0, s)
  {
  }

  lemma Associate<T>(a: seq<T>, b: seq<T>, c: seq<T>)
    ensures a + b + c == a + (b + c)
  {
  }

  /** A slice without its first and last byte. */
  lemma InnerSlice(s: Bytes, a: nat, b: nat, token: Bytes)
    requires a + 2 <= b <= |s| && token == s[a..b]
    ensures token[1..|token| - 1] == s[a + 1..b - 1]
  {
    var inner, outer := token[1..|token| - 1], s[a + 1..b - 1];
    forall k | 0 <= k < |outer| ensures inner[k] == outer[k] {
      assert inner[k] == token[k + 1] == s[a + k + 1];
    }
  }
}
