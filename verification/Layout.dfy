/** Where the parts of a printed tree lie, and what the scanners see there. */
module Layout {
  import opened Bytes
  import opened Strings
  import opened Escapes
  import opened Scanners
  import opened Syntax

  predicate SpaceRun(data: Bytes, i: int, j: int) {
    0 <= i <= j <= |data| && forall k :: i <= k < j ==> IsSpace(data[k])
  }

  /** Offset, inside Print(v), of entry k; of the byte after it; and of its value. */
  function Start(v: JVal, k: nat): (p: nat)
    requires v.Node? && k < |v.es|
    ensures p + |PrintEntry(v.obj, v.es[k])| < |Print(v)|
  {
    1 + EntryPos(v.obj, v.es, k)
  }

  function End(v: JVal, k: nat): (p: nat)
    requires v.Node? && k < |v.es|
    ensures Start(v, k) <= p < |Print(v)|
  {
    Start(v, k) + |PrintEntry(v.obj, v.es[k])|
  }

  function ValueStart(v: JVal, k: nat): (p: nat)
    requires v.Node? && k < |v.es|
    ensures Start(v, k) <= p && p + |Print(v.es[k].v)| <= End(v, k)
  {
    Start(v, k) + |KeyPart(v.obj, v.es[k])| + |v.es[k].w3|
  }

  lemma NodeAt(data: Bytes, i: nat, v: JVal)
    requires v.Node? && At(data, i, Print(v))
    ensures data[i] == Open(v.obj) && data[i + |Print(v)| - 1] == Close(v.obj)
    ensures |Print(v)| == 2 + |if v.es == [] then v.ews else PrintEntries(v.obj, v.es)|
    ensures At(data, i + 1, if v.es == [] then v.ews else PrintEntries(v.obj, v.es))
  {
    var inner := if v.es == [] then v.ews else PrintEntries(v.obj, v.es);
    AtSplit(data, i, [Open(v.obj)], inner + [Close(v.obj)]);
    assert data[i] == [Open(v.obj)][0];
    AtSplit(data, i + 1, inner, [Close(v.obj)]);
    assert data[i + 1 + |inner| + 0] == [Close(v.obj)][0];
  }

  lemma {:induction false} EntriesAt(data: Bytes, i: nat, obj: bool, es: seq<Entry>, k: nat)
    requires k < |es| && At(data, i, PrintEntries(obj, es))
    ensures At(data, i + EntryPos(obj, es, k), PrintEntry(obj, es[k]))
    ensures var q := EntryPos(obj, es, k) + |PrintEntry(obj, es[k])|;
            if k == |es| - 1 then q == |PrintEntries(obj, es)|
            else q < |PrintEntries(obj, es)| && data[i + q] == COMMA && EntryPos(obj, es, k + 1) == q + 1
    decreases k
  {
    hide PrintEntry, At;
    if |es| > 1 {
      var head := PrintEntry(obj, es[0]);
      FirstEntry(data, i, obj, es);
      if k == 0 {
        assert EntryPos(obj, es[1..], 0) == 0;
      } else {
        EntriesAt(data, i + |head| + 1, obj, es[1..], k - 1);
        assert es[1..][k - 1] == es[k];
      }
    }
  }

  lemma FirstEntry(data: Bytes, i: nat, obj: bool, es: seq<Entry>)
    requires |es| > 1 && At(data, i, PrintEntries(obj, es))
    ensures var head := PrintEntry(obj, es[0]);
            && At(data, i, head) && i + |head| < |data| && data[i + |head|] == COMMA
            && At(data, i + |head| + 1, PrintEntries(obj, es[1..]))
            && |PrintEntries(obj, es)| == |head| + 1 + |PrintEntries(obj, es[1..])|
  {
    hide PrintEntry, At;
    var head := PrintEntry(obj, es[0]);
    var rest := PrintEntries(obj, es[1..]);
    AtSplit(data, i, head, [COMMA] + rest);
    AtSplit(data, i + |head|, [COMMA], rest);
    AtOne(data, i + |head|, COMMA);
  }

  lemma AtOne(data: Bytes, i: nat, c: byte)
    requires At(data, i, [c])
    ensures i < |data| && data[i] == c
  {
    assert data[i + 0] == [c][0];
  }

  /** Entry k of a node sits between its start and the comma or closing bracket at its end. */
  lemma EntryAt(data: Bytes, i: nat, v: JVal, k: nat)
    requires v.Node? && At(data, i, Print(v)) && k < |v.es|
    ensures At(data, i + Start(v, k), PrintEntry(v.obj, v.es[k]))
    ensures End(v, k) < |Print(v)|
    ensures data[i + End(v, k)] == if k == |v.es| - 1 then Close(v.obj) else COMMA
    ensures if k == |v.es| - 1 then End(v, k) + 1 == |Print(v)| else Start(v, k + 1) == End(v, k) + 1
  {
    hide PrintEntry, PrintEntries, Print;
    NodeAt(data, i, v);
    EntriesAt(data, i + 1, v.obj, v.es, k);
  }

  lemma SpaceAt(data: Bytes, i: nat, w: Bytes)
    requires At(data, i, w) && AllSpace(w)
    ensures SpaceRun(data, i, i + |w|)
  {
    forall k | i <= k < i + |w| ensures IsSpace(data[k]) {
      assert data[i + (k - i)] == w[k - i];
    }
  }

  /** The parts of a member or element that starts at p. */
  lemma EntryParts(data: Bytes, p: nat, obj: bool, e: Entry)
    requires At(data, p, PrintEntry(obj, e)) && WfEntry(obj, e)
    ensures var c := p + |KeyPart(obj, e)|;
            && c + |e.w3| + |Print(e.v)| + |e.w4| == p + |PrintEntry(obj, e)|
            && SpaceRun(data, c, c + |e.w3|)
            && At(data, c + |e.w3|, Print(e.v))
            && SpaceRun(data, c + |e.w3| + |Print(e.v)|, p + |PrintEntry(obj, e)|)
    ensures At(data, p, KeyPart(obj, e))
  {
    AtSplit(data, p, KeyPart(obj, e), e.w3 + (Print(e.v) + e.w4));
    var c := p + |KeyPart(obj, e)|;
    AtSplit(data, c, e.w3, Print(e.v) + e.w4);
    AtSplit(data, c + |e.w3|, Print(e.v), e.w4);
    SpaceAt(data, c, e.w3);
    SpaceAt(data, c + |e.w3| + |Print(e.v)|, e.w4);
  }

  /** Offset of the first byte of the key's body in a member. */
  function KeyStart(e: Entry): nat { |e.w1| + 1 }

  lemma KeyParts(data: Bytes, p: nat, e: Entry)
    requires At(data, p, KeyPart(true, e)) && WfEntry(true, e)
    ensures |KeyPart(true, e)| == KeyStart(e) + |e.key| + 1 + |e.w2| + 1
    ensures SpaceRun(data, p, p + |e.w1|)
    ensures data[p + |e.w1|] == QUOTE
    ensures At(data, p + KeyStart(e), e.key)
    ensures data[p + KeyStart(e) + |e.key|] == QUOTE
    ensures SpaceRun(data, p + KeyStart(e) + |e.key| + 1, p + |KeyPart(true, e)| - 1)
    ensures data[p + |KeyPart(true, e)| - 1] == COLON
  {
    var r2 := e.w2 + [COLON];
    var r1 := [QUOTE] + r2;
    AtSplit(data, p, e.w1, [QUOTE] + (e.key + r1));
    SpaceAt(data, p, e.w1);
    var a := p + |e.w1|;
    AtSplit(data, a, [QUOTE], e.key + r1);
    assert data[a + 0] == [QUOTE][0];
    AtSplit(data, a + 1, e.key, r1);
    var b := a + 1 + |e.key|;
    AtSplit(data, b, [QUOTE], r2);
    assert data[b + 0] == [QUOTE][0];
    AtSplit(data, b + 1, e.w2, [COLON]);
    SpaceAt(data, b + 1, e.w2);
    assert data[b + 1 + |e.w2| + 0] == [COLON][0];
  }

  /** What follows a value inside a container: optional whitespace, then a comma or a closing bracket. */
  predicate Delimited(data: Bytes, i: nat, q: nat) {
    i <= q < |data| && SpaceRun(data, i, q) && (data[q] == COMMA || data[q] == RBRACE || data[q] == RBRACKET)
  }

  /** Where the parts of entry k of a printed node are. */
  lemma ChildAt(data: Bytes, i: nat, v: JVal, k: nat)
    requires Wf(v) && v.Node? && At(data, i, Print(v)) && k < |v.es|
    ensures i + |Print(v)| <= |data|
    ensures WfEntry(v.obj, v.es[k]) && At(data, i + Start(v, k), PrintEntry(v.obj, v.es[k]))
    ensures ValueStart(v, k) == Start(v, k) + |KeyPart(v.obj, v.es[k])| + |v.es[k].w3|
    ensures SpaceRun(data, i + Start(v, k) + |KeyPart(v.obj, v.es[k])|, i + ValueStart(v, k))
    ensures Wf(v.es[k].v) && At(data, i + ValueStart(v, k), Print(v.es[k].v))
    ensures Delimited(data, i + ValueStart(v, k) + |Print(v.es[k].v)|, i + End(v, k))
    ensures data[i + End(v, k)] == if k == |v.es| - 1 then Close(v.obj) else COMMA
    ensures if k == |v.es| - 1 then End(v, k) + 1 == |Print(v)| else Start(v, k + 1) == End(v, k) + 1
  {
    hide Print, PrintEntry, PrintEntries, KeyPart;
    EntryAt(data, i, v, k);
    EntryParts(data, i + Start(v, k), v.obj, v.es[k]);
  }

  /** The value at l occurs at its offset, and only whitespace separates it from its slot. */
  lemma {:induction false} SubAt(data: Bytes, i: nat, v: JVal, l: Loc)
    requires Wf(v) && ValidLoc(v, l) && At(data, i, Print(v))
    ensures Wf(Sub(v, l)) && At(data, i + OffOf(v, l), Print(Sub(v, l)))
    ensures OffOf(v, l) + |Print(Sub(v, l))| <= |Print(v)|
    ensures SlotOf(v, l) <= OffOf(v, l) && SpaceRun(data, i + SlotOf(v, l), i + OffOf(v, l))
    ensures l != [] ==> 0 < SlotOf(v, l)
    decreases |l|
  {
    hide PrintEntry, PrintEntries, Print;
    if l == [] {
      assert i + |Print(v)| <= |data|;
    } else {
      hide At;
      var e := v.es[l[0]];
      ChildAt(data, i, v, l[0]);
      SubAt(data, i + ValueStart(v, l[0]), e.v, l[1..]);
      if |l| == 1 { assert l[1..] == []; }
    }
  }

  // ---- shapes of primitives and strings ----

  /** A byte that occurs in numbers and literals: no scanner reacts to it. */
  predicate IsPrimByte(c: byte) {
    IsDigit(c) || c == PLUS || c == MINUS || c == DOT || 0x41 <= c <= 0x5A || 0x61 <= c <= 0x7A
  }

  lemma NumberBytes(s: Bytes, a: nat, b: nat, c: nat)
    requires NumberParts(s, a, b, c)
    ensures s != [] && (IsDigit(s[0]) || s[0] == MINUS)
    ensures forall k :: 0 <= k < |s| ==> IsPrimByte(s[k])
  {
    forall k | 0 <= k < |s| ensures IsPrimByte(s[k]) {
      if a <= k < b { assert s[a..b][k - a] == s[k]; }
      if b <= k < c {
        assert s[b..c][k - b] == s[k];
        if k > b { assert s[b..c][1..][k - b - 1] == s[k]; }
      }
      if c <= k {
        assert s[c..][k - c] == s[k];
        if k > c { assert s[c..][1..][k - c - 1] == s[k]; }
        if k > c + 1 { assert s[c..][2..][k - c - 2] == s[k]; }
      }
    }
    assert a == 0 ==> s[a..b][0] == s[0];
  }

  lemma PrimShape(t: Bytes)
    requires IsPrimitive(t)
    ensures t != [] && forall k :: 0 <= k < |t| ==> IsPrimByte(t[k])
    ensures IsDigit(t[0]) || t[0] == MINUS || t == TRUE || t == FALSE || t == NULL
  {
    if IsNumber(t) {
      var a: nat, b: nat, c: nat :| NumberParts(t, a, b, c);
      NumberBytes(t, a, b, c);
    }
  }

  lemma PrimAt(data: Bytes, i: nat, t: Bytes)
    requires IsPrimitive(t) && At(data, i, t)
    ensures t != [] && forall k :: i <= k < i + |t| ==> IsPrimByte(data[k])
  {
    PrimShape(t);
    forall k | i <= k < i + |t| ensures IsPrimByte(data[k]) {
      assert data[i + (k - i)] == t[k - i];
    }
  }

  /** A primitive ends exactly where the token scan ends it, when a delimiter or the end follows. */
  lemma {:induction false} TokEndPrim(data: Bytes, i: nat, j: nat)
    requires i <= j <= |data| && forall k :: i <= k < j ==> IsPrimByte(data[k])
    requires j == |data| || EndsPrimitive(data[j])
    ensures TokEnd(data, i) == j
    decreases j - i
  {
    if i < j { TokEndPrim(data, i + 1, j); }
  }

  /** The string scan stops at the quote that closes a well-formed body. */
  lemma {:induction false} BodyEnds(data: Bytes, i: nat, b: Bytes)
    requires IsStringBody(b) && At(data, i, b) && i + |b| < |data| && data[i + |b|] == QUOTE
    ensures StrEnd(data, i, QUOTE) == i + |b| + 1
    decreases |b|
  {
    if b != [] {
      assert data[i + 0] == b[0];
      if b[0] == BACKSLASH {
        assert data[i + 1] == b[1];
        assert StrEnd(data, i, QUOTE) == StrEndFrom(data, i + 1, true, QUOTE) == StrEnd(data, i + 2, QUOTE);
        if b[1] == LOWER_U {
          assert data[i + 2] == b[2] && data[i + 3] == b[3] && data[i + 4] == b[4] && data[i + 5] == b[5];
          SkipPlain(data, i + 2, i + 6, QUOTE);
          AtDrop(data, i, b, 6);
          BodyEnds(data, i + 6, b[6..]);
        } else {
          AtDrop(data, i, b, 2);
          BodyEnds(data, i + 2, b[2..]);
        }
      } else {
        AtDrop(data, i, b, 1);
        BodyEnds(data, i + 1, b[1..]);
      }
    }
  }

  lemma AtDrop(data: Bytes, i: nat, s: Bytes, n: nat)
    requires n <= |s| && At(data, i, s)
    ensures At(data, i + n, s[n..])
  {
    assert s == s[..n] + s[n..];
    AtSplit(data, i, s[..n], s[n..]);
  }

  /** A string token at i ends after its closing quote. */
  lemma StrAt(data: Bytes, i: nat, b: Bytes)
    requires IsStringBody(b) && At(data, i, Print(Str(b)))
    ensures data[i] == QUOTE && At(data, i + 1, b) && data[i + |b| + 1] == QUOTE
    ensures StrEnd(data, i + 1, QUOTE) == i + |b| + 2
  {
    AtSplit(data, i, [QUOTE], b + [QUOTE]);
    assert data[i + 0] == [QUOTE][0];
    AtSplit(data, i + 1, b, [QUOTE]);
    assert data[i + 1 + |b| + 0] == [QUOTE][0];
    BodyEnds(data, i + 1, b);
  }

  /** Every well-formed body can be unescaped, and no configuration switch changes the result. */
  lemma {:induction false} BodyDecodes(cfg: Config, b: Bytes)
    requires IsStringBody(b)
    ensures Unescaped(cfg, b).Some? && Unescaped(cfg, b) == Unescaped(STRICT, b)
    decreases |b|
  {
    if b != [] {
      if b[0] == BACKSLASH {
        if b[1] == LOWER_U {
          UnicodeTakes(b);
          BodyDecodes(cfg, b[DecodeUnicode(b).1..]);
        } else {
          BodyDecodes(cfg, b[2..]);
        }
      } else {
        BodyDecodes(cfg, b[1..]);
      }
    }
  }

  /** In a well-formed body a Unicode escape is never malformed and leaves a well-formed rest. */
  lemma UnicodeTakes(b: Bytes)
    requires IsStringBody(b) && |b| >= 2 && b[0] == BACKSLASH && b[1] == LOWER_U
    ensures DecodeUnicode(b).1 == 6 || DecodeUnicode(b).1 == 12
    ensures IsStringBody(b[DecodeUnicode(b).1..])
  {
    if |b| >= 8 && b[6] == BACKSLASH && b[7] == LOWER_U {
      assert b[6..][0] == b[6] && b[6..][1] == b[7];
      assert b[6..][6..] == b[12..];
    }
  }

  /** What Escape writes between the quotes is a well-formed string body. */
  lemma {:induction false} EscapedIsBody(s: Bytes)
    ensures IsStringBody(EscapeBody(s)) && NoControl(EscapeBody(s))
  {
    if s != [] {
      EscapedIsBody(s[1..]);
      var e := EscapeByte(s[0]);
      var b := e + EscapeBody(s[1..]);
      assert b[|e|..] == EscapeBody(s[1..]);
    }
  }

  /** Where the tokens of a printed member name are: its quote, its end, its colon. */
  lemma KeyPlaces(data: Bytes, p: nat, e: Entry)
    requires At(data, p, KeyPart(true, e)) && WfEntry(true, e)
    ensures var s := p + KeyStart(e);
            var colon := p + |KeyPart(true, e)| - 1;
            && s + |e.key| < colon < |data| && data[s..s + |e.key|] == e.key
            && NextTok(data, p) == s - 1 && data[s - 1] == QUOTE && StrEnd(data, s, QUOTE) == s + |e.key| + 1
            && NextTok(data, s + |e.key| + 1) == colon && data[colon] == COLON
            && SpaceRun(data, p, s - 1) && SpaceRun(data, s + |e.key| + 1, colon)
  {
    hide StrEndFrom, KeyPart, IsStringBody;
    KeyParts(data, p, e);
    var s := p + KeyStart(e);
    BodyEnds(data, s, e.key);
    AtSlice(data, s, e.key);
    NextTokSkips(data, p, s - 1);
    NextTokSkips(data, s + |e.key| + 1, p + |KeyPart(true, e)| - 1);
  }
}
