/**
 * Prefix stability, on arbitrary and even malformed bytes: what the search and the value scan find depends
 * only on the bytes up to what they found.
 */
module Stability {
  import opened Bytes
  import opened Strings
  import opened Escapes
  import opened Scanners
  import opened Syntax
  import opened Lookup
  import opened TreeLookup

  /** The two texts hold the same bytes before j. */
  predicate SameBefore(data: Bytes, data': Bytes, j: int) {
    j <= |data| && j <= |data'| && forall k :: 0 <= k < j ==> data[k] == data'[k]
  }

  /** A hit of a plain path lies strictly behind where the search started. */
  lemma {:induction false} SearchAdvances(cfg: Config, data: Bytes, keys: Path, i: nat, level: int, keyLevel: int,
                                          lastMatched: bool)
    requires i <= |data| && SafeLevels(level, keyLevel, |keys|) && PlainPath(keys)
    ensures var r := SearchRun(cfg, data, keys, i, level, keyLevel, lastMatched); r == -1 || i < r
    decreases |data| - i
  {
    hide SearchRun, KeyScanAt, BlockEndAt;
    if i == |data| {
      StepEnd(cfg, data, keys, level, keyLevel, lastMatched);
    } else {
      var c := data[i];
      if IsQuote(cfg, c) {
        StepKey(cfg, data, keys, i, level, keyLevel, lastMatched);
        match KeyScanAt(cfg, data, i)
        case Stop =>
        case NotKey(n) => SearchAdvances(cfg, data, keys, n, level, keyLevel, lastMatched);
        case KeyAt(k, n) =>
          if 1 <= level <= |keys| {
            var kl := if k == keys[level - 1] && keyLevel == level - 1 then level else keyLevel;
            if kl < |keys| { SearchAdvances(cfg, data, keys, n + 1, level, kl, k == keys[level - 1]); }
          }
      } else {
        StepOther(cfg, data, keys, i, level, keyLevel, lastMatched);
        StepBrace(cfg, data, keys, i, level, keyLevel, lastMatched);
        if c == LBRACE && lastMatched {
          SearchAdvances(cfg, data, keys, i + 1, level + 1, keyLevel, lastMatched);
        } else if c == LBRACE {
          var end := BlockEndAt(cfg, data, i, LBRACE, RBRACE);
          if end != -1 { SearchAdvances(cfg, data, keys, end, level, keyLevel, lastMatched); }
        } else if c == RBRACE {
          SearchAdvances(cfg, data, keys, i + 1, level - 1, if level - 1 == keyLevel then keyLevel - 1 else keyLevel,
                         lastMatched);
        } else if c == LBRACKET {
          StepBracket(cfg, data, keys, i, level, keyLevel, lastMatched);
          var end := BlockEndAt(cfg, data, i, LBRACKET, RBRACKET);
          if end != -1 { SearchAdvances(cfg, data, keys, end, level, keyLevel, lastMatched); }
        } else if c != COLON {
          SearchAdvances(cfg, data, keys, i + 1, level, keyLevel, lastMatched);
        }
      }
    }
  }

  /** Reading a member name, or passing over a string, looks no further than the token behind it. */
  lemma KeyScanStable(cfg: Config, data: Bytes, data': Bytes, i: nat, j: nat)
    requires i < j && SameBefore(data, data', j) && i < |data|
    requires match KeyScanAt(cfg, data, i) case Stop => false case NotKey(n) => n < j case KeyAt(_, n) => n < j
    ensures KeyScanAt(cfg, data', i) == KeyScanAt(cfg, data, i)
  {
    hide StrEndFrom, NextTok, Unescaped;
    StrEndStable(data, data', i + 1, false, data[i]);
    var e := StrEnd(data, i + 1, data[i]);
    NextTokStable(data, data', e);
    assert data[i + 1..e - 1] == data'[i + 1..e - 1];
  }

  /** The search of a plain path gives the same answer on any text that agrees up to that answer. */
  lemma {:induction false} SearchStable(cfg: Config, data: Bytes, data': Bytes, keys: Path, i: nat, level: int,
                                        keyLevel: int, lastMatched: bool, r: nat)
    requires i <= |data| && i <= |data'| && SafeLevels(level, keyLevel, |keys|) && PlainPath(keys)
    requires SearchRun(cfg, data, keys, i, level, keyLevel, lastMatched) == r && SameBefore(data, data', r)
    ensures SearchRun(cfg, data', keys, i, level, keyLevel, lastMatched) == r
    decreases |data| - i
  {
    hide SearchRun, KeyScanAt, BlockFrom;
    if i == |data| {
      StepEnd(cfg, data, keys, level, keyLevel, lastMatched);
    }
    SearchAdvances(cfg, data, keys, i, level, keyLevel, lastMatched);
    var c := data[i];
    if IsQuote(cfg, c) {
      SearchStableKey(cfg, data, data', keys, i, level, keyLevel, lastMatched, r);
    } else {
      StepOther(cfg, data, keys, i, level, keyLevel, lastMatched);
      StepBrace(cfg, data, keys, i, level, keyLevel, lastMatched);
      StepOther(cfg, data', keys, i, level, keyLevel, lastMatched);
      StepBrace(cfg, data', keys, i, level, keyLevel, lastMatched);
      if c == LBRACE && lastMatched {
        SearchStable(cfg, data, data', keys, i + 1, level + 1, keyLevel, lastMatched, r);
      } else if c == LBRACE {
        SearchStableBlock(cfg, data, data', keys, i, true, level, keyLevel, lastMatched, r);
      } else if c == RBRACE {
        SearchStable(cfg, data, data', keys, i + 1, level - 1, if level - 1 == keyLevel then keyLevel - 1 else keyLevel,
                     lastMatched, r);
      } else if c == LBRACKET {
        StepBracket(cfg, data, keys, i, level, keyLevel, lastMatched);
        StepBracket(cfg, data', keys, i, level, keyLevel, lastMatched);
        SearchStableBlock(cfg, data, data', keys, i, false, level, keyLevel, lastMatched, r);
      } else {
        SearchStable(cfg, data, data', keys, i + 1, level, keyLevel, lastMatched, r);
      }
    }
  }

  lemma {:induction false} SearchStableBlock(cfg: Config, data: Bytes, data': Bytes, keys: Path, i: nat, obj: bool,
                                             level: int, keyLevel: int, lastMatched: bool, r: nat)
    requires i < |data| && i < |data'| && SafeLevels(level, keyLevel, |keys|) && PlainPath(keys)
    requires SameBefore(data, data', r)
    requires var end := BlockEndAt(cfg, data, i, Open(obj), Close(obj));
             end != -1 && SearchRun(cfg, data, keys, end, level, keyLevel, lastMatched) == r
    ensures var end := BlockEndAt(cfg, data, i, Open(obj), Close(obj));
            && BlockEndAt(cfg, data', i, Open(obj), Close(obj)) == end
            && SearchRun(cfg, data', keys, end, level, keyLevel, lastMatched) == r
    decreases |data| - i, 0
  {
    hide SearchRun, BlockFrom;
    var end := BlockEndAt(cfg, data, i, Open(obj), Close(obj));
    BlockStable(cfg, data, data', i, 0, Open(obj), Close(obj));
    SearchStable(cfg, data, data', keys, end, level, keyLevel, lastMatched, r);
  }

  lemma {:induction false} SearchStableKey(cfg: Config, data: Bytes, data': Bytes, keys: Path, i: nat, level: int,
                                           keyLevel: int, lastMatched: bool, r: nat)
    requires i < |data| && i < |data'| && SafeLevels(level, keyLevel, |keys|) && PlainPath(keys)
    requires IsQuote(cfg, data[i]) && data'[i] == data[i]
    requires SearchRun(cfg, data, keys, i, level, keyLevel, lastMatched) == r && SameBefore(data, data', r)
    ensures SearchRun(cfg, data', keys, i, level, keyLevel, lastMatched) == r
    decreases |data| - i, 0
  {
    hide SearchRun, KeyScanAt, SameBefore;
    StepKey(cfg, data, keys, i, level, keyLevel, lastMatched);
    StepKey(cfg, data', keys, i, level, keyLevel, lastMatched);
    assert r <= |data'| by { SameBounds(data, data', r); }
    match KeyScanAt(cfg, data, i)
    case NotKey(n) =>
      SearchAdvances(cfg, data, keys, n, level, keyLevel, lastMatched);
      KeyScanStable(cfg, data, data', i, r);
      SearchStable(cfg, data, data', keys, n, level, keyLevel, lastMatched, r);
    case KeyAt(k, n) =>
      var kl := if k == keys[level - 1] && keyLevel == level - 1 then level else keyLevel;
      if kl < |keys| { SearchAdvances(cfg, data, keys, n + 1, level, kl, k == keys[level - 1]); }
      KeyScanStable(cfg, data, data', i, r);
      if kl < |keys| { SearchStable(cfg, data, data', keys, n + 1, level, kl, k == keys[level - 1], r); }
  }

  lemma SameBounds(data: Bytes, data': Bytes, r: int)
    requires SameBefore(data, data', r)
    ensures r <= |data| && r <= |data'|
  {
  }
}
