/**
 * The global regular expressions the extractors hand to `String.prototype.match`.
 * Each pattern is given twice: `Accepts` says, in the terms of the regular
 * expression itself, which substrings a match attempt at a position may
 * consume, and `MatchAt` computes the attempt with character scans. `Scan`
 * is the global search (leftmost attempt first, resume at the end of each
 * match) and `LeftmostScan` its declarative description.
 */
module RegexScan {
  import opened Wrappers
  import opened JsText

  /** The four patterns of the three entry points. */
  datatype Pattern =
    | Plain       // /([0-9]{9,15})\b/g       (numbers only, no prefix)
    | Prefixed    // /(\+[0-9]{1,15})\b/g     (numbers only, with prefix)
    | Legacy      // /([0-9]{9})\w*/g         (legacy scan)
    | LegacyPlus  // /(\+?[0-9]{9})\w*/g      (legacy scan with country prefix)

  /** A match: the text between `start` (inclusive) and `end` (exclusive). */
  datatype Span = Span(start: nat, end: nat)

  predicate AllDigits(s: string) {
    forall k :: 0 <= k < |s| ==> IsDigit(s[k])
  }

  predicate AllWord(s: string) {
    forall k :: 0 <= k < |s| ==> IsWord(s[k])
  }

  /** The character at `p` exists and is a word character. */
  predicate WordAt(t: string, p: int) {
    0 <= p < |t| && IsWord(t[p])
  }

  /** `\b` at position `p`: a word character on exactly one side. */
  predicate Boundary(t: string, p: int) {
    WordAt(t, p - 1) != WordAt(t, p)
  }

  /** `[0-9]{9}` at `i`, then the greedy `\w*`, which stops at the first non-word character. */
  predicate NineDigitsThenWord(t: string, i: nat, e: nat) {
    i + 9 <= e <= |t| && AllDigits(t[i..i + 9]) && AllWord(t[i + 9..e]) && !WordAt(t, e)
  }

  /** A match attempt of pattern `p` at `i` may end at `e`. */
  predicate Accepts(p: Pattern, t: string, i: nat, e: nat) {
    i < e <= |t| &&
    match p
    case Plain =>
      9 <= e - i <= 15 && AllDigits(t[i..e]) && Boundary(t, e)
    case Prefixed =>
      t[i] == '+' && 1 <= e - (i + 1) <= 15 && AllDigits(t[i + 1..e]) && Boundary(t, e)
    case Legacy =>
      NineDigitsThenWord(t, i, e)
    case LegacyPlus =>
      NineDigitsThenWord(t, i, e) || (t[i] == '+' && NineDigitsThenWord(t, i + 1, e))
  }

  /** Some match attempt of `p` at `j` succeeds. */
  ghost predicate HasMatchAt(p: Pattern, t: string, j: nat) {
    exists e: nat :: Accepts(p, t, j, e)
  }

  /** End of the maximal run of digits that starts at `i`. */
  function DigitRunEnd(t: string, i: nat): (e: nat)
    requires i <= |t|
    ensures i <= e <= |t| && AllDigits(t[i..e]) && (e == |t| || !IsDigit(t[e]))
    decreases |t| - i
  {
    if i < |t| && IsDigit(t[i]) then
      var e := DigitRunEnd(t, i + 1);
      assert forall k :: 0 < k < e - i ==> t[i..e][k] == t[i + 1..e][k - 1];
      e
    else i
  }

  /** End of the maximal run of word characters that starts at `i`. */
  function WordRunEnd(t: string, i: nat): (e: nat)
    requires i <= |t|
    ensures i <= e <= |t| && AllWord(t[i..e]) && !WordAt(t, e)
    decreases |t| - i
  {
    if i < |t| && IsWord(t[i]) then
      var e := WordRunEnd(t, i + 1);
      assert forall k :: 0 < k < e - i ==> t[i..e][k] == t[i + 1..e][k - 1];
      e
    else i
  }

  /** A digit-only stretch that stops before a non-digit is the maximal run. */
  lemma {:induction false} DigitRunUnique(t: string, i: nat, e: nat)
    requires i <= e <= |t| && AllDigits(t[i..e]) && (e == |t| || !IsDigit(t[e]))
    ensures DigitRunEnd(t, i) == e
    decreases e - i
  {
    if i < e {
      assert IsDigit(t[i..e][0]);
      var rest := t[i + 1..e];
      forall k | 0 <= k < |rest|
        ensures IsDigit(rest[k])
      {
        assert rest[k] == t[i..e][k + 1];
      }
      DigitRunUnique(t, i + 1, e);
    }
  }

  /** A word-only stretch that stops before a non-word character is the maximal run. */
  lemma {:induction false} WordRunUnique(t: string, i: nat, e: nat)
    requires i <= e <= |t| && AllWord(t[i..e]) && !WordAt(t, e)
    ensures WordRunEnd(t, i) == e
    decreases e - i
  {
    if i < e {
      assert IsWord(t[i..e][0]);
      var rest := t[i + 1..e];
      forall k | 0 <= k < |rest|
        ensures IsWord(rest[k])
      {
        assert rest[k] == t[i..e][k + 1];
      }
      WordRunUnique(t, i + 1, e);
    }
  }

  /** `[0-9]{9}\w*` at `i`. */
  function NineDigitsAt(t: string, i: nat): (r: Option<nat>)
    requires i <= |t|
    ensures r.Some? ==> NineDigitsThenWord(t, i, r.value)
    ensures forall e: nat :: NineDigitsThenWord(t, i, e) ==> r == Some(e)
  {
    if i + 9 <= |t| && AllDigits(t[i..i + 9]) then
      var e := WordRunEnd(t, i + 9);
      assert forall e': nat :: NineDigitsThenWord(t, i, e') ==> e' == e by {
        forall e': nat | NineDigitsThenWord(t, i, e') ensures e' == e {
          WordRunUnique(t, i + 9, e');
        }
      }
      Some(e)
    else None
  }

  /** `[0-9]{9,15}\b` at `i`: the maximal digit run, if its length fits and a boundary follows. */
  function PlainAt(t: string, i: nat): (r: Option<nat>)
    requires i <= |t|
    ensures r.Some? ==> Accepts(Plain, t, i, r.value)
    ensures forall e: nat :: Accepts(Plain, t, i, e) ==> r == Some(e)
  {
    var e := DigitRunEnd(t, i);
    assert forall e': nat :: Accepts(Plain, t, i, e') ==> e' == e by {
      forall e': nat | Accepts(Plain, t, i, e') ensures e' == e {
        assert t[i..e'][e' - 1 - i] == t[e' - 1];
        DigitRunUnique(t, i, e');
      }
    }
    if 9 <= e - i <= 15 && !WordAt(t, e) then
      assert t[i..e][e - 1 - i] == t[e - 1];
      Some(e)
    else None
  }

  /** `\+[0-9]{1,15}\b` at `i`: a `+`, then the maximal digit run, if its length fits and a boundary follows. */
  function PrefixedAt(t: string, i: nat): (r: Option<nat>)
    requires i <= |t|
    ensures r.Some? ==> Accepts(Prefixed, t, i, r.value)
    ensures forall e: nat :: Accepts(Prefixed, t, i, e) ==> r == Some(e)
  {
    if i < |t| && t[i] == '+' then
      var e := DigitRunEnd(t, i + 1);
      assert forall e': nat :: Accepts(Prefixed, t, i, e') ==> e' == e by {
        forall e': nat | Accepts(Prefixed, t, i, e') ensures e' == e {
          assert t[i + 1..e'][e' - 1 - (i + 1)] == t[e' - 1];
          DigitRunUnique(t, i + 1, e');
        }
      }
      if 1 <= e - (i + 1) <= 15 && !WordAt(t, e) then
        assert t[i + 1..e][e - 1 - (i + 1)] == t[e - 1];
        Some(e)
      else None
    else
      assert forall e: nat :: !Accepts(Prefixed, t, i, e);
      None
  }

  /** `\+?[0-9]{9}\w*` at `i`: the greedy `\+?` takes a `+` first and gives it up only if the rest fails. */
  function LegacyPlusAt(t: string, i: nat): (r: Option<nat>)
    requires i <= |t|
    ensures r.Some? ==> Accepts(LegacyPlus, t, i, r.value)
    ensures forall e: nat :: Accepts(LegacyPlus, t, i, e) ==> r == Some(e)
  {
    if i < |t| && t[i] == '+' && NineDigitsAt(t, i + 1).Some? then
      assert forall e: nat :: !NineDigitsThenWord(t, i, e) by {
        if i + 9 <= |t| {
          assert t[i..i + 9][0] == t[i];
        }
      }
      NineDigitsAt(t, i + 1)
    else
      NineDigitsAt(t, i)
  }

  /**
   * One match attempt of pattern `p` at position `i`: the end of the match,
   * or None when the attempt fails (the search then moves on by one).
   * The attempt succeeds exactly when the regular expression accepts, and the
   * end it reports is the only one it accepts.
   */
  function MatchAt(p: Pattern, t: string, i: nat): (r: Option<nat>)
    requires i <= |t|
    ensures r.Some? ==> Accepts(p, t, i, r.value)
    ensures forall e: nat :: Accepts(p, t, i, e) ==> r == Some(e)
  {
    match p
    case Plain => PlainAt(t, i)
    case Prefixed => PrefixedAt(t, i)
    case Legacy => NineDigitsAt(t, i)
    case LegacyPlus => LegacyPlusAt(t, i)
  }

  /**
   * The global search of `String.prototype.match` from position `i`: try a
   * match at each position in turn; after a match resume at its end, after a
   * failed attempt at the next position. Spans are in bounds, in text order
   * and do not overlap.
   */
  function Scan(p: Pattern, t: string, i: nat): (spans: seq<Span>)
    requires i <= |t|
    ensures forall k :: 0 <= k < |spans| ==> i <= spans[k].start < spans[k].end <= |t|
    ensures forall k :: 0 < k < |spans| ==> spans[k - 1].end <= spans[k].start
    decreases |t| - i
  {
    if i == |t| then []
    else
      match MatchAt(p, t, i)
      case Some(e) => [Span(i, e)] + Scan(p, t, e)
      case None => Scan(p, t, i + 1)
  }

  /**
   * The leftmost-first, non-overlapping matches of `p` in `t` from `from`:
   * every span is a match that starts at or after `from`, the spans come in
   * text order without overlapping, and every position from `from` on where
   * a match attempt succeeds lies inside one of them (so a match is only
   * passed over when an earlier match has already consumed its start).
   */
  ghost predicate LeftmostScan(p: Pattern, t: string, from: nat, spans: seq<Span>) {
    && from <= |t|
    && (forall k :: 0 <= k < |spans| ==> from <= spans[k].start && Accepts(p, t, spans[k].start, spans[k].end))
    && (forall k1, k2 :: 0 <= k1 < k2 < |spans| ==> spans[k1].end <= spans[k2].start)
    && (forall j :: from <= j < |t| && HasMatchAt(p, t, j) ==>
          exists k :: 0 <= k < |spans| && spans[k].start <= j < spans[k].end)
  }

  /** A match at `from` followed by the leftmost matches from its end. */
  lemma LeftmostCons(p: Pattern, t: string, from: nat, e: nat, rest: seq<Span>)
    requires Accepts(p, t, from, e) && LeftmostScan(p, t, e, rest)
    ensures LeftmostScan(p, t, from, [Span(from, e)] + rest)
  {
    var spans := [Span(from, e)] + rest;
    forall k | 0 < k < |spans|
      ensures spans[k] == rest[k - 1]
    {
    }
    forall j | from <= j < |t| && HasMatchAt(p, t, j)
      ensures exists k :: 0 <= k < |spans| && spans[k].start <= j < spans[k].end
    {
      if j < e {
        assert spans[0].start <= j < spans[0].end;
      } else {
        var k :| 0 <= k < |rest| && rest[k].start <= j < rest[k].end;
        assert spans[k + 1] == rest[k];
      }
    }
  }

  /** A failed attempt at `from` followed by the leftmost matches from `from + 1`. */
  lemma LeftmostSkip(p: Pattern, t: string, from: nat, spans: seq<Span>)
    requires from < |t| && !HasMatchAt(p, t, from) && LeftmostScan(p, t, from + 1, spans)
    ensures LeftmostScan(p, t, from, spans)
  {
  }

  /** `Scan` finds exactly the leftmost non-overlapping matches. */
  lemma {:induction false} ScanIsLeftmost(p: Pattern, t: string, from: nat)
    requires from <= |t|
    ensures LeftmostScan(p, t, from, Scan(p, t, from))
    decreases |t| - from
  {
    if from < |t| {
      match MatchAt(p, t, from)
      case Some(e) =>
        ScanIsLeftmost(p, t, e);
        LeftmostCons(p, t, from, e, Scan(p, t, e));
      case None =>
        ScanIsLeftmost(p, t, from + 1);
        LeftmostSkip(p, t, from, Scan(p, t, from + 1));
    }
  }

  /** Dropping the first match of a leftmost scan leaves the leftmost scan from its end. */
  lemma LeftmostTail(p: Pattern, t: string, from: nat, spans: seq<Span>)
    requires LeftmostScan(p, t, from, spans) && spans != []
    ensures LeftmostScan(p, t, spans[0].end, spans[1..])
  {
    var rest := spans[1..];
    forall k | 0 <= k < |rest|
      ensures rest[k] == spans[k + 1] && spans[0].end <= rest[k].start
    {
    }
    forall j | spans[0].end <= j < |t| && HasMatchAt(p, t, j)
      ensures exists k :: 0 <= k < |rest| && rest[k].start <= j < rest[k].end
    {
      var k :| 0 <= k < |spans| && spans[k].start <= j < spans[k].end;
      assert k != 0;
      assert rest[k - 1] == spans[k];
    }
  }

  /** When an attempt succeeds at `from`, a leftmost scan from `from` starts with that match. */
  lemma LeftmostHead(p: Pattern, t: string, from: nat, spans: seq<Span>)
    requires LeftmostScan(p, t, from, spans) && from < |t| && MatchAt(p, t, from).Some?
    ensures spans != [] && spans[0] == Span(from, MatchAt(p, t, from).value)
  {
    assert HasMatchAt(p, t, from);
    var k :| 0 <= k < |spans| && spans[k].start <= from < spans[k].end;
    assert Accepts(p, t, from, spans[0].end);
  }

  /** When the attempt at `from` fails, a leftmost scan from `from` is one from `from + 1`. */
  lemma LeftmostLater(p: Pattern, t: string, from: nat, spans: seq<Span>)
    requires LeftmostScan(p, t, from, spans) && from < |t| && MatchAt(p, t, from).None?
    ensures LeftmostScan(p, t, from + 1, spans)
  {
    forall k | 0 <= k < |spans|
      ensures spans[k].start != from
    {
      assert Accepts(p, t, spans[k].start, spans[k].end);
    }
  }

  /** The leftmost non-overlapping matches are unique: they are what `Scan` returns. */
  lemma {:induction false} LeftmostScanUnique(p: Pattern, t: string, from: nat, spans: seq<Span>)
    requires LeftmostScan(p, t, from, spans)
    ensures spans == Scan(p, t, from)
    decreases |t| - from
  {
    if from < |t| {
      match MatchAt(p, t, from)
      case Some(e) =>
        LeftmostHead(p, t, from, spans);
        LeftmostTail(p, t, from, spans);
        LeftmostScanUnique(p, t, e, spans[1..]);
        assert spans == [spans[0]] + spans[1..];
      case None =>
        LeftmostLater(p, t, from, spans);
        LeftmostScanUnique(p, t, from + 1, spans);
    }
  }

  /** The substrings of `t` that the spans cover, in order. */
  function Substrings(t: string, spans: seq<Span>): (ms: seq<string>)
    requires forall k :: 0 <= k < |spans| ==> spans[k].start <= spans[k].end <= |t|
    ensures |ms| == |spans|
    ensures forall k :: 0 <= k < |spans| ==> ms[k] == t[spans[k].start..spans[k].end]
  {
    if spans == [] then []
    else [t[spans[0].start..spans[0].end]] + Substrings(t, spans[1..])
  }

  /** `t.match(re)` for the global pattern `p`, with no match giving the empty sequence. */
  function Matches(p: Pattern, t: string): seq<string> {
    Substrings(t, Scan(p, t, 0))
  }

  /** Nine digits then word characters, read off the text from `s`, `d` characters before the digits. */
  lemma NineDigitsShape(t: string, s: nat, d: nat, e: nat)
    requires NineDigitsThenWord(t, s + d, e)
    ensures |t[s..e]| >= d + 9 && IsWord(t[e - 1])
    ensures forall k :: d <= k < d + 9 ==> IsDigit(t[s..e][k])
    ensures forall k :: d + 9 <= k < |t[s..e]| ==> IsWord(t[s..e][k])
  {
    var i := s + d;
    forall k | d <= k < d + 9
      ensures IsDigit(t[s..e][k])
    {
      assert t[s..e][k] == t[i..i + 9][k - d];
    }
    forall k | d + 9 <= k < e - s
      ensures IsWord(t[s..e][k])
    {
      assert t[s..e][k] == t[i + 9..e][k - d - 9];
    }
    if e - 1 < i + 9 {
      assert t[e - 1] == t[i..i + 9][e - 1 - i];
    } else {
      assert t[e - 1] == t[i + 9..e][e - 1 - (i + 9)];
    }
  }

  /** The matched text of each pattern has the shape the pattern spells out. */
  lemma AcceptedShape(p: Pattern, t: string, i: nat, e: nat)
    requires Accepts(p, t, i, e)
    ensures !WordAt(t, e)
    ensures p == Plain ==> 9 <= |t[i..e]| <= 15 && AllDigits(t[i..e])
    ensures p == Prefixed ==> 2 <= |t[i..e]| <= 16 && t[i..e][0] == '+' && AllDigits(t[i..e][1..])
    ensures p == Legacy ==> |t[i..e]| >= 9 && AllDigits(t[i..e][..9]) && AllWord(t[i..e][9..])
    ensures p == LegacyPlus && t[i] == '+' ==> |t[i..e]| >= 10 && AllDigits(t[i..e][1..10]) && AllWord(t[i..e][10..])
    ensures p == LegacyPlus && t[i] != '+' ==> |t[i..e]| >= 9 && AllDigits(t[i..e][..9]) && AllWord(t[i..e][9..])
    ensures p != Plain ==> IsWord(t[e - 1])
  {
    var m := t[i..e];
    match p
    case Plain =>
      assert m[|m| - 1] == t[e - 1];
    case Prefixed =>
      assert m[1..] == t[i + 1..e];
      assert m[|m| - 1] == t[e - 1];
    case Legacy =>
      NineDigitsShape(t, i, 0, e);
      assert forall k :: 0 <= k < 9 ==> m[..9][k] == m[k];
      assert forall k :: 0 <= k < |m| - 9 ==> m[9..][k] == m[k + 9];
    case LegacyPlus =>
      if t[i] == '+' {
        assert !NineDigitsThenWord(t, i, e) by {
          assert t[i..i + 9][0] == t[i];
        }
        NineDigitsShape(t, i, 1, e);
        assert forall k :: 0 <= k < 9 ==> m[1..10][k] == m[k + 1];
        assert forall k :: 0 <= k < |m| - 10 ==> m[10..][k] == m[k + 10];
      } else {
        NineDigitsShape(t, i, 0, e);
        assert forall k :: 0 <= k < 9 ==> m[..9][k] == m[k];
        assert forall k :: 0 <= k < |m| - 9 ==> m[9..][k] == m[k + 9];
      }
  }

  /**
   * Every string `t.match(re)` returns has its pattern's shape and is followed
   * in `t` by a non-word character or the end of `t`.
   */
  lemma MatchesShape(p: Pattern, t: string)
    ensures |Matches(p, t)| == |Scan(p, t, 0)|
    ensures forall k :: 0 <= k < |Matches(p, t)| ==>
      var s := Scan(p, t, 0)[k];
      var m := Matches(p, t)[k];
      && m == t[s.start..s.end]
      && !WordAt(t, s.end)
      && (p == Plain ==> 9 <= |m| <= 15 && AllDigits(m))
      && (p == Prefixed ==> 2 <= |m| <= 16 && m[0] == '+' && AllDigits(m[1..]))
      && (p == Legacy ==> |m| >= 9 && AllDigits(m[..9]) && AllWord(m[9..]))
      && (p == LegacyPlus && m[0] == '+' ==> |m| >= 10 && AllDigits(m[1..10]) && AllWord(m[10..]))
      && (p == LegacyPlus && m[0] != '+' ==> |m| >= 9 && AllDigits(m[..9]) && AllWord(m[9..]))
  {
    var spans := Scan(p, t, 0);
    ScanIsLeftmost(p, t, 0);
    forall k | 0 <= k < |spans|
      ensures var m := t[spans[k].start..spans[k].end];
        && !WordAt(t, spans[k].end)
        && (p == Plain ==> 9 <= |m| <= 15 && AllDigits(m))
        && (p == Prefixed ==> 2 <= |m| <= 16 && m[0] == '+' && AllDigits(m[1..]))
        && (p == Legacy ==> |m| >= 9 && AllDigits(m[..9]) && AllWord(m[9..]))
        && (p == LegacyPlus && m[0] == '+' ==> |m| >= 10 && AllDigits(m[1..10]) && AllWord(m[10..]))
        && (p == LegacyPlus && m[0] != '+' ==> |m| >= 9 && AllDigits(m[..9]) && AllWord(m[9..]))
    {
      AcceptedShape(p, t, spans[k].start, spans[k].end);
    }
  }

  /** The `k`-th leftmost match of `\+?[0-9]{9}\w*` is not preceded by a `+` it left out. */
  lemma LegacyPlusTakesPlusAt(t: string, spans: seq<Span>, k: nat)
    requires LeftmostScan(LegacyPlus, t, 0, spans) && k < |spans|
    requires t[spans[k].start] != '+' && spans[k].start > 0
    ensures t[spans[k].start - 1] != '+'
  {
    var s, e := spans[k].start, spans[k].end;
    if t[s - 1] == '+' {
      assert Accepts(LegacyPlus, t, s, e);
      assert Accepts(LegacyPlus, t, s - 1, e);
      assert HasMatchAt(LegacyPlus, t, s - 1);
      var k' :| 0 <= k' < |spans| && spans[k'].start <= s - 1 < spans[k'].end;
      if k' < k {
        assert spans[k'].end <= s;
        AcceptedShape(LegacyPlus, t, spans[k'].start, spans[k'].end);
      }
    }
  }

  /**
   * With `\+?`, a `+` right before the nine digits is always part of the
   * match: a match that does not begin with `+` is never preceded by one.
   */
  lemma LegacyPlusTakesPlus(t: string)
    ensures forall k :: 0 <= k < |Scan(LegacyPlus, t, 0)| ==>
      var s := Scan(LegacyPlus, t, 0)[k];
      t[s.start] != '+' && s.start > 0 ==> t[s.start - 1] != '+'
  {
    var spans := Scan(LegacyPlus, t, 0);
    ScanIsLeftmost(LegacyPlus, t, 0);
    forall k | 0 <= k < |spans| && t[spans[k].start] != '+' && spans[k].start > 0
      ensures t[spans[k].start - 1] != '+'
    {
      LegacyPlusTakesPlusAt(t, spans, k);
    }
  }

  /** From a position after which no match attempt succeeds, the search finds nothing. */
  lemma {:induction false} NoMatchScanEmpty(p: Pattern, t: string, i: nat)
    requires i <= |t|
    requires forall j :: i <= j < |t| ==> MatchAt(p, t, j).None?
    ensures Scan(p, t, i) == []
    decreases |t| - i
  {
    if i < |t| {
      NoMatchScanEmpty(p, t, i + 1);
    }
  }

  /** `t.match(re)` finds nothing exactly when no match attempt succeeds anywhere in `t`. */
  lemma NoMatchNoMatches(p: Pattern, t: string)
    ensures Matches(p, t) == [] <==> forall j :: 0 <= j < |t| ==> MatchAt(p, t, j).None?
  {
    if forall j :: 0 <= j < |t| ==> MatchAt(p, t, j).None? {
      NoMatchScanEmpty(p, t, 0);
    } else {
      var j :| 0 <= j < |t| && MatchAt(p, t, j).Some?;
      assert HasMatchAt(p, t, j);
      ScanIsLeftmost(p, t, 0);
    }
  }

  /** A match outside of which no attempt can succeed is the only one `t.match(re)` returns. */
  lemma SoleMatch(p: Pattern, t: string, s: nat, e: nat)
    requires Accepts(p, t, s, e)
    requires forall j :: 0 <= j < |t| && (j < s || e <= j) ==> !HasMatchAt(p, t, j)
    ensures Matches(p, t) == [t[s..e]]
  {
    var spans := [Span(s, e)];
    assert LeftmostScan(p, t, 0, spans) by {
      forall j | 0 <= j < |t| && HasMatchAt(p, t, j)
        ensures exists k :: 0 <= k < |spans| && spans[k].start <= j < spans[k].end
      {
        assert spans[0].start <= j < spans[0].end;
      }
    }
    LeftmostScanUnique(p, t, 0, spans);
  }

  /** No two digits stand next to each other. */
  predicate NoDigitPair(s: string) {
    forall k :: 0 <= k < |s| - 1 ==> !IsDigit(s[k]) || !IsDigit(s[k + 1])
  }

  /** Outside `m`, no two digits of `u + m + v` are adjacent. */
  lemma GluedPair(u: string, m: string, v: string, j: nat)
    requires NoDigitPair(u) && (u == [] || !IsDigit(u[|u| - 1]))
    requires NoDigitPair(v)
    requires j + 1 < |u + m + v| && (j < |u| || |u| + |m| <= j)
    ensures !IsDigit((u + m + v)[j]) || !IsDigit((u + m + v)[j + 1])
  {
    var t := u + m + v;
    if j < |u| {
      if j + 1 < |u| {
        assert t[j] == u[j] && t[j + 1] == u[j + 1];
      } else {
        assert t[j] == u[|u| - 1];
      }
    } else {
      var e := |u| + |m|;
      assert t[j] == v[j - e] && t[j + 1] == v[j + 1 - e];
    }
  }

  /** No run of nine digits, so no plain match, starts where a digit is not followed by another. */
  lemma NoPlainMatchAt(t: string, j: nat)
    requires j < |t| && (j + 1 < |t| ==> !IsDigit(t[j]) || !IsDigit(t[j + 1]))
    ensures !HasMatchAt(Plain, t, j)
  {
    forall e': nat
      ensures !Accepts(Plain, t, j, e')
    {
      if j + 9 <= e' <= |t| {
        assert t[j..e'][0] == t[j] && t[j..e'][1] == t[j + 1];
      }
    }
  }

  /**
   * A run of 9 to 15 digits in a text where no other two digits are adjacent
   * and which is not followed by a word character is the only match of
   * `/([0-9]{9,15})\b/g`.
   */
  lemma PlainSole(u: string, m: string, v: string)
    requires NoDigitPair(u) && (u == [] || !IsDigit(u[|u| - 1]))
    requires 9 <= |m| <= 15 && AllDigits(m)
    requires NoDigitPair(v) && (v == [] || !IsWord(v[0]))
    ensures Matches(Plain, u + m + v) == [m]
  {
    var t := u + m + v;
    var s, e := |u|, |u| + |m|;
    assert t[s..e] == m;
    assert Accepts(Plain, t, s, e) by {
      assert t[e - 1] == m[|m| - 1];
      if e < |t| {
        assert t[e] == v[0];
      }
    }
    forall j | 0 <= j < |t| && (j < s || e <= j)
      ensures !HasMatchAt(Plain, t, j)
    {
      if j + 1 < |t| {
        GluedPair(u, m, v, j);
      }
      NoPlainMatchAt(t, j);
    }
    SoleMatch(Plain, t, s, e);
  }

  /**
   * A `+` with 1 to 15 digits, not followed by a word character, in a text
   * with no other `+`, is the only match of `/(\+[0-9]{1,15})\b/g`.
   */
  lemma PrefixedSole(u: string, m: string, v: string)
    requires '+' !in u && '+' !in v
    requires 2 <= |m| <= 16 && m[0] == '+' && AllDigits(m[1..])
    requires v == [] || !IsWord(v[0])
    ensures Matches(Prefixed, u + m + v) == [m]
  {
    var t := u + m + v;
    var s, e := |u|, |u| + |m|;
    assert t[s..e] == m;
    assert Accepts(Prefixed, t, s, e) by {
      assert t[s + 1..e] == m[1..];
      assert t[e - 1] == m[|m| - 1];
      assert IsDigit(m[1..][|m| - 2]);
      if e < |t| {
        assert t[e] == v[0];
      }
    }
    forall j | 0 <= j < |t| && (j < s || e <= j)
      ensures t[j] != '+'
    {
      if j < s {
        assert t[j] == u[j];
      } else {
        assert t[j] == v[j - e];
      }
    }
    SoleMatch(Prefixed, t, s, e);
  }

  /** Two texts without adjacent digits, glued with a non-digit in between, have none either. */
  lemma NoDigitPairGlue(a: string, c: char, b: string)
    requires NoDigitPair(a) && !IsDigit(c) && NoDigitPair(b)
    ensures NoDigitPair(a + [c] + b)
  {
    var t := a + [c] + b;
    forall k | 0 <= k < |t| - 1
      ensures !IsDigit(t[k]) || !IsDigit(t[k + 1])
    {
      if k + 1 < |a| {
        assert t[k] == a[k] && t[k + 1] == a[k + 1];
      } else if k > |a| {
        assert t[k] == b[k - |a| - 1] && t[k + 1] == b[k - |a|];
      }
    }
  }

  /** Pieces without adjacent digits, joined with a non-digit, have none either. */
  lemma {:induction false} NoDigitPairJoin(parts: seq<string>, sep: char)
    requires !IsDigit(sep) && forall k :: 0 <= k < |parts| ==> NoDigitPair(parts[k])
    ensures NoDigitPair(Join(parts, sep))
  {
    if |parts| > 1 {
      NoDigitPairJoin(parts[1..], sep);
      NoDigitPairGlue(parts[0], sep, Join(parts[1..], sep));
    }
  }
}
