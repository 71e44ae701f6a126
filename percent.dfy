/**
  The score of an analysis: `content.match(/(\d+)%/)` followed by
  `parseInt` of the capture group, with 50 when nothing matches
  (src/pages/Index.tsx, lines 79-80).

  The regular-expression match is modelled literally, the way a
  backtracking engine runs a pattern without the `g` flag: try each start
  position from the left; at a position, let `\d+` take the longest run of
  digits and give digits back one at a time until a `%` follows.  The ghost
  predicates below state what such a match is (leftmost, then greedy) and
  what it amounts to (the first maximal run of digits followed by `%`).
 */
module Percent {
  import opened Chars

  /** What `match` returns: `null`, or a match whose group 1 is `s[start..end]`. */
  datatype MatchResult = NoMatch | Found(start: nat, end: nat)

  /** The score used when the response contains no percentage. */
  const DefaultScore: nat := 50

  /** The pattern `(\d+)%` matches at `i`, with group 1 equal to `s[i..k]`. */
  ghost predicate PatternAt(s: string, i: int, k: int) {
    && 0 <= i < k < |s|
    && (forall m :: i <= m < k ==> IsDigit(s[m]))
    && s[k] == '%'
  }

  /** The match a non-global `match` reports: the leftmost start, and there the longest group. */
  ghost predicate IsRegexMatch(s: string, i: int, k: int) {
    && PatternAt(s, i, k)
    && (forall i', k' :: i' < i ==> !PatternAt(s, i', k'))
    && (forall k' :: k < k' ==> !PatternAt(s, i, k'))
  }

  /** `s[i..j]` is a maximal run of digits: it cannot be extended either way. */
  ghost predicate IsDigitRun(s: string, i: int, j: int) {
    && 0 <= i < j <= |s|
    && (i == 0 || !IsDigit(s[i - 1]))
    && (j == |s| || !IsDigit(s[j]))
    && (forall m :: i <= m < j ==> IsDigit(s[m]))
  }

  /** A maximal run of digits immediately followed by `%`. */
  ghost predicate IsPercentRun(s: string, i: int, j: int) {
    IsDigitRun(s, i, j) && j < |s| && s[j] == '%'
  }

  /** The first (leftmost) maximal run of digits immediately followed by `%`. */
  ghost predicate IsFirstPercentRun(s: string, i: int, j: int) {
    IsPercentRun(s, i, j) && forall i', j' :: i' < i ==> !IsPercentRun(s, i', j')
  }

  /** `n` is the value of the first maximal run of digits of `s` that is immediately followed by `%`, if there is one. */
  ghost predicate IsValueOfFirstPercentRun(s: string, n: nat) {
    forall i, j :: IsFirstPercentRun(s, i, j) ==> n == Decimal(s[i..j])
  }

  /** Some digit of `s` is immediately followed by `%`. */
  ghost predicate HasDigitBeforePercent(s: string) {
    exists j :: 0 < j < |s| && s[j] == '%' && IsDigit(s[j - 1])
  }

  /** Where greedy `\d+` started at `i` first stops: the end of the digits from `i`. */
  function DigitRunEnd(s: string, i: nat): (j: nat)
    requires i <= |s|
    ensures i <= j <= |s|
    ensures forall m :: i <= m < j ==> IsDigit(s[m])
    ensures j == |s| || !IsDigit(s[j])
    decreases |s| - i
  {
    if i < |s| && IsDigit(s[i]) then DigitRunEnd(s, i + 1) else i
  }

  /**
    Backtracking of `\d+` started at `i` that currently holds `s[i..k]`:
    succeed if `%` follows, otherwise give back one digit; `\d+` needs at
    least one digit, so the attempt fails once `k` is back at `i`.
   */
  function Backtrack(s: string, i: nat, k: nat): (r: MatchResult)
    requires i <= k <= |s|
    ensures r.Found? ==> r.start == i && i < r.end <= k && r.end < |s| && s[r.end] == '%'
    ensures r.Found? ==> forall k' :: r.end < k' <= k && k' < |s| ==> s[k'] != '%'
    ensures r.NoMatch? ==> forall k' :: i < k' <= k && k' < |s| ==> s[k'] != '%'
    decreases k
  {
    if k == i then NoMatch
    else if k < |s| && s[k] == '%' then Found(i, k)
    else Backtrack(s, i, k - 1)
  }

  /** One attempt of the pattern `(\d+)%` at start position `i`. */
  function MatchAt(s: string, i: nat): (r: MatchResult)
    requires i <= |s|
    ensures r.Found? ==> r.start == i && PatternAt(s, i, r.end)
    ensures r.NoMatch? ==> forall k :: !PatternAt(s, i, k)
  {
    var j := DigitRunEnd(s, i);
    var r := Backtrack(s, i, j);
    assert r.NoMatch? ==> forall k :: !PatternAt(s, i, k) by {
      if r.NoMatch? {
        forall k ensures !PatternAt(s, i, k) {
          if j < k && j < |s| {
            assert i <= j < k && !IsDigit(s[j]);
          }
        }
      }
    }
    r
  }

  /** The engine's scan: attempts at `i`, `i + 1`, ... until one succeeds. */
  function MatchFrom(s: string, i: nat): (r: MatchResult)
    requires i <= |s|
    ensures r.Found? ==> i <= r.start && PatternAt(s, r.start, r.end)
    ensures r.Found? ==> forall i', k' :: i <= i' < r.start ==> !PatternAt(s, i', k')
    ensures r.NoMatch? ==> forall i', k' :: i <= i' ==> !PatternAt(s, i', k')
    decreases |s| - i
  {
    if i == |s| then NoMatch
    else
      var m := MatchAt(s, i);
      if m.Found? then m else MatchFrom(s, i + 1)
  }

  /** A group end is determined by its start: `%` is not a digit. */
  lemma PatternEndUnique(s: string, i: nat, k: nat, k': nat)
    requires PatternAt(s, i, k) && PatternAt(s, i, k')
    ensures k == k'
  {
  }

  /** No longer group can follow a start once the pattern matched there. */
  lemma PatternLongest(s: string, i: nat, k: nat)
    requires PatternAt(s, i, k)
    ensures forall k' :: k < k' ==> !PatternAt(s, i, k')
  {
    forall k' | k < k' ensures !PatternAt(s, i, k') {
      if PatternAt(s, i, k') {
        PatternEndUnique(s, i, k, k');
      }
    }
  }

  /** `content.match(/(\d+)%/)`: exactly the leftmost-greedy match, or null when the pattern occurs nowhere. */
  function Match(s: string): (r: MatchResult)
    ensures r.Found? ==> IsRegexMatch(s, r.start, r.end)
    ensures r.NoMatch? <==> forall i, k :: !PatternAt(s, i, k)
  {
    var r := MatchFrom(s, 0);
    if r.Found? then
      PatternLongest(s, r.start, r.end);
      assert PatternAt(s, r.start, r.end);
      r
    else r
  }

  /** Both directions: `Match` returns a pair exactly when that pair is the leftmost-greedy match. */
  lemma MatchIsLeftmostGreedy(s: string, i: nat, k: nat)
    ensures Match(s) == Found(i, k) <==> IsRegexMatch(s, i, k)
  {
    if IsRegexMatch(s, i, k) {
      var r := Match(s);
      assert r.Found?;
      if r.start == i {
        PatternEndUnique(s, i, k, r.end);
      }
    }
  }

  /** The start of the run of digits that ends just before `i`. */
  function RunStart(s: string, i: nat): (i0: nat)
    requires i <= |s|
    ensures i0 <= i
    ensures i0 == 0 || !IsDigit(s[i0 - 1])
    ensures forall m :: i0 <= m < i ==> IsDigit(s[m])
  {
    if i > 0 && IsDigit(s[i - 1]) then RunStart(s, i - 1) else i
  }

  /** Every occurrence of the pattern lies inside a maximal run followed by `%`, which starts no later. */
  lemma PatternInPercentRun(s: string, i: nat, k: nat)
    requires PatternAt(s, i, k)
    ensures RunStart(s, i) <= i && IsPercentRun(s, RunStart(s, i), k)
  {
    var i0 := RunStart(s, i);
    assert forall m :: i0 <= m < k ==> IsDigit(s[m]) by {
      forall m | i0 <= m < k ensures IsDigit(s[m]) {
        if m >= i {
          assert i <= m < k;
        }
      }
    }
  }

  /**
    The regex reports the first maximal run of digits that is immediately
    followed by `%`: `Match(s) == Found(i, j)` exactly when `s[i..j]` is that run.
   */
  lemma MatchIsFirstPercentRun(s: string, i: nat, j: nat)
    ensures Match(s) == Found(i, j) <==> IsFirstPercentRun(s, i, j)
  {
    var r := Match(s);
    if r.Found? {
      var i0 := RunStart(s, r.start);
      PatternInPercentRun(s, r.start, r.end);
      assert PatternAt(s, i0, r.end);
      assert i0 == r.start;
      forall i', j' | i' < r.start ensures !IsPercentRun(s, i', j') {
        assert !PatternAt(s, i', j');
      }
      assert IsFirstPercentRun(s, r.start, r.end);
    }
    if IsFirstPercentRun(s, i, j) {
      assert PatternAt(s, i, j);
      assert r.Found?;
      assert r.start == i;
      PatternEndUnique(s, i, j, r.end);
    }
  }

  /** The regex finds nothing exactly when no digit of the content is immediately followed by `%`. */
  lemma NoMatchIffNoDigitBeforePercent(s: string)
    ensures Match(s).NoMatch? <==> !HasDigitBeforePercent(s)
  {
    if HasDigitBeforePercent(s) {
      var j :| 0 < j < |s| && s[j] == '%' && IsDigit(s[j - 1]);
      assert PatternAt(s, j - 1, j);
    }
    var r := Match(s);
    if r.Found? {
      assert PatternAt(s, r.start, r.end);
      assert IsDigit(s[r.end - 1]);
    }
  }

  /** `parseInt` of a string of decimal digits. */
  function Decimal(d: string): (n: nat)
    requires forall m :: 0 <= m < |d| ==> IsDigit(d[m])
    ensures n < Pow10(|d|)
  {
    if d == [] then 0
    else
      var init := Decimal(d[..|d| - 1]);
      assert 10 * init <= 10 * (Pow10(|d| - 1) - 1);
      10 * init + DigitValue(d[|d| - 1])
  }

  /** Ten to the power `k`. */
  function Pow10(k: nat): nat {
    if k == 0 then 1 else 10 * Pow10(k - 1)
  }

  /** The decimal numeral of `n`, without leading zeros. */
  function Numeral(n: nat): (d: string)
    ensures |d| > 0
    ensures forall m :: 0 <= m < |d| ==> IsDigit(d[m])
  {
    if n < 10 then [DigitChar(n)] else Numeral(n / 10) + [DigitChar(n % 10)]
  }

  /** Round trip: parsing the numeral of `n` gives back `n`. */
  lemma {:induction false} DecimalOfNumeral(n: nat)
    ensures Decimal(Numeral(n)) == n
  {
    var d := Numeral(n);
    if n >= 10 {
      DecimalOfNumeral(n / 10);
      assert d[..|d| - 1] == Numeral(n / 10);
    }
  }

  /**
    The score of a response: group 1 of the match, parsed, or 50 when there
    is no match. It is the value of the first maximal run of digits
    immediately followed by `%`, wherever that run is, and exactly 50 when no
    digit is followed by `%`.
   */
  function Score(content: string): (n: nat)
    ensures IsValueOfFirstPercentRun(content, n)
    ensures !HasDigitBeforePercent(content) ==> n == DefaultScore
  {
    var n := match Match(content)
      case Found(i, k) => Decimal(content[i..k])
      case NoMatch => DefaultScore;
    assert IsValueOfFirstPercentRun(content, n) by {
      forall i, j | IsFirstPercentRun(content, i, j) ensures n == Decimal(content[i..j]) {
        MatchIsFirstPercentRun(content, i, j);
      }
    }
    NoMatchIffNoDigitBeforePercent(content);
    n
  }

  /** A content that starts with digits and `%` scores the value of those digits. */
  lemma ScoreOfLeadingPercentage(d: string, rest: string)
    requires |d| > 0 && forall m :: 0 <= m < |d| ==> IsDigit(d[m])
    ensures Score(d + "%" + rest) == Decimal(d)
  {
    var s := d + "%" + rest;
    assert PatternAt(s, 0, |d|);
    var r := Match(s);
    assert r.start == 0;
    PatternEndUnique(s, 0, |d|, r.end);
    assert s[0..|d|] == d;
  }

  /** The score is not clamped: the response `n%` scores `n`, for every natural number `n`. */
  lemma ScoreNotClamped(n: nat)
    ensures Score(Numeral(n) + "%") == n
  {
    ScoreOfLeadingPercentage(Numeral(n), "");
    assert Numeral(n) + "%" + "" == Numeral(n) + "%";
    DecimalOfNumeral(n);
  }

  /** Occurrences of the pattern in `p + s`, for a `p` free of the pattern that does not end in a digit, are those of `s`, shifted. */
  lemma PatternAfterPrefix(p: string, s: string, i: int, k: int)
    requires forall i', k' :: !PatternAt(p, i', k')
    requires p == [] || !IsDigit(p[|p| - 1])
    ensures PatternAt(p + s, i, k) <==> i >= |p| && PatternAt(s, i - |p|, k - |p|)
  {
    var ps := p + s;
    if i >= |p| && PatternAt(s, i - |p|, k - |p|) {
      forall m | i <= m < k ensures IsDigit(ps[m]) {
        assert ps[m] == s[m - |p|];
      }
    }
    if i >= |p| && PatternAt(ps, i, k) {
      forall m | i - |p| <= m < k - |p| ensures IsDigit(s[m]) {
        assert ps[m + |p|] == s[m];
      }
    }
    if 0 <= i < k < |p| {
      assert !PatternAt(p, i, k);
      assert forall m :: 0 <= m < |p| ==> ps[m] == p[m];
    } else if 0 <= i < |p| <= k {
      assert i <= |p| - 1 < k && !IsDigit(ps[|p| - 1]);
    }
  }

  /** A prefix without a percentage that does not end in a digit shifts the match and changes nothing else. */
  lemma MatchAfterPrefix(p: string, s: string)
    requires Match(p).NoMatch?
    requires p == [] || !IsDigit(p[|p| - 1])
    ensures Match(s).Found? ==> Match(p + s) == Found(Match(s).start + |p|, Match(s).end + |p|)
    ensures Match(s).NoMatch? ==> Match(p + s).NoMatch?
  {
    var ps := p + s;
    var r := Match(s);
    if r.Found? {
      var i, k := r.start + |p|, r.end + |p|;
      PatternAfterPrefix(p, s, i, k);
      forall i', k' | i' < i ensures !PatternAt(ps, i', k') {
        PatternAfterPrefix(p, s, i', k');
      }
      forall k' | k < k' ensures !PatternAt(ps, i, k') {
        PatternAfterPrefix(p, s, i, k');
      }
      assert IsRegexMatch(ps, i, k);
      MatchIsLeftmostGreedy(ps, i, k);
    } else {
      forall i', k' ensures !PatternAt(ps, i', k') {
        PatternAfterPrefix(p, s, i', k');
      }
    }
  }

  /** A prefix without a percentage that does not end in a digit leaves the score unchanged. */
  lemma ScoreSkipsPrefix(p: string, s: string)
    requires Match(p).NoMatch?
    requires p == [] || !IsDigit(p[|p| - 1])
    ensures Score(p + s) == Score(s)
  {
    MatchAfterPrefix(p, s);
    var r := Match(s);
    if r.Found? {
      SliceAfterPrefix(p, s, r.start, r.end);
    }
  }

  /** A slice of `s` is the same slice of `p + s`, shifted by `|p|`. */
  lemma SliceAfterPrefix(p: string, s: string, i: nat, k: nat)
    requires i <= k <= |s|
    ensures (p + s)[i + |p|..k + |p|] == s[i..k]
  {
  }

  /**
    A `%` after a non-digit contributes nothing to the score, wherever it is:
    deleting it leaves the score unchanged.
   */
  lemma PercentAfterNonDigitIgnored(p: string, c: char, rest: string)
    requires !IsDigit(c)
    ensures Score(p + [c, '%'] + rest) == Score(p + [c] + rest)
  {
    MatchAcrossPercent(p, c, rest);
    var r := Match(p + [c] + rest);
    if r.Found? {
      SliceAcrossPercent(p, c, rest, r.start, r.end, if r.end <= |p| then 0 else 1);
    }
  }

  /**
    Deleting a `%` that follows a non-digit keeps the match: a match before
    the `%` stays where it is, one after it moves back by one, and there is
    none when there was none.
   */
  lemma MatchAcrossPercent(p: string, c: char, rest: string)
    requires !IsDigit(c)
    ensures var r := Match(p + [c] + rest);
      r.Found? ==>
        && (r.end <= |p| || r.start >= |p| + 1)
        && Match(p + [c, '%'] + rest) == (if r.end <= |p| then r else Found(r.start + 1, r.end + 1))
    ensures Match(p + [c] + rest).NoMatch? ==> Match(p + [c, '%'] + rest).NoMatch?
  {
    var s1, s2 := p + [c, '%'] + rest, p + [c] + rest;
    var r := Match(s2);
    if r.Found? {
      var i, k := r.start, r.end;
      var d := if k <= |p| then 0 else 1;
      if d == 1 {
        assert s2[|p|] == c;
      }
      var i1, k1 := i + d, k + d;
      PatternMap(p, c, rest, i1, k1);
      forall i', k' | i' < i1 ensures !PatternAt(s1, i', k') {
        PatternMap(p, c, rest, i', k');
      }
      forall k' | k1 < k' ensures !PatternAt(s1, i1, k') {
        PatternMap(p, c, rest, i1, k');
      }
      MatchIsLeftmostGreedy(s1, i1, k1);
    } else {
      forall i', k' ensures !PatternAt(s1, i', k') {
        PatternMap(p, c, rest, i', k');
      }
    }
  }

  /**
    The occurrences of the pattern in `p + [c, '%'] + rest` are those of
    `p + [c] + rest`, the ones after `c` shifted by one.
   */
  lemma PatternMap(p: string, c: char, rest: string, i: int, k: int)
    requires !IsDigit(c)
    ensures var s1, s2 := p + [c, '%'] + rest, p + [c] + rest;
      PatternAt(s1, i, k) <==> (k <= |p| && PatternAt(s2, i, k)) || (i >= |p| + 1 && PatternAt(s2, i - 1, k - 1))
  {
    var s1, s2 := p + [c, '%'] + rest, p + [c] + rest;
    assert !IsDigit(s1[|p|]) && !IsDigit(s1[|p| + 1]) && !IsDigit(s2[|p|]);
    if PatternAt(s1, i, k) {
      if k <= |p| {
        forall m | i <= m <= k ensures s2[m] == s1[m] {
        }
      } else {
        assert i >= |p| + 2;
        forall m | i - 1 <= m <= k - 1 ensures s2[m] == s1[m + 1] {
        }
      }
    }
    if k <= |p| && PatternAt(s2, i, k) {
      forall m | i <= m <= k ensures s1[m] == s2[m] {
      }
    }
    if i >= |p| + 1 && PatternAt(s2, i - 1, k - 1) {
      assert i >= |p| + 2;
      forall m | i <= m <= k ensures s1[m] == s2[m - 1] {
      }
    }
  }

  /** The matched digits are the same in both responses. */
  lemma SliceAcrossPercent(p: string, c: char, rest: string, i: nat, k: nat, d: nat)
    requires i <= k <= |p| + 1 + |rest|
    requires d == 0 ==> k <= |p|
    requires d == 1 ==> i >= |p| + 1
    requires d <= 1
    ensures (p + [c, '%'] + rest)[i + d..k + d] == (p + [c] + rest)[i..k]
  {
    var s1, s2 := p + [c, '%'] + rest, p + [c] + rest;
    if d == 0 {
      assert s1[i..k] == p[i..k] == s2[i..k];
    } else {
      assert s1[i + 1..k + 1] == rest[i - |p| - 1..k - |p| - 1] == s2[i..k];
    }
  }

  /** A content without any `%` has no match, hence the default score. */
  lemma NoPercentSignNoMatch(s: string)
    requires '%' !in s
    ensures Match(s).NoMatch?
    ensures Score(s) == DefaultScore
  {
    forall i, k ensures !PatternAt(s, i, k) {
      if 0 <= k < |s| {
        assert s[k] in s;
      }
    }
  }

  /**
    The first digit run followed by `%` decides the score, whatever follows
    it: a prefix without a percentage that does not end in a digit is skipped,
    and later percentages are ignored.
   */
  lemma FirstPercentageWins(p: string, d: string, rest: string)
    requires Match(p).NoMatch?
    requires p == [] || !IsDigit(p[|p| - 1])
    requires |d| > 0 && forall m :: 0 <= m < |d| ==> IsDigit(d[m])
    ensures Score(p + d + "%" + rest) == Decimal(d)
  {
    ConcatRegroup(p, d, rest);
    ScoreSkipsPrefix(p, d + "%" + rest);
    ScoreOfLeadingPercentage(d, rest);
  }

  /** Regrouping the response around its first percentage. */
  lemma ConcatRegroup(p: string, d: string, rest: string)
    ensures p + d + "%" + rest == p + (d + "%" + rest)
  {
  }

  /** `"1a23% then 45%"` scores 23: `1` is not followed by `%`, and the later `45%` is ignored. */
  lemma FirstPercentageWinsExample()
    ensures Score("1a" + "23" + "%" + " then 45%") == 23
  {
    NoPercentSignNoMatch("1a");
    FirstPercentageWins("1a", "23", " then 45%");
    assert Decimal("23") == 23 by {
      assert "23"[..1] == "2";
    }
  }

  /** `"150%"` scores 150: nothing caps the score at 100. */
  lemma ScoreAboveHundred()
    ensures Score("150%") == 150
  {
    ScoreOfLeadingPercentage("150", "");
    assert "150" + "%" + "" == "150%";
    assert Decimal("150") == 150 by {
      assert "150"[..2] == "15";
      assert "15"[..1] == "1";
    }
  }
}
