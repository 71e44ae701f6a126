/**
  The match details of an analysis: the response split on '\n', lines
  that are empty after `trim` dropped, and the rest trimmed
  (src/pages/Index.tsx, lines 83-86), with `split`, `trim`, `filter` and
  `map` modelled as JavaScript defines them for these arguments.
 */
module Lines {
  import opened Chars
  import opened Arrays

  /** The position of the first '\n' at or after `i`, or `|s|` when there is none. */
  function NextNewline(s: string, i: nat): (j: nat)
    requires i <= |s|
    ensures i <= j <= |s|
    ensures j < |s| ==> s[j] == '\n'
    ensures forall m :: i <= m < j ==> s[m] != '\n'
    decreases |s| - i
  {
    if i == |s| || s[i] == '\n' then i else NextNewline(s, i + 1)
  }

  /** `lines.join('\n')`. */
  function JoinLines(lines: seq<string>): string {
    if |lines| == 0 then ""
    else if |lines| == 1 then lines[0]
    else lines[0] + "\n" + JoinLines(lines[1..])
  }

  /**
    `s.split('\n')`: the pieces between separators, never an empty list
    (`"".split('\n')` is `[""]`); each piece is free of '\n' and joining the
    pieces again gives back `s`.
   */
  function SplitLines(s: string): (lines: seq<string>)
    ensures |lines| >= 1
    ensures forall l :: l in lines ==> '\n' !in l
    ensures JoinLines(lines) == s
    decreases |s|
  {
    var j := NextNewline(s, 0);
    if j == |s| then
      assert forall m :: 0 <= m < |s| ==> s[m] != '\n';
      [s]
    else
      var rest := SplitLines(s[j + 1..]);
      assert forall m :: 0 <= m < j ==> s[..j][m] != '\n';
      assert JoinLines([s[..j]] + rest) == s[..j] + "\n" + JoinLines(rest) by {
        assert ([s[..j]] + rest)[1..] == rest;
      }
      assert s[..j] + "\n" + s[j + 1..] == s;
      [s[..j]] + rest
  }

  /** The other round trip: splitting the join of newline-free pieces gives back the pieces. */
  lemma {:induction false} SplitJoin(lines: seq<string>)
    requires |lines| >= 1
    requires forall l :: l in lines ==> '\n' !in l
    ensures SplitLines(JoinLines(lines)) == lines
  {
    var s := JoinLines(lines);
    var first := lines[0];
    assert '\n' !in first;
    if |lines| == 1 {
      assert forall m :: 0 <= m < |s| ==> s[m] != '\n' by {
        forall m | 0 <= m < |s| ensures s[m] != '\n' {
          assert s[m] in first;
        }
      }
    } else {
      var rest := lines[1..];
      assert s == first + "\n" + JoinLines(rest);
      assert s[|first|] == '\n';
      forall m | 0 <= m < |first| ensures s[m] != '\n' {
        assert s[m] == first[m];
        assert first[m] in first;
      }
      var j := NextNewline(s, 0);
      assert j == |first|;
      assert s[..j] == first;
      assert s[j + 1..] == JoinLines(rest);
      forall l | l in rest ensures '\n' !in l {
        assert l in lines;
      }
      SplitJoin(rest);
    }
  }

  /** A string that `trim` leaves alone: empty, or neither end is whitespace. */
  predicate IsTrimmed(s: string) {
    s == [] || (!IsWs(s[0]) && !IsWs(s[|s| - 1]))
  }

  /** A string made of whitespace only (possibly the empty one). */
  predicate IsBlank(s: string) {
    forall m :: 0 <= m < |s| ==> IsWs(s[m])
  }

  /** The number of whitespace characters at the start of `s`, the part `trimStart` drops. */
  function LeadingWs(s: string): (n: nat)
    ensures n <= |s|
    ensures forall m :: 0 <= m < n ==> IsWs(s[m])
    ensures n < |s| ==> !IsWs(s[n])
  {
    if s != [] && IsWs(s[0]) then 1 + LeadingWs(s[1..]) else 0
  }

  /** The number of whitespace characters at the end of `s`, the part `trimEnd` drops. */
  function TrailingWs(s: string): (n: nat)
    ensures n <= |s|
    ensures forall m :: |s| - n <= m < |s| ==> IsWs(s[m])
    ensures n < |s| ==> !IsWs(s[|s| - 1 - n])
  {
    if s != [] && IsWs(s[|s| - 1]) then 1 + TrailingWs(s[..|s| - 1]) else 0
  }

  /**
    `s.trim()`: the part of `s` between its leading and its trailing
    whitespace. The result has no whitespace at either end, and it is empty
    exactly when `s` is whitespace only.
   */
  function Trim(s: string): (r: string)
    ensures IsTrimmed(r)
    ensures r == [] <==> IsBlank(s)
  {
    var a := LeadingWs(s);
    var t := s[a..];
    var r := t[..|t| - TrailingWs(t)];
    assert r == [] ==> a == |s| by {
      assert |t| > 0 ==> TrailingWs(t) < |t|;
    }
    r
  }

  /**
    `trim` cuts whitespace off the two ends and nothing else: its result is
    the slice of `s` that starts after the leading whitespace.
   */
  lemma TrimIsSlice(s: string)
    ensures exists a, b :: 0 <= a <= b <= |s| && Trim(s) == s[a..b] && IsBlank(s[..a]) && IsBlank(s[b..])
  {
    var a := LeadingWs(s);
    var t := s[a..];
    var n := TrailingWs(t);
    var b := |s| - n;
    assert Trim(s) == s[a..b] by {
      assert Trim(s) == t[..|t| - n];
    }
    BlankSlice(s, 0, a);
    assert forall m :: b <= m < |s| ==> IsWs(s[m]) by {
      forall m | b <= m < |s| ensures IsWs(s[m]) {
        assert s[m] == t[m - a];
      }
    }
    BlankSlice(s, b, |s|);
  }

  /** A slice whose every character is whitespace is blank. */
  lemma BlankSlice(s: string, i: nat, j: nat)
    requires i <= j <= |s|
    requires forall m :: i <= m < j ==> IsWs(s[m])
    ensures IsBlank(s[i..j])
  {
    forall m | 0 <= m < j - i ensures IsWs(s[i..j][m]) {
      assert s[i..j][m] == s[i + m];
    }
  }

  /** Every character of `trim(s)` is a character of `s`. */
  lemma TrimKeepsCharacters(s: string)
    ensures forall c :: c in Trim(s) ==> c in s
  {
    TrimIsSlice(s);
    var r := Trim(s);
    var a, b :| 0 <= a <= b <= |s| && r == s[a..b];
    SliceKeepsCharacters(s, a, b);
  }

  /** Every character of a slice is a character of the whole. */
  lemma SliceKeepsCharacters(s: string, a: nat, b: nat)
    requires a <= b <= |s|
    ensures forall c :: c in s[a..b] ==> c in s
  {
    forall c | c in s[a..b] ensures c in s {
      var m :| 0 <= m < b - a && s[a..b][m] == c;
      assert s[a + m] == c;
    }
  }

  /** `trim` is the identity on trimmed strings, so trimming twice is trimming once. */
  lemma TrimIdempotent(s: string)
    ensures IsTrimmed(s) ==> Trim(s) == s
    ensures Trim(Trim(s)) == Trim(s)
  {
    var r := Trim(s);
    assert LeadingWs(r) == 0 && TrailingWs(r) == 0;
  }

  /** The callback of the filter, `line => line.trim().length > 0`: the line is not whitespace only. */
  function HasText(line: string): (b: bool)
    ensures b <==> !IsBlank(line)
  {
    |Trim(line)| > 0
  }

  /** Entries that survive the filter and are trimmed are non-empty, trimmed, and as free of '\n' as the lines. */
  lemma TrimmedNonBlankEntries(lines: seq<string>)
    requires forall l :: l in lines ==> '\n' !in l
    ensures forall k :: 0 <= k < |Map(Filter(lines, HasText), Trim)| ==>
      var d := Map(Filter(lines, HasText), Trim)[k]; d != [] && IsTrimmed(d) && '\n' !in d
  {
    FilterAtKeptIndices(lines, HasText);
    var kept := Filter(lines, HasText);
    forall k | 0 <= k < |kept|
      ensures var d := Map(kept, Trim)[k]; d != [] && IsTrimmed(d) && '\n' !in d
    {
      var l := kept[k];
      assert l == lines[KeptIndices(lines, HasText)[k]];
      assert l in lines;
      assert HasText(l);
      TrimKeepsCharacters(l);
    }
  }

  /**
    The match details of a response: every entry is non-empty, has no
    whitespace at either end and holds no line break, and there are no more
    entries than lines.
   */
  function Details(content: string): (r: seq<string>)
    ensures |r| <= |SplitLines(content)|
    ensures forall k :: 0 <= k < |r| ==> r[k] != [] && IsTrimmed(r[k]) && '\n' !in r[k]
  {
    var lines := SplitLines(content);
    TrimmedNonBlankEntries(lines);
    Map(Filter(lines, HasText), Trim)
  }

  /**
    The details are, in their original order, exactly the trimmed forms of
    the lines of `content` that are not whitespace only: `idx` lists those
    lines' positions in increasing order.
   */
  lemma DetailsAreTrimmedNonBlankLines(content: string)
    ensures var lines, idx := SplitLines(content), KeptIndices(SplitLines(content), HasText);
      && |Details(content)| == |idx|
      && (forall k :: 0 <= k < |idx| ==> idx[k] < |lines| && Details(content)[k] == Trim(lines[idx[k]]))
      && (forall k, k' :: 0 <= k < k' < |idx| ==> idx[k] < idx[k'])
      && (forall j :: 0 <= j < |lines| ==> (j in idx <==> !IsBlank(lines[j])))
  {
    var lines := SplitLines(content);
    DetailsAtKeptIndices(lines);
    KeptIndicesIncreasing(lines, HasText);
    KeptLinesHaveText(lines);
  }

  /** The trimmed kept lines are the trimmed lines at the kept positions. */
  lemma DetailsAtKeptIndices(lines: seq<string>)
    ensures var idx := KeptIndices(lines, HasText);
      && |Map(Filter(lines, HasText), Trim)| == |idx|
      && (forall k :: 0 <= k < |idx| ==> idx[k] < |lines| && Map(Filter(lines, HasText), Trim)[k] == Trim(lines[idx[k]]))
  {
    FilterAtKeptIndices(lines, HasText);
  }

  /** A line is kept exactly when it is not whitespace only. */
  lemma KeptLinesHaveText(lines: seq<string>)
    ensures forall j :: 0 <= j < |lines| ==> (j in KeptIndices(lines, HasText) <==> !IsBlank(lines[j]))
  {
    KeptIndicesExact(lines, HasText);
  }

  /** Trimming already trimmed lines changes nothing. */
  lemma TrimAllOfTrimmed(ds: seq<string>)
    requires forall k :: 0 <= k < |ds| ==> IsTrimmed(ds[k])
    ensures Map(ds, Trim) == ds
  {
    forall k | 0 <= k < |ds| ensures Map(ds, Trim)[k] == ds[k] {
      TrimIdempotent(ds[k]);
    }
  }

  /** Non-empty trimmed one-line entries survive splitting their join, filtering and trimming. */
  lemma LinesOfJoin(ds: seq<string>)
    requires ds != []
    requires forall k :: 0 <= k < |ds| ==> ds[k] != [] && IsTrimmed(ds[k]) && '\n' !in ds[k]
    ensures Map(Filter(SplitLines(JoinLines(ds)), HasText), Trim) == ds
  {
    assert SplitLines(JoinLines(ds)) == ds by {
      forall l | l in ds ensures '\n' !in l {
      }
      SplitJoin(ds);
    }
    forall k | 0 <= k < |ds| ensures HasText(ds[k]) {
      assert !IsWs(ds[k][0]);
    }
    FilterKeepsAll(ds, HasText);
    TrimAllOfTrimmed(ds);
  }

  /** Details made of non-empty trimmed one-line entries are recovered from their join. */
  lemma DetailsOfJoin(ds: seq<string>)
    requires forall k :: 0 <= k < |ds| ==> ds[k] != [] && IsTrimmed(ds[k]) && '\n' !in ds[k]
    ensures Details(JoinLines(ds)) == ds
  {
    if ds == [] {
      assert SplitLines("") == [""];
      assert Trim("") == "";
    } else {
      LinesOfJoin(ds);
    }
  }

  /** Extracting details is idempotent: the details of the joined details are the details. */
  lemma DetailsIdempotent(content: string)
    ensures Details(JoinLines(Details(content))) == Details(content)
  {
    DetailsOfJoin(Details(content));
  }
}
