/** findCommonSubstrings: the common substrings of two texts, read off the
    suffix array and LCP array of the two texts joined by "||", longest
    first, with every one that a longer one contains removed. */
module CommonSubstrings {
  import opened Strings
  import opened SuffixArrays
  import opened Lcp

  /** min: the smaller of the two. */
  function Min(a: int, b: int): (r: int)
    ensures r <= a && r <= b && (r == a || r == b)
  {
    if a < b then a else b
  }

  /** max: the larger of the two. */
  function Max(a: int, b: int): (r: int)
    ensures r >= a && r >= b && (r == a || r == b)
  {
    if a >= b then a else b
  }

  /** The text that is searched: the first text, the separator "||", the
      second text. The second text starts two bytes after the first ends. */
  function Combined(text1: string, text2: string): (c: string)
    ensures |c| == |text1| + 2 + |text2|
    ensures c[..|text1|] == text1 && c[|text1|..|text1| + 2] == "||" && c[|text1| + 2..] == text2
  {
    text1 + "||" + text2
  }

  /** Which test the candidate loop applies. `AsWritten` is the test of the
      source: the later suffix must start after the end of the first text,
      so it may start at the second separator byte. `Corrected` asks it to
      start after both separator bytes, inside the second text. */
  datatype Test = AsWritten | Corrected

  /** The offset the later suffix must start beyond, for a first text of
      length `split`. */
  function LaterBound(test: Test, split: int): int
  {
    match test
    case AsWritten => split
    case Corrected => split + 1
  }

  /** The test findCommonSubstrings applies to the suffixes at offsets j1
      and j2 of neighbouring ranks that share h bytes, where `split` is the
      length of the first text: the match is longer than minLen, one suffix
      starts inside the first text and the other after it, and the match
      read from the first text does not run past its end. */
  predicate Accepts(test: Test, split: int, minLen: int, j1: int, j2: int, h: int)
    ensures Accepts(test, split, minLen, j1, j2, h) ==>
      h > minLen && Min(j1, j2) + h <= split && Max(j1, j2) > split
  {
    var jMin := Min(j1, j2);
    var jMax := Max(j1, j2);
    var isInBoth := jMin < split && jMax > LaterBound(test, split);
    var doesNotCross := !(jMin < split && jMin + h > split);
    h > minLen && isInBoth && doesNotCross
  }

  /** The suffix at `a` comes right before the one at `b` in suffix order:
      no suffix of `t` lies strictly between them. */
  ghost predicate Adjacent(t: string, a: int, b: int)
  {
    0 <= a < |t| && 0 <= b < |t| && LexLess(t[a..], t[b..]) &&
    forall x :: 0 <= x < |t| ==> !(LexLess(t[a..], t[x..]) && LexLess(t[x..], t[b..]))
  }

  /** A candidate of findCommonSubstrings, described without any suffix
      array: the common prefix of two adjacent suffixes of the combined text
      that passes `test`, read from the smaller suffix. */
  ghost predicate IsCandidate(test: Test, text1: string, text2: string, minLen: int, s: string)
  {
    exists a, b :: CandidateAt(test, text1, text2, minLen, a, b, s)
  }

  /** The adjacent suffixes at `a` and `b` of the combined text pass the
      test and yield `s`. */
  ghost predicate CandidateAt(test: Test, text1: string, text2: string, minLen: int, a: int, b: int, s: string)
  {
    Adjacent(Combined(text1, text2), a, b) && MatchAt(test, Combined(text1, text2), |text1|, minLen, a, b, s)
  }

  /** The suffixes at `a` and `b` of `c` pass the test and `s` is their
      shared prefix. */
  predicate MatchAt(test: Test, c: string, split: int, minLen: int, a: int, b: int, s: string)
  {
    0 <= a < |c| && 0 <= b < |c| &&
    Accepts(test, split, minLen, a, b, CommonPrefixLength(c[a..], c[b..])) &&
    s == c[a..a + CommonPrefixLength(c[a..], c[b..])]
  }

  /** Suffixes at neighbouring ranks of a suffix array are adjacent. */
  lemma NeighboursAreAdjacent(t: string, sa: seq<int>, r: nat)
    requires IsSuffixArray(t, sa) && 0 < r < |sa|
    ensures Adjacent(t, sa[r - 1], sa[r])
  {
    forall x | 0 <= x < |t|
      ensures !(LexLess(t[sa[r - 1]..], t[x..]) && LexLess(t[x..], t[sa[r]..]))
    {
      assert x in sa;
      var q :| 0 <= q < |sa| && sa[q] == x;
      if LexLess(t[sa[r - 1]..], t[x..]) {
        RankOrder(t, sa, r - 1, q);
        NotBelow(t, sa, r, q);
      }
    }
  }

  /** Adjacent suffixes sit at neighbouring ranks of the suffix array. */
  lemma AdjacentAreNeighbours(t: string, sa: seq<int>, a: int, b: int)
    requires IsSuffixArray(t, sa) && Adjacent(t, a, b)
    ensures exists r :: 0 < r < |sa| && sa[r - 1] == a && sa[r] == b
  {
    assert a in sa;
    var ra :| 0 <= ra < |sa| && sa[ra] == a;
    assert b in sa;
    var rb :| 0 <= rb < |sa| && sa[rb] == b;
    RankOrder(t, sa, ra, rb);
    if ra + 1 < rb {
      SortedSpan(t, sa, ra, ra + 1);
      SortedSpan(t, sa, ra + 1, rb);
      assert false;
    }
    assert sa[rb - 1] == a;
  }

  /** The prefix that the suffix at rank r shares with the one at rank
      r - 1, read from the latter (the slice at j1 = sa[r-1]). */
  function RankMatch(c: string, sa: seq<int>, r: int): (m: string)
    requires OffsetsInRange(sa, |c|) && 0 < r < |sa|
    ensures |m| == RankLcp(c, sa, r)
  {
    c[sa[r - 1]..sa[r - 1] + RankLcp(c, sa, r)]
  }

  /** Rank r passes the test of findCommonSubstrings and yields `s`. */
  predicate RankYields(test: Test, c: string, split: int, minLen: int, sa: seq<int>, r: int, s: string)
    requires OffsetsInRange(sa, |c|) && 0 < r < |sa|
  {
    Accepts(test, split, minLen, sa[r - 1], sa[r], RankLcp(c, sa, r)) && s == RankMatch(c, sa, r)
  }

  /** The candidates findCommonSubstrings collects from the ranks below `i`,
      in rank order. */
  function RankCandidates(test: Test, c: string, split: int, minLen: int, sa: seq<int>, i: nat): seq<string>
    requires OffsetsInRange(sa, |c|) && i <= |sa|
  {
    if i < 2 then []
    else
      RankCandidates(test, c, split, minLen, sa, i - 1) +
      (if Accepts(test, split, minLen, sa[i - 2], sa[i - 1], RankLcp(c, sa, i - 1))
       then [RankMatch(c, sa, i - 1)] else [])
  }

  /** A string is collected from the ranks below `i` exactly when some rank
      r < i passes the test and yields it. */
  lemma {:induction false} RankCandidatesMembers(test: Test, c: string, split: int, minLen: int, sa: seq<int>,
                                                 i: nat, s: string)
    requires OffsetsInRange(sa, |c|) && i <= |sa|
    ensures s in RankCandidates(test, c, split, minLen, sa, i) <==>
      exists r :: 0 < r < i && RankYields(test, c, split, minLen, sa, r, s)
  {
    if i >= 2 {
      RankCandidatesMembers(test, c, split, minLen, sa, i - 1, s);
      if RankYields(test, c, split, minLen, sa, i - 1, s) {
        assert s in RankCandidates(test, c, split, minLen, sa, i);
      }
      if s in RankCandidates(test, c, split, minLen, sa, i) && s !in RankCandidates(test, c, split, minLen, sa, i - 1) {
        assert RankYields(test, c, split, minLen, sa, i - 1, s);
      }
    }
  }

  /** A candidate read at some rank satisfies the suffix-array-free
      description. */
  lemma RankCandidateIsCandidate(test: Test, text1: string, text2: string, minLen: int, sa: seq<int>, r: int, s: string)
    requires IsSuffixArray(Combined(text1, text2), sa) && 0 < r < |sa|
    requires OffsetsInRange(sa, |Combined(text1, text2)|)
    requires RankYields(test, Combined(text1, text2), |text1|, minLen, sa, r, s)
    ensures IsCandidate(test, text1, text2, minLen, s)
  {
    var c := Combined(text1, text2);
    NeighboursAreAdjacent(c, sa, r);
    var a, b := sa[r - 1], sa[r];
    assert CandidateAt(test, text1, text2, minLen, a, b, s);
  }

  /** A candidate is read at some rank of any suffix array. */
  lemma CandidateIsRankCandidate(test: Test, text1: string, text2: string, minLen: int, sa: seq<int>, s: string)
    requires IsSuffixArray(Combined(text1, text2), sa)
    requires OffsetsInRange(sa, |Combined(text1, text2)|)
    requires IsCandidate(test, text1, text2, minLen, s)
    ensures exists r :: 0 < r < |sa| && RankYields(test, Combined(text1, text2), |text1|, minLen, sa, r, s)
  {
    var c := Combined(text1, text2);
    var a, b :| CandidateAt(test, text1, text2, minLen, a, b, s);
    assert Adjacent(c, a, b) && MatchAt(test, c, |text1|, minLen, a, b, s);
    AdjacentAreNeighbours(c, sa, a, b);
    var r :| 0 < r < |sa| && sa[r - 1] == a && sa[r] == b;
    MatchYields(test, c, |text1|, minLen, sa, r, s);
    assert RankYields(test, c, |text1|, minLen, sa, r, s);
  }

  /** A match at the offsets of ranks r - 1 and r is what rank r yields. */
  lemma MatchYields(test: Test, c: string, split: int, minLen: int, sa: seq<int>, r: int, s: string)
    requires OffsetsInRange(sa, |c|) && 0 < r < |sa|
    requires MatchAt(test, c, split, minLen, sa[r - 1], sa[r], s)
    ensures RankYields(test, c, split, minLen, sa, r, s)
  {
  }

  /** The suffix-array reading and the suffix-array-free reading of the
      candidates agree. */
  lemma CandidatesAreExactly(test: Test, text1: string, text2: string, minLen: int, sa: seq<int>, s: string)
    requires IsSuffixArray(Combined(text1, text2), sa)
    ensures OffsetsInRange(sa, |Combined(text1, text2)|)
    ensures s in RankCandidates(test, Combined(text1, text2), |text1|, minLen, sa, |sa|) <==>
      IsCandidate(test, text1, text2, minLen, s)
  {
    var c := Combined(text1, text2);
    RankCandidatesMembers(test, c, |text1|, minLen, sa, |sa|, s);
    if s in RankCandidates(test, c, |text1|, minLen, sa, |sa|) {
      var r :| 0 < r < |sa| && RankYields(test, c, |text1|, minLen, sa, r, s);
      RankCandidateIsCandidate(test, text1, text2, minLen, sa, r, s);
    }
    if IsCandidate(test, text1, text2, minLen, s) {
      CandidateIsRankCandidate(test, text1, text2, minLen, sa, s);
    }
  }

  /** The shared prefix reads the same from either suffix, so slicing at
      j1 = sa[i-1], as findCommonSubstrings does, or at jMin gives the same
      string. */
  lemma SharedPrefixSlices(t: string, a: nat, b: nat)
    requires a <= |t| && b <= |t|
    ensures var h := CommonPrefixLength(t[a..], t[b..]);
      a + h <= |t| && b + h <= |t| && t[a..a + h] == t[b..b + h]
  {
    var h := CommonPrefixLength(t[a..], t[b..]);
    CommonPrefixLengthIsLongest(t[a..], t[b..]);
    assert t[a..a + h] == t[a..][..h] && t[b..b + h] == t[b..][..h];
  }

  /** A slice of the combined text that ends within the first text is an
      infix of the first text. */
  lemma SliceInFirst(text1: string, text2: string, j: nat, h: nat)
    requires j + h <= |text1|
    ensures Contains(text1, Combined(text1, text2)[j..j + h])
  {
    var c := Combined(text1, text2);
    assert c[j..j + h] == text1[j..j + h];
    ContainsAt(text1, c[j..j + h], j);
  }

  /** A slice of the combined text that starts in the second text is an
      infix of the second text. */
  lemma SliceInSecond(text1: string, text2: string, j: nat, h: nat)
    requires |text1| + 2 <= j && j + h <= |Combined(text1, text2)|
    ensures Contains(text2, Combined(text1, text2)[j..j + h])
  {
    var c := Combined(text1, text2);
    var o := j - |text1| - 2;
    assert c[j..j + h] == text2[o..o + h];
    ContainsAt(text2, c[j..j + h], o);
  }

  /** A slice of the combined text that starts after the first text is an
      infix of the second text preceded by one separator byte. */
  lemma SliceAfterFirst(text1: string, text2: string, j: nat, h: nat)
    requires |text1| + 1 <= j && j + h <= |Combined(text1, text2)|
    ensures Contains("|" + text2, Combined(text1, text2)[j..j + h])
  {
    var c := Combined(text1, text2);
    var o := j - |text1| - 1;
    assert c[|text1| + 1..] == "|" + text2;
    assert c[j..j + h] == ("|" + text2)[o..o + h];
    ContainsAt("|" + text2, c[j..j + h], o);
  }

  /** The shared prefix read from the earlier or the later offset. */
  lemma OrderedPrefixSlices(t: string, a: nat, b: nat, lo: nat, hi: nat, h: nat)
    requires a <= |t| && b <= |t| && h == CommonPrefixLength(t[a..], t[b..])
    requires lo == Min(a, b) && hi == Max(a, b)
    ensures hi + h <= |t| && t[lo..lo + h] == t[a..a + h] && t[hi..hi + h] == t[a..a + h]
  {
    SharedPrefixSlices(t, a, b);
  }

  /** What every candidate is: a string longer than minLen that occurs in
      the first text and in the second text preceded by one separator byte;
      under the corrected test it occurs in the second text itself. */
  lemma CandidateProperties(test: Test, text1: string, text2: string, minLen: int, s: string)
    requires IsCandidate(test, text1, text2, minLen, s)
    ensures |s| > minLen
    ensures Contains(text1, s) && Contains("|" + text2, s)
    ensures test == Corrected ==> Contains(text2, s)
  {
    var a, b :| CandidateAt(test, text1, text2, minLen, a, b, s);
    MatchProperties(test, text1, text2, minLen, a, b, s);
  }

  lemma MatchProperties(test: Test, text1: string, text2: string, minLen: int, a: int, b: int, s: string)
    requires MatchAt(test, Combined(text1, text2), |text1|, minLen, a, b, s)
    ensures |s| > minLen
    ensures Contains(text1, s) && Contains("|" + text2, s)
    ensures test == Corrected ==> Contains(text2, s)
  {
    var c := Combined(text1, text2);
    var h := CommonPrefixLength(c[a..], c[b..]);
    var jMin, jMax := Min(a, b), Max(a, b);
    OrderedPrefixSlices(c, a, b, jMin, jMax, h);
    var m := c[a..a + h];
    assert s == m;
    assert c[jMin..jMin + h] == m;
    SliceInFirst(text1, text2, jMin, h);
    assert Contains(text1, m);
    SliceAfterFirst(text1, text2, jMax, h);
    assert Contains("|" + text2, m);
    if test == Corrected {
      SliceInSecond(text1, text2, jMax, h);
      assert Contains(text2, m);
    }
  }

  /** The candidate loop of findCommonSubstrings: walks the ranks of the
      combined text and keeps, for each pair of neighbours that passes the
      test, the shared prefix read from the lower-ranked suffix. */
  method CollectCandidates(test: Test, textCombined: string, split: int, minLen: int, sa: seq<int>, lcp: seq<int>)
    returns (candidates: seq<string>)
    requires OffsetsInRange(sa, |textCombined|) && IsLcpArray(textCombined, sa, lcp)
    ensures candidates == RankCandidates(test, textCombined, split, minLen, sa, |sa|)
  {
    candidates := [];
    var i := 1;
    while i < |sa|
      invariant 1 <= i && (i <= |sa| || |sa| == 0)
      invariant candidates == RankCandidates(test, textCombined, split, minLen, sa, Min(i, |sa|))
    {
      CollectStep(test, textCombined, split, minLen, sa, lcp, i);
      var isLongEnough := lcp[i] > minLen;
      if isLongEnough {
        var j1 := sa[i - 1];
        var j2 := sa[i];
        var h := lcp[i];
        var jMin := Min(j1, j2);
        var jMax := Max(j1, j2);
        var isInBoth := jMin < split && jMax > LaterBound(test, split);
        var doesNotCross := !(jMin < split && jMin + h > split);
        assert isInBoth && doesNotCross <==> Accepts(test, split, minLen, j1, j2, h);
        if isInBoth && doesNotCross {
          var substring := textCombined[j1..j1 + h];
          candidates := candidates + [substring];
        }
      }
      i := i + 1;
    }
  }

  /** One round of the candidate loop: rank i adds its shared prefix, read
      from the LCP array, when it passes the test. */
  lemma CollectStep(test: Test, c: string, split: int, minLen: int, sa: seq<int>, lcp: seq<int>, i: int)
    requires OffsetsInRange(sa, |c|) && IsLcpArray(c, sa, lcp) && 0 < i < |sa|
    ensures 0 <= sa[i - 1] <= sa[i - 1] + lcp[i] <= |c|
    ensures RankCandidates(test, c, split, minLen, sa, Min(i + 1, |sa|)) ==
      RankCandidates(test, c, split, minLen, sa, Min(i, |sa|)) +
      (if Accepts(test, split, minLen, sa[i - 1], sa[i], lcp[i])
       then [c[sa[i - 1]..sa[i - 1] + lcp[i]]] else [])
  {
    assert lcp[i] == RankLcp(c, sa, i);
    assert |RankMatch(c, sa, i)| == lcp[i];
  }

  /** Lengths never increase along `s`. */
  predicate LengthNonIncreasing(s: seq<string>)
  {
    forall i, j :: 0 <= i < j < |s| ==> |s[i]| >= |s[j]|
  }

  /** An element at least as long as the head of a length-ordered sequence
      can go in front of it. */
  lemma ConsNonIncreasing(a: string, rest: seq<string>)
    requires LengthNonIncreasing(rest)
    requires |rest| == 0 || |a| >= |rest[0]|
    ensures LengthNonIncreasing([a] + rest)
  {
    var r := [a] + rest;
    forall i, j | 0 <= i < j < |r|
      ensures |r[i]| >= |r[j]|
    {
      if i == 0 {
        assert r[j] == rest[j - 1];
        assert |rest[0]| >= |rest[j - 1]| || j == 1;
      }
    }
  }

  /** Puts `x` into a sequence ordered by decreasing length, before the
      first element that is not longer than it. */
  function InsertByLength(x: string, s: seq<string>): (r: seq<string>)
    requires LengthNonIncreasing(s)
    ensures multiset(r) == multiset(s) + multiset{x}
    ensures |r| == |s| + 1 && (r[0] == x || (|s| > 0 && r[0] == s[0]))
    ensures LengthNonIncreasing(r)
  {
    if |s| == 0 || |s[0]| <= |x| then
      ConsNonIncreasing(x, s);
      [x] + s
    else
      assert s == [s[0]] + s[1..];
      var rest := InsertByLength(x, s[1..]);
      ConsNonIncreasing(s[0], rest);
      [s[0]] + rest
  }

  /** sort.Slice with the comparison len(a) > len(b): the same strings,
      longest first. sort.Slice is not stable, and which order it leaves
      strings of equal length in is not part of this contract. */
  function SortByLength(s: seq<string>): (r: seq<string>)
    ensures multiset(r) == multiset(s)
    ensures LengthNonIncreasing(r)
  {
    if |s| == 0 then []
    else
      assert s == [s[0]] + s[1..];
      InsertByLength(s[0], SortByLength(s[1..]))
  }

  /** Some string of `existing` contains `s`. */
  predicate ContainedInAny(s: string, existing: seq<string>)
  {
    exists i :: 0 <= i < |existing| && Contains(existing[i], s)
  }

  /** isSubsetOfAnyExisting: scans `existing` for a string containing `s`. */
  method IsSubsetOfAnyExisting(s: string, existing: seq<string>) returns (b: bool)
    ensures b <==> ContainedInAny(s, existing)
  {
    for i := 0 to |existing|
      invariant forall k :: 0 <= k < i ==> !Contains(existing[k], s)
    {
      if Contains(existing[i], s) {
        return true;
      }
    }
    return false;
  }

  /** The strings of `s`, in order, that no earlier string of `s` contains. */
  function Survivors(s: seq<string>): seq<string>
  {
    if |s| == 0 then []
    else
      Survivors(s[..|s| - 1]) +
      (if ContainedInAny(s[|s| - 1], s[..|s| - 1]) then [] else [s[|s| - 1]])
  }

  /** The second loop of findCommonSubstrings: keeps each candidate that no
      earlier candidate contains. */
  method RemoveContained(candidates: seq<string>) returns (nonOverlapping: seq<string>)
    ensures nonOverlapping == Survivors(candidates)
  {
    nonOverlapping := [];
    for i := 0 to |candidates|
      invariant nonOverlapping == Survivors(candidates[..i])
    {
      var s := candidates[i];
      var existing := candidates[..i];
      var contained := IsSubsetOfAnyExisting(s, existing);
      assert candidates[..i + 1][..i] == existing;
      if !contained {
        nonOverlapping := nonOverlapping + [s];
      }
    }
    assert candidates[..|candidates|] == candidates;
  }

  /** Every survivor is one of the strings. */
  lemma {:induction false} SurvivorsSubset(s: seq<string>)
    ensures forall k :: 0 <= k < |Survivors(s)| ==> Survivors(s)[k] in s
  {
    if |s| > 0 {
      var init := s[..|s| - 1];
      SurvivorsSubset(init);
      forall k | 0 <= k < |Survivors(s)|
        ensures Survivors(s)[k] in s
      {
        if k < |Survivors(init)| {
          assert Survivors(s)[k] in init;
        }
      }
    }
  }

  /** Every string is contained in some survivor: dropping a string that an
      earlier one contains loses nothing. */
  lemma {:induction false} SurvivorsCover(s: seq<string>)
    ensures forall k :: 0 <= k < |s| ==> ContainedInAny(s[k], Survivors(s))
  {
    if |s| > 0 {
      var init := s[..|s| - 1];
      var last := s[|s| - 1];
      SurvivorsCover(init);
      forall k | 0 <= k < |s|
        ensures ContainedInAny(s[k], Survivors(s))
      {
        if k < |s| - 1 {
          assert s[k] == init[k];
          var m :| 0 <= m < |Survivors(init)| && Contains(Survivors(init)[m], s[k]);
          assert Survivors(s)[m] == Survivors(init)[m];
        } else if ContainedInAny(last, init) {
          var j :| 0 <= j < |init| && Contains(init[j], last);
          var m :| 0 <= m < |Survivors(init)| && Contains(Survivors(init)[m], init[j]);
          ContainsTransitive(Survivors(init)[m], init[j], last);
          assert Survivors(s)[m] == Survivors(init)[m];
        } else {
          ContainsSelf(last);
          assert Survivors(s)[|Survivors(s)| - 1] == last;
        }
      }
    }
  }

  /** The filter read the other way: a string is dropped when a string
      already kept contains it. */
  function Reduce(s: seq<string>): seq<string>
  {
    if |s| == 0 then []
    else
      var kept := Reduce(s[..|s| - 1]);
      kept + (if ContainedInAny(s[|s| - 1], kept) then [] else [s[|s| - 1]])
  }

  /** Testing a candidate against every earlier candidate, as the source
      does, drops exactly what testing it against the candidates kept so
      far would drop. */
  lemma {:induction false} SurvivorsIsReduce(s: seq<string>)
    ensures Survivors(s) == Reduce(s)
  {
    if |s| > 0 {
      var init := s[..|s| - 1];
      var last := s[|s| - 1];
      SurvivorsIsReduce(init);
      SurvivorsSubset(init);
      SurvivorsCover(init);
      var kept := Survivors(init);
      if ContainedInAny(last, init) {
        var j :| 0 <= j < |init| && Contains(init[j], last);
        var m :| 0 <= m < |kept| && Contains(kept[m], init[j]);
        ContainsTransitive(kept[m], init[j], last);
      }
      if ContainedInAny(last, kept) {
        var m :| 0 <= m < |kept| && Contains(kept[m], last);
        assert kept[m] in init;
        var j :| 0 <= j < |init| && init[j] == kept[m];
      }
    }
  }

  /** No string of `r` contains another one of `r`. */
  predicate NoneContainsAnother(r: seq<string>)
  {
    forall i, j :: 0 <= i < |r| && 0 <= j < |r| && i != j ==> !Contains(r[i], r[j])
  }

  /** On strings ordered longest first, the survivors stay ordered and none
      of them contains another. */
  lemma {:induction false} SurvivorsOfSorted(s: seq<string>)
    requires LengthNonIncreasing(s)
    ensures LengthNonIncreasing(Survivors(s))
    ensures NoneContainsAnother(Survivors(s))
  {
    if |s| > 0 {
      var init := s[..|s| - 1];
      var last := s[|s| - 1];
      assert LengthNonIncreasing(init) by {
        forall i, j | 0 <= i < j < |init|
          ensures |init[i]| >= |init[j]|
        {
          assert init[i] == s[i] && init[j] == s[j];
        }
      }
      SurvivorsOfSorted(init);
      if !ContainedInAny(last, init) {
        assert s == init + [last];
        SurvivorBesideKept(s, init, last);
        AppendSurvivor(Survivors(init), last);
      }
    }
  }

  /** A last string that no earlier one contains is no longer than, and
      neither contains nor lies in, any string kept before it. */
  lemma SurvivorBesideKept(s: seq<string>, init: seq<string>, last: string)
    requires LengthNonIncreasing(s) && s == init + [last]
    requires !ContainedInAny(last, init)
    ensures forall i :: 0 <= i < |Survivors(init)| ==>
      |Survivors(init)[i]| >= |last| && !Contains(Survivors(init)[i], last) &&
      !Contains(last, Survivors(init)[i])
  {
    SurvivorsSubset(init);
    var kept := Survivors(init);
    forall i | 0 <= i < |kept|
      ensures |kept[i]| >= |last| && !Contains(kept[i], last) && !Contains(last, kept[i])
    {
      assert kept[i] in init;
      var j :| 0 <= j < |init| && init[j] == kept[i];
      assert s[j] == kept[i] && s[|s| - 1] == last;
      assert |s[j]| >= |s[|s| - 1]|;
      if Contains(last, kept[i]) {
        ContainsLength(last, kept[i]);
      }
    }
  }

  /** Appending a string beside which every kept string stands keeps the
      order and the absence of containment. */
  lemma AppendSurvivor(kept: seq<string>, last: string)
    requires LengthNonIncreasing(kept) && NoneContainsAnother(kept)
    requires forall i :: 0 <= i < |kept| ==>
      |kept[i]| >= |last| && !Contains(kept[i], last) && !Contains(last, kept[i])
    ensures LengthNonIncreasing(kept + [last])
    ensures NoneContainsAnother(kept + [last])
  {
    var r := kept + [last];
    forall i, j | 0 <= i < |r| && 0 <= j < |r| && i != j
      ensures !Contains(r[i], r[j])
    {
      if i < |kept| && j < |kept| {
        assert r[i] == kept[i] && r[j] == kept[j];
      }
    }
  }

  /** All candidates of the two texts. */
  ghost function Candidates(test: Test, text1: string, text2: string, minLen: int): iset<string>
  {
    iset s | IsCandidate(test, text1, text2, minLen, s)
  }

  /** `r` reduces the set `cands`: every string of r is in cands, every
      string of cands lies inside some string of r, the strings come longest
      first, and none of them contains another. */
  ghost predicate IsReductionOf(cands: iset<string>, r: seq<string>)
  {
    (forall k :: 0 <= k < |r| ==> r[k] in cands) &&
    (forall s {:trigger ContainedInAny(s, r)} :: s in cands ==> ContainedInAny(s, r)) &&
    LengthNonIncreasing(r) &&
    NoneContainsAnother(r)
  }

  /** What findCommonSubstrings promises about its result `r`: it reduces
      the candidates of the two texts under `test`. */
  ghost predicate IsCommonSubstringsResult(test: Test, text1: string, text2: string, minLen: int, r: seq<string>)
  {
    IsReductionOf(Candidates(test, text1, text2, minLen), r)
  }

  /** Filtering a longest-first listing of a set reduces the set. */
  lemma SurvivorsReduce(cands: iset<string>, sorted: seq<string>)
    requires forall k :: 0 <= k < |sorted| ==> sorted[k] in cands
    requires forall s :: s in cands ==> s in sorted
    requires LengthNonIncreasing(sorted)
    ensures IsReductionOf(cands, Survivors(sorted))
  {
    var r := Survivors(sorted);
    SurvivorsSubset(sorted);
    forall k | 0 <= k < |r|
      ensures r[k] in cands
    {
      var j :| 0 <= j < |sorted| && sorted[j] == r[k];
    }
    SurvivorsCover(sorted);
    forall s | s in cands
      ensures ContainedInAny(s, r)
    {
      var k :| 0 <= k < |sorted| && sorted[k] == s;
      assert ContainedInAny(sorted[k], r);
    }
    SurvivorsOfSorted(sorted);
  }

  /** The filtered, sorted candidates of a suffix array of the combined
      text meet the promise. */
  lemma FilteredCandidatesAreResult(test: Test, text1: string, text2: string, minLen: int, sa: seq<int>,
                                    sorted: seq<string>)
    requires IsSuffixArray(Combined(text1, text2), sa)
    requires OffsetsInRange(sa, |Combined(text1, text2)|)
    requires multiset(sorted) == multiset(RankCandidates(test, Combined(text1, text2), |text1|, minLen, sa, |sa|))
    requires LengthNonIncreasing(sorted)
    ensures IsCommonSubstringsResult(test, text1, text2, minLen, Survivors(sorted))
  {
    var c := Combined(text1, text2);
    var cands := RankCandidates(test, c, |text1|, minLen, sa, |sa|);
    var all := Candidates(test, text1, text2, minLen);
    forall k | 0 <= k < |sorted|
      ensures sorted[k] in all
    {
      assert sorted[k] in multiset(sorted);
      assert sorted[k] in cands;
      CandidatesAreExactly(test, text1, text2, minLen, sa, sorted[k]);
    }
    forall s | s in all
      ensures s in sorted
    {
      CandidatesAreExactly(test, text1, text2, minLen, sa, s);
      assert s in multiset(cands);
    }
    SurvivorsReduce(all, sorted);
  }

  /** findCommonSubstrings, with the candidate test `test`; the source is
      `AsWritten`. The result is the candidates longer than minLen that no
      longer one contains, longest first. */
  method FindCommonSubstrings(test: Test, text1: string, text2: string, minLen: int)
    returns (nonOverlapping: seq<string>)
    ensures IsCommonSubstringsResult(test, text1, text2, minLen, nonOverlapping)
  {
    var textCombined := Combined(text1, text2);
    var sa := SuffixArray(textCombined);
    var lcp := Kasai(textCombined, sa);
    var candidates := CollectCandidates(test, textCombined, |text1|, minLen, sa, lcp);
    candidates := SortByLength(candidates);
    nonOverlapping := RemoveContained(candidates);
    FilteredCandidatesAreResult(test, text1, text2, minLen, sa, candidates);
  }

  /** Two reductions of the same set hold the same strings. */
  lemma ReductionsAgree(cands: iset<string>, r1: seq<string>, r2: seq<string>)
    requires IsReductionOf(cands, r1) && IsReductionOf(cands, r2)
    ensures forall x :: x in r1 <==> x in r2
  {
    forall x | x in r1
      ensures x in r2
    {
      ReductionInOther(cands, r1, r2, x);
    }
    forall x | x in r2
      ensures x in r1
    {
      ReductionInOther(cands, r2, r1, x);
    }
  }

  lemma ReductionInOther(cands: iset<string>, r1: seq<string>, r2: seq<string>, x: string)
    requires IsReductionOf(cands, r1) && IsReductionOf(cands, r2)
    requires x in r1
    ensures x in r2
  {
    var i :| 0 <= i < |r1| && r1[i] == x;
    assert ContainedInAny(x, r2);
    var j :| 0 <= j < |r2| && Contains(r2[j], x);
    var y := r2[j];
    assert ContainedInAny(y, r1);
    var i2 :| 0 <= i2 < |r1| && Contains(r1[i2], y);
    ContainsTransitive(r1[i2], y, x);
    OnlySelfContains(r1, i, i2);
    MutualContainment(x, y);
  }

  /** Every string of a result is longer than minLen and occurs in the
      first text and in the second text preceded by one separator byte;
      under the corrected test every string is a common substring of the
      two texts. */
  lemma ResultsAreCommon(test: Test, text1: string, text2: string, minLen: int, r: seq<string>)
    requires IsCommonSubstringsResult(test, text1, text2, minLen, r)
    ensures forall k :: 0 <= k < |r| ==>
      |r[k]| > minLen && Contains(text1, r[k]) && Contains("|" + text2, r[k])
    ensures test == Corrected ==> forall k :: 0 <= k < |r| ==> Contains(text2, r[k])
  {
    forall k | 0 <= k < |r|
      ensures |r[k]| > minLen && Contains(text1, r[k]) && Contains("|" + text2, r[k])
      ensures test == Corrected ==> Contains(text2, r[k])
    {
      CandidateProperties(test, text1, text2, minLen, r[k]);
    }
  }

  /** Any two strings meeting the promise hold the same strings: the result
      does not depend on how sorting orders strings of equal length. */
  lemma ResultsAgree(test: Test, text1: string, text2: string, minLen: int, r1: seq<string>, r2: seq<string>)
    requires IsCommonSubstringsResult(test, text1, text2, minLen, r1)
    requires IsCommonSubstringsResult(test, text1, text2, minLen, r2)
    ensures forall x :: x in r1 <==> x in r2
  {
    ReductionsAgree(Candidates(test, text1, text2, minLen), r1, r2);
  }

  /** In a sequence where no string contains another, the only string
      containing r[i] is r[i] itself. */
  lemma OnlySelfContains(r: seq<string>, i: int, k: int)
    requires NoneContainsAnother(r)
    requires 0 <= i < |r| && 0 <= k < |r| && Contains(r[k], r[i])
    ensures k == i
  {
  }

  /** The offsets of "abcde||bcbcd" in suffix order. */
  lemma AbcdeOffsets()
    ensures IsPermutationOfOffsets([0, 7, 9, 1, 8, 10, 2, 11, 3, 4, 6, 5], 12)
  {
    var sa, rank := [0, 7, 9, 1, 8, 10, 2, 11, 3, 4, 6, 5], [0, 3, 6, 8, 9, 11, 10, 1, 4, 2, 5, 7];
    forall r | 0 <= r < 12
      ensures 0 <= sa[r] < 12 && rank[sa[r]] == r
    {
    }
    forall p | 0 <= p < 12
      ensures p in sa
    {
      assert p == sa[rank[p]];
    }
  }

  lemma AbcdeOrderedA()
    ensures var c, sa := "abcde||bcbcd", [0, 7, 9, 1, 8, 10, 2, 11, 3, 4, 6, 5];
      forall r :: 0 < r < 3 ==> LexLess(c[sa[r - 1]..], c[sa[r]..])
  {
    var c := "abcde||bcbcd";
    assert c[0..] == "abcde||bcbcd" && c[7..] == "bcbcd" && c[9..] == "bcd";
    assert LexLess("bcbcd", "bcd");
  }

  lemma AbcdeOrderedB()
    ensures var c, sa := "abcde||bcbcd", [0, 7, 9, 1, 8, 10, 2, 11, 3, 4, 6, 5];
      forall r :: 3 <= r < 6 ==> LexLess(c[sa[r - 1]..], c[sa[r]..])
  {
    var c := "abcde||bcbcd";
    assert c[9..] == "bcd" && c[1..] == "bcde||bcbcd" && c[8..] == "cbcd" && c[10..] == "cd";
    assert LexLess("bcd", "bcde||bcbcd");
    assert LexLess("cbcd", "cd");
  }

  lemma AbcdeOrderedC()
    ensures var c, sa := "abcde||bcbcd", [0, 7, 9, 1, 8, 10, 2, 11, 3, 4, 6, 5];
      forall r :: 6 <= r < 9 ==> LexLess(c[sa[r - 1]..], c[sa[r]..])
  {
    var c := "abcde||bcbcd";
    assert c[10..] == "cd" && c[2..] == "cde||bcbcd" && c[11..] == "d" && c[3..] == "de||bcbcd";
    assert LexLess("cd", "cde||bcbcd");
    assert LexLess("d", "de||bcbcd");
  }

  lemma AbcdeOrderedD()
    ensures var c, sa := "abcde||bcbcd", [0, 7, 9, 1, 8, 10, 2, 11, 3, 4, 6, 5];
      forall r :: 9 <= r < 12 ==> LexLess(c[sa[r - 1]..], c[sa[r]..])
  {
    var c := "abcde||bcbcd";
    assert c[3..] == "de||bcbcd" && c[4..] == "e||bcbcd" && c[6..] == "|bcbcd" && c[5..] == "||bcbcd";
    assert LexLess("|bcbcd", "||bcbcd");
  }

  /** The suffix array of the combined text of the example. */
  lemma AbcdeIsSuffixArray()
    ensures Combined("abcde", "bcbcd") == "abcde||bcbcd"
    ensures IsSuffixArray("abcde||bcbcd", [0, 7, 9, 1, 8, 10, 2, 11, 3, 4, 6, 5])
  {
    AbcdeOffsets();
    AbcdeOrderedA();
    AbcdeOrderedB();
    AbcdeOrderedC();
    AbcdeOrderedD();
  }

  /** The suffixes at ranks r - 1 and r share at most k bytes when they
      differ at byte k or one of them ends before it. */
  lemma RankLcpAtMost(c: string, sa: seq<int>, r: int, k: nat)
    requires OffsetsInRange(sa, |c|) && 0 < r < |sa|
    requires sa[r - 1] + k >= |c| || sa[r] + k >= |c| || c[sa[r - 1] + k] != c[sa[r] + k]
    ensures RankLcp(c, sa, r) <= k
  {
    var a, b := c[sa[r - 1]..], c[sa[r]..];
    if sa[r - 1] + k < |c| && sa[r] + k < |c| {
      CommonPrefixBound(a, b, k + 1);
      assert a[..k + 1][k] != b[..k + 1][k];
    }
  }

  /** The suffixes at ranks r - 1 and r share at least k bytes when their
      first k bytes agree. */
  lemma RankLcpAtLeast(c: string, sa: seq<int>, r: int, k: nat)
    requires OffsetsInRange(sa, |c|) && 0 < r < |sa|
    requires sa[r - 1] + k <= |c| && sa[r] + k <= |c|
    requires c[sa[r - 1]..sa[r - 1] + k] == c[sa[r]..sa[r] + k]
    ensures RankLcp(c, sa, r) >= k
  {
    var a, b := c[sa[r - 1]..], c[sa[r]..];
    assert a[..k] == c[sa[r - 1]..sa[r - 1] + k] && b[..k] == c[sa[r]..sa[r] + k];
    CommonPrefixBound(a, b, k);
  }

  /** Only rank 3 of the example shares more than two bytes with its
      predecessor: "bcd" and "bcde||bcbcd" share three. */
  lemma AbcdeRankLcps()
    ensures var c, sa := "abcde||bcbcd", [0, 7, 9, 1, 8, 10, 2, 11, 3, 4, 6, 5];
      OffsetsInRange(sa, |c|) &&
      (forall r :: 0 < r < 12 && r != 3 ==> RankLcp(c, sa, r) <= 2) &&
      RankLcp(c, sa, 3) == 3
  {
    var c, sa := "abcde||bcbcd", [0, 7, 9, 1, 8, 10, 2, 11, 3, 4, 6, 5];
    assert OffsetsInRange(sa, |c|);
    forall r | 0 < r < 12 && r != 3
      ensures RankLcp(c, sa, r) <= 2
    {
      AbcdeRankLcpShort(r);
    }
    AbcdeRankLcpThree();
  }

  lemma AbcdeRankLcpShort(r: int)
    requires 0 < r < 12 && r != 3
    ensures OffsetsInRange([0, 7, 9, 1, 8, 10, 2, 11, 3, 4, 6, 5], 12)
    ensures RankLcp("abcde||bcbcd", [0, 7, 9, 1, 8, 10, 2, 11, 3, 4, 6, 5], r) <= 2
  {
    var c, sa := "abcde||bcbcd", [0, 7, 9, 1, 8, 10, 2, 11, 3, 4, 6, 5];
    assert OffsetsInRange(sa, |c|);
    if r < 6 {
      AbcdeRankLcpShortLow(r);
    } else {
      AbcdeRankLcpShortHigh(r);
    }
  }

  lemma AbcdeRankLcpShortLow(r: int)
    requires 0 < r < 6 && r != 3
    requires OffsetsInRange([0, 7, 9, 1, 8, 10, 2, 11, 3, 4, 6, 5], 12)
    ensures RankLcp("abcde||bcbcd", [0, 7, 9, 1, 8, 10, 2, 11, 3, 4, 6, 5], r) <= 2
  {
    RankLcpAtMost("abcde||bcbcd", [0, 7, 9, 1, 8, 10, 2, 11, 3, 4, 6, 5], r, 2);
  }

  lemma AbcdeRankLcpShortHigh(r: int)
    requires 6 <= r < 12
    requires OffsetsInRange([0, 7, 9, 1, 8, 10, 2, 11, 3, 4, 6, 5], 12)
    ensures RankLcp("abcde||bcbcd", [0, 7, 9, 1, 8, 10, 2, 11, 3, 4, 6, 5], r) <= 2
  {
    if r == 9 {
      RankLcpAtMost("abcde||bcbcd", [0, 7, 9, 1, 8, 10, 2, 11, 3, 4, 6, 5], r, 0);
    } else {
      RankLcpAtMost("abcde||bcbcd", [0, 7, 9, 1, 8, 10, 2, 11, 3, 4, 6, 5], r, 2);
    }
  }

  lemma AbcdeRankLcpThree()
    ensures OffsetsInRange([0, 7, 9, 1, 8, 10, 2, 11, 3, 4, 6, 5], 12)
    ensures RankLcp("abcde||bcbcd", [0, 7, 9, 1, 8, 10, 2, 11, 3, 4, 6, 5], 3) == 3
  {
    var c, sa := "abcde||bcbcd", [0, 7, 9, 1, 8, 10, 2, 11, 3, 4, 6, 5];
    assert OffsetsInRange(sa, |c|);
    assert c[9..12] == "bcd" == c[1..4];
    RankLcpAtLeast(c, sa, 3, 3);
    RankLcpAtMost(c, sa, 3, 3);
  }

  /** Rank 3 of the example passes the test with minLen 2 and yields
      "bcd". */
  lemma AbcdeRankThree(test: Test)
    ensures OffsetsInRange([0, 7, 9, 1, 8, 10, 2, 11, 3, 4, 6, 5], 12)
    ensures RankMatch("abcde||bcbcd", [0, 7, 9, 1, 8, 10, 2, 11, 3, 4, 6, 5], 3) == "bcd"
    ensures RankYields(test, "abcde||bcbcd", 5, 2, [0, 7, 9, 1, 8, 10, 2, 11, 3, 4, 6, 5], 3, "bcd")
  {
    var c, sa := "abcde||bcbcd", [0, 7, 9, 1, 8, 10, 2, 11, 3, 4, 6, 5];
    AbcdeRankLcpThree();
    assert RankMatch(c, sa, 3) == c[9..12] == "bcd";
    assert Accepts(test, 5, 2, 9, 1, 3);
  }

  /** No other rank of the example passes the test with minLen 2. */
  lemma AbcdeOtherRanks(test: Test, r: int, s: string)
    requires OffsetsInRange([0, 7, 9, 1, 8, 10, 2, 11, 3, 4, 6, 5], 12) && 0 < r < 12 && r != 3
    ensures !RankYields(test, "abcde||bcbcd", 5, 2, [0, 7, 9, 1, 8, 10, 2, 11, 3, 4, 6, 5], r, s)
  {
    AbcdeRankLcpShort(r);
  }

  /** The only candidate of the example with minLen 2 is "bcd". */
  lemma AbcdeCandidates(test: Test, s: string)
    ensures IsCandidate(test, "abcde", "bcbcd", 2, s) <==> s == "bcd"
  {
    var c, sa := "abcde||bcbcd", [0, 7, 9, 1, 8, 10, 2, 11, 3, 4, 6, 5];
    AbcdeIsSuffixArray();
    CandidatesAreExactly(test, "abcde", "bcbcd", 2, sa, s);
    RankCandidatesMembers(test, c, 5, 2, sa, 12, s);
    if s in RankCandidates(test, c, 5, 2, sa, 12) {
      var r :| 0 < r < 12 && RankYields(test, c, 5, 2, sa, r, s);
      if r != 3 {
        AbcdeOtherRanks(test, r, s);
      }
      AbcdeRankThree(test);
    }
    if s == "bcd" {
      AbcdeRankThree(test);
    }
  }

  /** The only reduction of a one-string set is that string alone. */
  lemma SingleReduction(x: string, r: seq<string>)
    requires IsReductionOf(iset{x}, r)
    ensures r == [x]
  {
    ContainsSelf(x);
    assert ContainedInAny(x, r);
    AllEqualAtMostOne(r, x);
  }

  /** A sequence of copies of one string in which no string contains
      another has at most one element. */
  lemma AllEqualAtMostOne(r: seq<string>, x: string)
    requires NoneContainsAnother(r)
    requires forall k :: 0 <= k < |r| ==> r[k] == x
    ensures |r| <= 1
  {
    if |r| >= 2 {
      CopiesContainEachOther(r, x);
    }
  }

  lemma CopiesContainEachOther(r: seq<string>, x: string)
    requires |r| >= 2 && forall k :: 0 <= k < |r| ==> r[k] == x
    ensures Contains(r[0], r[1])
  {
    ContainsSelf(x);
  }

  /** The example in the comment of findCommonSubstrings: the common
      substrings of "abcde" and "bcbcd" longer than two bytes, with the
      ones a longer one contains removed, are exactly ["bcd"]. */
  lemma AbcdeExample(test: Test, r: seq<string>)
    requires IsCommonSubstringsResult(test, "abcde", "bcbcd", 2, r)
    ensures r == ["bcd"]
  {
    forall s
      ensures s in Candidates(test, "abcde", "bcbcd", 2) <==> s in iset{"bcd"}
    {
      AbcdeCandidates(test, s);
    }
    assert Candidates(test, "abcde", "bcbcd", 2) == iset{"bcd"};
    SingleReduction("bcd", r);
  }

  /** A suffix array of "|x||x", the combined text of "|x" and "x": the
      suffixes sort as x, x||x, |x, |x||x, ||x ('x' sorts before '|'). */
  lemma SeparatorIsSuffixArray()
    ensures Combined("|x", "x") == "|x||x"
    ensures IsSuffixArray("|x||x", [4, 1, 3, 0, 2])
  {
    SeparatorOffsets();
    SeparatorOrdered();
  }

  lemma SeparatorOffsets()
    ensures IsPermutationOfOffsets([4, 1, 3, 0, 2], 5)
  {
    var sa, rank := [4, 1, 3, 0, 2], [3, 1, 4, 2, 0];
    forall r | 0 <= r < 5
      ensures 0 <= sa[r] < 5 && rank[sa[r]] == r
    {
    }
    forall p | 0 <= p < 5
      ensures p in sa
    {
      assert p == sa[rank[p]];
    }
  }

  lemma SeparatorOrdered()
    ensures var c, sa := "|x||x", [4, 1, 3, 0, 2];
      forall r :: 0 < r < 5 ==> LexLess(c[sa[r - 1]..], c[sa[r]..])
  {
    var c := "|x||x";
    assert c[4..] == "x" && c[1..] == "x||x" && c[3..] == "|x" && c[0..] == "|x||x" && c[2..] == "||x";
    assert LexLess("x", "x||x") && LexLess("|x", "|x||x") && LexLess("|x||x", "||x");
  }

  /** The separator case of the test: for the texts "|x" and "x" with
      minimum length 1, the suffixes "|x" and "|x||x" of the combined text
      are neighbours in its only suffix array and share two bytes. The
      source's test lets them through and the loop appends "|x", which does
      not occur in the second text; the corrected test rejects them. */
  lemma AsWrittenKeepsSeparator(sa: seq<int>)
    requires IsSuffixArray(Combined("|x", "x"), sa)
    ensures sa == [4, 1, 3, 0, 2] && OffsetsInRange(sa, 5)
    ensures RankLcp("|x||x", sa, 3) == 2 && RankMatch("|x||x", sa, 3) == "|x"
    ensures RankYields(AsWritten, "|x||x", 2, 1, sa, 3, "|x")
    ensures !Contains("x", RankMatch("|x||x", sa, 3))
    ensures !Accepts(Corrected, 2, 1, sa[2], sa[3], RankLcp("|x||x", sa, 3))
  {
    var c := "|x||x";
    SeparatorIsSuffixArray();
    SuffixArrayUnique(c, sa, [4, 1, 3, 0, 2]);
    assert OffsetsInRange(sa, 5);
    assert c[3..5] == "|x" == c[0..2];
    RankLcpAtLeast(c, sa, 3, 2);
    RankLcpAtMost(c, sa, 3, 2);
    assert RankMatch(c, sa, 3) == c[3..5];
    LongerNotContained("x", "|x");
  }

  /** Every other rank of "|x||x" shares at most one byte with its
      predecessor. */
  lemma SeparatorOtherRanks(test: Test, r: int, s: string)
    requires OffsetsInRange([4, 1, 3, 0, 2], 5) && 0 < r < 5 && r != 3
    ensures RankLcp("|x||x", [4, 1, 3, 0, 2], r) <= 1
    ensures !RankYields(test, "|x||x", 2, 1, [4, 1, 3, 0, 2], r, s)
  {
    RankLcpAtMost("|x||x", [4, 1, 3, 0, 2], r, 1);
  }

  /** Under the source's test the only candidate of "|x" and "x" with
      minimum length 1 is "|x". */
  lemma SeparatorCandidates(s: string)
    ensures IsCandidate(AsWritten, "|x", "x", 1, s) <==> s == "|x"
  {
    var c, sa := "|x||x", [4, 1, 3, 0, 2];
    SeparatorIsSuffixArray();
    AsWrittenKeepsSeparator(sa);
    CandidatesAreExactly(AsWritten, "|x", "x", 1, sa, s);
    RankCandidatesMembers(AsWritten, c, 2, 1, sa, 5, s);
    if s in RankCandidates(AsWritten, c, 2, 1, sa, 5) {
      var r :| 0 < r < 5 && RankYields(AsWritten, c, 2, 1, sa, r, s);
      if r != 3 {
        SeparatorOtherRanks(AsWritten, r, s);
      }
    }
  }

  /** What findCommonSubstrings returns, as written, for "|x" and "x" with
      minimum length 1: the single string "|x", which the second text does
      not contain. */
  lemma AsWrittenSeparatorResult(r: seq<string>)
    requires IsCommonSubstringsResult(AsWritten, "|x", "x", 1, r)
    ensures r == ["|x"]
    ensures !Contains("x", r[0])
  {
    forall s
      ensures s in Candidates(AsWritten, "|x", "x", 1) <==> s in iset{"|x"}
    {
      SeparatorCandidates(s);
    }
    assert Candidates(AsWritten, "|x", "x", 1) == iset{"|x"};
    SingleReduction("|x", r);
    LongerNotContained("x", "|x");
  }

  /** With the corrected test the same texts have no common substring
      longer than one byte: the result is empty. */
  lemma CorrectedDropsSeparator(r: seq<string>)
    requires IsCommonSubstringsResult(Corrected, "|x", "x", 1, r)
    ensures r == []
  {
    ResultsAreCommon(Corrected, "|x", "x", 1, r);
    if |r| > 0 {
      ContainsLength("x", r[0]);
    }
  }

  /** A suffix array of "abc||abc|d", the combined text of "abc" and
      "abc|d": the suffixes sort as abc|d, abc||abc|d, bc|d, bc||abc|d,
      c|d, c||abc|d, d, |abc|d, |d, ||abc|d. */
  lemma CrossingIsSuffixArray()
    ensures Combined("abc", "abc|d") == "abc||abc|d"
    ensures IsSuffixArray("abc||abc|d", [5, 0, 6, 1, 7, 2, 9, 4, 8, 3])
  {
    CrossingOffsets();
    CrossingOrderedLow();
    CrossingOrderedHigh();
  }

  lemma CrossingOffsets()
    ensures IsPermutationOfOffsets([5, 0, 6, 1, 7, 2, 9, 4, 8, 3], 10)
  {
    var sa, rank := [5, 0, 6, 1, 7, 2, 9, 4, 8, 3], [1, 3, 5, 9, 7, 0, 2, 4, 8, 6];
    forall r | 0 <= r < 10
      ensures 0 <= sa[r] < 10 && rank[sa[r]] == r
    {
    }
    forall p | 0 <= p < 10
      ensures p in sa
    {
      assert p == sa[rank[p]];
    }
  }

  lemma CrossingOrderedLow()
    ensures var c, sa := "abc||abc|d", [5, 0, 6, 1, 7, 2, 9, 4, 8, 3];
      forall r :: 0 < r < 5 ==> LexLess(c[sa[r - 1]..], c[sa[r]..])
  {
    var c := "abc||abc|d";
    assert c[5..] == "abc|d" && c[0..] == "abc||abc|d" && c[6..] == "bc|d";
    assert c[1..] == "bc||abc|d" && c[7..] == "c|d";
    assert LexLess("abc|d", "abc||abc|d");
    assert LexLess("bc|d", "bc||abc|d");
  }

  lemma CrossingOrderedHigh()
    ensures var c, sa := "abc||abc|d", [5, 0, 6, 1, 7, 2, 9, 4, 8, 3];
      forall r :: 5 <= r < 10 ==> LexLess(c[sa[r - 1]..], c[sa[r]..])
  {
    var c := "abc||abc|d";
    assert c[7..] == "c|d" && c[2..] == "c||abc|d" && c[9..] == "d";
    assert c[4..] == "|abc|d" && c[8..] == "|d" && c[3..] == "||abc|d";
    assert LexLess("c|d", "c||abc|d");
    assert LexLess("|abc|d", "|d");
    assert LexLess("|d", "||abc|d");
  }

  /** The two ranks of "abc||abc|d" whose suffixes share more than two bytes
      share a prefix that runs past the first text, so the test rejects
      them. */
  lemma CrossingRanksRejected(test: Test, r: int, s: string)
    requires OffsetsInRange([5, 0, 6, 1, 7, 2, 9, 4, 8, 3], 10) && (r == 1 || r == 3)
    ensures !RankYields(test, "abc||abc|d", 3, 2, [5, 0, 6, 1, 7, 2, 9, 4, 8, 3], r, s)
  {
    var c, sa := "abc||abc|d", [5, 0, 6, 1, 7, 2, 9, 4, 8, 3];
    if r == 1 {
      assert c[5..9] == "abc|" == c[0..4];
      RankLcpAtLeast(c, sa, 1, 4);
    } else {
      assert c[6..9] == "bc|" == c[1..4];
      RankLcpAtLeast(c, sa, 3, 3);
    }
  }

  /** Every other rank of "abc||abc|d" shares at most two bytes. */
  lemma CrossingOtherRanks(test: Test, r: int, s: string)
    requires OffsetsInRange([5, 0, 6, 1, 7, 2, 9, 4, 8, 3], 10) && 0 < r < 10 && r != 1 && r != 3
    ensures !RankYields(test, "abc||abc|d", 3, 2, [5, 0, 6, 1, 7, 2, 9, 4, 8, 3], r, s)
  {
    RankLcpAtMost("abc||abc|d", [5, 0, 6, 1, 7, 2, 9, 4, 8, 3], r, 2);
  }

  /** "abc" and "abc|d" with minimum length 2 have no candidate under
      either test. */
  lemma CrossingNoCandidate(test: Test, s: string)
    ensures !IsCandidate(test, "abc", "abc|d", 2, s)
  {
    var c, sa := "abc||abc|d", [5, 0, 6, 1, 7, 2, 9, 4, 8, 3];
    CrossingIsSuffixArray();
    CandidatesAreExactly(test, "abc", "abc|d", 2, sa, s);
    RankCandidatesMembers(test, c, 3, 2, sa, 10, s);
    if s in RankCandidates(test, c, 3, 2, sa, 10) {
      var r :| 0 < r < 10 && RankYields(test, c, 3, 2, sa, r, s);
      if r == 1 || r == 3 {
        CrossingRanksRejected(test, r, s);
      } else {
        CrossingOtherRanks(test, r, s);
      }
    }
  }

  /** findCommonSubstrings does not find every common substring longer
      than minLen: "abc" is three bytes long and occurs in both "abc" and
      "abc|d", yet with minimum length 2 the result is empty under either
      test. The suffixes that share "abc" share "abc|", which runs past the
      end of the first text, and the pair is rejected rather than cut back
      to "abc". */
  lemma CrossingMatchMissed(test: Test, r: seq<string>)
    requires IsCommonSubstringsResult(test, "abc", "abc|d", 2, r)
    ensures r == []
    ensures |"abc"| > 2 && Contains("abc", "abc") && Contains("abc|d", "abc")
  {
    if |r| > 0 {
      assert r[0] in Candidates(test, "abc", "abc|d", 2);
      CrossingNoCandidate(test, r[0]);
    }
    ContainsSelf("abc");
    ContainsAt("abc|d", "abc", 0);
  }
}
