/** Suffix arrays: the byte-lexicographic order on suffixes, the length of
    the common prefix of two strings, what it means for a sequence of
    offsets to be the suffix array of a text, and a construction. */
module SuffixArrays {

  /** Strict byte-lexicographic order: `a` is a proper prefix of `b`, or at
      the first position where they differ `a` has the smaller byte. */
  predicate LexLess(a: string, b: string)
  {
    if |a| == 0 then |b| > 0
    else |b| > 0 && (a[0] < b[0] || (a[0] == b[0] && LexLess(a[1..], b[1..])))
  }

  lemma {:induction false} LexLessIrreflexive(a: string)
    ensures !LexLess(a, a)
  {
    if |a| > 0 {
      LexLessIrreflexive(a[1..]);
    }
  }

  lemma {:induction false} LexLessTransitive(a: string, b: string, c: string)
    requires LexLess(a, b) && LexLess(b, c)
    ensures LexLess(a, c)
  {
    if |a| > 0 && a[0] == b[0] && b[0] == c[0] {
      LexLessTransitive(a[1..], b[1..], c[1..]);
    }
  }

  lemma LexLessAsymmetric(a: string, b: string)
    requires LexLess(a, b)
    ensures !LexLess(b, a)
  {
    if LexLess(b, a) {
      LexLessTransitive(a, b, a);
      LexLessIrreflexive(a);
    }
  }

  /** Any two different strings are ordered one way or the other. */
  lemma {:induction false} LexLessTotal(a: string, b: string)
    requires a != b
    ensures LexLess(a, b) || LexLess(b, a)
  {
    if |a| > 0 && |b| > 0 && a[0] == b[0] {
      assert a == [a[0]] + a[1..] && b == [b[0]] + b[1..];
      LexLessTotal(a[1..], b[1..]);
    }
  }

  /** Length of the longest common prefix of `a` and `b`. */
  function CommonPrefixLength(a: string, b: string): (h: nat)
    ensures h <= |a| && h <= |b|
  {
    if |a| > 0 && |b| > 0 && a[0] == b[0] then 1 + CommonPrefixLength(a[1..], b[1..]) else 0
  }

  /** The common prefix length is exactly the point where the strings
      stop agreeing: the first h bytes agree and the next ones differ. */
  lemma {:induction false} CommonPrefixLengthIsLongest(a: string, b: string)
    ensures var h := CommonPrefixLength(a, b);
      a[..h] == b[..h] && (h < |a| && h < |b| ==> a[h] != b[h])
  {
    if |a| > 0 && |b| > 0 && a[0] == b[0] {
      CommonPrefixLengthIsLongest(a[1..], b[1..]);
      var h := CommonPrefixLength(a, b);
      assert a[..h] == [a[0]] + a[1..][..h - 1];
      assert b[..h] == [b[0]] + b[1..][..h - 1];
    }
  }

  /** The first `k` bytes agree exactly when `k` is at most the common
      prefix length. */
  lemma CommonPrefixBound(a: string, b: string, k: nat)
    requires k <= |a| && k <= |b|
    ensures a[..k] == b[..k] <==> k <= CommonPrefixLength(a, b)
  {
    var h := CommonPrefixLength(a, b);
    CommonPrefixLengthIsLongest(a, b);
    if k > h {
      assert a[..k][h] != b[..k][h];
    }
    if k <= h {
      assert a[..k] == a[..h][..k];
      assert b[..k] == b[..h][..k];
    }
  }

  /** A match of `k` bytes that can be extended by one more equal byte is
      still within the common prefix. */
  lemma {:induction false} CommonPrefixExtends(a: string, b: string, k: nat)
    requires k <= CommonPrefixLength(a, b)
    requires k < |a| && k < |b| && a[k] == b[k]
    ensures k + 1 <= CommonPrefixLength(a, b)
  {
    if k > 0 {
      CommonPrefixExtends(a[1..], b[1..], k - 1);
    }
  }

  /** A match of `k` bytes that cannot be extended is the whole common
      prefix. */
  lemma {:induction false} CommonPrefixStops(a: string, b: string, k: nat)
    requires k <= CommonPrefixLength(a, b)
    requires k == |a| || k == |b| || a[k] != b[k]
    ensures k == CommonPrefixLength(a, b)
  {
    if k > 0 {
      CommonPrefixStops(a[1..], b[1..], k - 1);
    }
  }

  /** Between two strings in order, a string in between shares at least as
      long a prefix with the upper one as the lower one does. */
  lemma {:induction false} CommonPrefixSandwich(a: string, b: string, c: string)
    requires LexLess(a, b) && LexLess(b, c)
    ensures CommonPrefixLength(b, c) >= CommonPrefixLength(a, c)
  {
    if CommonPrefixLength(a, c) > 0 {
      assert a[0] == b[0] == c[0];
      CommonPrefixSandwich(a[1..], b[1..], c[1..]);
    }
  }

  /** `sa` holds every offset of a text of length `n` exactly once. */
  predicate IsPermutationOfOffsets(sa: seq<int>, n: nat)
  {
    |sa| == n &&
    (forall r :: 0 <= r < n ==> 0 <= sa[r] < n) &&
    (forall r, q :: 0 <= r < q < n ==> sa[r] != sa[q]) &&
    (forall p :: 0 <= p < n ==> p in sa)
  }

  /** `sa` is the suffix array of `t`: a permutation of the offsets of `t`
      whose consecutive suffixes are in strictly increasing order. */
  predicate IsSuffixArray(t: string, sa: seq<int>)
  {
    IsPermutationOfOffsets(sa, |t|) &&
    forall r :: 0 < r < |sa| ==> LexLess(t[sa[r - 1]..], t[sa[r]..])
  }

  /** Every pair of ranks, not only neighbours, is in suffix order. */
  ghost predicate SuffixesSorted(t: string, sa: seq<int>)
    requires forall r :: 0 <= r < |sa| ==> 0 <= sa[r] <= |t|
  {
    forall r, q :: 0 <= r < q < |sa| ==> LexLess(t[sa[r]..], t[sa[q]..])
  }

  lemma {:induction false} SuffixArrayIsSorted(t: string, sa: seq<int>)
    requires IsSuffixArray(t, sa)
    ensures SuffixesSorted(t, sa)
  {
    forall r, q | 0 <= r < q < |sa|
      ensures LexLess(t[sa[r]..], t[sa[q]..])
    {
      SortedSpan(t, sa, r, q);
    }
  }

  lemma {:induction false} SortedSpan(t: string, sa: seq<int>, r: nat, q: nat)
    requires IsSuffixArray(t, sa)
    requires r < q < |sa|
    ensures LexLess(t[sa[r]..], t[sa[q]..])
    decreases q - r
  {
    if r + 1 < q {
      SortedSpan(t, sa, r + 1, q);
      LexLessTransitive(t[sa[r]..], t[sa[r + 1]..], t[sa[q]..]);
    }
  }

  /** A suffix never sorts below one of lower or equal rank. */
  lemma NotBelow(t: string, sa: seq<int>, x: nat, y: nat)
    requires IsSuffixArray(t, sa)
    requires x <= y < |sa|
    ensures !LexLess(t[sa[y]..], t[sa[x]..])
  {
    if x == y {
      LexLessIrreflexive(t[sa[x]..]);
    } else {
      SortedSpan(t, sa, x, y);
      LexLessAsymmetric(t[sa[x]..], t[sa[y]..]);
    }
  }

  /** Rank order follows suffix order. */
  lemma RankOrder(t: string, sa: seq<int>, x: nat, y: nat)
    requires IsSuffixArray(t, sa)
    requires x < |sa| && y < |sa|
    requires LexLess(t[sa[x]..], t[sa[y]..])
    ensures x < y
  {
    if x == y {
      LexLessIrreflexive(t[sa[x]..]);
    } else if y < x {
      SortedSpan(t, sa, y, x);
      LexLessAsymmetric(t[sa[y]..], t[sa[x]..]);
    }
  }

  /** The smallest suffix comes first in every sorted sequence of offsets. */
  lemma SortedHeadsAgree(t: string, s1: seq<int>, s2: seq<int>)
    requires |s1| == |s2| > 0
    requires forall r :: 0 <= r < |s1| ==> 0 <= s1[r] <= |t| && 0 <= s2[r] <= |t|
    requires forall x :: x in s1 <==> x in s2
    requires SuffixesSorted(t, s1) && SuffixesSorted(t, s2)
    ensures s1[0] == s2[0]
  {
    var x, y := s1[0], s2[0];
    assert x in s2;
    var j :| 0 <= j < |s2| && s2[j] == x;
    assert y in s1;
    var k :| 0 <= k < |s1| && s1[k] == y;
    if j > 0 {
      assert LexLess(t[y..], t[x..]);
      if k == 0 {
        LexLessIrreflexive(t[x..]);
      } else {
        LexLessAsymmetric(t[x..], t[y..]);
      }
    }
  }

  /** In a sorted sequence of offsets the head does not occur again. */
  lemma SortedHeadUnrepeated(t: string, s: seq<int>, z: int)
    requires |s| > 0
    requires forall r :: 0 <= r < |s| ==> 0 <= s[r] <= |t|
    requires SuffixesSorted(t, s)
    requires z in s[1..]
    ensures z in s && z != s[0]
  {
    var m :| 1 <= m < |s| && s[m] == z;
    LexLessIrreflexive(t[s[0]..]);
  }

  lemma SortedTail(t: string, s: seq<int>)
    requires |s| > 0
    requires forall r :: 0 <= r < |s| ==> 0 <= s[r] <= |t|
    requires SuffixesSorted(t, s)
    ensures forall r :: 0 <= r < |s| - 1 ==> 0 <= s[1..][r] <= |t|
    ensures SuffixesSorted(t, s[1..])
  {
    forall r, q | 0 <= r < q < |s| - 1
      ensures LexLess(t[s[1..][r]..], t[s[1..][q]..])
    {
      assert s[1..][r] == s[r + 1] && s[1..][q] == s[q + 1];
    }
  }

  /** Two sequences of offsets holding the same offsets, each sorted by
      suffix, are equal. */
  lemma {:induction false} SortedOffsetsUnique(t: string, s1: seq<int>, s2: seq<int>)
    requires |s1| == |s2|
    requires forall r :: 0 <= r < |s1| ==> 0 <= s1[r] <= |t| && 0 <= s2[r] <= |t|
    requires forall x :: x in s1 <==> x in s2
    requires SuffixesSorted(t, s1) && SuffixesSorted(t, s2)
    ensures s1 == s2
  {
    if |s1| > 0 {
      SortedHeadsAgree(t, s1, s2);
      forall z
        ensures z in s1[1..] <==> z in s2[1..]
      {
        if z in s1[1..] {
          SortedHeadUnrepeated(t, s1, z);
          assert z in s2 && s2 == [s2[0]] + s2[1..];
        }
        if z in s2[1..] {
          SortedHeadUnrepeated(t, s2, z);
          assert z in s1 && s1 == [s1[0]] + s1[1..];
        }
      }
      SortedTail(t, s1);
      SortedTail(t, s2);
      SortedOffsetsUnique(t, s1[1..], s2[1..]);
      assert s1 == [s1[0]] + s1[1..] && s2 == [s2[0]] + s2[1..];
    }
  }

  /** A text has exactly one suffix array. */
  lemma SuffixArrayUnique(t: string, sa1: seq<int>, sa2: seq<int>)
    requires IsSuffixArray(t, sa1) && IsSuffixArray(t, sa2)
    ensures sa1 == sa2
  {
    SuffixArrayIsSorted(t, sa1);
    SuffixArrayIsSorted(t, sa2);
    SortedOffsetsUnique(t, sa1, sa2);
  }

  /** Suffixes at different offsets differ (they differ in length). */
  lemma DistinctSuffixes(t: string, x: int, y: int)
    requires 0 <= x <= |t| && 0 <= y <= |t| && x != y
    ensures LexLess(t[x..], t[y..]) || LexLess(t[y..], t[x..])
  {
    assert |t[x..]| != |t[y..]|;
    LexLessTotal(t[x..], t[y..]);
  }

  /** Inserting offset `p` between the suffixes smaller and larger than its
      own keeps the sequence sorted. */
  lemma InsertKeepsSorted(t: string, s: seq<int>, k: nat, p: int)
    requires k <= |s| && 0 <= p <= |t|
    requires forall r :: 0 <= r < |s| ==> 0 <= s[r] <= |t|
    requires SuffixesSorted(t, s)
    requires forall r :: 0 <= r < k ==> LexLess(t[s[r]..], t[p..])
    requires forall r :: k <= r < |s| ==> LexLess(t[p..], t[s[r]..])
    ensures var s' := s[..k] + [p] + s[k..];
      (forall r :: 0 <= r < |s'| ==> 0 <= s'[r] <= |t|) && SuffixesSorted(t, s')
  {
    var s' := s[..k] + [p] + s[k..];
    forall r, q | 0 <= r < q < |s'|
      ensures LexLess(t[s'[r]..], t[s'[q]..])
    {
      if r < k && q > k {
        assert s'[r] == s[r] && s'[q] == s[q - 1];
      } else if r > k {
        assert s'[r] == s[r - 1] && s'[q] == s[q - 1];
      }
    }
  }

  /** Once the search stops at `k`, every suffix from rank k on is larger
      than the one at `p`, which is not yet among them. */
  lemma LaterSuffixesGreater(t: string, s: seq<int>, k: nat, p: int)
    requires k <= |s| && 0 <= p <= |t|
    requires forall r :: 0 <= r < |s| ==> 0 <= s[r] < p
    requires SuffixesSorted(t, s)
    requires k < |s| ==> !LexLess(t[s[k]..], t[p..])
    ensures forall r :: k <= r < |s| ==> LexLess(t[p..], t[s[r]..])
  {
    forall r | k <= r < |s|
      ensures LexLess(t[p..], t[s[r]..])
    {
      DistinctSuffixes(t, s[k], p);
      if r > k {
        LexLessTransitive(t[p..], t[s[k]..], t[s[r]..]);
      }
    }
  }

  /** Inserting `p` keeps every element and adds `p`. */
  lemma InsertKeepsMembers(s: seq<int>, k: nat, p: int)
    requires k <= |s|
    ensures forall x :: x in s[..k] + [p] + s[k..] <==> x in s || x == p
  {
    assert s == s[..k] + s[k..];
  }

  /** Builds the suffix array of `text` by inserting each offset in turn at
      its place among the suffixes already sorted. */
  method SuffixArray(text: string) returns (sa: seq<int>)
    ensures IsSuffixArray(text, sa)
  {
    sa := [];
    var pos := 0;
    while pos < |text|
      invariant 0 <= pos <= |text|
      invariant |sa| == pos
      invariant forall r :: 0 <= r < |sa| ==> 0 <= sa[r] < pos
      invariant forall p :: 0 <= p < pos ==> p in sa
      invariant SuffixesSorted(text, sa)
    {
      var k := 0;
      while k < |sa| && LexLess(text[sa[k]..], text[pos..])
        invariant 0 <= k <= |sa|
        invariant forall r :: 0 <= r < k ==> LexLess(text[sa[r]..], text[pos..])
      {
        k := k + 1;
      }
      LaterSuffixesGreater(text, sa, k, pos);
      InsertKeepsSorted(text, sa, k, pos);
      InsertKeepsMembers(sa, k, pos);
      sa := sa[..k] + [pos] + sa[k..];
      pos := pos + 1;
    }
    forall r, q | 0 <= r < q < |sa|
      ensures sa[r] != sa[q]
    {
      LexLessIrreflexive(text[sa[r]..]);
    }
  }

  lemma BananaOffsets()
    ensures IsPermutationOfOffsets([6, 5, 3, 1, 0, 4, 2], 7)
  {
    var sa, rank := [6, 5, 3, 1, 0, 4, 2], [4, 3, 6, 2, 5, 1, 0];
    forall r | 0 <= r < 7
      ensures 0 <= sa[r] < 7 && rank[sa[r]] == r
    {
    }
    forall p | 0 <= p < 7
      ensures p in sa
    {
      assert p == sa[rank[p]];
    }
  }

  lemma BananaOrdered()
    ensures forall r :: 0 < r < 7 ==>
      LexLess("banana$"[[6, 5, 3, 1, 0, 4, 2][r - 1]..], "banana$"[[6, 5, 3, 1, 0, 4, 2][r]..])
  {
    var t := "banana$";
    assert t[6..] == "$" && t[5..] == "a$" && t[3..] == "ana$" && t[1..] == "anana$";
    assert t[0..] == "banana$" && t[4..] == "na$" && t[2..] == "nana$";
    assert LexLess("$", "na$");
    assert LexLess("a$", "ana$");
    assert LexLess("na$", "nana$");
    assert LexLess("ana$", "anana$");
  }

  /** [6, 5, 3, 1, 0, 4, 2] is a suffix array of "banana$". */
  lemma BananaIsSuffixArray()
    ensures IsSuffixArray("banana$", [6, 5, 3, 1, 0, 4, 2])
  {
    BananaOffsets();
    BananaOrdered();
  }

  /** The example of getSuffixArray's comment: "banana$" sorts as
      $, a$, ana$, anana$, banana$, na$, nana$, and nothing else is its
      suffix array. */
  lemma BananaSuffixArray(sa: seq<int>)
    requires IsSuffixArray("banana$", sa)
    ensures sa == [6, 5, 3, 1, 0, 4, 2]
  {
    BananaIsSuffixArray();
    SuffixArrayUnique("banana$", sa, [6, 5, 3, 1, 0, 4, 2]);
  }
}
