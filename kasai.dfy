/** The LCP array of a text and its suffix array, built with Kasai's
    algorithm (inverse suffix array plus a carried match length). */
module Lcp {
  import opened SuffixArrays

  /** Every offset lies inside the text. */
  predicate OffsetsInRange(sa: seq<int>, n: nat)
  {
    |sa| == n && forall r :: 0 <= r < n ==> 0 <= sa[r] < n
  }

  /** The length of the common prefix of the suffixes at ranks r-1 and r. */
  function RankLcp(t: string, sa: seq<int>, r: int): nat
    requires OffsetsInRange(sa, |t|) && 0 < r < |sa|
  {
    CommonPrefixLength(t[sa[r - 1]..], t[sa[r]..])
  }

  /** `lcp[r]` is the common prefix length of the suffixes at ranks r-1 and r;
      there is no predecessor at rank 0, where the entry is 0. */
  ghost predicate IsLcpArray(t: string, sa: seq<int>, lcp: seq<int>)
    requires OffsetsInRange(sa, |t|)
  {
    |lcp| == |sa| &&
    (|lcp| > 0 ==> lcp[0] == 0) &&
    forall r :: 0 < r < |lcp| ==> lcp[r] == RankLcp(t, sa, r)
  }

  /** Dropping the first byte of two ordered suffixes that share it keeps
      them in order and shortens their common prefix by one. */
  lemma SharedHeadShift(t: string, j: nat, i: nat)
    requires j < |t| && i < |t|
    requires LexLess(t[j..], t[i..]) && CommonPrefixLength(t[j..], t[i..]) >= 1
    ensures LexLess(t[j + 1..], t[i + 1..])
    ensures CommonPrefixLength(t[j + 1..], t[i + 1..]) == CommonPrefixLength(t[j..], t[i..]) - 1
  {
    assert t[j..][1..] == t[j + 1..] && t[i..][1..] == t[i + 1..];
  }

  /** The step that lets Kasai's algorithm carry its counter: if the suffix at
      offset i shares h >= 2 bytes with its predecessor, the suffix at i+1 has
      a predecessor too, and shares at least h-1 bytes with it. */
  lemma KasaiStep(t: string, sa: seq<int>, r: nat, r2: nat)
    requires IsSuffixArray(t, sa)
    requires 0 < r < |sa| && r2 < |sa| && sa[r2] == sa[r] + 1
    requires RankLcp(t, sa, r) >= 2
    ensures r2 > 0
    ensures RankLcp(t, sa, r2) >= RankLcp(t, sa, r) - 1
  {
    var i, j := sa[r], sa[r - 1];
    SharedHeadShift(t, j, i);
    assert j + 1 in sa;
    var r1 :| 0 <= r1 < |sa| && sa[r1] == j + 1;
    RankOrder(t, sa, r1, r2);
    PredecessorSharesMost(t, sa, r1, r2);
  }

  /** Among the suffixes ranked below the one at rank q, its immediate
      predecessor shares the longest prefix with it. */
  lemma PredecessorSharesMost(t: string, sa: seq<int>, x: nat, q: nat)
    requires IsSuffixArray(t, sa)
    requires x < q < |sa|
    ensures OffsetsInRange(sa, |t|)
    ensures RankLcp(t, sa, q) >= CommonPrefixLength(t[sa[x]..], t[sa[q]..])
  {
    if x < q - 1 {
      SortedSpan(t, sa, x, q - 1);
      CommonPrefixSandwich(t[sa[x]..], t[sa[q - 1]..], t[sa[q]..]);
    }
  }


  /** kasai: computes the LCP array of `txt` from its suffix array, by way of
      the inverse suffix array. */
  method Kasai(txt: string, suffixArr: seq<int>) returns (lcp: seq<int>)
    requires IsSuffixArray(txt, suffixArr)
    ensures OffsetsInRange(suffixArr, |txt|) && IsLcpArray(txt, suffixArr, lcp)
  {
    var invSuff := InverseSuffixArray(suffixArr);
    SuffixArrayCarries(txt, suffixArr, invSuff[..], |txt|);
    lcp := ScanOffsets(txt, suffixArr, invSuff[..]);
  }

  /** `inv` maps every offset to its rank in `sa`, and back. */
  predicate IsInverse(sa: seq<int>, inv: seq<int>)
  {
    |inv| == |sa| &&
    (forall p :: 0 <= p < |sa| ==> 0 <= inv[p] < |sa| && sa[inv[p]] == p) &&
    (forall r :: 0 <= r < |sa| ==> 0 <= sa[r] < |sa| && inv[sa[r]] == r)
  }

  /** The first loop of kasai: invSuff[sa[i]] = i for every rank i. */
  method InverseSuffixArray(suffixArr: seq<int>) returns (invSuff: array<int>)
    requires IsPermutationOfOffsets(suffixArr, |suffixArr|)
    ensures fresh(invSuff) && IsInverse(suffixArr, invSuff[..])
  {
    var n := |suffixArr|;
    invSuff := new int[n](_ => 0);
    for i := 0 to n
      invariant forall q :: 0 <= q < i ==> invSuff[suffixArr[q]] == q
    {
      invSuff[suffixArr[i]] := i;
    }
    forall p | 0 <= p < n
      ensures 0 <= invSuff[p] < n && suffixArr[invSuff[p]] == p
    {
      assert p in suffixArr;
    }
  }

  /** The consequence of suffix order that Kasai's algorithm relies on at
      offset p: if the suffix at p shares h >= 2 bytes with its predecessor,
      the suffix at p+1 has a predecessor and shares at least h-1 with it. */
  ghost predicate CarriesAt(t: string, sa: seq<int>, inv: seq<int>, p: int)
    requires OffsetsInRange(sa, |t|) && IsInverse(sa, inv) && 0 <= p < |sa|
  {
    p + 1 < |sa| && inv[p] > 0 && RankLcp(t, sa, inv[p]) >= 2 ==>
      inv[p + 1] > 0 && RankLcp(t, sa, inv[p + 1]) >= RankLcp(t, sa, inv[p]) - 1
  }

  /** CarriesAt holds at every offset below `i`. */
  ghost predicate CarriesBelow(t: string, sa: seq<int>, inv: seq<int>, i: nat)
    requires OffsetsInRange(sa, |t|) && IsInverse(sa, inv) && i <= |sa|
  {
    i == 0 || (CarriesBelow(t, sa, inv, i - 1) && CarriesAt(t, sa, inv, i - 1))
  }

  lemma {:induction false} SuffixArrayCarries(t: string, sa: seq<int>, inv: seq<int>, i: nat)
    requires IsSuffixArray(t, sa) && IsInverse(sa, inv) && i <= |sa|
    ensures OffsetsInRange(sa, |t|) && CarriesBelow(t, sa, inv, i)
  {
    if i > 0 {
      SuffixArrayCarries(t, sa, inv, i - 1);
      var p := i - 1;
      if p + 1 < |sa| && inv[p] > 0 && RankLcp(t, sa, inv[p]) >= 2 {
        KasaiStep(t, sa, inv[p], inv[p + 1]);
      }
    }
  }

  lemma {:induction false} CarriesBelowEntry(t: string, sa: seq<int>, inv: seq<int>, i: nat, p: nat)
    requires OffsetsInRange(sa, |t|) && IsInverse(sa, inv) && i <= |sa|
    requires CarriesBelow(t, sa, inv, i) && p < i
    ensures CarriesAt(t, sa, inv, p)
  {
    if p < i - 1 {
      CarriesBelowEntry(t, sa, inv, i - 1, p);
    }
  }

  /** Every text offset below `i` other than the one of rank 0 has the
      common prefix with its predecessor recorded at its rank in `lcp`. */
  ghost predicate RecordedBelow(t: string, sa: seq<int>, inv: seq<int>, lcp: seq<int>, i: nat)
    requires OffsetsInRange(sa, |t|) && IsInverse(sa, inv) && |lcp| == |sa| && i <= |sa|
  {
    i == 0 ||
    (RecordedBelow(t, sa, inv, lcp, i - 1) &&
     (inv[i - 1] > 0 ==> lcp[inv[i - 1]] == RankLcp(t, sa, inv[i - 1])))
  }

  /** Writing at the rank of an offset not yet visited keeps what was
      recorded below it. */
  lemma {:induction false} RecordedBelowFrame(t: string, sa: seq<int>, inv: seq<int>,
                                              lcp: seq<int>, i: nat, x: int, v: int)
    requires OffsetsInRange(sa, |t|) && IsInverse(sa, inv) && |lcp| == |sa| && i <= |sa|
    requires 0 <= x < |sa| && sa[x] >= i
    requires RecordedBelow(t, sa, inv, lcp, i)
    ensures RecordedBelow(t, sa, inv, lcp[x := v], i)
  {
    if i > 0 {
      RecordedBelowFrame(t, sa, inv, lcp, i - 1, x, v);
    }
  }

  lemma {:induction false} RecordedBelowEntry(t: string, sa: seq<int>, inv: seq<int>,
                                              lcp: seq<int>, i: nat, p: nat)
    requires OffsetsInRange(sa, |t|) && IsInverse(sa, inv) && |lcp| == |sa| && i <= |sa|
    requires RecordedBelow(t, sa, inv, lcp, i) && p < i && inv[p] > 0
    ensures lcp[inv[p]] == RankLcp(t, sa, inv[p])
  {
    if p < i - 1 {
      RecordedBelowEntry(t, sa, inv, lcp, i - 1, p);
    }
  }

  /** Once every offset is visited, every rank holds its entry. */
  lemma RecordedAll(t: string, sa: seq<int>, inv: seq<int>, lcp: seq<int>)
    requires OffsetsInRange(sa, |t|) && IsInverse(sa, inv) && |lcp| == |sa|
    requires RecordedBelow(t, sa, inv, lcp, |sa|)
    ensures forall r :: 0 < r < |sa| ==> lcp[r] == RankLcp(t, sa, r)
  {
    forall r | 0 < r < |sa|
      ensures lcp[r] == RankLcp(t, sa, r)
    {
      RecordedBelowEntry(t, sa, inv, lcp, |sa|, sa[r]);
    }
  }

  /** What the second loop of kasai keeps before visiting offset `i` with
      the carried match length `k`. */
  ghost predicate ScanInvariant(t: string, sa: seq<int>, inv: seq<int>, lcp: seq<int>, i: nat, k: nat)
    requires OffsetsInRange(sa, |t|) && IsInverse(sa, inv)
  {
    |lcp| == |sa| && i <= |sa| &&
    (i < |sa| && inv[i] > 0 ==> k <= RankLcp(t, sa, inv[i])) &&
    (|sa| > 0 ==> lcp[0] == 0) &&
    RecordedBelow(t, sa, inv, lcp, i)
  }

  /** The second loop of kasai: visits the text offsets in order, extending
      the match carried over from the previous offset, and records at the
      rank of each offset its common prefix with its predecessor. */
  method ScanOffsets(txt: string, suffixArr: seq<int>, invSuff: seq<int>)
    returns (lcp: seq<int>)
    requires OffsetsInRange(suffixArr, |txt|) && IsInverse(suffixArr, invSuff)
    requires CarriesBelow(txt, suffixArr, invSuff, |suffixArr|)
    ensures IsLcpArray(txt, suffixArr, lcp)
  {
    var n := |suffixArr|;
    var lcpArr := new int[n](_ => 0);
    var k := 0;
    for i := 0 to n
      invariant ScanInvariant(txt, suffixArr, invSuff, lcpArr[..], i, k)
    {
      k := VisitOffset(txt, suffixArr, invSuff, lcpArr, i, k);
    }
    lcp := lcpArr[..];
    RecordedAll(txt, suffixArr, invSuff, lcp);
  }

  /** One pass of the second loop of kasai, at offset `i`: offset i has rank
      0 and resets the counter, or its match with its predecessor is extended
      from `k`, stored at its rank, and carried on less one byte. */
  method VisitOffset(txt: string, suffixArr: seq<int>, invSuff: seq<int>,
                     lcpArr: array<int>, i: nat, k: nat) returns (k': nat)
    requires OffsetsInRange(suffixArr, |txt|) && IsInverse(suffixArr, invSuff)
    requires CarriesBelow(txt, suffixArr, invSuff, |suffixArr|)
    requires i < |suffixArr|
    requires ScanInvariant(txt, suffixArr, invSuff, lcpArr[..], i, k)
    modifies lcpArr
    ensures invSuff[i] == 0 ==> k' == 0 && lcpArr[..] == old(lcpArr[..])
    ensures invSuff[i] > 0 ==>
      var h := RankLcp(txt, suffixArr, invSuff[i]);
      lcpArr[..] == old(lcpArr[..])[invSuff[i] := h] && k' == (if h > 0 then h - 1 else 0)
    ensures ScanInvariant(txt, suffixArr, invSuff, lcpArr[..], i + 1, k')
  {
    if invSuff[i] == 0 {
      return 0;
    }
    var rank := invSuff[i];
    var j := suffixArr[rank - 1];
    k' := ExtendMatch(txt, |suffixArr|, i, j, k);
    RecordedBelowFrame(txt, suffixArr, invSuff, lcpArr[..], i, rank, k');
    lcpArr[rank] := k';
    if k' > 0 {
      k' := k' - 1;
    }
    CarriesBelowEntry(txt, suffixArr, invSuff, |suffixArr|, i);
  }

  /** The inner loop of kasai: starting from `k` bytes known to match,
      compares the suffixes at `i` and `j` byte by byte until they differ or
      one ends; the result is their whole common prefix length. The bound
      `n` is the length of the suffix array, which is the text length. */
  method ExtendMatch(txt: string, n: nat, i: nat, j: nat, k: nat) returns (h: nat)
    requires n == |txt| && i <= n && j <= n
    requires k <= CommonPrefixLength(txt[j..], txt[i..])
    ensures h == CommonPrefixLength(txt[j..], txt[i..])
  {
    h := k;
    while i + h < n && j + h < n && txt[i + h] == txt[j + h]
      invariant h <= CommonPrefixLength(txt[j..], txt[i..])
    {
      CommonPrefixExtends(txt[j..], txt[i..], h);
      h := h + 1;
    }
    CommonPrefixStops(txt[j..], txt[i..], h);
  }

  lemma BananaRankLcps()
    ensures var t, sa := "banana$", [6, 5, 3, 1, 0, 4, 2];
      OffsetsInRange(sa, |t|) &&
      RankLcp(t, sa, 1) == 0 && RankLcp(t, sa, 2) == 1 && RankLcp(t, sa, 3) == 3 &&
      RankLcp(t, sa, 4) == 0 && RankLcp(t, sa, 5) == 0 && RankLcp(t, sa, 6) == 2
  {
    var t := "banana$";
    assert t[6..] == "$" && t[5..] == "a$" && t[3..] == "ana$" && t[1..] == "anana$";
    assert t[0..] == "banana$" && t[4..] == "na$" && t[2..] == "nana$";
    assert CommonPrefixLength("a$", "ana$") == 1;
    assert CommonPrefixLength("ana$", "anana$") == 3;
    assert CommonPrefixLength("na$", "nana$") == 2;
  }

  /** The example of kasai's comment: the LCP array of "banana$". */
  lemma BananaLcp(lcp: seq<int>)
    requires OffsetsInRange([6, 5, 3, 1, 0, 4, 2], 7)
    requires IsLcpArray("banana$", [6, 5, 3, 1, 0, 4, 2], lcp)
    ensures lcp == [0, 0, 1, 3, 0, 0, 2]
  {
    BananaRankLcps();
  }
}
