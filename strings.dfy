/** String helpers that the comparison pipeline relies on: infix search,
    splitting and joining on a one-character separator, the digit filter
    and decimal rendering of page numbers. Every character stands for one
    byte of the document text. */
module Strings {

  /** `needle` occurs in `hay` as a contiguous block (strings.Contains). */
  predicate Contains(hay: string, needle: string)
    ensures Contains(hay, needle) ==> |needle| <= |hay|
  {
    exists i :: 0 <= i <= |hay| && needle <= hay[i..]
  }

  lemma ContainsAt(hay: string, needle: string, i: nat)
    requires i + |needle| <= |hay| && hay[i..i + |needle|] == needle
    ensures Contains(hay, needle)
  {
    assert needle <= hay[i..];
  }

  lemma ContainsSelf(s: string)
    ensures Contains(s, s)
  {
    assert s <= s[0..];
  }

  /** Containment is transitive: an infix of an infix is an infix. */
  lemma ContainsTransitive(a: string, b: string, c: string)
    requires Contains(a, b) && Contains(b, c)
    ensures Contains(a, c)
  {
    var i :| 0 <= i <= |a| && b <= a[i..];
    var j :| 0 <= j <= |b| && c <= b[j..];
    assert forall k :: 0 <= k < |c| ==> c[k] == b[j + k] == a[i + j + k];
    assert c <= a[i + j..];
  }

  /** A string contains only strings at most as long as itself, and one of
      equal length only when the two are the same. */
  lemma ContainsLength(a: string, b: string)
    requires Contains(a, b)
    ensures |b| <= |a|
    ensures |b| == |a| ==> a == b
  {
    var i :| 0 <= i <= |a| && b <= a[i..];
    if |b| == |a| {
      assert i == 0;
      assert a[0..] == a;
    }
  }

  /** Two strings that contain each other are equal. */
  lemma MutualContainment(a: string, b: string)
    requires Contains(a, b) && Contains(b, a)
    ensures a == b
  {
    ContainsLength(a, b);
    ContainsLength(b, a);
  }

  /** A one-character needle occurs exactly when the character does. */
  lemma ContainsChar(s: string, c: char)
    ensures Contains(s, [c]) <==> c in s
  {
    if c in s {
      var i :| 0 <= i < |s| && s[i] == c;
      assert [c] <= s[i..];
    }
    if Contains(s, [c]) {
      var i :| 0 <= i <= |s| && [c] <= s[i..];
      assert s[i] == c;
    }
  }

  /** A string longer than `hay` is not an infix of it. */
  lemma LongerNotContained(hay: string, needle: string)
    requires |needle| > |hay|
    ensures !Contains(hay, needle)
  {
    forall i | 0 <= i <= |hay|
      ensures !(needle <= hay[i..])
    {
    }
  }

  /** Splits `s` at every `sep` (strings.Split with a one-character separator):
      the pieces never contain the separator and there is always at least one. */
  function Split(s: string, sep: char): (pieces: seq<string>)
    ensures |pieces| >= 1
    ensures forall k :: 0 <= k < |pieces| ==> sep !in pieces[k]
  {
    if |s| == 0 then [""]
    else if s[0] == sep then [""] + Split(s[1..], sep)
    else
      var rest := Split(s[1..], sep);
      [[s[0]] + rest[0]] + rest[1..]
  }

  /** Glues `parts` together with `sep` between neighbours (strings.Join). */
  function Join(parts: seq<string>, sep: char): (r: string)
    ensures |parts| == 0 ==> r == ""
    ensures |parts| >= 1 ==> parts[0] <= r
  {
    if |parts| == 0 then ""
    else if |parts| == 1 then parts[0]
    else parts[0] + [sep] + Join(parts[1..], sep)
  }

  lemma {:induction false} JoinConsHead(c: char, parts: seq<string>, sep: char)
    requires |parts| >= 1
    ensures Join([[c] + parts[0]] + parts[1..], sep) == [c] + Join(parts, sep)
  {
    var q := [[c] + parts[0]] + parts[1..];
    assert q[1..] == parts[1..];
  }

  /** Joining the pieces of a split gives back the original string. */
  lemma {:induction false} JoinSplit(s: string, sep: char)
    ensures Join(Split(s, sep), sep) == s
  {
    if |s| == 0 {
    } else if s[0] == sep {
      JoinSplit(s[1..], sep);
      var rest := Split(s[1..], sep);
      assert ([""] + rest)[1..] == rest;
      assert s == [sep] + s[1..];
    } else {
      JoinSplit(s[1..], sep);
      JoinConsHead(s[0], Split(s[1..], sep), sep);
      assert s == [s[0]] + s[1..];
    }
  }

  lemma {:induction false} SplitNoSeparator(s: string, sep: char)
    requires sep !in s
    ensures Split(s, sep) == [s]
  {
    if |s| > 0 {
      SplitNoSeparator(s[1..], sep);
      assert s == [s[0]] + s[1..];
    }
  }

  lemma {:induction false} SplitAfterPiece(p: string, rest: string, sep: char)
    requires sep !in p
    ensures Split(p + [sep] + rest, sep) == [p] + Split(rest, sep)
  {
    var s := p + [sep] + rest;
    if |p| == 0 {
      assert s[1..] == rest;
    } else {
      assert s[1..] == p[1..] + [sep] + rest;
      SplitAfterPiece(p[1..], rest, sep);
      assert p == [p[0]] + p[1..];
    }
  }

  /** Splitting a join gives back the parts, provided no part contains the
      separator. */
  lemma {:induction false} SplitJoin(parts: seq<string>, sep: char)
    requires |parts| >= 1
    requires forall k :: 0 <= k < |parts| ==> sep !in parts[k]
    ensures Split(Join(parts, sep), sep) == parts
  {
    if |parts| == 1 {
      SplitNoSeparator(parts[0], sep);
    } else {
      SplitJoin(parts[1..], sep);
      SplitAfterPiece(parts[0], Join(parts[1..], sep), sep);
      assert parts == [parts[0]] + parts[1..];
    }
  }

  /** The longest prefix of `s` that holds no `sep`. */
  function BeforeFirst(s: string, sep: char): (p: string)
    ensures p <= s && sep !in p
    ensures |p| == |s| || s[|p|] == sep
  {
    if |s| == 0 || s[0] == sep then ""
    else [s[0]] + BeforeFirst(s[1..], sep)
  }

  /** Without a separator the text before the first one is all of `s`. */
  lemma {:induction false} BeforeFirstNoSeparator(s: string, sep: char)
    requires sep !in s
    ensures BeforeFirst(s, sep) == s
  {
    if |s| > 0 {
      BeforeFirstNoSeparator(s[1..], sep);
      assert s == [s[0]] + s[1..];
    }
  }

  /** The first piece of a split is the text before the first separator. */
  lemma {:induction false} SplitHeadIsBeforeFirst(s: string, sep: char)
    ensures Split(s, sep)[0] == BeforeFirst(s, sep)
  {
    if |s| > 0 && s[0] != sep {
      SplitHeadIsBeforeFirst(s[1..], sep);
    }
  }

  /** The last piece of a split is a suffix of `s`, preceded in `s` by the
      separator unless it is the whole of `s`. */
  lemma {:induction false} SplitLastIsSuffix(s: string, sep: char)
    ensures var last := Split(s, sep)[|Split(s, sep)| - 1];
      |last| <= |s| && last == s[|s| - |last|..] &&
      (|last| == |s| || s[|s| - |last| - 1] == sep) &&
      (|Split(s, sep)| == 1 ==> last == s) &&
      (|Split(s, sep)| > 1 ==> |last| < |s|)
  {
    if |s| > 0 {
      SplitLastIsSuffix(s[1..], sep);
      if s[0] != sep && |Split(s[1..], sep)| == 1 {
        assert s == [s[0]] + s[1..];
      }
    }
  }

  /** A separator-free prefix of `s` is a prefix of the text before the
      first separator. */
  lemma {:induction false} PrefixWithinBeforeFirst(s: string, sep: char, q: string)
    requires q <= s && sep !in q
    ensures q <= BeforeFirst(s, sep)
  {
    if |q| > 0 {
      assert q[0] in q;
      PrefixWithinBeforeFirst(s[1..], sep, q[1..]);
    }
  }

  lemma {:induction false} BeforeFirstStopsAtSeparator(x: string, sep: char, y: string)
    ensures BeforeFirst(x + [sep] + y, sep) <= x
  {
    if |x| > 0 {
      assert (x + [sep] + y)[1..] == x[1..] + [sep] + y;
      BeforeFirstStopsAtSeparator(x[1..], sep, y);
    }
  }

  /** The part before the first separator of a string that occurs in
      `[sep] + t` occurs in `t`: either the string starts at that separator,
      and the part is empty, or it lies in `t`. */
  lemma BeforeFirstAfterSeparator(t: string, sep: char, s: string)
    requires Contains([sep] + t, s)
    ensures Contains(t, BeforeFirst(s, sep))
  {
    var u := [sep] + t;
    var q := BeforeFirst(s, sep);
    var o :| 0 <= o <= |u| && s <= u[o..];
    if o > 0 {
      assert u[o..] == t[o - 1..];
      assert Contains(t, s) by {
        assert s <= t[o - 1..];
      }
      ContainsAt(s, q, 0);
      ContainsTransitive(t, s, q);
    } else {
      assert |s| > 0 ==> s[0] == sep;
      assert q == [];
      ContainsAt(t, q, 0);
    }
  }

  /** A string free of `sep` that occurs in a join lies inside one part. */
  lemma {:induction false} SeparatorFreeInfixOfJoin(parts: seq<string>, sep: char, q: string)
    requires |parts| >= 1
    requires sep !in q && Contains(Join(parts, sep), q)
    ensures exists k :: 0 <= k < |parts| && Contains(parts[k], q)
  {
    if |parts| == 1 {
      assert Contains(parts[0], q);
    } else {
      var j := Join(parts, sep);
      var tail := Join(parts[1..], sep);
      var p0 := parts[0];
      assert j == p0 + [sep] + tail;
      var o :| 0 <= o <= |j| && q <= j[o..];
      if o <= |p0| {
        assert j[o..] == p0[o..] + [sep] + tail;
        PrefixWithinBeforeFirst(j[o..], sep, q);
        BeforeFirstStopsAtSeparator(p0[o..], sep, tail);
        assert q <= p0[o..];
        assert Contains(p0, q);
      } else {
        assert q <= tail[o - |p0| - 1..];
        SeparatorFreeInfixOfJoin(parts[1..], sep, q);
        var k :| 0 <= k < |parts[1..]| && Contains(parts[1..][k], q);
        assert Contains(parts[k + 1], q);
      }
    }
  }

  predicate IsDigit(c: char)
  {
    '0' <= c <= '9'
  }

  /** Removes every character that is not a decimal digit (the regular
      expression `[^0-9]+` replaced by the empty string). */
  function KeepDigits(s: string): (r: string)
    ensures |r| <= |s|
    ensures forall k :: 0 <= k < |r| ==> IsDigit(r[k])
  {
    if |s| == 0 then ""
    else (if IsDigit(s[0]) then [s[0]] else "") + KeepDigits(s[1..])
  }

  /** The digit filter works piecewise: filtering a concatenation is the
      concatenation of the filtered pieces. */
  lemma {:induction false} KeepDigitsConcat(a: string, b: string)
    ensures KeepDigits(a + b) == KeepDigits(a) + KeepDigits(b)
  {
    if |a| > 0 {
      assert (a + b)[1..] == a[1..] + b;
      KeepDigitsConcat(a[1..], b);
    } else {
      assert a + b == b;
    }
  }

  /** A string of digits passes the filter unchanged (so the filter is
      idempotent). */
  lemma {:induction false} KeepDigitsOfDigits(s: string)
    requires forall k :: 0 <= k < |s| ==> IsDigit(s[k])
    ensures KeepDigits(s) == s
  {
    if |s| > 0 {
      KeepDigitsOfDigits(s[1..]);
      assert s == [s[0]] + s[1..];
    }
  }

  /** Every newline turned into a space (strings.Replace(s, "\n", " ", -1)). */
  function FlattenNewlines(s: string): (r: string)
    ensures |r| == |s|
    ensures '\n' !in r
    ensures forall k :: 0 <= k < |s| && s[k] != '\n' ==> r[k] == s[k]
    ensures forall k :: 0 <= k < |s| && s[k] == '\n' ==> r[k] == ' '
  {
    if |s| == 0 then ""
    else [if s[0] == '\n' then ' ' else s[0]] + FlattenNewlines(s[1..])
  }

  function DigitChar(d: nat): char
    requires d < 10
  {
    "0123456789"[d]
  }

  function DigitValue(c: char): nat
  {
    if IsDigit(c) then (c - '0') as nat else 0
  }

  /** The decimal rendering of `n` (strconv.Itoa on a non-negative number):
      digits only, never empty, no leading zero. */
  function NatToDecimal(n: nat): (r: string)
    ensures |r| >= 1
    ensures forall k :: 0 <= k < |r| ==> IsDigit(r[k])
    ensures |r| > 1 ==> r[0] != '0'
  {
    if n < 10 then [DigitChar(n)]
    else NatToDecimal(n / 10) + [DigitChar(n % 10)]
  }

  /** The value of a string of decimal digits (strconv.Atoi on digits). */
  function DecimalToNat(s: string): nat
  {
    if |s| == 0 then 0
    else DecimalToNat(s[..|s| - 1]) * 10 + DigitValue(s[|s| - 1])
  }

  /** Reading back a rendered page number gives the number. */
  lemma {:induction false} DecimalRoundTrip(n: nat)
    ensures DecimalToNat(NatToDecimal(n)) == n
  {
    var r := NatToDecimal(n);
    if n < 10 {
      assert r[..0] == "";
    } else {
      DecimalRoundTrip(n / 10);
      assert r[..|r| - 1] == NatToDecimal(n / 10);
    }
  }
}
