/** The comparison pipeline around findCommonSubstrings: the data read
    from each PDF, the page lookup of a match, the result records and the
    comparison of every pair of files. The page texts that the PDF library
    extracts are a parameter here. */
module PdfCompare {
  import opened Strings
  import opened CommonSubstrings

  /** strings.Join and strings.Split of the page texts use this byte. */
  const PageSeparator: char := '|'
  /** getShortFilename splits paths at this byte. */
  const PathSeparator: char := '/'
  /** compareFiles compares the digit strings with this minimum length. */
  const DigitMinLen: int := 15
  /** getStringPreview keeps this many bytes of a long match. */
  const PreviewLen: nat := 97
  const PageNotFound: string := "Page not found"
  const TextKind: string := "Common text string"
  const DigitKind: string := "Common digit string"

  /** What getPdfData gathers about one file (the image hashes, which the
      source leaves empty, are not part of it). */
  datatype PdfData = PdfData(
    pathToFile: string,
    filename: string,
    pageTexts: seq<string>,
    pageDigits: seq<string>,
    fullText: string,
    fullDigits: string)

  /** A file and the page of it that a match was found on. */
  datatype ResultPage = ResultPage(filename: string, page: string)

  /** One reported match. */
  datatype PdfResult = PdfResult(
    kind: string,
    stringPreview: string,
    numCharacters: int,
    pages: seq<ResultPage>)

  /** getShortFilename: the last '/'-separated component of a path. It
      holds no '/', ends the path, and is either the whole path or preceded
      in it by a '/'. */
  function ShortFilename(f: string): (r: string)
    ensures PathSeparator !in r
    ensures |r| <= |f| && r == f[|f| - |r|..]
    ensures |r| == |f| || f[|f| - |r| - 1] == PathSeparator
  {
    SplitLastIsSuffix(f, PathSeparator);
    var split := Split(f, PathSeparator);
    split[|split| - 1]
  }

  /** The file name is what follows the last '/' of the path. */
  lemma ShortFilenameOfPath(dir: string, name: string)
    requires PathSeparator !in name
    ensures ShortFilename(dir + [PathSeparator] + name) == name
  {
    var f := dir + [PathSeparator] + name;
    var r := ShortFilename(f);
    assert f[|dir|] == PathSeparator;
    forall j | |f| - |r| <= j < |f|
      ensures f[j] != PathSeparator
    {
      assert f[j] == r[j - (|f| - |r|)];
    }
    forall j | |dir| < j < |f|
      ensures f[j] != PathSeparator
    {
      assert f[j] == name[j - |dir| - 1];
    }
    assert |r| == |name|;
    assert f[|f| - |name|..] == name;
  }

  /** A path without '/' is its own file name. */
  lemma ShortFilenameOfName(name: string)
    requires PathSeparator !in name
    ensures ShortFilename(name) == name
  {
  }

  /** getPageDigits: the digits of every page, in page order. */
  method GetPageDigits(pageTexts: seq<string>) returns (result: seq<string>)
    ensures |result| == |pageTexts|
    ensures forall k :: 0 <= k < |pageTexts| ==> result[k] == KeepDigits(pageTexts[k])
  {
    result := [];
    for i := 0 to |pageTexts|
      invariant |result| == i
      invariant forall k :: 0 <= k < i ==> result[k] == KeepDigits(pageTexts[k])
    {
      var digits := KeepDigits(pageTexts[i]);
      result := result + [digits];
    }
  }

  /** How the fields of a PdfData hang together once getPdfData has built
      it. */
  predicate WellFormed(d: PdfData)
  {
    d.filename == ShortFilename(d.pathToFile) &&
    |d.pageDigits| == |d.pageTexts| &&
    (forall k :: 0 <= k < |d.pageTexts| ==> d.pageDigits[k] == KeepDigits(d.pageTexts[k])) &&
    d.fullText == Join(d.pageTexts, PageSeparator) &&
    d.fullDigits == Join(d.pageDigits, PageSeparator)
  }

  /** getPdfData, given the page texts the PDF library extracts from the
      file at fullFilename. */
  method GetPdfData(fullFilename: string, pageTexts: seq<string>) returns (result: PdfData)
    ensures result.pathToFile == fullFilename && result.pageTexts == pageTexts
    ensures WellFormed(result)
  {
    var filename := ShortFilename(fullFilename);
    var pageDigits := GetPageDigits(pageTexts);
    var fullText := Join(pageTexts, PageSeparator);
    var fullDigits := Join(pageDigits, PageSeparator);
    result := PdfData(fullFilename, filename, pageTexts, pageDigits, fullText, fullDigits);
  }

  /** The page texts can be read back from the full text when no page holds
      the separator. */
  lemma TextPagesRecoverable(d: PdfData)
    requires WellFormed(d) && |d.pageTexts| >= 1
    requires forall k :: 0 <= k < |d.pageTexts| ==> PageSeparator !in d.pageTexts[k]
    ensures Split(d.fullText, PageSeparator) == d.pageTexts
  {
    SplitJoin(d.pageTexts, PageSeparator);
  }

  /** The page digits can always be read back from the full digit string:
      digits never hold the separator. */
  lemma DigitPagesRecoverable(d: PdfData)
    requires WellFormed(d) && |d.pageTexts| >= 1
    ensures Split(d.fullDigits, PageSeparator) == d.pageDigits
  {
    forall k | 0 <= k < |d.pageDigits|
      ensures PageSeparator !in d.pageDigits[k]
    {
      assert forall m :: 0 <= m < |d.pageDigits[k]| ==> IsDigit(d.pageDigits[k][m]);
    }
    SplitJoin(d.pageDigits, PageSeparator);
  }

  /** Dropping the separators from the full digit string leaves exactly the
      digits of the full text. */
  lemma {:induction false} JoinedDigits(ds: seq<string>, ts: seq<string>)
    requires |ds| == |ts|
    requires forall k :: 0 <= k < |ts| ==> ds[k] == KeepDigits(ts[k])
    ensures KeepDigits(Join(ds, PageSeparator)) == KeepDigits(Join(ts, PageSeparator))
  {
    if |ts| == 1 {
      KeepDigitsOfDigits(ds[0]);
    } else if |ts| > 1 {
      JoinedDigits(ds[1..], ts[1..]);
      var sep := [PageSeparator];
      assert KeepDigits(sep) == [];
      KeepDigitsConcat(ds[0] + sep, Join(ds[1..], PageSeparator));
      KeepDigitsConcat(ds[0], sep);
      KeepDigitsConcat(ts[0] + sep, Join(ts[1..], PageSeparator));
      KeepDigitsConcat(ts[0], sep);
      KeepDigitsOfDigits(ds[0]);
    }
  }

  lemma FullDigitsAreTextDigits(d: PdfData)
    requires WellFormed(d)
    ensures KeepDigits(d.fullDigits) == KeepDigits(d.fullText)
  {
    JoinedDigits(d.pageDigits, d.pageTexts);
  }

  /** getStringPreview: newlines become spaces, and a string of 97 bytes or
      more is cut to its first 97 bytes followed by "...". */
  function StringPreview(s: string): (r: string)
    ensures |r| == if |s| >= PreviewLen then PreviewLen + 3 else |s|
    ensures '\n' !in r[..Min(|s|, PreviewLen)]
    ensures forall k :: 0 <= k < |s| && k < PreviewLen && s[k] != '\n' ==> r[k] == s[k]
    ensures forall k :: 0 <= k < |s| && k < PreviewLen && s[k] == '\n' ==> r[k] == ' '
    ensures |s| >= PreviewLen ==> r[PreviewLen..] == "..."
  {
    var result := FlattenNewlines(s);
    if |s| >= PreviewLen then result[..PreviewLen] + "..." else result
  }

  /** The index of the first page containing `q`, |pages| when none does. */
  function FirstPageContaining(pages: seq<string>, q: string): (i: nat)
    ensures i <= |pages|
    ensures forall k :: 0 <= k < i ==> !Contains(pages[k], q)
    ensures i < |pages| ==> Contains(pages[i], q)
  {
    if |pages| == 0 then 0
    else if Contains(pages[0], q) then 0
    else 1 + FirstPageContaining(pages[1..], q)
  }

  /** What findPage answers for the match `s`: the 1-based number of the
      first page holding the part of s before its first '|', or
      "Page not found". */
  function PageLabel(pages: seq<string>, s: string): string
  {
    var i := FirstPageContaining(pages, BeforeFirst(s, PageSeparator));
    if i < |pages| then NatToDecimal(i + 1) else PageNotFound
  }

  /** findPage. */
  method FindPage(pages: seq<string>, susSubstr: string) returns (page: string)
    ensures page == PageLabel(pages, susSubstr)
  {
    var sub := susSubstr;
    ContainsChar(sub, PageSeparator);
    if Contains(sub, [PageSeparator]) {
      sub := Split(sub, PageSeparator)[0];
      SplitHeadIsBeforeFirst(susSubstr, PageSeparator);
    } else {
      BeforeFirstNoSeparator(sub, PageSeparator);
    }
    assert sub == BeforeFirst(susSubstr, PageSeparator);
    for i := 0 to |pages|
      invariant forall k :: 0 <= k < i ==> !Contains(pages[k], sub)
    {
      if Contains(pages[i], sub) {
        FirstPageIs(pages, sub, i);
        var pageNum := NatToDecimal(i + 1);
        return pageNum;
      }
    }
    FirstPageIs(pages, sub, |pages|);
    return PageNotFound;
  }

  /** The first page containing `q` is the one after a run of pages that
      do not. */
  lemma FirstPageIs(pages: seq<string>, q: string, i: nat)
    requires i <= |pages| && forall k :: 0 <= k < i ==> !Contains(pages[k], q)
    requires i < |pages| ==> Contains(pages[i], q)
    ensures FirstPageContaining(pages, q) == i
  {
  }

  /** The page label is "Page not found" exactly when no page holds the
      part before the first '|'; otherwise it reads back as the number of
      the first page that does. */
  lemma PageLabelMeaning(pages: seq<string>, s: string)
    ensures var q := BeforeFirst(s, PageSeparator);
      (PageLabel(pages, s) == PageNotFound <==> forall k :: 0 <= k < |pages| ==> !Contains(pages[k], q)) &&
      (PageLabel(pages, s) != PageNotFound ==>
        var n := DecimalToNat(PageLabel(pages, s));
        1 <= n <= |pages| && Contains(pages[n - 1], q) &&
        forall k :: 0 <= k < n - 1 ==> !Contains(pages[k], q))
  {
    var q := BeforeFirst(s, PageSeparator);
    var i := FirstPageContaining(pages, q);
    if i < |pages| {
      var number := NatToDecimal(i + 1);
      assert IsDigit(number[0]);
      assert number != PageNotFound;
      DecimalRoundTrip(i + 1);
    }
  }

  /** A page number never reads "Page not found". */
  lemma PageNumberIsFound(n: nat)
    ensures NatToDecimal(n) != PageNotFound
  {
    assert IsDigit(NatToDecimal(n)[0]);
  }

  /** When some page holds the part before the first '|', findPage finds
      a page. */
  lemma FoundOnSomePage(pages: seq<string>, s: string, k: nat)
    requires k < |pages| && Contains(pages[k], BeforeFirst(s, PageSeparator))
    ensures PageLabel(pages, s) != PageNotFound
  {
    var i := FirstPageContaining(pages, BeforeFirst(s, PageSeparator));
    PageNumberIsFound(i + 1);
  }

  /** The part of `s` before its first '|' lies in every string holding s. */
  lemma BeforeFirstContained(t: string, s: string)
    requires Contains(t, s)
    ensures Contains(t, BeforeFirst(s, PageSeparator))
  {
    var q := BeforeFirst(s, PageSeparator);
    ContainsAt(s, q, 0);
    ContainsTransitive(t, s, q);
  }

  /** A match that occurs in the '|'-joined pages is always found on a
      page: the part before its first '|' lies inside a single page. */
  lemma InfixIsFound(pages: seq<string>, s: string)
    requires |pages| >= 1 && Contains(Join(pages, PageSeparator), s)
    ensures PageLabel(pages, s) != PageNotFound
  {
    var q := BeforeFirst(s, PageSeparator);
    BeforeFirstContained(Join(pages, PageSeparator), s);
    SeparatorFreeInfixOfJoin(pages, PageSeparator, q);
    var k :| 0 <= k < |pages| && Contains(pages[k], q);
    FoundOnSomePage(pages, s, k);
  }

  /** A match that occurs in the '|'-joined pages preceded by one more '|'
      is still found on a page: either it starts with that '|', and the part
      before its first '|' is empty, or it lies in the joined pages. */
  lemma InfixAfterSeparatorIsFound(pages: seq<string>, s: string)
    requires |pages| >= 1 && Contains([PageSeparator] + Join(pages, PageSeparator), s)
    ensures PageLabel(pages, s) != PageNotFound
  {
    var q := BeforeFirst(s, PageSeparator);
    BeforeFirstAfterSeparator(Join(pages, PageSeparator), PageSeparator, s);
    SeparatorFreeInfixOfJoin(pages, PageSeparator, q);
    var k :| 0 <= k < |pages| && Contains(pages[k], q);
    FoundOnSomePage(pages, s, k);
  }

  /** The record compareFiles builds for the match `s`. */
  function Describe(kind: string, s: string, name1: string, pages1: seq<string>,
                    name2: string, pages2: seq<string>): PdfResult
  {
    PdfResult(kind, StringPreview(s), |s|,
      [ResultPage(name1, PageLabel(pages1, s)), ResultPage(name2, PageLabel(pages2, s))])
  }

  /** The records for all matches, in the order of the matches. */
  function MatchReport(kind: string, matches: seq<string>, name1: string, pages1: seq<string>,
                       name2: string, pages2: seq<string>): (r: seq<PdfResult>)
    ensures |r| == |matches|
  {
    seq(|matches|, k requires 0 <= k < |matches| => Describe(kind, matches[k], name1, pages1, name2, pages2))
  }

  /** One of the two result loops of compareFiles: a record per match. */
  method ReportMatches(kind: string, matches: seq<string>, name1: string, pages1: seq<string>,
                       name2: string, pages2: seq<string>) returns (results: seq<PdfResult>)
    ensures results == MatchReport(kind, matches, name1, pages1, name2, pages2)
  {
    results := [];
    for i := 0 to |matches|
      invariant results == MatchReport(kind, matches[..i], name1, pages1, name2, pages2)
    {
      var s := matches[i];
      var strPreview := StringPreview(s);
      var page1 := FindPage(pages1, s);
      var page2 := FindPage(pages2, s);
      var result := PdfResult(kind, strPreview, |s|, [ResultPage(name1, page1), ResultPage(name2, page2)]);
      results := results + [result];
      assert matches[..i + 1][i] == s;
    }
    assert matches[..|matches|] == matches;
  }

  /** The results of compareFiles for given text and digit matches: the
      text records, then the digit records. */
  function Report(pdf1: PdfData, pdf2: PdfData, textMatches: seq<string>, digitMatches: seq<string>)
    : seq<PdfResult>
  {
    MatchReport(TextKind, textMatches, pdf1.filename, pdf1.pageTexts, pdf2.filename, pdf2.pageTexts) +
    MatchReport(DigitKind, digitMatches, pdf1.filename, pdf1.pageDigits, pdf2.filename, pdf2.pageDigits)
  }

  /** `results` is what compareFiles reports for the two files when
      findCommonSubstrings applies `test`: the records of some result of
      findCommonSubstrings on the full texts with minLen, then those of some
      result on the full digit strings with minimum length 15. */
  ghost predicate IsComparisonOf(test: Test, pdf1: PdfData, pdf2: PdfData, minLen: int, results: seq<PdfResult>)
  {
    exists textMatches, digitMatches ::
      IsCommonSubstringsResult(test, pdf1.fullText, pdf2.fullText, minLen, textMatches) &&
      IsCommonSubstringsResult(test, pdf1.fullDigits, pdf2.fullDigits, DigitMinLen, digitMatches) &&
      results == Report(pdf1, pdf2, textMatches, digitMatches)
  }

  /** compareFiles; the source applies the test `AsWritten`. */
  method CompareFiles(test: Test, pdf1: PdfData, pdf2: PdfData, minLen: int) returns (results: seq<PdfResult>)
    ensures IsComparisonOf(test, pdf1, pdf2, minLen, results)
  {
    var commonSubstrings := FindCommonSubstrings(test, pdf1.fullText, pdf2.fullText, minLen);
    var textResults := ReportMatches(TextKind, commonSubstrings, pdf1.filename, pdf1.pageTexts,
                                     pdf2.filename, pdf2.pageTexts);
    var commonDigits := FindCommonSubstrings(test, pdf1.fullDigits, pdf2.fullDigits, DigitMinLen);
    var digitResults := ReportMatches(DigitKind, commonDigits, pdf1.filename, pdf1.pageDigits,
                                      pdf2.filename, pdf2.pageDigits);
    results := textResults + digitResults;
    assert results == Report(pdf1, pdf2, commonSubstrings, commonDigits);
  }

  /** What each record of a comparison of two well-formed files with at
      least one page says: which kind of match it is, how long the match
      is, the two file names in order, and two pages that were found. */
  predicate SoundRecord(pdf1: PdfData, pdf2: PdfData, minLen: int, r: PdfResult)
  {
    (r.kind == TextKind || r.kind == DigitKind) &&
    (r.kind == TextKind ==> r.numCharacters > minLen) &&
    (r.kind == DigitKind ==> r.numCharacters > DigitMinLen) &&
    |r.pages| == 2 &&
    r.pages[0].filename == pdf1.filename && r.pages[1].filename == pdf2.filename &&
    r.pages[0].page != PageNotFound && r.pages[1].page != PageNotFound
  }

  /** Every match of a result for two '|'-joined page lists is reported
      with the pages it lies on. */
  lemma MatchRecordsSound(test: Test, kind: string, pages1: seq<string>, pages2: seq<string>, minLen: int,
                          matches: seq<string>, name1: string, name2: string)
    requires |pages1| >= 1 && |pages2| >= 1
    requires IsCommonSubstringsResult(test, Join(pages1, PageSeparator), Join(pages2, PageSeparator), minLen, matches)
    ensures forall k :: 0 <= k < |matches| ==>
      var r := MatchReport(kind, matches, name1, pages1, name2, pages2)[k];
      r.numCharacters > minLen &&
      r.pages[0].page != PageNotFound && r.pages[1].page != PageNotFound
  {
    var text1, text2 := Join(pages1, PageSeparator), Join(pages2, PageSeparator);
    forall k | 0 <= k < |matches|
      ensures |matches[k]| > minLen
      ensures PageLabel(pages1, matches[k]) != PageNotFound
      ensures PageLabel(pages2, matches[k]) != PageNotFound
    {
      CandidateProperties(test, text1, text2, minLen, matches[k]);
      InfixIsFound(pages1, matches[k]);
      InfixAfterSeparatorIsFound(pages2, matches[k]);
    }
  }

  /** Every record of a comparison of two well-formed files with at least
      one page each is sound, under either test: findPage never answers
      "Page not found" for a reported match. Under the source's test a match
      may start at the separator before the second text; the part before
      its first '|' is then empty and lies on every page. */
  lemma ComparisonSound(test: Test, pdf1: PdfData, pdf2: PdfData, minLen: int, results: seq<PdfResult>)
    requires WellFormed(pdf1) && WellFormed(pdf2)
    requires |pdf1.pageTexts| >= 1 && |pdf2.pageTexts| >= 1
    requires IsComparisonOf(test, pdf1, pdf2, minLen, results)
    ensures forall k :: 0 <= k < |results| ==> SoundRecord(pdf1, pdf2, minLen, results[k])
  {
    var t, d :| IsCommonSubstringsResult(test, pdf1.fullText, pdf2.fullText, minLen, t) &&
      IsCommonSubstringsResult(test, pdf1.fullDigits, pdf2.fullDigits, DigitMinLen, d) &&
      results == Report(pdf1, pdf2, t, d);
    MatchRecordsSound(test, TextKind, pdf1.pageTexts, pdf2.pageTexts, minLen, t, pdf1.filename, pdf2.filename);
    MatchRecordsSound(test, DigitKind, pdf1.pageDigits, pdf2.pageDigits, DigitMinLen, d, pdf1.filename, pdf2.filename);
    ReportSound(pdf1, pdf2, minLen, t, d);
  }

  /** The records of text and digit matches whose pages were found are
      sound. */
  lemma ReportSound(pdf1: PdfData, pdf2: PdfData, minLen: int, t: seq<string>, d: seq<string>)
    requires forall k :: 0 <= k < |t| ==>
      var r := MatchReport(TextKind, t, pdf1.filename, pdf1.pageTexts, pdf2.filename, pdf2.pageTexts)[k];
      r.numCharacters > minLen && r.pages[0].page != PageNotFound && r.pages[1].page != PageNotFound
    requires forall k :: 0 <= k < |d| ==>
      var r := MatchReport(DigitKind, d, pdf1.filename, pdf1.pageDigits, pdf2.filename, pdf2.pageDigits)[k];
      r.numCharacters > DigitMinLen && r.pages[0].page != PageNotFound && r.pages[1].page != PageNotFound
    ensures forall k :: 0 <= k < |Report(pdf1, pdf2, t, d)| ==> SoundRecord(pdf1, pdf2, minLen, Report(pdf1, pdf2, t, d)[k])
  {
    var textPart := MatchReport(TextKind, t, pdf1.filename, pdf1.pageTexts, pdf2.filename, pdf2.pageTexts);
    var digitPart := MatchReport(DigitKind, d, pdf1.filename, pdf1.pageDigits, pdf2.filename, pdf2.pageDigits);
    var results := Report(pdf1, pdf2, t, d);
    forall k | 0 <= k < |results|
      ensures SoundRecord(pdf1, pdf2, minLen, results[k])
    {
      if k < |textPart| {
        assert results[k] == textPart[k];
      } else {
        assert results[k] == digitPart[k - |textPart|];
      }
    }
  }

  /** compareFiles with the source's test, on a first file whose pages are
      "" and "x" and a second file whose only page is "x", with minimum
      length 1: the first record is the match "|x", two bytes long, which
      starts at the page separator of the first file and is not in the
      second file's text; findPage places it on page 1 of both files. */
  lemma AsWrittenSeparatorRecord(pdf1: PdfData, pdf2: PdfData, results: seq<PdfResult>)
    requires WellFormed(pdf1) && pdf1.pageTexts == ["", "x"]
    requires WellFormed(pdf2) && pdf2.pageTexts == ["x"]
    requires IsComparisonOf(AsWritten, pdf1, pdf2, 1, results)
    ensures |results| >= 1
    ensures results[0] == PdfResult(TextKind, "|x", 2, [ResultPage(pdf1.filename, "1"), ResultPage(pdf2.filename, "1")])
    ensures !Contains(pdf2.fullText, "|x")
  {
    SeparatorTexts(pdf1, pdf2);
    var t, d :| IsCommonSubstringsResult(AsWritten, pdf1.fullText, pdf2.fullText, 1, t) &&
      IsCommonSubstringsResult(AsWritten, pdf1.fullDigits, pdf2.fullDigits, DigitMinLen, d) &&
      results == Report(pdf1, pdf2, t, d);
    AsWrittenSeparatorResult(t);
    var textPart := MatchReport(TextKind, t, pdf1.filename, pdf1.pageTexts, pdf2.filename, pdf2.pageTexts);
    assert results[0] == textPart[0];
    assert textPart[0] == Describe(TextKind, "|x", pdf1.filename, ["", "x"], pdf2.filename, ["x"]);
    SeparatorRecord(pdf1.filename, pdf2.filename);
    LongerNotContained("x", "|x");
  }

  /** The full texts of the files of AsWrittenSeparatorRecord. */
  lemma SeparatorTexts(pdf1: PdfData, pdf2: PdfData)
    requires WellFormed(pdf1) && pdf1.pageTexts == ["", "x"]
    requires WellFormed(pdf2) && pdf2.pageTexts == ["x"]
    ensures pdf1.fullText == "|x" && pdf2.fullText == "x"
  {
    assert Join(["x"], PageSeparator) == "x";
    assert Join(["", "x"], PageSeparator) == "" + [PageSeparator] + Join(["x"], PageSeparator);
  }

  /** The record of the match "|x" for the pages of AsWrittenSeparatorRecord. */
  lemma SeparatorRecord(name1: string, name2: string)
    ensures Describe(TextKind, "|x", name1, ["", "x"], name2, ["x"]) ==
      PdfResult(TextKind, "|x", 2, [ResultPage(name1, "1"), ResultPage(name2, "1")])
  {
    SeparatorPreview();
    SeparatorOnFirstPage(["", "x"]);
    SeparatorOnFirstPage(["x"]);
  }

  lemma SeparatorPreview()
    ensures StringPreview("|x") == "|x"
  {
    var r := StringPreview("|x");
    assert r[0] == '|' && r[1] == 'x';
  }

  /** A match starting with the separator is placed on page 1. */
  lemma SeparatorOnFirstPage(pages: seq<string>)
    requires |pages| >= 1
    ensures PageLabel(pages, "|x") == "1"
  {
    assert BeforeFirst("|x", PageSeparator) == "";
    ContainsAt(pages[0], "", 0);
    FirstPageIs(pages, "", 0);
    assert NatToDecimal(1) == "1";
  }

  /** The pairs (i, j) with i < j < n, for one i, in increasing j. */
  function RowPairs(i: nat, n: nat): (r: seq<(nat, nat)>)
    ensures |r| == if i < n then n - i - 1 else 0
    ensures forall k :: 0 <= k < |r| ==> r[k] == (i, i + 1 + k)
  {
    seq(if i < n then n - i - 1 else 0, k requires k >= 0 => (i, i + 1 + k))
  }

  /** The rows of the upper triangle of the pairs matrix above row i. */
  function RowsBefore(i: nat, n: nat): seq<(nat, nat)>
  {
    if i == 0 then [] else RowsBefore(i - 1, n) + RowPairs(i - 1, n)
  }

  /** The pairs the main loop compares, in the order it compares them. */
  function AllPairs(n: nat): seq<(nat, nat)>
  {
    RowsBefore(n, n)
  }

  /** The rows above row i hold exactly the pairs a < b < n with a < i, in
      strictly increasing lexicographic order. */
  lemma {:induction false} RowsBeforeContents(i: nat, n: nat)
    requires i <= n
    ensures forall a: nat, b: nat :: (a, b) in RowsBefore(i, n) <==> a < i && a < b < n
    ensures forall k :: 0 <= k < |RowsBefore(i, n)| ==> RowsBefore(i, n)[k].0 < i
    ensures forall k, m :: 0 <= k < m < |RowsBefore(i, n)| ==>
      PairLess(RowsBefore(i, n)[k], RowsBefore(i, n)[m])
  {
    if i > 0 {
      RowsBeforeContents(i - 1, n);
      var prev, row := RowsBefore(i - 1, n), RowPairs(i - 1, n);
      forall a: nat, b: nat
        ensures (a, b) in prev + row <==> a < i && a < b < n
      {
        if (a, b) in row {
          var k :| 0 <= k < |row| && row[k] == (a, b);
        }
        if a == i - 1 && a < b < n {
          assert row[b - i] == (a, b);
        }
      }
      forall k, m | 0 <= k < m < |prev + row|
        ensures PairLess((prev + row)[k], (prev + row)[m])
      {
        if m >= |prev| && k < |prev| {
          assert (prev + row)[k] == prev[k];
        }
      }
    }
  }

  /** Lexicographic order on pairs. */
  predicate PairLess(p: (nat, nat), q: (nat, nat))
  {
    p.0 < q.0 || (p.0 == q.0 && p.1 < q.1)
  }

  /** The main loop compares every pair i < j of files exactly once, in
      lexicographic order. */
  lemma AllPairsContents(n: nat)
    ensures forall a: nat, b: nat :: (a, b) in AllPairs(n) <==> a < b < n
    ensures forall k, m :: 0 <= k < m < |AllPairs(n)| ==> PairLess(AllPairs(n)[k], AllPairs(n)[m])
  {
    RowsBeforeContents(n, n);
  }

  /** `results` is the concatenation, pair by pair, of a comparison of the
      two files of each pair. */
  ghost predicate ComparesPairs(test: Test, pdfs: seq<PdfData>, minLen: int, pairs: seq<(nat, nat)>,
                                results: seq<PdfResult>)
    requires PairsInRange(pairs, |pdfs|)
  {
    if |pairs| == 0 then results == []
    else
      var p := pairs[|pairs| - 1];
      exists m :: 0 <= m <= |results| &&
        ComparesPairs(test, pdfs, minLen, pairs[..|pairs| - 1], results[..m]) &&
        IsComparisonOf(test, pdfs[p.0], pdfs[p.1], minLen, results[m..])
  }

  lemma ComparesPairsAppend(test: Test, pdfs: seq<PdfData>, minLen: int, pairs: seq<(nat, nat)>,
                            results: seq<PdfResult>, p: (nat, nat), more: seq<PdfResult>)
    requires PairsInRange(pairs, |pdfs|)
    requires p.0 < |pdfs| && p.1 < |pdfs|
    requires ComparesPairs(test, pdfs, minLen, pairs, results)
    requires IsComparisonOf(test, pdfs[p.0], pdfs[p.1], minLen, more)
    ensures ComparesPairs(test, pdfs, minLen, pairs + [p], results + more)
  {
    var ps, rs := pairs + [p], results + more;
    assert ps[..|ps| - 1] == pairs && ps[|ps| - 1] == p;
    assert rs[..|results|] == results && rs[|results|..] == more;
  }

  /** The pairs compared once row i has reached column j. */
  function DonePairs(i: nat, j: nat, n: nat): seq<(nat, nat)>
    requires i < n && i < j <= n
  {
    RowsBefore(i, n) + RowPairs(i, n)[..j - i - 1]
  }

  lemma {:induction false} RowsBeforeInRange(i: nat, n: nat)
    requires i <= n
    ensures PairsInRange(RowsBefore(i, n), n)
  {
    if i > 0 {
      RowsBeforeInRange(i - 1, n);
    }
  }

  /** A row starts with the pairs of the rows above it and ends with
      those of the rows down to it. */
  lemma DonePairsRow(i: nat, n: nat)
    requires i < n
    ensures DonePairs(i, i + 1, n) == RowsBefore(i, n)
    ensures DonePairs(i, n, n) == RowsBefore(i + 1, n)
  {
    var row := RowPairs(i, n);
    assert row[..0] == [];
    assert row[..n - i - 1] == row;
  }

  /** Column j of row i adds the pair (i, j). */
  lemma DonePairsStep(i: nat, j: nat, n: nat)
    requires i < j < n
    ensures DonePairs(i, j + 1, n) == DonePairs(i, j, n) + [(i, j)]
    ensures PairsInRange(DonePairs(i, j + 1, n), n)
  {
    var row := RowPairs(i, n);
    assert row[..j - i] == row[..j - i - 1] + [(i, j)];
    RowsBeforeInRange(i, n);
  }

  /** The pair loop of main: compares every file with every later one and
      gathers the results; the source applies the test `AsWritten`. main
      panics with fewer than two files. */
  method CompareAll(test: Test, allPdfs: seq<PdfData>, minLen: int) returns (results: seq<PdfResult>)
    requires |allPdfs| >= 2
    ensures PairsInRange(AllPairs(|allPdfs|), |allPdfs|)
    ensures ComparesPairs(test, allPdfs, minLen, AllPairs(|allPdfs|), results)
  {
    var n := |allPdfs|;
    results := [];
    for i := 0 to n
      invariant PairsInRange(RowsBefore(i, n), n)
      invariant ComparesPairs(test, allPdfs, minLen, RowsBefore(i, n), results)
    {
      results := CompareRow(test, allPdfs, minLen, i, results);
    }
    assert AllPairs(n) == RowsBefore(n, n);
  }

  /** The inner loop of main's pair loop: compares file i with every later
      file, appending to the results so far. */
  method CompareRow(test: Test, allPdfs: seq<PdfData>, minLen: int, i: nat, before: seq<PdfResult>)
    returns (results: seq<PdfResult>)
    requires i < |allPdfs|
    requires PairsInRange(RowsBefore(i, |allPdfs|), |allPdfs|)
    requires ComparesPairs(test, allPdfs, minLen, RowsBefore(i, |allPdfs|), before)
    ensures PairsInRange(RowsBefore(i + 1, |allPdfs|), |allPdfs|)
    ensures ComparesPairs(test, allPdfs, minLen, RowsBefore(i + 1, |allPdfs|), results)
  {
    var n := |allPdfs|;
    results := before;
    DonePairsRow(i, n);
    for j := i + 1 to n
      invariant PairsInRange(DonePairs(i, j, n), n)
      invariant ComparesPairs(test, allPdfs, minLen, DonePairs(i, j, n), results)
    {
      var pdf1 := allPdfs[i];
      var pdf2 := allPdfs[j];
      var newResults := CompareFiles(test, pdf1, pdf2, minLen);
      DonePairsStep(i, j, n);
      ComparesPairsAppend(test, allPdfs, minLen, DonePairs(i, j, n), results, (i, j), newResults);
      results := results + newResults;
    }
  }

  predicate PairsInRange(pairs: seq<(nat, nat)>, n: nat)
  {
    forall k :: 0 <= k < |pairs| ==> pairs[k].0 < n && pairs[k].1 < n
  }
}
