# pdf-compare-go, modelled in Dafny

pdf-compare-go looks for text that a batch of PDF files share. Each file's
pages become a `PdfData`. It holds:

- the page texts, and the text of each page reduced to its digits;
- the page texts joined with `|`, and the digit strings joined with `|`.

Every pair of files is compared twice:

- the two full texts, with a minimum match length taken from the command
  line;
- the two full digit strings, with minimum length 15.

A comparison joins the two strings as `text1 + "||" + text2`. It builds the
suffix array of the result and, with Kasai's algorithm, its LCP array. It
keeps the shared prefix of each neighbouring pair of suffixes that is long
enough, where one suffix starts in the first text and the other after it,
and the prefix does not run past the first text. It sorts those candidates longest first and drops every candidate
that an earlier one contains. Each surviving match becomes a record with:

- a preview;
- its length;
- the page it is found on in each file.

The model is in five modules, one per file:

- `Strings` (`strings.dfy`): the string operations of the Go standard
  library that the program relies on.
  - `strings.Contains`, `strings.Split` and `strings.Join`.
  - Removing the non-digits, which the program does with a regular
    expression.
  - Replacing newlines.
  - `strconv.Itoa`.
- `SuffixArrays` (`suffix_array.dfy`): byte order on suffixes and
  common-prefix length. It defines what a suffix array is, gives a
  construction of one, and proves that it is unique.
- `Lcp` (`kasai.dfy`): `kasai`, as imperative code over arrays, proved to
  produce the LCP array.
- `CommonSubstrings` (`common_substrings.dfy`): `min` and `max`, the
  candidate loop, the sort, `isSubsetOfAnyExisting`, the filtering loop and
  `findCommonSubstrings`. The result is described without any suffix array,
  in `IsCommonSubstringsResult`:
  - every string of the result is a candidate;
  - every candidate lies inside some string of the result;
  - the result is longest first;
  - no string of the result contains another.

  Here a candidate is the shared prefix of two suffixes of the combined text
  that are adjacent in suffix order and pass the test.

  The test is a parameter of type `Test`. `AsWritten` is the test of
  `main.go`: the later suffix must start after the end of the first text.
  `Corrected` asks it to start after both separator bytes, inside the second
  text (see "Findings"). Every operation from the candidate loop up to the
  pair loop of `main` takes this parameter. With `AsWritten` it is the
  program; every lemma about the pipeline holds for both tests unless it
  names one.
- `PdfCompare` (`pdf_compare.dfy`): `getShortFilename`, `getPageDigits`,
  `getPdfData`, `getStringPreview`, `findPage`, `compareFiles` and the
  pair loop of `main`.

Where the code runs a loop, the model is a method with that loop and its
invariants, proved against a function or predicate. Where the code computes
a value, the model is a function.

A few points where the model follows the code closely:

- `findCommonSubstrings` reads each candidate at `j1 = sa[i-1]`, as the code
  does. `SharedPrefixSlices` proves that reading it at `min(j1, j2)` gives
  the same string.
- `kasai` is split into its first loop (`InverseSuffixArray`), its second
  loop (`ScanOffsets`), one pass of that loop (`VisitOffset`) and its inner
  loop (`ExtendMatch`). The inner loop is bounded by `n`, the length of the
  suffix array, as the code does; that is the text length for a suffix
  array.
- The pair loop of `main` is `CompareAll`, and its inner loop is
  `CompareRow`.
- The two result loops of `compareFiles` are one method, `ReportMatches`,
  called once for the text matches and once for the digit matches.

Strings are `seq<char>`, one `char` per byte. The order on suffixes is
character order, which is byte order for the bytes the program sees.

## Model

| member | source | states |
|---|---|---|
| CommonSubstrings.Min | main.go:24-29 | the result is one of the two arguments and no larger than either |
| CommonSubstrings.Max | main.go:31-36 | the result is one of the two arguments and no smaller than either |
| Strings.Contains | main.go:168 | the needle occurs in the haystack as a contiguous block (strings.Contains, also used at main.go:378 and 384); a needle that occurs is no longer than the haystack |
| SuffixArrays.SuffixArray | main.go:58-96 | returns a suffix array of the text: every offset exactly once, consecutive suffixes in strictly increasing byte order |
| SuffixArrays.SuffixArrayUnique | main.go:58-96 | a text has only one suffix array, so any construction returns what the library index holds |
| SuffixArrays.CommonPrefixLengthIsLongest | main.go:102-109 | the common prefix length is a shared prefix that cannot be extended |
| SuffixArrays.BananaSuffixArray | main.go:59-71 | the suffix array of "banana$" is [6, 5, 3, 1, 0, 4, 2] |
| Lcp.Kasai | main.go:98-162 | the result is the LCP array: 0 at rank 0, and at every other rank the common prefix length of that suffix and its predecessor |
| Lcp.InverseSuffixArray | main.go:116-125 | invSuff maps every offset to its rank and every rank back to its offset |
| Lcp.ScanOffsets | main.go:127-161 | visiting the offsets in text order and carrying k fills in the whole LCP array |
| Lcp.VisitOffset | main.go:132-158 | at an offset of rank 0 the counter becomes 0 and the LCP array is unchanged; otherwise the entry at the rank of offset i, and only it, becomes its common prefix length with its predecessor, and the counter becomes that length less one, or 0 |
| Lcp.ExtendMatch | main.go:146-150 | starting from k bytes known to match, the loop stops exactly at the common prefix length |
| Lcp.KasaiStep | main.go:146-157 | if the suffix at p shares h >= 2 bytes with its predecessor, the suffix at p+1 has a predecessor and shares at least h-1 with it, so starting from k-1 is sound |
| Lcp.BananaLcp | main.go:99-109 | the LCP array of "banana$" is [0, 0, 1, 3, 0, 0, 2] |
| CommonSubstrings.Combined | main.go:212 | the combined text is the first text, two separator bytes, then the second text |
| CommonSubstrings.Accepts | main.go:220-228 | isLongEnough, isInBoth and doesNotCross together: the match is longer than minLen, one suffix starts in the first text and the other after LaterBound (len(text1) for the source's test, one byte later for the corrected one), and the match read from the first text does not run past its end; accepted, the earlier suffix's match lies inside the first text and the later suffix starts beyond it |
| CommonSubstrings.CollectCandidates | main.go:216-234 | the loop appends, in rank order, the shared prefix of each pair of neighbouring suffixes that passes the given test |
| CommonSubstrings.CandidatesAreExactly | main.go:216-234 | for either test, a string is collected from the suffix array exactly when it is a candidate: the shared prefix of two suffixes adjacent in suffix order that pass the test |
| CommonSubstrings.NeighboursAreAdjacent | main.go:219-223 | the suffixes at ranks i-1 and i have no suffix strictly between them |
| CommonSubstrings.AdjacentAreNeighbours | main.go:219-223 | two adjacent suffixes sit at neighbouring ranks |
| CommonSubstrings.SharedPrefixSlices | main.go:222-230 | the shared prefix reads the same from j1 and from j2 |
| CommonSubstrings.CandidateProperties | main.go:220-231 | every candidate is longer than minLen and occurs in the first text and in the combined text after the first text, that is in the second text preceded by one separator byte; under the corrected test it occurs in the second text |
| CommonSubstrings.SortByLength | main.go:238-241 | the result is a permutation of the candidates, longest first |
| CommonSubstrings.IsSubsetOfAnyExisting | main.go:164-173 | true exactly when some string of existing contains the new string |
| CommonSubstrings.RemoveContained | main.go:242-250 | keeps, in order, each candidate that no earlier candidate contains |
| CommonSubstrings.SurvivorsCover | main.go:242-250 | every candidate lies inside some kept string |
| CommonSubstrings.SurvivorsIsReduce | main.go:164-166 | testing against all earlier candidates drops exactly what testing against the strings kept so far would drop |
| CommonSubstrings.SurvivorsOfSorted | main.go:164-166 | on a longest-first input the kept strings stay longest first and none contains another |
| CommonSubstrings.FindCommonSubstrings | main.go:175-253 | for the given test, the result reduces the candidates: each of its strings is a candidate, each candidate lies inside one of its strings, it is longest first, and none of its strings contains another |
| CommonSubstrings.ResultsAreCommon | main.go:175-178 | every string of the result is longer than minLen and occurs in the first text and in the second text preceded by one separator byte; under the corrected test every string is a common substring of the two texts |
| CommonSubstrings.ResultsAgree | main.go:238-241 | two results for the same inputs hold the same strings, so the unstable sort changes only their order |
| CommonSubstrings.AbcdeExample | main.go:178-208 | for "abcde", "bcbcd" and minLen 2 the result is exactly ["bcd"], under either test |
| CommonSubstrings.AsWrittenKeepsSeparator | main.go:227 | for the texts "x" preceded by a separator byte and "x" with minLen 1, rank 3 of the only suffix array passes the source's test and yields "x" preceded by a separator byte, which is not in the second text; the corrected test rejects it |
| CommonSubstrings.AsWrittenSeparatorResult | main.go:175-253 | with the source's test, the result for those texts is exactly that one string, which the second text does not contain |
| CommonSubstrings.CorrectedDropsSeparator | main.go:227 | under the corrected test, the same inputs give an empty result |
| CommonSubstrings.CrossingMatchMissed | main.go:226-232 | for the first text "abc", the second text "abc" followed by a separator byte and "d", and minLen 2, the result is empty under either test, although "abc" is longer than minLen and occurs in both texts |
| Strings.Split | main.go:271 | there is at least one piece, and no piece holds the separator |
| Strings.Join | main.go:334-335 | strings.Join: empty for no parts, the part itself for one, otherwise the parts in order with the separator between neighbours; the first part is a prefix of the result; SplitJoin inverts it |
| Strings.SplitJoin | main.go:334-335 | splitting the joined pieces gives the pieces back when none holds the separator |
| Strings.KeepDigits | main.go:316-322 | only digits remain, and the result is no longer than the input |
| Strings.KeepDigitsConcat | main.go:316-322 | removing non-digits distributes over concatenation |
| Strings.FlattenNewlines | main.go:352 | same length, no newline, every newline replaced by a space and every other byte unchanged |
| Strings.DecimalRoundTrip | main.go:385 | the decimal form of a page number reads back as that number |
| Strings.NatToDecimal | main.go:385 | strconv.Itoa of a page number: the result is non-empty, holds only digits and has no leading zero; DecimalRoundTrip reads it back |
| Strings.SplitHeadIsBeforeFirst | main.go:378-380 | the first piece of a split is the longest prefix free of the separator |
| PdfCompare.ShortFilename | main.go:269-273 | the result holds no '/', ends the path, and is the whole path or follows a '/' |
| PdfCompare.ShortFilenameOfPath | main.go:269-273 | for dir + "/" + name, where name has no '/', the result is name |
| PdfCompare.ShortFilenameOfName | main.go:269-273 | a path without '/' is its own file name |
| PdfCompare.GetPageDigits | main.go:313-327 | one entry per page: that page's text with every non-digit removed |
| PdfCompare.GetPdfData | main.go:329-349 | keeps the path and the page texts; the name is the short file name, the digits are taken page by page, and both full strings are the pages joined with the page separator |
| PdfCompare.TextPagesRecoverable | main.go:334 | splitting the full text at the page separator gives the pages back when no page holds the separator |
| PdfCompare.DigitPagesRecoverable | main.go:335 | splitting the full digit string at the page separator always gives the digit pages back |
| PdfCompare.FullDigitsAreTextDigits | main.go:332-335 | the digits of the full digit string are the digits of the full text |
| PdfCompare.StringPreview | main.go:351-357 | every newline of the kept part becomes a space and every other byte of it is unchanged; a string of 97 bytes or more is cut to 97 bytes followed by "...", for 100 in all; a shorter one keeps its length |
| PdfCompare.FindPage | main.go:373-391 | the answer is the 1-based number of the first page holding the part of the match before its first page separator, or "Page not found" |
| PdfCompare.PageLabelMeaning | main.go:373-391 | "Page not found" exactly when no page holds that part; otherwise the answer reads back as a page number n, page n holds it and no earlier page does |
| PdfCompare.InfixIsFound | main.go:376-388 | a match that occurs in the joined pages is always found on some page |
| PdfCompare.InfixAfterSeparatorIsFound | main.go:376-388 | a match that occurs in the joined pages preceded by one separator byte is also always found on some page |
| PdfCompare.ReportMatches | main.go:399-419 | one record per match, in order: the given kind, the preview, the length, and the file name and page for each of the two files |
| PdfCompare.CompareFiles | main.go:393-450 | for the given test, the records of a result for the full texts with minLen, then those of a result for the full digit strings with minimum length 15 |
| PdfCompare.ComparisonSound | main.go:393-450 | under either test, for two files with at least one page each, every record is a text or a digit match longer than its minimum, names the two files in order, and has a page found in each file |
| PdfCompare.AsWrittenSeparatorRecord | main.go:393-419 | with the source's test, a file with pages "" and "x" against a file with page "x" and minLen 1 gets as first record "x" preceded by a separator byte, 2 bytes long, on page 1 of both files, although the second file's text does not contain it |
| PdfCompare.CompareAll | main.go:462-484 | for the given test, the results are the comparisons of the pairs i < j, concatenated in the loop's order |
| PdfCompare.CompareRow | main.go:478-483 | the inner loop compares file i with every later file j in increasing j, extending the results by one comparison per pair (i, j); with the rows before i, the results then compare every pair up to row i |
| PdfCompare.AllPairsContents | main.go:476-484 | the loop visits every pair i < j < n exactly once, in lexicographic order |

## Left out

- Reading the PDFs (go-fitz) is not modelled. The page texts are a
  parameter of `GetPdfData`.
- `parseFilenameString`, the command-line flags, JSON encoding and printing
  are not modelled. `CompareAll` starts from the list of `PdfData`.
- The image hashes are not modelled; the program leaves them empty.
- How the library builds its suffix array is not modelled: the
  `suffixarray` index, and the reflection and text parsing used to read the
  array out of it. `SuffixArray` is an insertion construction proved to
  return a suffix array. `SuffixArrayUnique` shows it is the one the index
  holds.
- UTF-8 is not modelled: text is a sequence of bytes, one `char` each.
- Integer overflow is not modelled: Go's `int` is 64 bits wide, and no text
  comes near that size.
- `main`'s panic when fewer than two file names are given is the
  precondition of `CompareAll`.
- SortByLength: states only a longest-first permutation. `sort.Slice` is
  not stable, and Go leaves the order of equal lengths unspecified.
  `ResultsAgree` shows that this order changes only the order of the
  result, not its strings.
- FindCommonSubstrings: describes the result up to that order of equal
  lengths, by `IsCommonSubstringsResult`. The result is not pinned to a
  single sequence.
- CompareFiles: inherits the same freedom; `IsComparisonOf` quantifies over
  the two results of `findCommonSubstrings`.
- KeepDigits: its own ensures gives only bounds. What it keeps is stated by
  its definition and by `KeepDigitsConcat` and `KeepDigitsOfDigits`.
- FindCommonSubstrings: no completeness is promised, because the program
  does not have it. `CrossingMatchMissed` shows this for "abc" against
  "abc|d" with minLen 2: the result is empty under either test, although
  "abc" is three bytes long and occurs in both texts. The suffixes that
  share "abc" also share the following '|', so their common prefix runs
  past the end of the first text. main.go:228 then rejects the pair
  instead of cutting the match back to "abc". The model proves the converse
  (`ResultsAreCommon`) and that the result covers every candidate.

## Findings

| source | as written | input that shows it | evidently intended | confidence | as-written member | corrected member |
|---|---|---|---|---|---|---|
| main.go:227 | `isInBoth` accepts a later suffix that starts at offset len(text1)+1. That offset is the second of the two separator bytes, so the match is read from a separator byte followed by text2. | text1 is a separator byte then "x"; text2 is "x"; minLen is 1. The result is the single string "separator byte then x", which does not occur in text2. In `compareFiles`, file 1 with pages "" and "x" and file 2 with page "x" get that match, reported on page 1 of both files. | the later suffix starts inside text2, at offset len(text1)+2 or after, so every match occurs in both texts | medium, not executed | CommonSubstrings.AsWrittenSeparatorResult | CommonSubstrings.ResultsAreCommon |

Both tests are modelled. `Test.AsWritten` is the code's test, and the
pipeline run with it is the program; `AsWrittenSeparatorResult` and
`AsWrittenSeparatorRecord` show its result on the input above.
`Test.Corrected` requires `jMax > len(text1) + 1`; `ResultsAreCommon` proves
that every string of its result is a common substring of the two texts, and
`CorrectedDropsSeparator` that the same input then gives no match.
