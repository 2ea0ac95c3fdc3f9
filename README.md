# Word diff and resume-check helpers, modelled in Dafny

This project models the text-comparison core of a resume tailoring tool. Its centre is the
word-level diff that shows a tailored bullet point against the original (`computeWordDiff`).
The diff splits both texts into word and whitespace tokens and finds a longest common
subsequence of the tokens, compared without regard to case. It types each token of the
tailored text as `unchanged` or `added`, then merges neighbouring tokens of the same type. When
keywords are given, it also marks `added` segments that contain a job keyword as
`added-from-job`. Next to it sits `findBestMatch`, which picks the original bullet that shares
the most words with a tailored one.

The project also models the helpers the diff shares with the evaluation assertions:
- the regex escaper and the `\b…\b` case-insensitive word matcher;
- the three assertions, which check that the bullets do not name the company, contain no
  forbidden term, and keep every resume skill the job description asks for;
- three pure helpers of the job-fetching script: the file-name slug, the position taken from a
  search-result title, and the job-page filter;
- the PDF download name.

Modules follow the source files:

| module | models |
|---|---|
| `JsString`, `Sequences`, `Options` | the JavaScript built-ins the sources chain: `toLowerCase`, `trim`, `split`, `join`, `includes`, `startsWith`, `filter`, `map`, `flat`; `\s` and `\w` |
| `WordRegex` | `escapeRegex`, the `\bTERM\b` pattern (parsed into atoms and matched), `matchesWordBoundary` |
| `Tokenizer` | `tokenize` and the `split(/\s+/)` word lists |
| `Lcs` | `findLCS`: the table fill and the walk-back, as methods over an `array2`, proved equal to recursive definitions |
| `DiffSegments` | `buildDiffSegments`, the two neighbour searches and `mergeSegments` (methods with loops), and their specifications |
| `TextDiff` | `markKeywordMatches` and `computeWordDiff` |
| `BestMatch` | `findBestMatch` (a method whose inner counting loop is the method `CountCommon`) |
| `AssertionUtils`, `NoCompanyInBullets`, `NoForbiddenTerms`, `RequiredTermsPresent` | the assertions |
| `FetchJobs` | `sanitizeFilename`, `extractPositionFromTitle`, `isValidJobDescription` |
| `PdfGenerator` | `getFilename` |

Regular expressions are modelled by what they match and how the leftmost match is chosen.
Where a pattern could backtrack, the comment on the function says why the outcome is fixed.
`\b` is "the word-ness of the two neighbouring characters differs", with the ends of the text
counting as non-word. So a term that ends in a non-word character, such as `C++`, does not
match before a space or at the end of a text (`WordRegex.NoBoundaryNotMatched`;
`WordRegex.CppNotMatchedBeforeSpace` is one case).

The skill scan of the required-terms assertion reads every object whose first key is `name`,
not only skill entries. On the resume data in the repository it finds the contact block's
name and the certification's name, and no skill entry: in that data the objects that open with
a `name` key are those two, not skills. Both kinds of object have the same shape, so the model
scans them as the source does; `RequiredTermsPresent.SingleEntryScanned` states what the scan
yields for one such object.

## Model

| member | source | states |
|---|---|---|
| WordRegex.EscapeRegexLength | promptfoo/assertions/utils.ts:27-29 | the escaped string is the input plus one backslash per special character |
| WordRegex.EscapeRegexIdentity | promptfoo/assertions/utils.ts:27-29 | a string without special characters is escaped to itself |
| WordRegex.ParseEscaped | promptfoo/assertions/utils.ts:27-32 | an escaped term read back as a pattern is the sequence of its characters as literals: removing the backslashes gives the term back |
| WordRegex.EscapeRegexExample | promptfoo/assertions/__tests__/assertions.test.ts:36-46 | `C++` escapes to `C\+\+`; `React` escapes to itself |
| WordRegex.BoundaryPatternParses | promptfoo/assertions/utils.ts:31-32 | the pattern built from a term is a word boundary, the term's literals, and a word boundary |
| WordRegex.SearchFromSpec | promptfoo/assertions/utils.ts:33 | a regex test succeeds iff the atoms match at some position at or after the start, in both directions |
| WordRegex.MatchLiterals | promptfoo/assertions/utils.ts:32-33 | literal atoms match at a position iff the text there equals the term, ignoring case |
| WordRegex.RegexTestBoundaryPattern | promptfoo/assertions/utils.ts:31-34 | the regex test holds iff the term occurs, ignoring case, with a `\b` transition at both ends |
| WordRegex.MatchesWordBoundary | promptfoo/assertions/utils.ts:31-34 | `matchesWordBoundary` is true iff such a bounded occurrence exists |
| WordRegex.MatchesWordBoundaryIgnoresCase | promptfoo/assertions/utils.ts:32 | lower-casing the text or the term does not change the result |
| WordRegex.NoBoundaryNotMatched | promptfoo/assertions/utils.ts:31-34 | an occurrence is not a match when its first or last character has the same word-ness as the text character just outside it, as when it continues into a word |
| WordRegex.MatchInContext | promptfoo/assertions/utils.ts:31-34 | a match inside a piece stays a match when the piece is put between non-word characters |
| WordRegex.ScalaNotInScalable | promptfoo/assertions/__tests__/assertions.test.ts:53-55 | `scala` does not match in `scalable system` |
| WordRegex.CppNotMatchedBeforeSpace | promptfoo/assertions/utils.ts:31-34 | `C++` never matches in `I know C++ well` |
| WordRegex.FrontEndInText | promptfoo/assertions/__tests__/assertions.test.ts:69-73 | `front-end` matches in `Using front-end tools` |
| JsString.TrimSpec | promptfoo/assertions/no-company-in-bullets.ts:12 | `trim` cuts whitespace from both ends only; the result is empty iff the input is all whitespace |
| JsString.SplitJoin | promptfoo/assertions/no-forbidden-terms.ts:10 | joining the pieces of a split with the separator gives the text back; no piece holds the separator |
| JsString.JoinSplit | promptfoo/assertions/no-forbidden-terms.ts:10 | splitting lines joined by newlines gives the lines back |
| JsString.LowerTrim | promptfoo/assertions/no-company-in-bullets.ts:12-19 | trimming and lower-casing commute |
| Tokenizer.TokenizeSpec | src/utils/textDiff.ts:28-31 | concatenating the tokens gives the text; tokens are non-empty, all whitespace or free of it, and the two kinds alternate; no tokens iff empty text |
| Tokenizer.WordsAreTokens | src/utils/textDiff.ts:190-198 | the word list of a text is its lower-cased token list without the whitespace tokens |
| Tokenizer.WordsSpec | src/utils/textDiff.ts:190-198 | every word is non-empty and free of whitespace |
| Lcs.FillTable | src/utils/textDiff.ts:33-49 | every table cell holds the longest-common-subsequence length of the two prefixes |
| Lcs.FindLcs | src/utils/textDiff.ts:33-73 | the method returns exactly the modified-side positions of the walk-back through the recurrence |
| Lcs.WalkBackIsCommon | src/utils/textDiff.ts:51-65 | the walk-back pairs form a common subsequence, case-insensitively, and have the table's length |
| Lcs.WalkBackLength | src/utils/textDiff.ts:51-65 | the walk-back collects as many pairs as the table entry it starts from |
| Lcs.LcsIsLongest | src/utils/textDiff.ts:41-49 | no common subsequence is longer than the recurrence's value |
| Lcs.LcsIndicesSpec | src/utils/textDiff.ts:33-73 | the returned positions belong to one common subsequence of maximal length, have that many elements and are in range |
| Lcs.LcsIndicesIdentity | src/utils/textDiff.ts:51-65 | comparing a token list with itself keeps every position |
| DiffSegments.FindPrevNonWhitespaceType | src/utils/textDiff.ts:105-116 | the loop returns the type of the nearest word token before the index, or nothing |
| DiffSegments.FindNextNonWhitespaceType | src/utils/textDiff.ts:118-129 | the loop returns the type of the nearest word token after the index, or nothing |
| DiffSegments.PrevWordTypeSpec | src/utils/textDiff.ts:105-116 | nothing is found iff all earlier tokens are whitespace; otherwise the result types the last earlier word token |
| DiffSegments.NextWordTypeSpec | src/utils/textDiff.ts:118-129 | nothing is found iff all later tokens are whitespace; otherwise the result types the first later word token |
| DiffSegments.TokenTypeSpec | src/utils/textDiff.ts:82-98 | a token is typed `unchanged` or `added`; a word token is `unchanged` iff it is in the common subsequence; a whitespace token is `added` iff the nearest words on both sides exist and are both `added` |
| DiffSegments.EdgeWhitespaceUnchanged | src/utils/textDiff.ts:86-93 | leading and trailing whitespace is always `unchanged` |
| DiffSegments.MergeSegments | src/utils/textDiff.ts:131-149 | the loop computes the merge of the segments |
| DiffSegments.BuildDiffSegments | src/utils/textDiff.ts:75-103 | the loop computes the merged typed tokens |
| DiffSegments.Merge | src/utils/textDiff.ts:131-149 | merging keeps the first segment's type and never makes more segments |
| DiffSegments.MergeText | src/utils/textDiff.ts:131-149 | merging keeps the concatenated text |
| DiffSegments.MergeAlternates | src/utils/textDiff.ts:131-149 | no two neighbouring merged segments share a type |
| DiffSegments.MergeKinds | src/utils/textDiff.ts:131-149 | merging creates no type that the input did not have |
| DiffSegments.MergeOfAlternating | src/utils/textDiff.ts:131-149 | segments that already alternate are kept as they are |
| DiffSegments.MergeIdempotent | src/utils/textDiff.ts:131-149 | merging twice is merging once |
| DiffSegments.MergeUniform | src/utils/textDiff.ts:131-149 | segments of one type merge into one segment holding all the text |
| DiffSegments.MergeNonEmpty | src/utils/textDiff.ts:131-149 | merging non-empty segments gives non-empty segments |
| DiffSegments.RawSegmentsText | src/utils/textDiff.ts:82-99 | the typed tokens concatenate to the tokens' text |
| TextDiff.ComputeWordDiff | src/utils/textDiff.ts:11-26 | the method returns the diff function's value: tokenize, common subsequence, segments, and the marking only for a non-empty keyword list |
| TextDiff.AnyKeywordMatchesSpec | src/utils/textDiff.ts:159-170 | a text matches the keyword patterns iff some keyword occurs in it, ignoring case, between word boundaries |
| TextDiff.NothingMatchesEmpty | src/utils/textDiff.ts:166-167 | no keyword matches an empty text, so the length test changes nothing |
| TextDiff.MarkKeywordMatchesSpec | src/utils/textDiff.ts:155-178 | marking keeps the count and every text and leaves non-`added` segments alone; an `added` segment becomes `added-from-job` iff a keyword occurs in its trimmed text between word boundaries, and `added` otherwise |
| TextDiff.MarkWithoutKeywords | src/utils/textDiff.ts:155-178 | marking with no keywords changes nothing |
| TextDiff.EmptyKeywordsSameAsNone | src/utils/textDiff.ts:22-25 | an empty keyword list gives the same diff as no list |
| TextDiff.WordDiffText | src/utils/textDiff.ts:11-26 | the segment texts concatenate to the modified text, marked or not |
| TextDiff.UnmarkedDiffShape | src/utils/textDiff.ts:75-103 | before marking, segments are only `unchanged` or `added`, are non-empty and alternate |
| TextDiff.WordDiffAlternates | src/utils/textDiff.ts:155-178 | after marking, segments still alternate and none is `removed` |
| TextDiff.IdentityTokensUnchanged | src/utils/textDiff.ts:82-98 | comparing a text with itself types every token `unchanged` |
| TextDiff.WordDiffIdentity | src/utils/__tests__/textDiff.test.ts:6-9 | identical texts give one `unchanged` segment holding the text, or no segments for the empty text, whatever the keywords |
| TextDiff.WordDiffOfEmpty | src/utils/textDiff.ts:11-26 | an empty modified text gives no segments, whatever the original and the keywords |
| TextDiff.WordTokensUnchangedIffKept | src/utils/textDiff.ts:94-98 | a word token of the modified text is `unchanged` iff the common subsequence keeps its position |
| BestMatch.CommonCount | src/utils/textDiff.ts:199-204 | the number of shared words is at most the number of words |
| BestMatch.CountCommon | src/utils/textDiff.ts:199-204 | the inner loop counts, with repetition, the original words that are in the set of modified words |
| BestMatch.ScoreBounds | src/utils/textDiff.ts:205 | a score lies between 0 and 1 |
| BestMatch.FindBestMatch | src/utils/textDiff.ts:184-213 | null iff there are no originals; otherwise the first original with the highest score |
| BestMatch.FirstBestUnique | src/utils/textDiff.ts:206-209 | the first best original is unique |
| BestMatch.FullCoverageWins | src/utils/textDiff.ts:197-210 | an original whose words all occur in the modified text scores 1 and wins unless an earlier one also scores 1 |
| BestMatch.FullCount | src/utils/textDiff.ts:199-204 | when every word is in the vocabulary, all words count |
| AssertionUtils.CreateFailure | promptfoo/assertions/utils.ts:19-25 | the failure has `pass` false, score 0 and the given reason |
| AssertionUtils.BulletMatchInAllBulletText | promptfoo/assertions/no-company-in-bullets.ts:16-19 | a term that matches in one bullet of any job matches in the space-joined bullets |
| AssertionUtils.NoBulletsNoMatch | promptfoo/assertions/no-company-in-bullets.ts:16-17 | without bullets the joined text is empty, and nothing matches it |
| AssertionUtils.AllBulletTextLower | promptfoo/assertions/no-forbidden-terms.ts:23 | lower-casing every bullet lower-cases the joined text |
| NoCompanyInBullets.InvalidJsonFails | promptfoo/assertions/no-company-in-bullets.ts:5-8 | output without JSON fails with the fixed reason |
| NoCompanyInBullets.NoCompanyNamePasses | promptfoo/assertions/no-company-in-bullets.ts:10-14 | a missing, empty or blank company name passes |
| NoCompanyInBullets.CompanyNameVerdict | promptfoo/assertions/no-company-in-bullets.ts:16-25 | with a name, it fails iff the trimmed name has a bounded occurrence in the joined bullets; the reason quotes the untrimmed name |
| NoCompanyInBullets.CompanyInOneBulletFails | promptfoo/assertions/__tests__/assertions.test.ts:151-161 | a name found in one bullet of any job fails the check |
| NoCompanyInBullets.NoBulletsPass | promptfoo/assertions/no-company-in-bullets.ts:16-19 | output without bullets passes |
| NoCompanyInBullets.CaseInsensitive | promptfoo/assertions/__tests__/assertions.test.ts:132-141 | lower-casing the name and the bullets does not change the verdict |
| NoCompanyInBullets.AcmeCorpInBullet | promptfoo/assertions/__tests__/assertions.test.ts:97-110 | `Acme Corp` matches in `Built a system for Acme Corp` |
| NoForbiddenTerms.LoadedTermsShape | promptfoo/assertions/no-forbidden-terms.ts:9-13 | every term is non-empty, trimmed, not a `#` comment and lower-case |
| NoForbiddenTerms.LoadForbiddenTermsRoundTrip | promptfoo/assertions/no-forbidden-terms.ts:9-13 | a file of trimmed, lower-case terms, one per line with no blanks or comments, loads back exactly those terms in order |
| NoForbiddenTerms.LoadEmptyContent | promptfoo/assertions/no-forbidden-terms.ts:9-13 | an empty file gives no terms |
| NoForbiddenTerms.InvalidJsonFails | promptfoo/assertions/no-forbidden-terms.ts:17-20 | output without JSON fails with the fixed reason |
| NoForbiddenTerms.PassesIffNoTermFound | promptfoo/assertions/no-forbidden-terms.ts:22-35 | it passes iff no term has a bounded occurrence in the joined bullets |
| NoForbiddenTerms.FailureNamesFoundTerms | promptfoo/assertions/no-forbidden-terms.ts:27-33 | a failure's reason joins the found terms with `, `; they are exactly the matching terms, in file order |
| NoForbiddenTerms.TermInOneBulletFails | promptfoo/assertions/no-forbidden-terms.ts:22-32 | a term found in one bullet of any job fails the check |
| NoForbiddenTerms.NoBulletsPass | promptfoo/assertions/no-forbidden-terms.ts:22-23 | output without bullets passes |
| RequiredTermsPresent.SkillMatchAt | promptfoo/assertions/required-terms-present.ts:10 | a match ends after its start and inside the text |
| RequiredTermsPresent.ScannedSkillsShape | promptfoo/assertions/required-terms-present.ts:10-17 | every scanned name is non-empty, lower-case and free of quotes |
| RequiredTermsPresent.NoBraceNoSkills | promptfoo/assertions/required-terms-present.ts:10 | a text without `{` yields no names |
| RequiredTermsPresent.SingleEntryScanned | promptfoo/assertions/required-terms-present.ts:10-17 | one `{ name: '…'` object followed by text without braces yields exactly its lower-cased name |
| RequiredTermsPresent.InvalidJsonFails | promptfoo/assertions/required-terms-present.ts:24-27 | output without JSON fails with the fixed reason |
| RequiredTermsPresent.NoJobDescriptionPasses | promptfoo/assertions/required-terms-present.ts:34-42 | a missing or empty job description passes |
| RequiredTermsPresent.NothingMentionedInEmpty | promptfoo/assertions/required-terms-present.ts:34-38 | an empty job description mentions no name |
| RequiredTermsPresent.MentionedVerdictPasses | promptfoo/assertions/required-terms-present.ts:40-54 | given the mentioned names, the verdict passes iff each of them matches the bullet text |
| RequiredTermsPresent.MentionedVerdictFails | promptfoo/assertions/required-terms-present.ts:44-52 | a failing verdict carries the reason built from the missing names, which are non-empty, a sublist of the mentioned names, and exactly those mentioned names that do not match |
| RequiredTermsPresent.PassesIffNothingMissing | promptfoo/assertions/required-terms-present.ts:40-54 | it passes iff every mentioned name matches the lower-cased bullets |
| RequiredTermsPresent.PassesIffMentionedTermsPresent | promptfoo/assertions/required-terms-present.ts:29-54 | it passes iff every resume name with a bounded occurrence in the job description also has one in the bullets |
| RequiredTermsPresent.FailureNamesMissingTerms | promptfoo/assertions/required-terms-present.ts:36-52 | a failure's reason joins the missing names; these are a sublist of the mentioned names, which are a sublist of the scanned names, and they are exactly the names mentioned and not in the bullets |
| FetchJobs.SanitizeFilenameShape | scripts/fetch-jobs.ts:39-47 | the slug is made of `a-z`, `0-9` and `-`, holds no `--`, is at most 50 long and does not end with `-` |
| FetchJobs.SanitizeFilenameIdempotent | scripts/fetch-jobs.ts:39-47 | sanitizing a slug gives it back |
| FetchJobs.SanitizeSlug | scripts/fetch-jobs.ts:39-47 | a text of `a-z`, `0-9` and `-` with no `--`, at most 50 characters and no trailing `-` is its own file name |
| FetchJobs.CollapseDashesNoDoubleDash | scripts/fetch-jobs.ts:44 | collapsing dash runs leaves no `--` |
| FetchJobs.CollapseRunsChars | scripts/fetch-jobs.ts:43-44 | each collapsed character is a `-` or a character from outside the runs |
| FetchJobs.FirstSuffixSeparator | scripts/fetch-jobs.ts:88-91 | it finds the leftmost separator from which the site-suffix pattern matches to the end, with no such separator before it, or reports that none matches |
| FetchJobs.StripSiteSuffix | scripts/fetch-jobs.ts:88-91 | the title is cut at the start of the whitespace before the leftmost separator whose tail matches, leaving a proper prefix, and is kept whole when no separator's tail matches |
| FetchJobs.AtSuffixStart | scripts/fetch-jobs.ts:92 | a trailing `at <word>` match starts inside the title |
| FetchJobs.TrailingWordRunFixed | scripts/fetch-jobs.ts:92 | a word run that ends the title right after whitespace is the maximal trailing one, the only one `\s+\w+$` can match |
| FetchJobs.SpaceRunAfterAt | scripts/fetch-jobs.ts:92 | the whitespace after a matched `at` starts right after it, since neither `a` nor `t` is whitespace |
| FetchJobs.AtSuffixMatchFixed | scripts/fetch-jobs.ts:92 | every match of `\s*at\s+\w+$` uses the word run ending the title and the `at` right before the whitespace in front of it |
| FetchJobs.AtSuffixStartMeaning | scripts/fetch-jobs.ts:92 | `Some(p)`: from `p` on the title is whitespace, `at` in any case, whitespace and a word run to the end, and no match starts earlier; `None` exactly when no position matches |
| FetchJobs.BeforeFirstSeparator | scripts/fetch-jobs.ts:96 | the first split piece is the prefix that ends at the first separator |
| FetchJobs.ExtractPositionShape | scripts/fetch-jobs.ts:85-99 | the position is non-empty, trimmed and holds no separator |
| FetchJobs.PlainTitleKept | scripts/fetch-jobs.ts:87-98 | a title without separators or a trailing `at <word>` gives its trimmed self, or the default when blank |
| FetchJobs.ListingTitleRejected | scripts/fetch-jobs.ts:110-112 | a page whose title contains `view jobs` or `all jobs` is rejected whatever its content |
| FetchJobs.SearchResultsRejected | scripts/fetch-jobs.ts:113 | content with both `showing` and `results`, in either order, is rejected whatever the title |
| FetchJobs.ShowingWithoutResultsAccepted | scripts/fetch-jobs.ts:110-127 | `showing` without `results` does not reject: with a job phrase and no error marker or listing title the page is accepted |
| FetchJobs.JobPhraseAccepted | scripts/fetch-jobs.ts:104-127 | a page containing any of the six job phrases is accepted unless it has an error marker, both `showing` and `results`, or a listing title |
| FetchJobs.NoJobPhraseRejected | scripts/fetch-jobs.ts:119-127 | a page whose lower-cased content has none of the six job phrases is rejected whatever the title |
| FetchJobs.IsValidJobDescriptionIgnoresCase | scripts/fetch-jobs.ts:102-103 | lower-casing the page or the title does not change the verdict |
| FetchJobs.ErrorPageRejected | scripts/fetch-jobs.ts:104-107 | a page containing `404 error` or `couldn't find anything` is rejected whatever else it holds |
| PdfGenerator.GetFilename | src/services/pdf/pdfGenerator.ts:3-10 | every name starts with `Turman, Adam - Resume` and ends with `.pdf`; an empty company gives the plain name; otherwise the company appears verbatim in parentheses |
| PdfGenerator.FilenameNamesCompany | src/services/pdf/pdfGenerator.ts:9 | the company name can be read back from the file name |
| PdfGenerator.GetFilenameInjective | src/services/pdf/pdfGenerator.ts:5-10 | distinct company names give distinct file names |

## Left out

- Case mapping covers the ASCII letters only. `toLowerCase` maps other letters too, and a few of them lower-case to ASCII (the Kelvin sign becomes `k`). The regex `i` flag outside unicode mode never maps a non-ASCII letter to an ASCII one.
- `extractJson` wraps `JSON.parse`, a foreign parser. Each assertion takes its result as an input: the parsed output, or nothing.
- Parsed output is taken as given. The company name is absent when it is missing or not a string. The bullets are given as the `Object.values` lists in their order. Values that are not string arrays are not modelled.
- The assertions read files from disk and the context holds the job description. The file contents and the job description are parameters.
- The `.js` and `.cjs` copies of the assertions are left out, since they duplicate the TypeScript logic.
- RequiredTermsPresent.ScanSkills: takes the capture of each outer match directly. The source matches `name:` again inside each match. That re-match always finds the same capture, because the matched text begins with `{` and whitespace only, so its null filter removes nothing.
- BestMatch.Score: computed as an exact rational, not a double. A double division may round two different ratios to the same value; for word counts of bullet size it does not.
- The `${idx}` string keys of the common-subsequence set are modelled as a set of naturals. Decimal rendering is injective, so membership tests agree.
- `Lcs.LcsIndices` keeps the positions of whitespace tokens too, as the source does. Only the word positions affect the diff.
- `fetchJobs`, `extractCompanyFromUrl`, the network calls and the file writes are left out. So are `buildResumePrompt` and `extractCompanyName`, the document and PDF generators, the server, the AI providers and the user interface.
