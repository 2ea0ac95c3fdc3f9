/** The pure helpers of the job-fetching script: the file-name slug of a job title, the
    position name cut out of a search-result title, and the filter that tells a single job
    description from an error or listing page. */
module FetchJobs {
  import opened Options
  import opened JsString
  import opened Sequences

  // ---------------------------------------------------------------- sanitizeFilename

  /** The characters `[^a-z0-9\s-]` does not remove. */
  predicate IsKeptChar(c: char)
  {
    ('a' <= c <= 'z') || ('0' <= c <= '9') || IsSpace(c) || c == '-'
  }

  /** The characters a file name is made of. */
  predicate IsSlugChar(c: char)
  {
    ('a' <= c <= 'z') || ('0' <= c <= '9') || c == '-'
  }

  predicate IsDash(c: char)
  {
    c == '-'
  }

  /** The length of the run of `inRun` characters at the start of `s`. */
  function RunLength(s: string, inRun: char -> bool): (k: nat)
    ensures k <= |s|
    ensures forall i :: 0 <= i < k ==> inRun(s[i])
    ensures k == |s| || !inRun(s[k])
    decreases |s|
  {
    if |s| > 0 && inRun(s[0]) then 1 + RunLength(s[1..], inRun) else 0
  }

  /** `s.replace(/R+/g, '-')` for a character class `R`: every maximal run of `inRun`
      characters becomes one `-`. */
  function CollapseRuns(s: string, inRun: char -> bool): string
    decreases |s|
  {
    if |s| == 0 then ""
    else if inRun(s[0]) then
      var k := RunLength(s, inRun);
      "-" + CollapseRuns(s[k..], inRun)
    else [s[0]] + CollapseRuns(s[1..], inRun)
  }

  /** `s.substring(0, n)`. */
  function Substring(s: string, n: nat): string
  {
    if |s| <= n then s else s[..n]
  }

  /** `s.replace(/-$/, '')`. */
  function DropTrailingDash(s: string): string
  {
    if |s| > 0 && s[|s| - 1] == '-' then s[..|s| - 1] else s
  }

  /** `sanitizeFilename(text)`. */
  function SanitizeFilename(text: string): string
  {
    var kept := Filter(Lower(text), IsKeptChar);
    var dashed := CollapseRuns(CollapseRuns(kept, IsSpace), IsDash);
    DropTrailingDash(Substring(dashed, 50))
  }

  predicate NoDoubleDash(s: string)
  {
    forall i :: 0 <= i < |s| - 1 ==> !(s[i] == '-' && s[i + 1] == '-')
  }

  /** Every character of a collapsed text is the `-` of a run or a character outside the runs
      that the input already had. */
  lemma {:induction false} CollapseRunsChars(s: string, inRun: char -> bool, ok: char -> bool)
    requires ok('-')
    requires forall i :: 0 <= i < |s| ==> inRun(s[i]) || ok(s[i])
    ensures forall i :: 0 <= i < |CollapseRuns(s, inRun)| ==> ok(CollapseRuns(s, inRun)[i])
    decreases |s|
  {
    if |s| > 0 {
      if inRun(s[0]) {
        var k := RunLength(s, inRun);
        assert forall i :: 0 <= i < |s| - k ==> s[k..][i] == s[k + i];
        CollapseRunsChars(s[k..], inRun, ok);
      } else {
        assert forall i :: 0 <= i < |s| - 1 ==> s[1..][i] == s[1 + i];
        CollapseRunsChars(s[1..], inRun, ok);
      }
    }
  }

  /** A collapsed text starts with `-` exactly when the input starts with a run or a `-`. */
  lemma CollapseRunsFirst(s: string, inRun: char -> bool)
    requires |s| > 0
    ensures |CollapseRuns(s, inRun)| > 0
    ensures CollapseRuns(s, inRun)[0] == '-' <==> inRun(s[0]) || s[0] == '-'
  {
  }

  /** Collapsing the runs of `-` leaves no two `-` side by side. */
  lemma {:induction false} CollapseDashesNoDoubleDash(s: string)
    ensures NoDoubleDash(CollapseRuns(s, IsDash))
    decreases |s|
  {
    if |s| > 0 {
      var r := CollapseRuns(s, IsDash);
      if IsDash(s[0]) {
        var k := RunLength(s, IsDash);
        var rest := CollapseRuns(s[k..], IsDash);
        CollapseDashesNoDoubleDash(s[k..]);
        if |s[k..]| > 0 {
          CollapseRunsFirst(s[k..], IsDash);
        }
        assert r == "-" + rest;
        assert forall i :: 1 <= i < |r| ==> r[i] == rest[i - 1];
      } else {
        var rest := CollapseRuns(s[1..], IsDash);
        CollapseDashesNoDoubleDash(s[1..]);
        assert r == [s[0]] + rest;
        assert forall i :: 1 <= i < |r| ==> r[i] == rest[i - 1];
      }
    }
  }

  /** Collapsing changes nothing in a text without runs to collapse. */
  lemma {:induction false} CollapseRunsFixed(s: string, inRun: char -> bool)
    requires forall i :: 0 <= i < |s| ==> !inRun(s[i])
    ensures CollapseRuns(s, inRun) == s
    decreases |s|
  {
    if |s| > 0 {
      assert forall i :: 0 <= i < |s| - 1 ==> s[1..][i] == s[1 + i];
      CollapseRunsFixed(s[1..], inRun);
    }
  }

  /** Collapsing the runs of `-` changes nothing in a text without `--`. */
  lemma {:induction false} CollapseDashesFixed(s: string)
    requires NoDoubleDash(s)
    ensures CollapseRuns(s, IsDash) == s
    decreases |s|
  {
    if |s| > 0 {
      assert forall i :: 0 <= i < |s| - 1 ==> s[1..][i] == s[1 + i];
      CollapseDashesFixed(s[1..]);
      if IsDash(s[0]) {
        assert |s| == 1 || !IsDash(s[1]);
        assert RunLength(s, IsDash) == 1;
      }
    }
  }

  /** Cutting a text keeps every character it keeps and creates no `--`. */
  lemma SliceKeepsShape(s: string, j: nat)
    requires j <= |s|
    requires NoDoubleDash(s) && forall i :: 0 <= i < |s| ==> IsSlugChar(s[i])
    ensures NoDoubleDash(s[..j]) && forall i :: 0 <= i < j ==> IsSlugChar(s[..j][i])
  {
  }

  /** The file name is made of `a-z`, `0-9` and `-` only, holds no `--`, is at most 50
      characters long and does not end with `-`. */
  lemma SanitizeFilenameShape(text: string)
    ensures var f := SanitizeFilename(text);
      && (forall i :: 0 <= i < |f| ==> IsSlugChar(f[i]))
      && NoDoubleDash(f)
      && |f| <= 50
      && (|f| == 0 || f[|f| - 1] != '-')
  {
    var kept := Filter(Lower(text), IsKeptChar);
    assert forall i :: 0 <= i < |kept| ==> IsKeptChar(kept[i]) by {
      forall i | 0 <= i < |kept|
        ensures IsKeptChar(kept[i])
      {
        FilterMembers(Lower(text), IsKeptChar, kept[i]);
      }
    }
    var spaced := CollapseRuns(kept, IsSpace);
    CollapseRunsChars(kept, IsSpace, IsSlugChar);
    var dashed := CollapseRuns(spaced, IsDash);
    CollapseRunsChars(spaced, IsDash, IsSlugChar);
    CollapseDashesNoDoubleDash(spaced);
    var cut := Substring(dashed, 50);
    if |dashed| > 50 {
      SliceKeepsShape(dashed, 50);
    }
    var f := DropTrailingDash(cut);
    if |cut| > 0 && cut[|cut| - 1] == '-' {
      SliceKeepsShape(cut, |cut| - 1);
      if |cut| > 1 {
        assert cut[|cut| - 2] != '-';
      }
    }
  }

  /** Sanitizing a file name gives it back: `sanitizeFilename` is idempotent. */
  lemma SanitizeFilenameIdempotent(text: string)
    ensures SanitizeFilename(SanitizeFilename(text)) == SanitizeFilename(text)
  {
    SanitizeFilenameShape(text);
    SanitizeSlug(SanitizeFilename(text));
  }

  /** A text already shaped like a file name is its own file name. */
  lemma SanitizeSlug(f: string)
    requires forall i :: 0 <= i < |f| ==> IsSlugChar(f[i])
    requires NoDoubleDash(f) && |f| <= 50 && (|f| == 0 || f[|f| - 1] != '-')
    ensures SanitizeFilename(f) == f
  {
    forall i | 0 <= i < |f|
      ensures LowerChar(f[i]) == f[i] && IsKeptChar(f[i]) && !IsSpace(f[i])
    {
      SlugCharFacts(f[i]);
    }
    assert Lower(f) == f;
    FilterAll(f, IsKeptChar);
    CollapseRunsFixed(f, IsSpace);
    CollapseDashesFixed(f);
  }

  lemma SlugCharFacts(c: char)
    requires IsSlugChar(c)
    ensures LowerChar(c) == c && IsKeptChar(c) && !IsSpace(c)
  {
  }

  // ---------------------------------------------------------------- extractPositionFromTitle

  /** `[-|–—]`, the separators of a search-result title. */
  predicate IsSeparator(c: char)
  {
    c == '-' || c == '|' || c == '–' || c == '—'
  }

  predicate NoSeparator(s: string)
  {
    forall i :: 0 <= i < |s| ==> !IsSeparator(s[i])
  }

  predicate NoLineTerminator(s: string)
  {
    forall i :: 0 <= i < |s| ==> !IsLineTerminator(s[i])
  }

  /** `word` occurs in `s`, compared case-insensitively. */
  predicate ContainsIgnoringCase(s: string, word: string)
  {
    exists i :: 0 <= i <= |s| - |word| && OccursIgnoringCase(s, word, i)
  }

  predicate OccursIgnoringCase(s: string, word: string, i: int)
  {
    0 <= i <= |s| - |word| && Lower(s[i..i + |word|]) == Lower(word)
  }

  /** The start of the run of `\s` characters that ends at `k`. */
  function SpaceRunStart(s: string, k: nat): (j: nat)
    requires k <= |s|
    ensures j <= k
    ensures forall i :: j <= i < k ==> IsSpace(s[i])
    ensures j == 0 || !IsSpace(s[j - 1])
  {
    if k > 0 && IsSpace(s[k - 1]) then SpaceRunStart(s, k - 1) else k
  }

  /** `\s*.*WORD.*$` matches `s` from `m` on: the `\s*` takes the whitespace from `m` up to some
      point after which no line terminator follows and `word` occurs. */
  function TailMatches(s: string, m: nat, word: string): bool
    requires m <= |s|
    decreases |s| - m
  {
    (NoLineTerminator(s[m..]) && ContainsIgnoringCase(s[m..], word))
    || (m < |s| && IsSpace(s[m]) && TailMatches(s, m + 1, word))
  }

  /** A separator at `k` from which `\s*.*WORD.*$` matches the rest of `s`. */
  predicate SuffixMatchAt(s: string, k: int, word: string)
  {
    0 <= k < |s| && IsSeparator(s[k]) && TailMatches(s, k + 1, word)
  }

  /** The first separator at or after `k` from which the rest of the pattern matches. */
  function FirstSuffixSeparator(s: string, k: nat, word: string): (r: Option<nat>)
    requires k <= |s|
    ensures r.Some? ==> k <= r.value && SuffixMatchAt(s, r.value, word)
    ensures r.Some? ==> forall j :: k <= j < r.value ==> !SuffixMatchAt(s, j, word)
    ensures r.None? ==> forall j :: k <= j < |s| ==> !SuffixMatchAt(s, j, word)
    decreases |s| - k
  {
    if k == |s| then None
    else if IsSeparator(s[k]) && TailMatches(s, k + 1, word) then Some(k)
    else FirstSuffixSeparator(s, k + 1, word)
  }

  /** `s.replace(/\s*[-|–—]\s*.*WORD.*$/i, '')`: the leftmost match runs to the end of the text
      and starts at the whitespace before the first separator that lets it match. */
  function StripSiteSuffix(s: string, word: string): (r: string)
    ensures |r| <= |s| && r == s[..|r|]
    ensures (forall j :: 0 <= j < |s| ==> !SuffixMatchAt(s, j, word)) ==> r == s
    ensures forall k ::
              SuffixMatchAt(s, k, word) && (forall j :: 0 <= j < k ==> !SuffixMatchAt(s, j, word))
              ==> r == s[..SpaceRunStart(s, k)] && |r| < |s|
  {
    match FirstSuffixSeparator(s, 0, word)
    case None => s
    case Some(k) => s[..SpaceRunStart(s, k)]
  }

  /** The start of the maximal run of `\w` characters that ends the text. */
  function TrailingWordStart(s: string, k: nat): (j: nat)
    requires k <= |s|
    ensures j <= k
    ensures forall i :: j <= i < k ==> IsWordChar(s[i])
    ensures j == 0 || !IsWordChar(s[j - 1])
  {
    if k > 0 && IsWordChar(s[k - 1]) then TrailingWordStart(s, k - 1) else k
  }

  /** Where a match of `\s*at\s+\w+$` (case-insensitive) starts, if there is one: the word run
      ending the text must follow whitespace that follows `at`. */
  function AtSuffixStart(s: string): (r: Option<nat>)
    ensures r.Some? ==> r.value <= |s|
  {
    var w := TrailingWordStart(s, |s|);
    var b := SpaceRunStart(s, w);
    if w < |s| && b < w && b >= 2 && Lower(s[b - 2..b]) == "at" then Some(SpaceRunStart(s, b - 2))
    else None
  }

  /** `\s*at\s+\w+$` (case-insensitive) matches `s` from `p`: whitespace up to `a`, then `at`,
      then whitespace up to `w`, then one or more word characters up to the end. */
  predicate AtSuffixMatch(s: string, p: int, a: int, w: int)
  {
    && 0 <= p <= a && a + 2 < w < |s|
    && (forall i :: p <= i < a ==> IsSpace(s[i]))
    && Lower(s[a..a + 2]) == "at"
    && (forall i :: a + 2 <= i < w ==> IsSpace(s[i]))
    && (forall i :: w <= i < |s| ==> IsWordChar(s[i]))
  }

  lemma WordCharNotSpace(c: char)
    requires IsWordChar(c)
    ensures !IsSpace(c)
  {
  }

  /** A run of whitespace over `[q, k)` starts no earlier than the maximal one ending at `k`. */
  lemma SpaceRunStartLeast(s: string, q: nat, k: nat)
    requires q <= k <= |s|
    requires forall i :: q <= i < k ==> IsSpace(s[i])
    ensures SpaceRunStart(s, k) <= q
  {
  }

  /** A run of word characters that ends the text right after whitespace is the maximal one. */
  lemma TrailingWordRunFixed(s: string, w: nat)
    requires 0 < w <= |s| && IsSpace(s[w - 1])
    requires forall i :: w <= i < |s| ==> IsWordChar(s[i])
    ensures TrailingWordStart(s, |s|) == w
  {
    var w0 := TrailingWordStart(s, |s|);
    if w0 < w {
      WordCharNotSpace(s[w - 1]);
    }
  }

  /** Whitespace that follows `at` starts right after it. */
  lemma SpaceRunAfterAt(s: string, a: nat, w: nat)
    requires a + 2 <= w <= |s| && Lower(s[a..a + 2]) == "at"
    requires forall i :: a + 2 <= i < w ==> IsSpace(s[i])
    ensures SpaceRunStart(s, w) == a + 2
  {
    assert Lower(s[a..a + 2])[1] == LowerChar(s[a + 1]) == "at"[1] == 't';
    SpaceRunStartLeast(s, a + 2, w);
  }

  /** Any match of the `at` suffix uses the word run that ends the text and the `at` just before
      the whitespace in front of it, and starts no earlier than the run of whitespace before
      that `at`. */
  lemma AtSuffixMatchFixed(s: string, p: int, a: int, w: int)
    requires AtSuffixMatch(s, p, a, w)
    ensures w == TrailingWordStart(s, |s|)
    ensures a + 2 == SpaceRunStart(s, w)
    ensures SpaceRunStart(s, a) <= p
  {
    TrailingWordRunFixed(s, w);
    SpaceRunAfterAt(s, a, w);
    SpaceRunStartLeast(s, p, a);
  }

  /** The `at` suffix starts at the leftmost position from which its pattern matches the rest of
      the text; there is none exactly when no position matches. */
  lemma AtSuffixStartMeaning(s: string)
    ensures AtSuffixStart(s).Some? ==>
      exists a, w :: AtSuffixMatch(s, AtSuffixStart(s).value, a, w)
    ensures AtSuffixStart(s).Some? ==>
      forall p, a, w :: AtSuffixMatch(s, p, a, w) ==> AtSuffixStart(s).value <= p
    ensures AtSuffixStart(s).None? <==> forall p, a, w :: !AtSuffixMatch(s, p, a, w)
  {
    var w := TrailingWordStart(s, |s|);
    var b := SpaceRunStart(s, w);
    forall p, a, w' | AtSuffixMatch(s, p, a, w')
      ensures AtSuffixStart(s) == Some(SpaceRunStart(s, a)) && SpaceRunStart(s, a) <= p
    {
      AtSuffixMatchFixed(s, p, a, w');
    }
    if AtSuffixStart(s).Some? {
      var q := SpaceRunStart(s, b - 2);
      assert AtSuffixMatch(s, q, b - 2, w);
    }
  }

  /** `s.replace(/\s*at\s+\w+$/i, '')`. */
  function StripAtSuffix(s: string): (r: string)
    ensures |r| <= |s| && r == s[..|r|]
  {
    match AtSuffixStart(s)
    case None => s
    case Some(p) => s[..p]
  }

  /** `s.split(/[|\-–—]/)[0]`: the text before the first separator. */
  function BeforeFirstSeparator(s: string): (r: string)
    ensures NoSeparator(r)
    ensures |r| <= |s| && r == s[..|r|]
    ensures |r| < |s| ==> IsSeparator(s[|r|])
    decreases |s|
  {
    if |s| == 0 || IsSeparator(s[0]) then ""
    else [s[0]] + BeforeFirstSeparator(s[1..])
  }

  const DefaultPosition := "Software Engineer"

  /** `extractPositionFromTitle(title)`. The `careers?` pattern matches wherever `career` does,
      since `.*` takes the optional `s`. */
  function ExtractPositionFromTitle(title: string): string
  {
    var cleaned := Trim(StripAtSuffix(StripSiteSuffix(StripSiteSuffix(StripSiteSuffix(
                      StripSiteSuffix(title, "greenhouse"), "lever"), "ashby"), "career")));
    var position := Trim(BeforeFirstSeparator(cleaned));
    if position == "" then DefaultPosition else position
  }

  /** A trimmed piece of a separator-free text is free of separators. */
  lemma TrimKeepsNoSeparator(s: string)
    requires NoSeparator(s)
    ensures NoSeparator(Trim(s))
  {
    TrimSpec(s);
  }

  lemma DefaultPositionShape()
    ensures DefaultPosition != "" && IsTrimmed(DefaultPosition) && NoSeparator(DefaultPosition)
  {
    var d := DefaultPosition;
    assert d[0] == 'S' && d[|d| - 1] == 'r';
  }

  /** The text before the first separator of `cleaned`, trimmed, or the default position when
      that is empty. */
  lemma PositionShape(cleaned: string)
    ensures var position := Trim(BeforeFirstSeparator(cleaned));
      var p := if position == "" then DefaultPosition else position;
      p != "" && IsTrimmed(p) && NoSeparator(p)
  {
    TrimSpec(BeforeFirstSeparator(cleaned));
    TrimKeepsNoSeparator(BeforeFirstSeparator(cleaned));
    DefaultPositionShape();
  }

  /** The position is never empty, has no surrounding whitespace and holds no separator. */
  lemma ExtractPositionShape(title: string)
    ensures var p := ExtractPositionFromTitle(title);
      p != "" && IsTrimmed(p) && NoSeparator(p)
  {
    PositionShape(Trim(StripAtSuffix(StripSiteSuffix(StripSiteSuffix(StripSiteSuffix(
                    StripSiteSuffix(title, "greenhouse"), "lever"), "ashby"), "career"))));
  }

  /** Without separators no site suffix is stripped. */
  lemma NoSeparatorNoSiteSuffix(s: string, word: string)
    requires NoSeparator(s)
    ensures StripSiteSuffix(s, word) == s
  {
  }

  /** A title without separators and without a trailing `at <word>` comes back trimmed, or as
      the default position when it is blank. */
  lemma PlainTitleKept(title: string)
    requires NoSeparator(title)
    requires AtSuffixStart(title).None?
    ensures ExtractPositionFromTitle(title) == if AllSpace(title) then DefaultPosition else Trim(title)
  {
    NoSeparatorNoSiteSuffix(title, "greenhouse");
    NoSeparatorNoSiteSuffix(title, "lever");
    NoSeparatorNoSiteSuffix(title, "ashby");
    NoSeparatorNoSiteSuffix(title, "career");
    TrimKeepsNoSeparator(title);
    TrimSpec(title);
    var t := Trim(title);
    assert BeforeFirstSeparator(t) == t;
    TrimOfTrimmed(t);
  }

  // ---------------------------------------------------------------- isValidJobDescription

  const NotFoundMarker := "couldn't find anything"
  const ErrorMarker := "404 error"
  const ViewJobs := "view jobs"
  const AllJobs := "all jobs"
  const Showing := "showing"
  const Results := "results"

  /** The phrases one of which a job description has. */
  const JobPhrases: seq<string> :=
    ["responsibilities", "qualifications", "requirements", "about the role", "what you",
     "we are looking for"]

  /** The content of a "not found" or error page. */
  predicate IsErrorPage(content: string)
  {
    Includes(content, NotFoundMarker) || Includes(content, ErrorMarker)
  }

  /** A page listing several jobs, by its title or content. */
  predicate IsListingPage(content: string, title: string)
  {
    || Includes(title, ViewJobs)
    || Includes(title, AllJobs)
    || (Includes(content, Showing) && Includes(content, Results))
  }

  /** One of the phrases a job description has. */
  predicate HasJobKeywords(content: string)
  {
    || Includes(content, JobPhrases[0])
    || Includes(content, JobPhrases[1])
    || Includes(content, JobPhrases[2])
    || Includes(content, JobPhrases[3])
    || Includes(content, JobPhrases[4])
    || Includes(content, JobPhrases[5])
  }

  /** `isValidJobDescription(markdown, title)`. */
  function IsValidJobDescription(markdown: string, title: string): bool
  {
    var content, lowerTitle := Lower(markdown), Lower(title);
    if IsErrorPage(content) then false
    else if IsListingPage(content, lowerTitle) then false
    else HasJobKeywords(content)
  }

  /** The verdict depends on the letters of the page and the title, not on their case. */
  lemma IsValidJobDescriptionIgnoresCase(markdown: string, title: string)
    ensures IsValidJobDescription(Lower(markdown), Lower(title)) == IsValidJobDescription(markdown, title)
  {
    LowerIdempotent(markdown);
    LowerIdempotent(title);
  }

  /** A text that has a phrase in it has it in any text around it. */
  lemma IncludesInContext(pre: string, s: string, post: string, sub: string)
    requires Includes(s, sub)
    ensures Includes(pre + s + post, sub)
  {
    var i :| 0 <= i <= |s| - |sub| && OccursAt(s, sub, i);
    assert (pre + s + post)[|pre| + i..|pre| + i + |sub|] == s[i..i + |sub|];
    assert OccursAt(pre + s + post, sub, |pre| + i);
  }

  /** A lower-case phrase written anywhere in a text is found in its lower-cased form. */
  lemma LowerPhraseInContext(pre: string, phrase: string, post: string)
    requires Lower(phrase) == phrase
    ensures Includes(Lower(pre + phrase + post), phrase)
  {
    assert OccursAt(phrase, phrase, 0);
    IncludesInContext(Lower(pre), phrase, Lower(post), phrase);
    LowerAppend(pre + phrase, post);
    LowerAppend(pre, phrase);
  }


  /** An error page, with either marker, is rejected whatever else it holds. */
  lemma ErrorPageRejected(pre: string, post: string, title: string)
    ensures !IsValidJobDescription(pre + ErrorMarker + post, title)
    ensures !IsValidJobDescription(pre + NotFoundMarker + post, title)
  {
    LowerCaseFixed(ErrorMarker);
    LowerPhraseInContext(pre, ErrorMarker, post);
    LowerCaseFixed(NotFoundMarker);
    LowerPhraseInContext(pre, NotFoundMarker, post);
  }

  /** A page whose title says "view jobs" or "all jobs" is a listing, whatever its content. */
  lemma ListingTitleRejected(markdown: string, pre: string, post: string)
    ensures !IsValidJobDescription(markdown, pre + ViewJobs + post)
    ensures !IsValidJobDescription(markdown, pre + AllJobs + post)
  {
    assert Lower(ViewJobs) == ViewJobs;
    assert Lower(AllJobs) == AllJobs;
    LowerPhraseInContext(pre, ViewJobs, post);
    LowerPhraseInContext(pre, AllJobs, post);
  }

  /** Content with both "showing" and "results", in either order, is a page of search results. */
  lemma SearchResultsRejected(a: string, b: string, c: string, title: string)
    ensures !IsValidJobDescription(a + Showing + b + Results + c, title)
    ensures !IsValidJobDescription(a + Results + b + Showing + c, title)
  {
    assert Lower(Showing) == Showing;
    assert Lower(Results) == Results;
    assert a + Showing + b + Results + c == a + Showing + (b + Results + c);
    LowerPhraseInContext(a, Showing, b + Results + c);
    LowerPhraseInContext(a + Showing + b, Results, c);
    assert a + Results + b + Showing + c == a + Results + (b + Showing + c);
    LowerPhraseInContext(a, Results, b + Showing + c);
    LowerPhraseInContext(a + Results + b, Showing, c);
  }

  /** "showing" alone does not make a listing: a page with a job phrase, without "results", an
      error marker or a listing title is a job description. */
  lemma ShowingWithoutResultsAccepted(pre: string, post: string, title: string)
    requires var content := Lower(pre + Showing + post);
      !Includes(content, Results) && !IsErrorPage(content) && HasJobKeywords(content)
    requires !Includes(Lower(title), ViewJobs) && !Includes(Lower(title), AllJobs)
    ensures IsValidJobDescription(pre + Showing + post, title)
  {
  }

  lemma JobPhrasesLower(k: nat)
    requires k < |JobPhrases|
    ensures Lower(JobPhrases[k]) == JobPhrases[k]
  {
    LowerCaseFixed(JobPhrases[k]);
  }

  /** A page that has any of the job phrases is a job description unless it is an error page or
      a listing page. */
  lemma JobPhraseAccepted(pre: string, k: nat, post: string, title: string)
    requires k < |JobPhrases|
    requires var content := Lower(pre + JobPhrases[k] + post);
      !IsErrorPage(content) && !(Includes(content, Showing) && Includes(content, Results))
    requires !Includes(Lower(title), ViewJobs) && !Includes(Lower(title), AllJobs)
    ensures IsValidJobDescription(pre + JobPhrases[k] + post, title)
  {
    JobPhrasesLower(k);
    LowerPhraseInContext(pre, JobPhrases[k], post);
  }

  /** A page with none of the job phrases, in any case, is never a job description. */
  lemma NoJobPhraseRejected(markdown: string, title: string)
    requires forall k :: 0 <= k < |JobPhrases| ==> !Includes(Lower(markdown), JobPhrases[k])
    ensures !IsValidJobDescription(markdown, title)
  {
  }
}
