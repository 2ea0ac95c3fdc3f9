/** `computeWordDiff` and `markKeywordMatches`: the word diff of a modified bullet against
    its original, with the added segments that contain a keyword marked as coming from the
    job description. */
module TextDiff {
  import opened Options
  import opened JsString
  import opened Sequences
  import opened WordRegex
  import opened Tokenizer
  import opened Lcs
  import opened DiffSegments

  /** Some keyword's pattern `\b<escaped keyword>\b`, case-insensitive, matches `text`. */
  predicate AnyKeywordMatches(text: string, keywords: seq<string>)
  {
    exists k :: 0 <= k < |keywords| && RegexTest(BoundaryPattern(keywords[k]), text)
  }

  /** The retyping of one segment: an `added` segment whose trimmed text is non-empty and
      matched by some keyword becomes `added-from-job`; every other segment is kept. */
  function MarkSegment(segment: DiffSegment, keywords: seq<string>): DiffSegment
  {
    if segment.kind == Added then
      var textToMatch := Trim(segment.text);
      if |textToMatch| > 0 && AnyKeywordMatches(textToMatch, keywords)
      then DiffSegment(segment.text, AddedFromJob)
      else segment
    else segment
  }

  /** `markKeywordMatches`. */
  function MarkKeywordMatches(segments: seq<DiffSegment>, keywords: seq<string>): seq<DiffSegment>
  {
    seq(|segments|, k requires 0 <= k < |segments| => MarkSegment(segments[k], keywords))
  }

  /** The merged segments before keyword marking. */
  function UnmarkedDiff(original: string, modified: string): seq<DiffSegment>
  {
    var originalWords := Tokenize(original);
    var modifiedWords := Tokenize(modified);
    Merge(RawSegments(modifiedWords, LcsIndices(originalWords, modifiedWords)))
  }

  /** What `computeWordDiff` returns; `None` stands for an absent `usedKeywords`. */
  function WordDiff(original: string, modified: string, usedKeywords: Option<seq<string>>): seq<DiffSegment>
  {
    var segments := UnmarkedDiff(original, modified);
    if usedKeywords.Some? && |usedKeywords.value| > 0
    then MarkKeywordMatches(segments, usedKeywords.value)
    else segments
  }

  /** `computeWordDiff`: tokenizes both texts, runs `findLCS` and `buildDiffSegments`, and marks
      keyword matches when there are keywords. */
  method ComputeWordDiff(original: string, modified: string, usedKeywords: Option<seq<string>>)
    returns (r: seq<DiffSegment>)
    ensures r == WordDiff(original, modified, usedKeywords)
  {
    var originalWords := Tokenize(original);
    var modifiedWords := Tokenize(modified);
    var lcs := FindLcs(originalWords, modifiedWords);
    var segments := BuildDiffSegments(originalWords, modifiedWords, lcs);
    if usedKeywords.Some? && |usedKeywords.value| > 0 {
      return MarkKeywordMatches(segments, usedKeywords.value);
    }
    return segments;
  }

  // Keyword marking

  /** The empty text contains no word boundary, so no pattern `\b...\b` matches it. */
  lemma NothingMatchesEmpty(keywords: seq<string>)
    ensures !AnyKeywordMatches("", keywords)
  {
    forall k | 0 <= k < |keywords|
      ensures !RegexTest(BoundaryPattern(keywords[k]), "")
    {
      RegexTestBoundaryPattern("", keywords[k]);
      assert !IsBoundary("", 0);
    }
  }

  /** The keyword condition, stated as a bounded occurrence of a keyword in the text. */
  lemma AnyKeywordMatchesSpec(text: string, keywords: seq<string>)
    ensures AnyKeywordMatches(text, keywords) <==>
            exists k, i :: 0 <= k < |keywords| && 0 <= i <= |text| && BoundedOccurrence(text, keywords[k], i)
  {
    forall k | 0 <= k < |keywords|
      ensures RegexTest(BoundaryPattern(keywords[k]), text) <==>
              exists i :: 0 <= i <= |text| && BoundedOccurrence(text, keywords[k], i)
    {
      RegexTestBoundaryPattern(text, keywords[k]);
    }
  }

  /** Marking keeps the number of segments and every text, keeps every type but `added`, and
      turns an `added` segment into `added-from-job` exactly when some keyword occurs in its
      trimmed text, compared case-insensitively, with a word boundary at both ends. */
  lemma MarkKeywordMatchesSpec(segments: seq<DiffSegment>, keywords: seq<string>)
    ensures |MarkKeywordMatches(segments, keywords)| == |segments|
    ensures forall k :: 0 <= k < |segments| ==> MarkKeywordMatches(segments, keywords)[k].text == segments[k].text
    ensures forall k :: 0 <= k < |segments| && segments[k].kind != Added ==>
              MarkKeywordMatches(segments, keywords)[k].kind == segments[k].kind
    ensures forall k :: 0 <= k < |segments| && segments[k].kind == Added ==>
              (MarkKeywordMatches(segments, keywords)[k].kind == AddedFromJob <==>
                 exists kw, i :: 0 <= kw < |keywords| && 0 <= i <= |Trim(segments[k].text)|
                                 && BoundedOccurrence(Trim(segments[k].text), keywords[kw], i))
    ensures forall k :: 0 <= k < |segments| && segments[k].kind == Added ==>
              MarkKeywordMatches(segments, keywords)[k].kind in {Added, AddedFromJob}
  {
    forall k | 0 <= k < |segments| && segments[k].kind == Added
      ensures MarkKeywordMatches(segments, keywords)[k].kind == AddedFromJob <==>
                exists kw, i :: 0 <= kw < |keywords| && 0 <= i <= |Trim(segments[k].text)|
                                && BoundedOccurrence(Trim(segments[k].text), keywords[kw], i)
    {
      var t := Trim(segments[k].text);
      AnyKeywordMatchesSpec(t, keywords);
      if |t| == 0 {
        assert t == "";
        NothingMatchesEmpty(keywords);
      }
    }
  }

  /** Without keywords nothing is marked. */
  lemma MarkWithoutKeywords(segments: seq<DiffSegment>)
    ensures MarkKeywordMatches(segments, []) == segments
  {
    forall k | 0 <= k < |segments|
      ensures MarkKeywordMatches(segments, [])[k] == segments[k]
    {
      assert !AnyKeywordMatches(Trim(segments[k].text), []);
    }
  }

  /** An empty keyword list gives the same result as an absent one: the unmarked segments,
      which marking with no keywords would leave as they are. */
  lemma EmptyKeywordsSameAsNone(original: string, modified: string)
    ensures WordDiff(original, modified, Some([])) == WordDiff(original, modified, None)
    ensures MarkKeywordMatches(UnmarkedDiff(original, modified), []) == WordDiff(original, modified, None)
  {
    MarkWithoutKeywords(UnmarkedDiff(original, modified));
  }

  // The diff as a whole

  /** The texts of the segments, concatenated, are the modified text. */
  lemma WordDiffText(original: string, modified: string, usedKeywords: Option<seq<string>>)
    ensures Text(WordDiff(original, modified, usedKeywords)) == modified
    ensures Text(UnmarkedDiff(original, modified)) == modified
  {
    var a, b := Tokenize(original), Tokenize(modified);
    var raw := RawSegments(b, LcsIndices(a, b));
    MergeText(raw);
    RawSegmentsText(b, LcsIndices(a, b));
    TokenizeSpec(modified);
    var segments := UnmarkedDiff(original, modified);
    if usedKeywords.Some? && |usedKeywords.value| > 0 {
      var marked := MarkKeywordMatches(segments, usedKeywords.value);
      MarkKeywordMatchesSpec(segments, usedKeywords.value);
      var texts := seq(|segments|, k requires 0 <= k < |segments| => segments[k].text);
      TextOfTexts(marked, texts);
      TextOfTexts(segments, texts);
    }
  }

  /** Before marking, every segment is `unchanged` or `added`, no two neighbours share a
      type, and no segment is empty. */
  lemma UnmarkedDiffShape(original: string, modified: string)
    ensures forall k :: 0 <= k < |UnmarkedDiff(original, modified)| ==>
              UnmarkedDiff(original, modified)[k].kind in {Unchanged, Added}
    ensures Alternating(UnmarkedDiff(original, modified))
    ensures forall k :: 0 <= k < |UnmarkedDiff(original, modified)| ==> |UnmarkedDiff(original, modified)[k].text| > 0
  {
    var a, b := Tokenize(original), Tokenize(modified);
    var lcs := LcsIndices(a, b);
    var raw := RawSegments(b, lcs);
    forall k | 0 <= k < |raw|
      ensures raw[k].kind in {Unchanged, Added}
    {
      TokenTypeSpec(b, k, lcs);
    }
    MergeKinds(raw, {Unchanged, Added});
    MergeAlternates(raw);
    TokenizeSpec(modified);
    MergeNonEmpty(raw);
  }

  /** After marking, neighbours still differ in type: an `added` segment is next to
      `unchanged` ones only, and those are never retyped. */
  lemma WordDiffAlternates(original: string, modified: string, usedKeywords: Option<seq<string>>)
    ensures Alternating(WordDiff(original, modified, usedKeywords))
    ensures forall k :: 0 <= k < |WordDiff(original, modified, usedKeywords)| ==>
              WordDiff(original, modified, usedKeywords)[k].kind != Removed
  {
    UnmarkedDiffShape(original, modified);
    var segments := UnmarkedDiff(original, modified);
    if usedKeywords.Some? && |usedKeywords.value| > 0 {
      MarkKeywordMatchesSpec(segments, usedKeywords.value);
      var marked := MarkKeywordMatches(segments, usedKeywords.value);
      forall k | 0 <= k < |marked| - 1
        ensures marked[k].kind != marked[k + 1].kind
      {
        assert segments[k].kind != segments[k + 1].kind;
      }
    }
  }

  /** Comparing a text with itself, every token is `unchanged`. */
  lemma IdentityTokensUnchanged(tokens: seq<string>, k: nat)
    requires k < |tokens|
    ensures TokenType(tokens, k, LcsIndices(tokens, tokens)) == Unchanged
  {
    var lcs := LcsIndices(tokens, tokens);
    LcsIndicesIdentity(tokens);
    assert k in lcs;
    PrevWordTypeSpec(tokens, k, lcs);
    if PrevWordType(tokens, k, lcs).Some? {
      var p :| 0 <= p < k && !IsWhitespaceToken(tokens[p])
               && (forall k' :: p < k' < k ==> IsWhitespaceToken(tokens[k']))
               && PrevWordType(tokens, k, lcs) == Some(WordType(p, lcs));
      assert p in lcs;
    }
  }

  /** A text compared with itself gives one `unchanged` segment holding all of it, or no
      segment when it is empty, whatever the keywords. */
  lemma WordDiffIdentity(text: string, usedKeywords: Option<seq<string>>)
    ensures WordDiff(text, text, usedKeywords) == if text == "" then [] else [DiffSegment(text, Unchanged)]
  {
    var tokens := Tokenize(text);
    TokenizeSpec(text);
    var raw := RawSegments(tokens, LcsIndices(tokens, tokens));
    RawSegmentsText(tokens, LcsIndices(tokens, tokens));
    if text != "" {
      forall k | 0 <= k < |raw|
        ensures raw[k].kind == Unchanged
      {
        IdentityTokensUnchanged(tokens, k);
      }
      MergeUniform(raw, Unchanged);
      var segments := UnmarkedDiff(text, text);
      assert segments == [DiffSegment(text, Unchanged)];
      if usedKeywords.Some? && |usedKeywords.value| > 0 {
        MarkKeywordMatchesSpec(segments, usedKeywords.value);
        assert MarkKeywordMatches(segments, usedKeywords.value)[0] == segments[0];
      }
    }
  }

  /** An empty modified text gives no segment, whatever the original and the keywords. */
  lemma WordDiffOfEmpty(original: string, usedKeywords: Option<seq<string>>)
    ensures WordDiff(original, "", usedKeywords) == []
  {
    UnmarkedDiffShape(original, "");
    WordDiffText(original, "", usedKeywords);
  }

  /** A non-whitespace token of the modified text lies in an `unchanged` run of the unmarked
      diff's per-token types exactly when `findLCS` kept its position. */
  lemma WordTokensUnchangedIffKept(original: string, modified: string, k: nat)
    requires k < |Tokenize(modified)| && !IsWhitespaceToken(Tokenize(modified)[k])
    ensures var a, b := Tokenize(original), Tokenize(modified);
            TokenType(b, k, LcsIndices(a, b)) == Unchanged <==> k in LcsIndices(a, b)
  {
    var a, b := Tokenize(original), Tokenize(modified);
    TokenTypeSpec(b, k, LcsIndices(a, b));
  }
}
