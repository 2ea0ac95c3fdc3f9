/** The `no-forbidden-terms` assertion: no term listed in the forbidden-terms file may occur as a
    whole word in the bullets. The file's content is a parameter; reading it is not modelled. */
module NoForbiddenTerms {
  import opened Options
  import opened JsString
  import opened Sequences
  import opened WordRegex
  import opened AssertionUtils

  /** A line of the terms file that holds a term: not blank, not a `#` comment. */
  predicate IsTermLine(line: string)
  {
    line != "" && !StartsWith(line, "#")
  }

  /** `loadForbiddenTerms()`: split the content into lines, trim them, drop blank and comment
      lines, and lower the case of the rest. */
  function LoadForbiddenTerms(content: string): seq<string>
  {
    Map(Filter(Map(Split(content, '\n'), Trim), IsTermLine), Lower)
  }

  /** The terms of the list that occur as whole words in the text, in list order. */
  function FoundTerms(text: string, terms: seq<string>): seq<string>
  {
    Filter(terms, (term: string) => MatchesWordBoundary(text, term))
  }

  const FoundPrefix := "Found forbidden terms: "

  /** `noForbiddenTerms(output)`, on the result of `extractJson` and the content of the terms file. */
  function NoForbiddenTerms(data: Option<ResumeOutput>, termsContent: string): AssertionResult
  {
    match data
    case None => Fail(CreateFailure(InvalidJsonReason))
    case Some(output) =>
      var found := FoundTerms(Lower(AllBulletText(output.bullets)), LoadForbiddenTerms(termsContent));
      if |found| > 0 then Fail(CreateFailure(FoundPrefix + Join(found, ", ")))
      else Pass
  }

  /** Every loaded term is non-empty, has no surrounding whitespace, is not a comment and is in
      lower case. */
  lemma {:induction false} LoadedTermsShape(content: string)
    ensures forall k :: 0 <= k < |LoadForbiddenTerms(content)| ==>
      var term := LoadForbiddenTerms(content)[k];
      && IsTermLine(term) && IsTrimmed(term) && Lower(term) == term
  {
    var lines := Map(Split(content, '\n'), Trim);
    var kept := Filter(lines, IsTermLine);
    forall k | 0 <= k < |kept|
      ensures var term := Lower(kept[k]); IsTermLine(term) && IsTrimmed(term) && Lower(term) == term
    {
      var line := kept[k];
      FilterMembers(lines, IsTermLine, line);
      var j :| 0 <= j < |lines| && lines[j] == line;
      TrimSpec(Split(content, '\n')[j]);
      LowerKeepsSpace(line);
      LowerIdempotent(line);
      assert Lower(line)[0] == '#' <==> line[0] == '#';
    }
  }

  lemma LoadEmptyContent()
    ensures LoadForbiddenTerms("") == []
  {
    var lines := Map(Split("", '\n'), Trim);
    assert Split("", '\n') == [""];
    assert Trim("") == "";
    assert lines == [""];
    assert Filter(lines, IsTermLine) == [] + Filter(lines[1..], IsTermLine);
  }

  /** A file that lists one lower-case term per line, without blanks or comments, loads back
      exactly those terms, in order. */
  lemma LoadForbiddenTermsRoundTrip(terms: seq<string>)
    requires forall k :: 0 <= k < |terms| ==>
      IsTermLine(terms[k]) && IsTrimmed(terms[k]) && Lower(terms[k]) == terms[k] && '\n' !in terms[k]
    ensures LoadForbiddenTerms(Join(terms, "\n")) == terms
  {
    if |terms| == 0 {
      LoadEmptyContent();
    } else {
      JoinSplit(terms, '\n');
      forall k | 0 <= k < |terms|
        ensures Trim(terms[k]) == terms[k]
      {
        TrimOfTrimmed(terms[k]);
      }
      MapFixed(terms, Trim);
      FilterAll(terms, IsTermLine);
      MapFixed(terms, Lower);
    }
  }

  /** Output that is not JSON fails with the fixed reason. */
  lemma InvalidJsonFails(termsContent: string)
    ensures NoForbiddenTerms(None, termsContent) == Fail(AssertionFailure(false, 0, "Could not extract valid JSON from output"))
  {
  }

  /** The assertion passes exactly when no loaded term occurs as a whole word, in any letter
      case, in the bullets joined by spaces. */
  lemma PassesIffNoTermFound(output: ResumeOutput, termsContent: string)
    ensures var text, terms := AllBulletText(output.bullets), LoadForbiddenTerms(termsContent);
      NoForbiddenTerms(Some(output), termsContent) == Pass
      <==> forall k, i :: 0 <= k < |terms| && 0 <= i <= |text| ==> !BoundedOccurrence(text, terms[k], i)
  {
    var text, terms := AllBulletText(output.bullets), LoadForbiddenTerms(termsContent);
    var keep := (term: string) => MatchesWordBoundary(Lower(text), term);
    FilterEmpty(terms, keep);
    forall k | 0 <= k < |terms|
      ensures keep(terms[k]) == MatchesWordBoundary(text, terms[k])
    {
      MatchesWordBoundaryIgnoresCase(text, terms[k]);
    }
  }

  /** A failure names the found terms: each of them is a loaded term that occurs in the bullets,
      every such term is named, and they are listed in the order of the file. */
  lemma FailureNamesFoundTerms(output: ResumeOutput, termsContent: string)
    requires NoForbiddenTerms(Some(output), termsContent) != Pass
    ensures var text, terms := Lower(AllBulletText(output.bullets)), LoadForbiddenTerms(termsContent);
      var found := FoundTerms(text, terms);
      && NoForbiddenTerms(Some(output), termsContent)
         == Fail(AssertionFailure(false, 0, "Found forbidden terms: " + Join(found, ", ")))
      && |found| > 0
      && IsSubsequence(found, terms)
      && (forall term :: term in found <==> term in terms && MatchesWordBoundary(text, term))
  {
    var text, terms := Lower(AllBulletText(output.bullets)), LoadForbiddenTerms(termsContent);
    var keep := (term: string) => MatchesWordBoundary(text, term);
    FilterIsSubsequence(terms, keep);
    forall term
      ensures term in FoundTerms(text, terms) <==> term in terms && MatchesWordBoundary(text, term)
    {
      FilterMembers(terms, keep, term);
    }
  }

  /** A loaded term found in a single bullet of any job fails the assertion. */
  lemma TermInOneBulletFails(output: ResumeOutput, termsContent: string, k: nat, j: nat)
    requires output.bullets.Some? && k < |Flatten(output.bullets.value)|
    requires j < |LoadForbiddenTerms(termsContent)|
    requires MatchesWordBoundary(Flatten(output.bullets.value)[k], LoadForbiddenTerms(termsContent)[j])
    ensures NoForbiddenTerms(Some(output), termsContent).Fail?
  {
    var text, terms := AllBulletText(output.bullets), LoadForbiddenTerms(termsContent);
    BulletMatchInAllBulletText(output.bullets, k, terms[j]);
    MatchesWordBoundaryIgnoresCase(text, terms[j]);
    var keep := (term: string) => MatchesWordBoundary(Lower(text), term);
    FilterMembers(terms, keep, terms[j]);
  }

  /** Output without bullets passes, whatever the terms. */
  lemma NoBulletsPass(companyName: Option<string>, termsContent: string)
    ensures NoForbiddenTerms(Some(ResumeOutput(companyName, None)), termsContent) == Pass
  {
    var terms := LoadForbiddenTerms(termsContent);
    var keep := (term: string) => MatchesWordBoundary(Lower(AllBulletText(None)), term);
    forall k | 0 <= k < |terms|
      ensures !keep(terms[k])
    {
      NoBulletsNoMatch(terms[k]);
    }
    FilterEmpty(terms, keep);
  }
}
