/** The `required-terms-present` assertion: every name from the base resume that the job
    description mentions must also occur in the bullets. The resume file's content and the job
    description are parameters; reading the file is not modelled. */
module RequiredTermsPresent {
  import opened Options
  import opened JsString
  import opened Sequences
  import opened WordRegex
  import opened AssertionUtils

  predicate IsQuote(c: char)
  {
    c == '\'' || c == '"'
  }

  /** The end of the run of characters other than quotes that starts at `q`. */
  function NonQuoteRunEnd(s: string, q: nat): (e: nat)
    requires q <= |s|
    ensures q <= e <= |s|
    ensures forall k :: q <= k < e ==> !IsQuote(s[k])
    ensures e == |s| || IsQuote(s[e])
    decreases |s| - q
  {
    if q < |s| && !IsQuote(s[q]) then NonQuoteRunEnd(s, q + 1) else q
  }

  /** A match of `{\s*name:\s*['"]([^'"]+)['"]` starting at `p`: the captured name and the
      position after the closing quote. No backtracking can change the outcome: a `\s*` run
      may not give back a space to `n` or to a quote, and the name run may not give back a
      character that is not a quote. */
  function SkillMatchAt(s: string, p: nat): (m: Option<(string, nat)>)
    requires p < |s|
    ensures m.Some? ==> p < m.value.1 <= |s|
  {
    if s[p] != '{' then None
    else
      var q := SpaceRunEnd(s, p + 1);
      if !(q + 5 <= |s| && s[q..q + 5] == "name:") then None
      else
        var r := SpaceRunEnd(s, q + 5);
        if !(r < |s| && IsQuote(s[r])) then None
        else
          var t := NonQuoteRunEnd(s, r + 1);
          if t == r + 1 || t == |s| then None
          else Some((s[r + 1..t], t + 1))
  }

  /** `content.match(/…/g)` from position `p`, each match reduced to its lower-cased capture;
      a global match resumes after the end of the previous one. */
  function ScanSkills(s: string, p: nat): seq<string>
    requires p <= |s|
    decreases |s| - p
  {
    if p == |s| then []
    else match SkillMatchAt(s, p)
      case None => ScanSkills(s, p + 1)
      case Some((name, next)) => [Lower(name)] + ScanSkills(s, next)
  }

  /** `extractSkillsFromBaseResume()`. */
  function ExtractSkills(resumeContent: string): seq<string>
  {
    ScanSkills(resumeContent, 0)
  }

  /** `(context.vars?.jobDescription || '').toLowerCase()`. */
  function JobDescriptionText(jobDescription: Option<string>): string
  {
    match jobDescription
    case None => ""
    case Some(d) => Lower(d)
  }

  /** The resume names the job description mentions. */
  function TermsInJobDescription(terms: seq<string>, jd: string): seq<string>
  {
    Filter(terms, (term: string) => MatchesWordBoundary(jd, term))
  }

  /** Of those, the ones missing from the bullets. */
  function MissingTerms(terms: seq<string>, bulletText: string): seq<string>
  {
    Filter(terms, (term: string) => !MatchesWordBoundary(bulletText, term))
  }

  const MissingPrefix := "Job description mentions these skills from your resume, but they're missing from bullets: "

  function MissingReason(missing: seq<string>): string
  {
    MissingPrefix + Join(missing, ", ")
  }

  /** `requiredTermsPresent(output, context)`, on the result of `extractJson`, the resume
      file's content and the job description of the context. */
  function RequiredTermsPresent(data: Option<ResumeOutput>, resumeContent: string,
                                jobDescription: Option<string>): AssertionResult
  {
    match data
    case None => Fail(CreateFailure(InvalidJsonReason))
    case Some(output) =>
      var inJd := TermsInJobDescription(ExtractSkills(resumeContent), JobDescriptionText(jobDescription));
      MentionedVerdict(inJd, Lower(AllBulletText(output.bullets)))
  }

  /** The verdict once the mentioned names `inJd` are known: nothing mentioned passes, and
      otherwise it fails when some of them are missing from `bulletText`. */
  function MentionedVerdict(inJd: seq<string>, bulletText: string): AssertionResult
  {
    if |inJd| == 0 then Pass
    else
      var missing := MissingTerms(inJd, bulletText);
      if |missing| > 0 then Fail(CreateFailure(MissingReason(missing))) else Pass
  }

  /** Every scanned name is a non-empty, lower-case run of characters free of quotes. */
  lemma {:induction false} ScannedSkillsShape(s: string, p: nat)
    requires p <= |s|
    ensures forall k :: 0 <= k < |ScanSkills(s, p)| ==>
      |ScanSkills(s, p)[k]| > 0 && Lower(ScanSkills(s, p)[k]) == ScanSkills(s, p)[k]
      && (forall j :: 0 <= j < |ScanSkills(s, p)[k]| ==> !IsQuote(ScanSkills(s, p)[k][j]))
    decreases |s| - p
  {
    if p < |s| {
      match SkillMatchAt(s, p)
      case None =>
        ScannedSkillsShape(s, p + 1);
      case Some((name, next)) =>
        ScannedSkillsShape(s, next);
        LowerIdempotent(name);
        assert |name| > 0;
        assert forall j :: 0 <= j < |name| ==> !IsQuote(name[j]);
        assert forall j :: 0 <= j < |name| ==> Lower(name)[j] == LowerChar(name[j]);
    }
  }

  /** A text without `{` holds no names. */
  lemma {:induction false} NoBraceNoSkills(s: string, p: nat)
    requires p <= |s|
    requires forall k :: p <= k < |s| ==> s[k] != '{'
    ensures ScanSkills(s, p) == []
    decreases |s| - p
  {
    if p < |s| {
      NoBraceNoSkills(s, p + 1);
    }
  }

  /** Output that is not JSON fails with the fixed reason. */
  lemma InvalidJsonFails(resumeContent: string, jobDescription: Option<string>)
    ensures RequiredTermsPresent(None, resumeContent, jobDescription)
         == Fail(AssertionFailure(false, 0, "Could not extract valid JSON from output"))
  {
  }

  /** An empty job description mentions no name. */
  lemma NothingMentionedInEmpty(terms: seq<string>)
    ensures TermsInJobDescription(terms, "") == []
  {
    forall k | 0 <= k < |terms|
      ensures !MatchesWordBoundary("", terms[k])
    {
      assert !IsBoundary("", 0);
    }
    FilterEmpty(terms, (term: string) => MatchesWordBoundary("", term));
  }

  /** Without a job description, or with an empty one, nothing is required. */
  lemma NoJobDescriptionPasses(output: ResumeOutput, resumeContent: string)
    ensures RequiredTermsPresent(Some(output), resumeContent, None) == Pass
    ensures RequiredTermsPresent(Some(output), resumeContent, Some("")) == Pass
  {
    assert JobDescriptionText(Some("")) == "" by {
      assert Lower("") == "";
    }
    NothingMentionedInEmpty(ExtractSkills(resumeContent));
  }

  /** The verdict passes exactly when each mentioned name is in the bullet text. */
  lemma MentionedVerdictPasses(inJd: seq<string>, bulletText: string)
    ensures MentionedVerdict(inJd, bulletText) == Pass
            <==> forall term :: term in inJd ==> MatchesWordBoundary(bulletText, term)
  {
    FilterEmpty(inJd, (term: string) => !MatchesWordBoundary(bulletText, term));
  }

  /** A failing verdict lists, in order, exactly the mentioned names missing from the bullets. */
  lemma MentionedVerdictFails(inJd: seq<string>, bulletText: string)
    requires MentionedVerdict(inJd, bulletText) != Pass
    ensures var missing := MissingTerms(inJd, bulletText);
      && MentionedVerdict(inJd, bulletText) == Fail(CreateFailure(MissingReason(missing)))
      && |missing| > 0
      && IsSubsequence(missing, inJd)
      && (forall term :: term in missing <==> term in inJd && !MatchesWordBoundary(bulletText, term))
  {
    var keepMissing := (term: string) => !MatchesWordBoundary(bulletText, term);
    FilterIsSubsequence(inJd, keepMissing);
    forall term
      ensures term in MissingTerms(inJd, bulletText) <==> term in inJd && !MatchesWordBoundary(bulletText, term)
    {
      FilterMembers(inJd, keepMissing, term);
    }
  }

  /** The verdict on the list of mentioned names: it passes exactly when each of them is in
      the bullet text. */
  lemma PassesIffNothingMissing(output: ResumeOutput, resumeContent: string, jobDescription: Option<string>)
    ensures var inJd := TermsInJobDescription(ExtractSkills(resumeContent), JobDescriptionText(jobDescription));
      var bulletText := Lower(AllBulletText(output.bullets));
      RequiredTermsPresent(Some(output), resumeContent, jobDescription) == Pass
      <==> forall term :: term in inJd ==> MatchesWordBoundary(bulletText, term)
  {
    var inJd := TermsInJobDescription(ExtractSkills(resumeContent), JobDescriptionText(jobDescription));
    MentionedVerdictPasses(inJd, Lower(AllBulletText(output.bullets)));
  }

  /** The assertion passes exactly when every resume name that occurs as a whole word in the job
      description also occurs as a whole word in the bullets, in any letter case. */
  lemma PassesIffMentionedTermsPresent(output: ResumeOutput, resumeContent: string, jobDescription: string)
    ensures var terms, text := ExtractSkills(resumeContent), AllBulletText(output.bullets);
      RequiredTermsPresent(Some(output), resumeContent, Some(jobDescription)) == Pass
      <==> forall term :: term in terms && MatchesWordBoundary(jobDescription, term)
                          ==> MatchesWordBoundary(text, term)
  {
    var terms, text := ExtractSkills(resumeContent), AllBulletText(output.bullets);
    var jd := Lower(jobDescription);
    var inJd := TermsInJobDescription(terms, jd);
    var keepJd := (term: string) => MatchesWordBoundary(jd, term);
    PassesIffNothingMissing(output, resumeContent, Some(jobDescription));
    forall term
      ensures term in inJd <==> term in terms && MatchesWordBoundary(jobDescription, term)
      ensures MatchesWordBoundary(Lower(text), term) == MatchesWordBoundary(text, term)
    {
      FilterMembers(terms, keepJd, term);
      MatchesWordBoundaryIgnoresCase(jobDescription, term);
      MatchesWordBoundaryIgnoresCase(text, term);
    }
  }

  /** A failure lists the missing names: each is a resume name found in the job description and
      not in the bullets, every such name is listed, and they keep the order of the resume. */
  lemma FailureNamesMissingTerms(output: ResumeOutput, resumeContent: string, jobDescription: Option<string>)
    requires RequiredTermsPresent(Some(output), resumeContent, jobDescription) != Pass
    ensures var terms, jd := ExtractSkills(resumeContent), JobDescriptionText(jobDescription);
      var bulletText := Lower(AllBulletText(output.bullets));
      var missing := MissingTerms(TermsInJobDescription(terms, jd), bulletText);
      && RequiredTermsPresent(Some(output), resumeContent, jobDescription)
         == Fail(AssertionFailure(false, 0,
              "Job description mentions these skills from your resume, but they're missing from bullets: "
              + Join(missing, ", ")))
      && |missing| > 0
      && IsSubsequence(missing, TermsInJobDescription(terms, jd))
      && IsSubsequence(TermsInJobDescription(terms, jd), terms)
      && IsSubsequence(missing, terms)
      && (forall term :: term in missing <==>
            term in terms && MatchesWordBoundary(jd, term) && !MatchesWordBoundary(bulletText, term))
  {
    var terms, jd := ExtractSkills(resumeContent), JobDescriptionText(jobDescription);
    var bulletText := Lower(AllBulletText(output.bullets));
    var keepJd := (term: string) => MatchesWordBoundary(jd, term);
    var inJd := TermsInJobDescription(terms, jd);
    MentionedVerdictFails(inJd, bulletText);
    FilterIsSubsequence(terms, keepJd);
    SubsequenceTransitive(MissingTerms(inJd, bulletText), inJd, terms);
    forall term
      ensures term in inJd <==> term in terms && MatchesWordBoundary(jd, term)
    {
      FilterMembers(terms, keepJd, term);
    }
  }

  /** An object whose first key is `name`, followed by text without braces, yields its
      lower-cased name and nothing more. Any such object counts, not only skill entries: the
      contact block of a resume, `{ name: '…', email: … }`, yields the person's name. */
  lemma {:induction false} SingleEntryScanned(name: string, rest: string)
    requires |name| > 0 && forall j :: 0 <= j < |name| ==> !IsQuote(name[j])
    requires forall j :: 0 <= j < |rest| ==> rest[j] != '{'
    ensures ExtractSkills("{ name: '" + name + "'" + rest) == [Lower(name)]
  {
    var s := "{ name: '" + name + "'" + rest;
    var t := 9 + |name|;
    assert s[0] == '{' && s[1] == ' ' && s[2] == 'n' && s[7] == ' ' && s[8] == '\'';
    assert SpaceRunEnd(s, 1) == 2;
    assert s[2..7] == "name:";
    assert SpaceRunEnd(s, 7) == 8;
    assert forall k :: 9 <= k < t ==> s[k] == name[k - 9];
    assert s[t] == '\'';
    assert NonQuoteRunEnd(s, 9) == t;
    assert s[9..t] == name;
    assert SkillMatchAt(s, 0) == Some((name, t + 1));
    assert forall k :: t + 1 <= k < |s| ==> s[k] == rest[k - t - 1];
    NoBraceNoSkills(s, t + 1);
  }
}
