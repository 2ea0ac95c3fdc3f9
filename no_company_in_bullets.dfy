/** The `no-company-in-bullets` assertion: the bullets must not name the company the resume is
    tailored for. */
module NoCompanyInBullets {
  import opened Options
  import opened JsString
  import opened Sequences
  import opened WordRegex
  import opened AssertionUtils

  const NamePrefix := "Company name \""
  const NameSuffix := "\" should not appear in bullet points"

  function FailureReason(companyName: string): string
  {
    NamePrefix + companyName + NameSuffix
  }

  /** A company name counts when it is present and not blank. */
  predicate HasCompanyName(output: ResumeOutput)
  {
    output.companyName.Some? && Trim(output.companyName.value) != ""
  }

  /** `noCompanyInBullets(output)`, on the result of `extractJson`. */
  function NoCompanyInBullets(data: Option<ResumeOutput>): AssertionResult
  {
    match data
    case None => Fail(CreateFailure(InvalidJsonReason))
    case Some(output) =>
      if !HasCompanyName(output) then Pass
      else if MatchesWordBoundary(AllBulletText(output.bullets), Trim(output.companyName.value)) then
        Fail(CreateFailure(FailureReason(output.companyName.value)))
      else Pass
  }

  /** Output that is not JSON fails with the fixed reason. */
  lemma InvalidJsonFails()
    ensures NoCompanyInBullets(None) == Fail(AssertionFailure(false, 0, "Could not extract valid JSON from output"))
  {
  }

  /** A missing, empty or blank company name passes, whatever the bullets say. */
  lemma NoCompanyNamePasses(output: ResumeOutput)
    requires output.companyName.None? || AllSpace(output.companyName.value)
    ensures NoCompanyInBullets(Some(output)) == Pass
  {
    if output.companyName.Some? {
      TrimSpec(output.companyName.value);
    }
  }

  /** With a company name, the assertion fails exactly when the trimmed name occurs as a whole
      word, in any letter case, in the bullets joined by spaces; the reason quotes the name as it
      was given, untrimmed. */
  lemma CompanyNameVerdict(output: ResumeOutput)
    requires output.companyName.Some? && !AllSpace(output.companyName.value)
    ensures var name, text := output.companyName.value, AllBulletText(output.bullets);
      && (NoCompanyInBullets(Some(output)) == Pass
          <==> forall i :: 0 <= i <= |text| ==> !BoundedOccurrence(text, Trim(name), i))
      && (NoCompanyInBullets(Some(output)) != Pass ==>
          NoCompanyInBullets(Some(output)) == Fail(AssertionFailure(false, 0,
            "Company name \"" + name + "\" should not appear in bullet points")))
  {
    TrimSpec(output.companyName.value);
  }

  /** A company name found in a single bullet of any job fails the assertion. */
  lemma CompanyInOneBulletFails(output: ResumeOutput, k: nat)
    requires HasCompanyName(output)
    requires output.bullets.Some? && k < |Flatten(output.bullets.value)|
    requires MatchesWordBoundary(Flatten(output.bullets.value)[k], Trim(output.companyName.value))
    ensures NoCompanyInBullets(Some(output)).Fail?
  {
    BulletMatchInAllBulletText(output.bullets, k, Trim(output.companyName.value));
  }

  /** Output without bullets passes. */
  lemma NoBulletsPass(companyName: Option<string>)
    ensures NoCompanyInBullets(Some(ResumeOutput(companyName, None))) == Pass
  {
    if companyName.Some? {
      NoBulletsNoMatch(Trim(companyName.value));
    }
  }

  /** The letter case of the company name and of the bullets does not change the verdict. */
  lemma CaseInsensitive(companyName: string, values: seq<seq<string>>)
    ensures NoCompanyInBullets(Some(ResumeOutput(Some(companyName), Some(values)))).Pass?
        <==> NoCompanyInBullets(Some(ResumeOutput(Some(Lower(companyName)), Some(LowerBullets(values))))).Pass?
  {
    var text := AllBulletText(Some(values));
    AllBulletTextLower(values);
    LowerTrim(companyName);
    MatchesWordBoundaryIgnoresCase(text, Trim(companyName));
    MatchesWordBoundaryIgnoresCase(Lower(text), Trim(companyName));
    TrimSpec(companyName);
    TrimSpec(Lower(companyName));
    LowerKeepsSpace(companyName);
    assert AllSpace(companyName) <==> AllSpace(Lower(companyName));
  }

  /** The company name of the failing case is found in the bullet that names it. */
  lemma AcmeCorpInBullet()
    ensures MatchesWordBoundary("Built a system for Acme Corp", "Acme Corp")
  {
    var bullet := "Built a system for Acme Corp";
    assert bullet[19..28] == "Acme Corp";
    assert !IsWordChar(bullet[18]) && IsWordChar(bullet[19]) && IsWordChar(bullet[27]);
    assert BoundedOccurrence(bullet, "Acme Corp", 19);
  }
}
