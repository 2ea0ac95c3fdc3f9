/** `getFilename` of the PDF export: the download name of a resume tailored for a company. */
module PdfGenerator {
  import opened JsString

  const CandidateName := "Turman, Adam"

  /** `getFilename(companyName)`. An empty name gives the plain file name. */
  function GetFilename(companyName: string): (f: string)
    ensures StartsWith(f, CandidateName + " - Resume")
    ensures |f| >= 4 && f[|f| - 4..] == ".pdf"
    ensures companyName == "" ==> f == "Turman, Adam - Resume.pdf"
    ensures companyName != "" ==> f == "Turman, Adam - Resume (" + companyName + ").pdf"
  {
    if companyName == "" then CandidateName + " - Resume.pdf"
    else CandidateName + " - Resume (" + companyName + ").pdf"
  }

  /** The company name can be read back from a file name. */
  lemma FilenameNamesCompany(companyName: string)
    requires companyName != ""
    ensures var f := GetFilename(companyName); f[23..|f| - 5] == companyName
  {
    var f := GetFilename(companyName);
    assert |"Turman, Adam - Resume ("| == 23;
    assert f == "Turman, Adam - Resume (" + companyName + ").pdf";
  }

  /** Distinct company names give distinct file names. */
  lemma GetFilenameInjective(a: string, b: string)
    requires GetFilename(a) == GetFilename(b)
    ensures a == b
  {
    if a != "" && b != "" {
      FilenameNamesCompany(a);
      FilenameNamesCompany(b);
    }
  }
}
