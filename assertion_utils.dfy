/** The shared pieces of the evaluation assertions: their result type, `createFailure`, and
    the parsed model output they inspect. `extractJson` is not modelled: its result, the parsed
    object or nothing, is the input of each assertion. */
module AssertionUtils {
  import opened Options
  import opened JsString
  import opened Sequences
  import opened WordRegex

  /** `{ pass: false, score: 0, reason }`. */
  datatype AssertionFailure = AssertionFailure(pass: bool, score: int, reason: string)

  /** `true | AssertionFailure`. */
  datatype AssertionResult = Pass | Fail(failure: AssertionFailure)

  /** The parsed output. `companyName` is `None` when it is missing or not a string; `bullets`
      holds the values of the `bullets` record in `Object.values` order, or `None` when the
      record is missing. */
  datatype ResumeOutput = ResumeOutput(companyName: Option<string>, bullets: Option<seq<seq<string>>>)

  /** `createFailure(reason)`: a failure with score 0 carrying the reason. */
  function CreateFailure(reason: string): (f: AssertionFailure)
    ensures !f.pass && f.score == 0 && f.reason == reason
  {
    AssertionFailure(false, 0, reason)
  }

  const InvalidJsonReason := "Could not extract valid JSON from output"

  /** `Object.values(data.bullets || {}).flat().join(' ')`. */
  function AllBulletText(bullets: Option<seq<seq<string>>>): string
  {
    match bullets
    case None => ""
    case Some(values) => Join(Flatten(values), " ")
  }

  /** A bullet of any job in which a term matches on word boundaries makes the term match the
      joined text: the joining spaces are not word characters. */
  lemma BulletMatchInAllBulletText(bullets: Option<seq<seq<string>>>, k: nat, term: string)
    requires bullets.Some? && k < |Flatten(bullets.value)|
    requires MatchesWordBoundary(Flatten(bullets.value)[k], term)
    ensures MatchesWordBoundary(AllBulletText(bullets), term)
  {
    var pre, post := JoinAround(Flatten(bullets.value), k, ' ');
    MatchInContext(pre, Flatten(bullets.value)[k], post, term);
  }

  /** Without bullets the joined text is empty, and nothing matches the empty text. */
  lemma NoBulletsNoMatch(term: string)
    ensures AllBulletText(None) == ""
    ensures !MatchesWordBoundary(AllBulletText(None), term)
    ensures !MatchesWordBoundary(Lower(AllBulletText(None)), term)
  {
    assert !IsBoundary("", 0);
    assert Lower("") == "";
  }

  /** The bullets with every letter lowered. */
  function LowerBullets(values: seq<seq<string>>): seq<seq<string>>
  {
    Map(values, (row: seq<string>) => Map(row, Lower))
  }

  lemma {:induction false} JoinLower(parts: seq<string>)
    ensures Join(Map(parts, Lower), " ") == Lower(Join(parts, " "))
    decreases |parts|
  {
    if |parts| > 1 {
      JoinLower(parts[1..]);
      assert Map(parts, Lower)[1..] == Map(parts[1..], Lower);
      LowerAppend(parts[0] + " ", Join(parts[1..], " "));
      LowerAppend(parts[0], " ");
    }
  }

  /** Lowering the bullets lowers their joined text. */
  lemma AllBulletTextLower(values: seq<seq<string>>)
    ensures AllBulletText(Some(LowerBullets(values))) == Lower(AllBulletText(Some(values)))
  {
    FlattenMap(values, Lower);
    JoinLower(Flatten(values));
  }
}
