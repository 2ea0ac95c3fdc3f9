/** `findBestMatch`: the original bullet sharing the largest proportion of its words with a
    modified bullet. Scores are exact rationals. */
module BestMatch {
  import opened Options
  import opened Sequences
  import opened Tokenizer

  /** How many of `words` (counted with repetition) are in `vocabulary`. */
  function CommonCount(words: seq<string>, vocabulary: set<string>): (c: nat)
    ensures c <= |words|
  {
    if |words| == 0 then 0
    else CommonCount(words[..|words| - 1], vocabulary) + (if words[|words| - 1] in vocabulary then 1 else 0)
  }

  /** `new Set(modified.toLowerCase().split(/\s+/).filter(Boolean))`. */
  function WordSet(text: string): set<string>
  {
    set w | w in Words(text)
  }

  /** `commonCount / Math.max(originalWords.length, 1)`. */
  function Score(modified: string, original: string): real
  {
    var words := Words(original);
    (CommonCount(words, WordSet(modified)) as real) / ((if |words| > 1 then |words| else 1) as real)
  }

  /** Candidate `k` has the highest score, and every earlier candidate scores strictly less. */
  predicate IsFirstBest(modified: string, originals: seq<string>, k: int)
  {
    && 0 <= k < |originals|
    && (forall j :: 0 <= j < |originals| ==> Score(modified, originals[j]) <= Score(modified, originals[k]))
    && (forall j :: 0 <= j < k ==> Score(modified, originals[j]) < Score(modified, originals[k]))
  }

  /** A count out of a positive total, as a ratio, lies between 0 and 1. */
  lemma RatioBounds(c: nat, d: nat)
    requires 0 < d && c <= d
    ensures 0.0 <= (c as real) / (d as real) <= 1.0
  {
    var q := (c as real) / (d as real);
    assert q * (d as real) == c as real;
  }

  /** Every score lies between 0 and 1. */
  lemma ScoreBounds(modified: string, original: string)
    ensures 0.0 <= Score(modified, original) <= 1.0
  {
    var words := Words(original);
    RatioBounds(CommonCount(words, WordSet(modified)), if |words| > 1 then |words| else 1);
  }

  /** There is at most one first best candidate. */
  lemma FirstBestUnique(modified: string, originals: seq<string>, k: int, k': int)
    requires IsFirstBest(modified, originals, k) && IsFirstBest(modified, originals, k')
    ensures k == k'
  {
    var s, s' := Score(modified, originals[k]), Score(modified, originals[k']);
    assert k < k' ==> s < s';
    assert k' < k ==> s' < s;
  }

  /** When no candidate shares a word with the modified bullet, the first candidate is chosen. */
  lemma AllZeroPicksFirst(modified: string, originals: seq<string>)
    requires |originals| > 0
    requires forall j :: 0 <= j < |originals| ==> Score(modified, originals[j]) == 0.0
    ensures IsFirstBest(modified, originals, 0)
  {
  }

  /** A candidate all of whose words occur in the modified bullet scores 1, so it is chosen
      unless an earlier candidate also scores 1. */
  lemma FullCoverageWins(modified: string, originals: seq<string>, k: nat)
    requires k < |originals|
    requires |Words(originals[k])| > 0
    requires forall w :: w in Words(originals[k]) ==> w in WordSet(modified)
    requires forall j :: 0 <= j < k ==> Score(modified, originals[j]) < 1.0
    ensures Score(modified, originals[k]) == 1.0
    ensures IsFirstBest(modified, originals, k)
  {
    FullCount(Words(originals[k]), WordSet(modified));
    forall j | 0 <= j < |originals|
      ensures Score(modified, originals[j]) <= 1.0
    {
      ScoreBounds(modified, originals[j]);
    }
  }

  lemma {:induction false} FullCount(words: seq<string>, vocabulary: set<string>)
    requires forall w :: w in words ==> w in vocabulary
    ensures CommonCount(words, vocabulary) == |words|
    decreases |words|
  {
    if |words| > 0 {
      var init := words[..|words| - 1];
      assert forall w :: w in init ==> w in words;
      FullCount(init, vocabulary);
      assert words[|words| - 1] in words;
    }
  }

  /** The inner loop of `findBestMatch`: how many words of the original are in the set of
      modified words. */
  method CountCommon(words: seq<string>, vocabulary: set<string>) returns (c: nat)
    ensures c == CommonCount(words, vocabulary)
  {
    c := 0;
    for w := 0 to |words|
      invariant c == CommonCount(words[..w], vocabulary)
    {
      assert words[..w + 1][..w] == words[..w];
      if words[w] in vocabulary {
        c := c + 1;
      }
    }
    assert words[..|words|] == words;
  }

  /** `findBestMatch`: `None` (`null`) for no candidates, and otherwise the first candidate
      with the highest score. A later candidate replaces the current best only when it scores
      strictly more, starting from a best score of 0. */
  method FindBestMatch(modified: string, originals: seq<string>) returns (r: Option<string>)
    ensures r.None? <==> |originals| == 0
    ensures r.Some? ==> exists k :: IsFirstBest(modified, originals, k) && r.value == originals[k]
  {
    if |originals| == 0 {
      return None;
    }
    var modifiedWords := WordSet(modified);
    var bestMatch := originals[0];
    var bestScore := 0.0;
    ghost var best := 0;
    for idx := 0 to |originals|
      invariant 0 <= best < |originals| && bestMatch == originals[best]
      invariant idx == 0 ==> best == 0 && bestScore == 0.0
      invariant idx > 0 ==> best < idx && bestScore == Score(modified, originals[best])
      invariant bestScore >= 0.0
      invariant forall j :: 0 <= j < idx ==> Score(modified, originals[j]) <= bestScore
      invariant forall j :: 0 <= j < best ==> Score(modified, originals[j]) < bestScore
    {
      var original := originals[idx];
      var originalWords := Words(original);
      var commonCount := CountCommon(originalWords, modifiedWords);
      var score := (commonCount as real) / ((if |originalWords| > 1 then |originalWords| else 1) as real);
      assert score == Score(modified, original);
      ScoreBounds(modified, original);
      if score > bestScore {
        bestScore := score;
        bestMatch := original;
        best := idx;
      } else if idx == 0 {
        assert score == 0.0;
      }
    }
    return Some(bestMatch);
  }
}
