/** `buildDiffSegments` and its helpers: typing each token of the modified text against the
    set of positions `findLCS` kept, and `mergeSegments`, which joins runs of one type. */
module DiffSegments {
  import opened Options
  import opened Sequences
  import opened Tokenizer

  /** The `type` of a `DiffSegment`. */
  datatype SegmentType = Unchanged | Added | Removed | AddedFromJob

  datatype DiffSegment = DiffSegment(text: string, kind: SegmentType)

  /** The type of a non-whitespace token: `unchanged` when its position was kept. */
  function WordType(k: nat, lcs: set<nat>): SegmentType
  {
    if k in lcs then Unchanged else Added
  }

  /** The type of the nearest non-whitespace token before `current`, or `None` (`null`). */
  function PrevWordType(tokens: seq<string>, current: nat, lcs: set<nat>): Option<SegmentType>
    requires current <= |tokens|
    decreases current
  {
    if current == 0 then None
    else if !IsWhitespaceToken(tokens[current - 1]) then Some(WordType(current - 1, lcs))
    else PrevWordType(tokens, current - 1, lcs)
  }

  /** The type of the nearest non-whitespace token after `current`, or `None` (`null`). */
  function NextWordType(tokens: seq<string>, current: nat, lcs: set<nat>): Option<SegmentType>
    requires current <= |tokens|
    decreases |tokens| - current
  {
    if current + 1 >= |tokens| then None
    else if !IsWhitespaceToken(tokens[current + 1]) then Some(WordType(current + 1, lcs))
    else NextWordType(tokens, current + 1, lcs)
  }

  /** The type the loop of `buildDiffSegments` gives token `k`. */
  function TokenType(tokens: seq<string>, k: nat, lcs: set<nat>): SegmentType
    requires k < |tokens|
  {
    if IsWhitespaceToken(tokens[k]) then
      if PrevWordType(tokens, k, lcs) == Some(Added) && NextWordType(tokens, k, lcs) == Some(Added)
      then Added else Unchanged
    else WordType(k, lcs)
  }

  /** The segments pushed before merging: one per token. */
  function RawSegments(tokens: seq<string>, lcs: set<nat>): seq<DiffSegment>
  {
    seq(|tokens|, k requires 0 <= k < |tokens| => DiffSegment(tokens[k], TokenType(tokens, k, lcs)))
  }

  /** Joining each segment with the following ones of the same type. */
  function Merge(segs: seq<DiffSegment>): (r: seq<DiffSegment>)
    ensures |segs| > 0 ==> |r| > 0 && r[0].kind == segs[0].kind
    ensures |r| <= |segs|
  {
    if |segs| == 0 then []
    else
      var rest := Merge(segs[1..]);
      if |rest| > 0 && rest[0].kind == segs[0].kind
      then [DiffSegment(segs[0].text + rest[0].text, segs[0].kind)] + rest[1..]
      else [segs[0]] + rest
  }

  /** The concatenated texts of a segment list. */
  function Text(segs: seq<DiffSegment>): string
  {
    if |segs| == 0 then "" else segs[0].text + Text(segs[1..])
  }

  /** No two neighbouring segments share a type. */
  predicate Alternating(segs: seq<DiffSegment>)
  {
    forall k :: 0 <= k < |segs| - 1 ==> segs[k].kind != segs[k + 1].kind
  }

  // Properties of the nearest-word lookups

  /** `PrevWordType` is `None` exactly when every token before `current` is whitespace, and
      otherwise the type of the last non-whitespace token before `current`. */
  lemma {:induction false} PrevWordTypeSpec(tokens: seq<string>, current: nat, lcs: set<nat>)
    requires current <= |tokens|
    ensures PrevWordType(tokens, current, lcs).None? <==>
            forall k :: 0 <= k < current ==> IsWhitespaceToken(tokens[k])
    ensures PrevWordType(tokens, current, lcs).Some? ==>
            exists k :: 0 <= k < current && !IsWhitespaceToken(tokens[k])
                        && (forall k' :: k < k' < current ==> IsWhitespaceToken(tokens[k']))
                        && PrevWordType(tokens, current, lcs) == Some(WordType(k, lcs))
    decreases current
  {
    if current > 0 {
      if !IsWhitespaceToken(tokens[current - 1]) {
        var k := current - 1;
        assert !IsWhitespaceToken(tokens[k]);
      } else {
        PrevWordTypeSpec(tokens, current - 1, lcs);
        if PrevWordType(tokens, current, lcs).Some? {
          var k :| 0 <= k < current - 1 && !IsWhitespaceToken(tokens[k])
                   && (forall k' :: k < k' < current - 1 ==> IsWhitespaceToken(tokens[k']))
                   && PrevWordType(tokens, current - 1, lcs) == Some(WordType(k, lcs));
          assert forall k' :: k < k' < current ==> IsWhitespaceToken(tokens[k']);
        }
      }
    }
  }

  /** `NextWordType` is `None` exactly when every token after `current` is whitespace, and
      otherwise the type of the first non-whitespace token after `current`. */
  lemma {:induction false} NextWordTypeSpec(tokens: seq<string>, current: nat, lcs: set<nat>)
    requires current <= |tokens|
    ensures NextWordType(tokens, current, lcs).None? <==>
            forall k :: current < k < |tokens| ==> IsWhitespaceToken(tokens[k])
    ensures NextWordType(tokens, current, lcs).Some? ==>
            exists k :: current < k < |tokens| && !IsWhitespaceToken(tokens[k])
                        && (forall k' :: current < k' < k ==> IsWhitespaceToken(tokens[k']))
                        && NextWordType(tokens, current, lcs) == Some(WordType(k, lcs))
    decreases |tokens| - current
  {
    if current + 1 < |tokens| {
      if !IsWhitespaceToken(tokens[current + 1]) {
        var k := current + 1;
        assert !IsWhitespaceToken(tokens[k]);
      } else {
        NextWordTypeSpec(tokens, current + 1, lcs);
        if NextWordType(tokens, current, lcs).Some? {
          var k :| current + 1 < k < |tokens| && !IsWhitespaceToken(tokens[k])
                   && (forall k' :: current + 1 < k' < k ==> IsWhitespaceToken(tokens[k']))
                   && NextWordType(tokens, current + 1, lcs) == Some(WordType(k, lcs));
          assert forall k' :: current < k' < k ==> IsWhitespaceToken(tokens[k']);
        }
      }
    }
  }

  // Properties of the token types

  /** The nearest non-whitespace token before `k` is `added` exactly when there is one and its
      position was not kept. */
  lemma PrevAddedSpec(tokens: seq<string>, k: nat, lcs: set<nat>)
    requires k <= |tokens|
    ensures PrevWordType(tokens, k, lcs) == Some(Added) <==>
              exists p :: 0 <= p < k && !IsWhitespaceToken(tokens[p]) && p !in lcs
                          && forall p' :: p < p' < k ==> IsWhitespaceToken(tokens[p'])
  {
    PrevWordTypeSpec(tokens, k, lcs);
    if exists p :: 0 <= p < k && !IsWhitespaceToken(tokens[p]) && p !in lcs
                   && forall p' :: p < p' < k ==> IsWhitespaceToken(tokens[p']) {
      var p :| 0 <= p < k && !IsWhitespaceToken(tokens[p]) && p !in lcs
               && forall p' :: p < p' < k ==> IsWhitespaceToken(tokens[p']);
      var p2 :| 0 <= p2 < k && !IsWhitespaceToken(tokens[p2])
                && (forall k' :: p2 < k' < k ==> IsWhitespaceToken(tokens[k']))
                && PrevWordType(tokens, k, lcs) == Some(WordType(p2, lcs));
      assert p == p2;
    }
  }

  /** The nearest non-whitespace token after `k` is `added` exactly when there is one and its
      position was not kept. */
  lemma NextAddedSpec(tokens: seq<string>, k: nat, lcs: set<nat>)
    requires k <= |tokens|
    ensures NextWordType(tokens, k, lcs) == Some(Added) <==>
              exists q :: k < q < |tokens| && !IsWhitespaceToken(tokens[q]) && q !in lcs
                          && forall q' :: k < q' < q ==> IsWhitespaceToken(tokens[q'])
  {
    NextWordTypeSpec(tokens, k, lcs);
    if exists q :: k < q < |tokens| && !IsWhitespaceToken(tokens[q]) && q !in lcs
                   && forall q' :: k < q' < q ==> IsWhitespaceToken(tokens[q']) {
      var q :| k < q < |tokens| && !IsWhitespaceToken(tokens[q]) && q !in lcs
               && forall q' :: k < q' < q ==> IsWhitespaceToken(tokens[q']);
      var q2 :| k < q2 < |tokens| && !IsWhitespaceToken(tokens[q2])
                && (forall k' :: k < k' < q2 ==> IsWhitespaceToken(tokens[k']))
                && NextWordType(tokens, k, lcs) == Some(WordType(q2, lcs));
      assert q == q2;
    }
  }

  /** A non-whitespace token is `unchanged` exactly when its position was kept, and `added`
      otherwise; a whitespace token is `added` exactly when the nearest non-whitespace tokens on
      both sides exist and were not kept. No token is `removed` or `added-from-job`. */
  lemma TokenTypeSpec(tokens: seq<string>, k: nat, lcs: set<nat>)
    requires k < |tokens|
    ensures TokenType(tokens, k, lcs) == Unchanged || TokenType(tokens, k, lcs) == Added
    ensures !IsWhitespaceToken(tokens[k]) ==> (TokenType(tokens, k, lcs) == Unchanged <==> k in lcs)
    ensures IsWhitespaceToken(tokens[k]) ==>
              (TokenType(tokens, k, lcs) == Added <==>
                 (exists p :: 0 <= p < k && !IsWhitespaceToken(tokens[p]) && p !in lcs
                              && forall p' :: p < p' < k ==> IsWhitespaceToken(tokens[p'])) &&
                 (exists q :: k < q < |tokens| && !IsWhitespaceToken(tokens[q]) && q !in lcs
                              && forall q' :: k < q' < q ==> IsWhitespaceToken(tokens[q'])))
  {
    PrevAddedSpec(tokens, k, lcs);
    NextAddedSpec(tokens, k, lcs);
  }

  /** Whitespace with only whitespace before it, or only whitespace after it, is `unchanged`. */
  lemma EdgeWhitespaceUnchanged(tokens: seq<string>, k: nat, lcs: set<nat>)
    requires k < |tokens| && IsWhitespaceToken(tokens[k])
    requires (forall p :: 0 <= p < k ==> IsWhitespaceToken(tokens[p]))
          || (forall q :: k < q < |tokens| ==> IsWhitespaceToken(tokens[q]))
    ensures TokenType(tokens, k, lcs) == Unchanged
  {
    PrevWordTypeSpec(tokens, k, lcs);
    NextWordTypeSpec(tokens, k, lcs);
  }

  // Properties of merging

  lemma MergeCons(x: DiffSegment, rest: seq<DiffSegment>)
    ensures Merge([x] + rest) ==
      (if |Merge(rest)| > 0 && Merge(rest)[0].kind == x.kind
       then [DiffSegment(x.text + Merge(rest)[0].text, x.kind)] + Merge(rest)[1..]
       else [x] + Merge(rest))
  {
    assert ([x] + rest)[0] == x;
    assert ([x] + rest)[1..] == rest;
  }

  /** A segment whose type differs from the next one's stays a segment of its own. */
  lemma MergeBreak(x: DiffSegment, rest: seq<DiffSegment>)
    requires |rest| > 0 && rest[0].kind != x.kind
    ensures Merge([x] + rest) == [x] + Merge(rest)
  {
    MergeCons(x, rest);
  }

  /** Two neighbours of one type can be joined before merging without changing the result:
      the step `current.text += seg.text` of `mergeSegments`. */
  lemma MergeJoin(x: DiffSegment, y: DiffSegment, rest: seq<DiffSegment>)
    requires x.kind == y.kind
    ensures Merge([x, y] + rest) == Merge([DiffSegment(x.text + y.text, x.kind)] + rest)
  {
    var xy := DiffSegment(x.text + y.text, x.kind);
    assert [x, y] + rest == [x] + ([y] + rest);
    MergeCons(x, [y] + rest);
    MergeCons(y, rest);
    MergeCons(xy, rest);
    var r := Merge(rest);
    if |r| > 0 && r[0].kind == y.kind {
      assert x.text + (y.text + r[0].text) == x.text + y.text + r[0].text;
    }
  }

  /** Merging keeps the text. */
  lemma {:induction false} MergeText(segs: seq<DiffSegment>)
    ensures Text(Merge(segs)) == Text(segs)
    decreases |segs|
  {
    if |segs| > 0 {
      MergeText(segs[1..]);
      var rest := Merge(segs[1..]);
      if |rest| > 0 && rest[0].kind == segs[0].kind {
        var r := [DiffSegment(segs[0].text + rest[0].text, segs[0].kind)] + rest[1..];
        assert r[1..] == rest[1..];
        assert Text(rest) == rest[0].text + Text(rest[1..]);
      } else {
        assert ([segs[0]] + rest)[1..] == rest;
      }
    }
  }

  /** After merging, neighbours differ in type. */
  lemma {:induction false} MergeAlternates(segs: seq<DiffSegment>)
    ensures Alternating(Merge(segs))
    decreases |segs|
  {
    if |segs| > 0 {
      MergeAlternates(segs[1..]);
      var rest := Merge(segs[1..]);
      var r := Merge(segs);
      if |rest| > 0 && rest[0].kind == segs[0].kind {
        assert r == [DiffSegment(segs[0].text + rest[0].text, segs[0].kind)] + rest[1..];
        assert forall k :: 1 <= k < |r| ==> r[k] == rest[k];
      } else {
        assert r == [segs[0]] + rest;
        assert forall k :: 1 <= k < |r| ==> r[k] == rest[k - 1];
      }
    }
  }

  /** Merging introduces no new type: when every input type is in `kinds`, so is every
      output type. */
  lemma {:induction false} MergeKinds(segs: seq<DiffSegment>, kinds: set<SegmentType>)
    requires forall k :: 0 <= k < |segs| ==> segs[k].kind in kinds
    ensures forall k :: 0 <= k < |Merge(segs)| ==> Merge(segs)[k].kind in kinds
    decreases |segs|
  {
    if |segs| > 0 {
      MergeKinds(segs[1..], kinds);
      var rest := Merge(segs[1..]);
      var r := Merge(segs);
      if |rest| > 0 && rest[0].kind == segs[0].kind {
        assert forall k :: 1 <= k < |r| ==> r[k] == rest[k];
      } else {
        assert forall k :: 1 <= k < |r| ==> r[k] == rest[k - 1];
      }
    }
  }

  /** Merging a list whose neighbours already differ changes nothing. */
  lemma {:induction false} MergeOfAlternating(segs: seq<DiffSegment>)
    requires Alternating(segs)
    ensures Merge(segs) == segs
    decreases |segs|
  {
    if |segs| > 0 {
      assert Alternating(segs[1..]) by {
        forall k | 0 <= k < |segs[1..]| - 1
          ensures segs[1..][k].kind != segs[1..][k + 1].kind
        {
          assert segs[1..][k] == segs[k + 1] && segs[1..][k + 1] == segs[k + 2];
        }
      }
      MergeOfAlternating(segs[1..]);
      if |segs| > 1 {
        assert segs[1..][0] == segs[1];
      }
      assert [segs[0]] + segs[1..] == segs;
    }
  }

  /** Merging is idempotent. */
  lemma MergeIdempotent(segs: seq<DiffSegment>)
    ensures Merge(Merge(segs)) == Merge(segs)
  {
    MergeAlternates(segs);
    MergeOfAlternating(Merge(segs));
  }

  /** A non-empty list of segments of one type merges into a single segment holding all of
      the text. */
  lemma {:induction false} MergeUniform(segs: seq<DiffSegment>, kind: SegmentType)
    requires |segs| > 0
    requires forall k :: 0 <= k < |segs| ==> segs[k].kind == kind
    ensures Merge(segs) == [DiffSegment(Text(segs), kind)]
    decreases |segs|
  {
    if |segs| == 1 {
      assert segs[1..] == [];
      assert Text(segs) == segs[0].text + Text(segs[1..]);
      assert Text(segs[1..]) == "";
      assert segs[0] == DiffSegment(Text(segs), kind);
    } else {
      MergeUniform(segs[1..], kind);
      assert Text(segs) == segs[0].text + Text(segs[1..]);
    }
  }

  /** Segments with non-empty texts merge into segments with non-empty texts. */
  lemma {:induction false} MergeNonEmpty(segs: seq<DiffSegment>)
    requires forall k :: 0 <= k < |segs| ==> |segs[k].text| > 0
    ensures forall k :: 0 <= k < |Merge(segs)| ==> |Merge(segs)[k].text| > 0
    decreases |segs|
  {
    if |segs| > 0 {
      MergeNonEmpty(segs[1..]);
      var rest := Merge(segs[1..]);
      var r := Merge(segs);
      if |rest| > 0 && rest[0].kind == segs[0].kind {
        assert forall k :: 1 <= k < |r| ==> r[k] == rest[k];
      } else {
        assert forall k :: 1 <= k < |r| ==> r[k] == rest[k - 1];
      }
    }
  }

  /** Segment lists holding the same texts in the same order have the same text. */
  lemma {:induction false} TextOfTexts(segs: seq<DiffSegment>, texts: seq<string>)
    requires |segs| == |texts|
    requires forall k :: 0 <= k < |segs| ==> segs[k].text == texts[k]
    ensures Text(segs) == Flatten(texts)
    decreases |segs|
  {
    if |segs| > 0 {
      TextOfTexts(segs[1..], texts[1..]);
    }
  }

  /** The unmerged segments hold the tokens, in order. */
  lemma RawSegmentsText(tokens: seq<string>, lcs: set<nat>)
    ensures Text(RawSegments(tokens, lcs)) == Flatten(tokens)
  {
    TextOfTexts(RawSegments(tokens, lcs), tokens);
  }

  // The loops of the source

  /** `findPrevNonWhitespaceType`: scans down from `currentIndex - 1`. */
  method FindPrevNonWhitespaceType(tokens: seq<string>, currentIndex: nat, lcs: set<nat>)
    returns (r: Option<SegmentType>)
    requires currentIndex <= |tokens|
    ensures r == PrevWordType(tokens, currentIndex, lcs)
  {
    var i := currentIndex;
    while i > 0
      invariant 0 <= i <= currentIndex
      invariant PrevWordType(tokens, currentIndex, lcs) == PrevWordType(tokens, i, lcs)
      decreases i
    {
      if !IsWhitespaceToken(tokens[i - 1]) {
        return Some(if i - 1 in lcs then Unchanged else Added);
      }
      i := i - 1;
    }
    return None;
  }

  /** `findNextNonWhitespaceType`: scans up from `currentIndex + 1`. */
  method FindNextNonWhitespaceType(tokens: seq<string>, currentIndex: nat, lcs: set<nat>)
    returns (r: Option<SegmentType>)
    requires currentIndex <= |tokens|
    ensures r == NextWordType(tokens, currentIndex, lcs)
  {
    var i := currentIndex;
    while i + 1 < |tokens|
      invariant currentIndex <= i <= |tokens|
      invariant NextWordType(tokens, currentIndex, lcs) == NextWordType(tokens, i, lcs)
      decreases |tokens| - i
    {
      if !IsWhitespaceToken(tokens[i + 1]) {
        return Some(if i + 1 in lcs then Unchanged else Added);
      }
      i := i + 1;
    }
    return None;
  }

  /** `mergeSegments`: accumulates the current run and pushes it when the type changes. */
  method MergeSegments(segments: seq<DiffSegment>) returns (merged: seq<DiffSegment>)
    ensures merged == Merge(segments)
  {
    if |segments| == 0 {
      return [];
    }
    merged := [];
    var current := segments[0];
    assert segments == [segments[0]] + segments[1..];
    for i := 1 to |segments|
      invariant Merge(segments) == merged + Merge([current] + segments[i..])
    {
      var seg := segments[i];
      SuffixCons(segments, i);
      if seg.kind == current.kind {
        assert [current] + segments[i..] == [current, seg] + segments[i + 1..];
        MergeJoin(current, seg, segments[i + 1..]);
        current := DiffSegment(current.text + seg.text, current.kind);
      } else {
        MergeBreak(current, segments[i..]);
        AppendOne(merged, current, Merge(segments[i..]));
        merged := merged + [current];
        current := seg;
      }
    }
    assert segments[|segments|..] == [];
    assert [current] + [] == [current];
    merged := merged + [current];
  }

  /** `buildDiffSegments`: types each token of `modified`, then merges. `original` is not
      read, as in the source. */
  method BuildDiffSegments(original: seq<string>, modified: seq<string>, lcsIndices: set<nat>)
    returns (r: seq<DiffSegment>)
    ensures r == Merge(RawSegments(modified, lcsIndices))
  {
    var segments: seq<DiffSegment> := [];
    for i := 0 to |modified|
      invariant segments == RawSegments(modified, lcsIndices)[..i]
    {
      var word := modified[i];
      var kind;
      if IsWhitespaceToken(word) {
        var prevType := FindPrevNonWhitespaceType(modified, i, lcsIndices);
        var nextType := FindNextNonWhitespaceType(modified, i, lcsIndices);
        kind := if prevType == Some(Added) && nextType == Some(Added) then Added else Unchanged;
      } else if i in lcsIndices {
        kind := Unchanged;
      } else {
        kind := Added;
      }
      assert RawSegments(modified, lcsIndices)[..i + 1] == RawSegments(modified, lcsIndices)[..i] + [DiffSegment(word, kind)];
      segments := segments + [DiffSegment(word, kind)];
    }
    assert segments == RawSegments(modified, lcsIndices);
    r := MergeSegments(segments);
  }
}
