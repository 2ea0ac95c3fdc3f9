/** `tokenize` of the word diff, and the lower-cased word lists `findBestMatch` compares.
    Both are `String.prototype.split` with the separator `\s+`: `tokenize` captures the
    separator, so the whitespace runs come back as tokens of their own, while the word lists
    drop them. Empty pieces are filtered out in both. */
module Tokenizer {
  import opened JsString
  import opened Sequences

  /** `/^\s+$/.test(token)`. */
  predicate IsWhitespaceToken(t: string)
  {
    |t| > 0 && AllSpace(t)
  }

  predicate NonEmpty(t: string)
  {
    |t| > 0
  }

  predicate IsWord(t: string)
  {
    !IsWhitespaceToken(t)
  }

  /** The split algorithm from position `q`, with the current piece starting at `p`: at a
      whitespace character the piece ends, the maximal run of whitespace is the separator
      (kept as a piece of its own when `keepRuns`, as a capturing group does), and the next
      piece starts after it. */
  function SplitOnSpaceRuns(s: string, p: nat, q: nat, keepRuns: bool): seq<string>
    requires p <= q <= |s|
    decreases |s| - q
  {
    if q == |s| then [s[p..]]
    else if IsSpace(s[q]) then
      var e := SpaceRunEnd(s, q);
      [s[p..q]] + (if keepRuns then [s[q..e]] else []) + SplitOnSpaceRuns(s, e, e, keepRuns)
    else SplitOnSpaceRuns(s, p, q + 1, keepRuns)
  }

  /** `text.split(/(\s+)/).filter((token) => token.length > 0)`. */
  function Tokenize(text: string): seq<string>
  {
    Filter(SplitOnSpaceRuns(text, 0, 0, true), NonEmpty)
  }

  /** `text.toLowerCase().split(/\s+/).filter(Boolean)`. */
  function Words(text: string): seq<string>
  {
    Filter(SplitOnSpaceRuns(Lower(text), 0, 0, false), NonEmpty)
  }

  /** Every token is non-empty and either all whitespace or free of it, and the two kinds
      alternate. */
  predicate WellFormed(tokens: seq<string>)
  {
    && (forall k :: 0 <= k < |tokens| ==> |tokens[k]| > 0 && (AllSpace(tokens[k]) || NoSpace(tokens[k])))
    && (forall k :: 0 <= k < |tokens| - 1 ==> IsWhitespaceToken(tokens[k]) != IsWhitespaceToken(tokens[k + 1]))
  }

  lemma WellFormedAppend(x: seq<string>, y: seq<string>)
    requires WellFormed(x) && WellFormed(y)
    requires |x| > 0 && |y| > 0 ==> IsWhitespaceToken(x[|x| - 1]) != IsWhitespaceToken(y[0])
    ensures WellFormed(x + y)
  {
    var z := x + y;
    forall k | 0 <= k < |z| - 1
      ensures IsWhitespaceToken(z[k]) != IsWhitespaceToken(z[k + 1])
    {
      if k + 1 < |x| {
        assert z[k] == x[k] && z[k + 1] == x[k + 1];
      } else if k + 1 == |x| {
        assert z[k] == x[|x| - 1] && z[k + 1] == y[0];
      } else {
        assert z[k] == y[k - |x|] && z[k + 1] == y[k - |x| + 1];
      }
    }
  }

  /** The tokens from `(p, q)` on give `s[p..]` back when concatenated. */
  lemma {:induction false} TokenizeFromText(s: string, p: nat, q: nat)
    requires p <= q <= |s|
    ensures Flatten(Filter(SplitOnSpaceRuns(s, p, q, true), NonEmpty)) == s[p..]
    decreases |s| - q
  {
    if q == |s| {
      if p == |s| {
        assert Filter(SplitOnSpaceRuns(s, p, q, true), NonEmpty) == [];
      }
    } else if IsSpace(s[q]) {
      var e := SpaceRunEnd(s, q);
      var rest := SplitOnSpaceRuns(s, e, e, true);
      assert SplitOnSpaceRuns(s, p, q, true) == [s[p..q]] + [s[q..e]] + rest;
      TokenizeFromText(s, e, e);
      FlattenPieceStep(s[p..q], s[q..e], rest);
      assert s[p..] == s[p..q] + s[q..e] + s[e..];
    } else {
      TokenizeFromText(s, p, q + 1);
    }
  }

  /** Dropping the empty pieces of a word, a non-empty run and the rest, then concatenating. */
  lemma FlattenPieceStep(word: string, run: string, rest: seq<string>)
    requires |run| > 0
    ensures Flatten(Filter([word] + [run] + rest, NonEmpty)) == word + run + Flatten(Filter(rest, NonEmpty))
  {
    var r' := Filter(rest, NonEmpty);
    FilterAppend([word] + [run], rest, NonEmpty);
    FilterAppend([word], [run], NonEmpty);
    var head := Filter([word], NonEmpty);
    assert Filter([run], NonEmpty) == [run];
    FlattenAppend(head + [run], r');
    FlattenAppend(head, [run]);
    assert Flatten(head) == word;
    assert Flatten([run]) == run;
  }

  /** The tokens from `(p, q)` on are well formed, there are none exactly when `p` is at the
      end, and the first is a whitespace token exactly when `s[p]` is whitespace. */
  lemma {:induction false} TokenizeFromShape(s: string, p: nat, q: nat)
    requires p <= q <= |s|
    requires NoSpace(s[p..q])
    ensures var r := Filter(SplitOnSpaceRuns(s, p, q, true), NonEmpty);
      && WellFormed(r)
      && (r == [] <==> p == |s|)
      && (|r| > 0 ==> (IsWhitespaceToken(r[0]) <==> IsSpace(s[p])))
    decreases |s| - q
  {
    if q == |s| {
      assert SplitOnSpaceRuns(s, p, q, true) == [s[p..]];
      ShapeLastPiece(s[p..]);
    } else if IsSpace(s[q]) {
      var e := SpaceRunEnd(s, q);
      var word, run := s[p..q], s[q..e];
      var rest := SplitOnSpaceRuns(s, e, e, true);
      assert SplitOnSpaceRuns(s, p, q, true) == [word] + [run] + rest;
      TokenizeFromShape(s, e, e);
      ShapeSpaceStep(s, p, q, e, Filter([word], NonEmpty), Filter(rest, NonEmpty));
      FilterPieceStep(word, run, rest);
    } else {
      assert s[p..q + 1] == s[p..q] + [s[q]];
      TokenizeFromShape(s, p, q + 1);
    }
  }

  /** The last piece, a word, is one token unless it is empty. */
  lemma ShapeLastPiece(word: string)
    requires NoSpace(word)
    ensures var r := Filter([word], NonEmpty);
      && WellFormed(r)
      && (r == [] <==> word == [])
      && (|r| > 0 ==> (IsWhitespaceToken(r[0]) <==> IsSpace(word[0])))
  {
    if |word| > 0 {
      assert Filter([word], NonEmpty) == [word] + Filter([word][1..], NonEmpty);
      assert !IsSpace(word[0]);
    }
  }

  /** Dropping the empty pieces of a word, a non-empty run and the rest. */
  lemma FilterPieceStep(word: string, run: string, rest: seq<string>)
    requires |run| > 0
    ensures Filter([word] + [run] + rest, NonEmpty) == Filter([word], NonEmpty) + [run] + Filter(rest, NonEmpty)
  {
    FilterAppend([word] + [run], rest, NonEmpty);
    FilterAppend([word], [run], NonEmpty);
    assert Filter([run], NonEmpty) == [run];
  }

  lemma ShapeSpaceStep(s: string, p: nat, q: nat, e: nat, head: seq<string>, r': seq<string>)
    requires p <= q < e <= |s|
    requires NoSpace(s[p..q])
    requires forall k :: q <= k < e ==> IsSpace(s[k])
    requires e == |s| || !IsSpace(s[e])
    requires head == Filter([s[p..q]], NonEmpty)
    requires WellFormed(r') && (r' == [] <==> e == |s|)
    requires |r'| > 0 ==> (IsWhitespaceToken(r'[0]) <==> IsSpace(s[e]))
    ensures var r := head + [s[q..e]] + r';
      && WellFormed(r)
      && r != []
      && (IsWhitespaceToken(r[0]) <==> IsSpace(s[p]))
  {
    var word, run := s[p..q], s[q..e];
    assert IsWhitespaceToken(run) && AllSpace(run);
    assert WellFormed([run]);
    WellFormedAppend([run], r');
    assert WellFormed(head) by {
      if |word| > 0 {
        assert head == [word];
      } else {
        assert head == [];
      }
    }
    if |word| > 0 {
      assert head == [word];
      assert !IsSpace(word[0]);
    } else {
      assert head == [];
    }
    WellFormedAppend(head, [run] + r');
    assert head + ([run] + r') == head + [run] + r';
    var r := head + [run] + r';
    if p == q {
      assert r[0] == run;
    } else {
      assert r[0] == word;
      assert !IsSpace(word[0]);
    }
  }

  /** Concatenating the tokens gives the text back; the tokens are well formed, and there are
      none exactly when the text is empty. */
  lemma TokenizeSpec(text: string)
    ensures Flatten(Tokenize(text)) == text
    ensures WellFormed(Tokenize(text))
    ensures Tokenize(text) == [] <==> text == ""
  {
    TokenizeFromText(text, 0, 0);
    TokenizeFromShape(text, 0, 0);
    assert text[0..] == text;
  }

  /** Dropping the separator is the same as keeping it and filtering it out afterwards. */
  lemma {:induction false} WordsFrom(s: string, p: nat, q: nat)
    requires p <= q <= |s|
    requires NoSpace(s[p..q])
    ensures Filter(SplitOnSpaceRuns(s, p, q, false), NonEmpty)
         == Filter(Filter(SplitOnSpaceRuns(s, p, q, true), NonEmpty), IsWord)
    decreases |s| - q
  {
    if q == |s| {
      if p < |s| {
        assert s[p..] == s[p..q];
        assert !IsSpace(s[p..q][0]);
        assert IsWord(s[p..]);
      }
    } else if IsSpace(s[q]) {
      var e := SpaceRunEnd(s, q);
      var word, run := s[p..q], s[q..e];
      var restF := SplitOnSpaceRuns(s, e, e, false);
      var restT := SplitOnSpaceRuns(s, e, e, true);
      assert SplitOnSpaceRuns(s, p, q, false) == [word] + restF;
      assert SplitOnSpaceRuns(s, p, q, true) == [word] + [run] + restT;
      WordsFrom(s, e, e);
      FilterAppend([word], restF, NonEmpty);
      FilterAppend([word] + [run], restT, NonEmpty);
      FilterAppend([word], [run], NonEmpty);
      assert Filter([run], NonEmpty) == [run];
      var head := Filter([word], NonEmpty);
      FilterAppend(head + [run], Filter(restT, NonEmpty), IsWord);
      FilterAppend(head, [run], IsWord);
      assert IsWhitespaceToken(run);
      assert Filter([run], IsWord) == [];
      if |word| > 0 {
        assert !IsSpace(word[0]);
        assert head == [word];
        assert Filter(head, IsWord) == head;
      } else {
        assert head == [];
      }
    } else {
      assert s[p..q + 1] == s[p..q] + [s[q]];
      WordsFrom(s, p, q + 1);
    }
  }

  /** The word list of a text is the list of non-whitespace tokens of its lower-cased form. */
  lemma WordsAreTokens(text: string)
    ensures Words(text) == Filter(Tokenize(Lower(text)), IsWord)
  {
    WordsFrom(Lower(text), 0, 0);
  }

  /** Every word is non-empty and contains no whitespace. */
  lemma WordsSpec(text: string)
    ensures forall k :: 0 <= k < |Words(text)| ==> |Words(text)[k]| > 0 && NoSpace(Words(text)[k])
  {
    WordsAreTokens(text);
    TokenizeSpec(Lower(text));
    var tokens := Tokenize(Lower(text));
    forall k | 0 <= k < |Words(text)|
      ensures |Words(text)[k]| > 0 && NoSpace(Words(text)[k])
    {
      var w := Words(text)[k];
      FilterMembers(tokens, IsWord, w);
      assert w in tokens;
      var j :| 0 <= j < |tokens| && tokens[j] == w;
      assert !IsWhitespaceToken(w);
    }
  }
}
