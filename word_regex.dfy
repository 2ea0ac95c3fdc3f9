/** `escapeRegex` and the case-insensitive regular expression `\b<escaped term>\b` that
    `matchesWordBoundary` (and, with an inline copy of the same escaping, the keyword marker of the
    diff) builds with `new RegExp(..., 'i')` and runs with `test`.
    The pattern source is parsed into atoms: the fragment of the pattern language that such a
    source can contain is `\b`, a backslash-escaped syntax character, and a plain character. */
module WordRegex {
  import opened JsString
  import opened Options

  /** The characters `escapeRegex` protects: `. * + ? ^ $ { } ( ) | [ ] \`, which are the
      SyntaxCharacter set of ECMAScript patterns. */
  predicate IsRegexSpecial(c: char)
  {
    || c == '.' || c == '*' || c == '+' || c == '?' || c == '^' || c == '$' || c == '{'
    || c == '}' || c == '(' || c == ')' || c == '|' || c == '[' || c == ']' || c == '\\'
  }

  /** `str.replace(/[.*+?^${}()|[\]\\]/g, '\\$&')`: a backslash before every special character. */
  function EscapeRegex(s: string): string
  {
    if |s| == 0 then ""
    else (if IsRegexSpecial(s[0]) then ['\\', s[0]] else [s[0]]) + EscapeRegex(s[1..])
  }

  function CountSpecial(s: string): nat
  {
    if |s| == 0 then 0 else (if IsRegexSpecial(s[0]) then 1 else 0) + CountSpecial(s[1..])
  }

  /** One backslash is inserted per special character, and nothing else is added. */
  lemma {:induction false} EscapeRegexLength(s: string)
    ensures |EscapeRegex(s)| == |s| + CountSpecial(s)
    decreases |s|
  {
    if |s| > 0 {
      EscapeRegexLength(s[1..]);
    }
  }

  /** A string without special characters is its own escape. */
  lemma {:induction false} EscapeRegexIdentity(s: string)
    requires forall i :: 0 <= i < |s| ==> !IsRegexSpecial(s[i])
    ensures EscapeRegex(s) == s
    decreases |s|
  {
    if |s| > 0 {
      EscapeRegexIdentity(s[1..]);
      assert [s[0]] + s[1..] == s;
    }
  }

  /** One element of a parsed pattern: `\b`, or a character matched case-insensitively. */
  datatype Atom = WordBoundary | Literal(c: char)

  function Cons(a: Atom, rest: Option<seq<Atom>>): Option<seq<Atom>>
  {
    match rest
    case Some(atoms) => Some([a] + atoms)
    case None => None
  }

  function Prefix(atoms: seq<Atom>, rest: Option<seq<Atom>>): Option<seq<Atom>>
  {
    match rest
    case Some(more) => Some(atoms + more)
    case None => None
  }

  /** Reading a pattern source: `\b`, `\` followed by a syntax character, and any character that
      is not a syntax character. Anything else is outside the fragment and gives `None`. */
  function Parse(p: string): Option<seq<Atom>>
    decreases |p|
  {
    if |p| == 0 then Some([])
    else if p[0] == '\\' then
      if |p| >= 2 && p[1] == 'b' then Cons(WordBoundary, Parse(p[2..]))
      else if |p| >= 2 && IsRegexSpecial(p[1]) then Cons(Literal(p[1]), Parse(p[2..]))
      else None
    else if IsRegexSpecial(p[0]) then None
    else Cons(Literal(p[0]), Parse(p[1..]))
  }

  /** The atoms that match `s` literally. */
  function Literals(s: string): seq<Atom>
  {
    seq(|s|, i requires 0 <= i < |s| => Literal(s[i]))
  }

  /** The first character of an escaped string, and its backslash when it has one, are read
      as one literal. */
  lemma ParseEscapedHead(c: char, tail: string)
    ensures Parse((if IsRegexSpecial(c) then ['\\', c] else [c]) + tail) == Cons(Literal(c), Parse(tail))
  {
    if IsRegexSpecial(c) {
      var p := ['\\', c] + tail;
      assert p[0] == '\\' && p[1] == c && p[1] != 'b';
      assert p[2..] == tail;
    } else {
      var p := [c] + tail;
      assert p[1..] == tail;
    }
  }

  lemma ConsPrefix(a: Atom, atoms: seq<Atom>, rest: Option<seq<Atom>>)
    ensures Cons(a, Prefix(atoms, rest)) == Prefix([a] + atoms, rest)
  {
    match rest {
      case Some(more) => assert [a] + (atoms + more) == ([a] + atoms) + more;
      case None =>
    }
  }

  /** Removing the inserted backslashes gives the input back: an escaped string is read as
      exactly its own characters, whatever follows it. */
  lemma {:induction false} ParseEscaped(s: string, rest: string)
    ensures Parse(EscapeRegex(s) + rest) == Prefix(Literals(s), Parse(rest))
    decreases |s|
  {
    if |s| == 0 {
      assert EscapeRegex(s) + rest == rest;
      assert Literals(s) == [];
      match Parse(rest) {
        case Some(more) => assert Literals(s) + more == more;
        case None =>
      }
    } else {
      var tail := EscapeRegex(s[1..]) + rest;
      ParseEscaped(s[1..], rest);
      assert EscapeRegex(s) + rest == (if IsRegexSpecial(s[0]) then ['\\', s[0]] else [s[0]]) + tail;
      ParseEscapedHead(s[0], tail);
      assert Literals(s) == [Literal(s[0])] + Literals(s[1..]);
      ConsPrefix(Literal(s[0]), Literals(s[1..]), Parse(rest));
    }
  }

  /** The source text `\\b${escapeRegex(term)}\\b`. */
  function BoundaryPattern(term: string): string
  {
    "\\b" + EscapeRegex(term) + "\\b"
  }

  lemma BoundaryPatternParses(term: string)
    ensures Parse(BoundaryPattern(term)) == Some([WordBoundary] + Literals(term) + [WordBoundary])
  {
    var p := BoundaryPattern(term);
    var q: string := "\\b";
    assert |q| == 2 && q[0] == '\\' && q[1] == 'b';
    assert q[2..] == [];
    assert Parse(q[2..]) == Some([]);
    assert [WordBoundary] + [] == [WordBoundary];
    assert Parse(q) == Cons(WordBoundary, Parse(q[2..]));
    assert p == q + (EscapeRegex(term) + q);
    assert p[2..] == EscapeRegex(term) + q;
    ParseEscaped(term, q);
    assert Parse(p[2..]) == Some(Literals(term) + [WordBoundary]);
    assert Parse(p) == Cons(WordBoundary, Parse(p[2..]));
    assert [WordBoundary] + (Literals(term) + [WordBoundary]) == [WordBoundary] + Literals(term) + [WordBoundary];
  }

  predicate IsWordAt(text: string, k: int)
  {
    0 <= k < |text| && IsWordChar(text[k])
  }

  /** `\b` at position `pos`: the word-ness of the characters on its two sides differs, with the
      ends of the text counting as non-word. */
  predicate IsBoundary(text: string, pos: int)
  {
    IsWordAt(text, pos - 1) != IsWordAt(text, pos)
  }

  /** Whether the atoms match the text starting at `pos` (the atoms admit at most one way). */
  function MatchFrom(atoms: seq<Atom>, text: string, pos: nat): bool
    requires pos <= |text|
    decreases |atoms|
  {
    if |atoms| == 0 then true
    else match atoms[0]
      case WordBoundary => IsBoundary(text, pos) && MatchFrom(atoms[1..], text, pos)
      case Literal(c) =>
        pos < |text| && LowerChar(text[pos]) == LowerChar(c) && MatchFrom(atoms[1..], text, pos + 1)
  }

  /** `RegExp.prototype.test` without the global flag: try every start position from `start`. */
  function SearchFrom(atoms: seq<Atom>, text: string, start: nat): bool
    requires start <= |text|
    decreases |text| - start
  {
    MatchFrom(atoms, text, start) || (start < |text| && SearchFrom(atoms, text, start + 1))
  }

  /** `new RegExp(source, 'i').test(text)`. A source outside the fragment gives false; no
      source built by `BoundaryPattern` is one (see `BoundaryPatternParses`). */
  function RegexTest(source: string, text: string): bool
  {
    match Parse(source)
    case Some(atoms) => SearchFrom(atoms, text, 0)
    case None => false
  }

  /** `term` occurs at `i`, compared case-insensitively, with `\b` at both of its ends. */
  predicate BoundedOccurrence(text: string, term: string, i: int)
  {
    && 0 <= i && i + |term| <= |text|
    && Lower(text[i..i + |term|]) == Lower(term)
    && IsBoundary(text, i) && IsBoundary(text, i + |term|)
  }

  lemma {:induction false} SearchFromSpec(atoms: seq<Atom>, text: string, start: nat)
    requires start <= |text|
    ensures SearchFrom(atoms, text, start) ==> exists i :: start <= i <= |text| && MatchFrom(atoms, text, i)
    ensures (exists i :: start <= i <= |text| && MatchFrom(atoms, text, i)) ==> SearchFrom(atoms, text, start)
    decreases |text| - start
  {
    if MatchFrom(atoms, text, start) {
      assert SearchFrom(atoms, text, start);
      assert start <= start <= |text| && MatchFrom(atoms, text, start);
    } else if start < |text| {
      SearchFromSpec(atoms, text, start + 1);
      if exists i :: start <= i <= |text| && MatchFrom(atoms, text, i) {
        var i :| start <= i <= |text| && MatchFrom(atoms, text, i);
        assert start + 1 <= i <= |text| && MatchFrom(atoms, text, i);
      }
      if SearchFrom(atoms, text, start + 1) {
        var i :| start + 1 <= i <= |text| && MatchFrom(atoms, text, i);
        assert start <= i <= |text| && MatchFrom(atoms, text, i);
      }
    }
  }

  lemma {:induction false} MatchLiterals(s: string, rest: seq<Atom>, text: string, pos: nat)
    requires pos <= |text|
    ensures MatchFrom(Literals(s) + rest, text, pos) <==>
            pos + |s| <= |text| && Lower(text[pos..pos + |s|]) == Lower(s) && MatchFrom(rest, text, pos + |s|)
    decreases |s|
  {
    if |s| == 0 {
      assert Literals(s) + rest == rest;
    } else {
      var atoms := Literals(s) + rest;
      assert atoms[0] == Literal(s[0]);
      assert atoms[1..] == Literals(s[1..]) + rest;
      if pos < |text| {
        MatchLiterals(s[1..], rest, text, pos + 1);
        if pos + |s| <= |text| {
          var w := text[pos..pos + |s|];
          assert w[1..] == text[pos + 1..pos + 1 + |s[1..]|];
          if Lower(w) == Lower(s) {
            assert Lower(w)[0] == Lower(s)[0];
            forall k | 0 <= k < |s| - 1 ensures Lower(w[1..])[k] == Lower(s[1..])[k] {
              assert Lower(w)[k + 1] == Lower(s)[k + 1];
            }
          }
          if LowerChar(text[pos]) == LowerChar(s[0]) && Lower(w[1..]) == Lower(s[1..]) {
            forall k | 0 <= k < |s| ensures Lower(w)[k] == Lower(s)[k] {
              if k > 0 { assert Lower(w[1..])[k - 1] == Lower(s[1..])[k - 1]; }
            }
          }
        }
      }
    }
  }

  lemma MatchBoundaryPattern(text: string, term: string, i: nat)
    requires i <= |text|
    ensures MatchFrom([WordBoundary] + Literals(term) + [WordBoundary], text, i) <==> BoundedOccurrence(text, term, i)
  {
    var atoms := [WordBoundary] + Literals(term) + [WordBoundary];
    assert atoms[1..] == Literals(term) + [WordBoundary];
    MatchLiterals(term, [WordBoundary], text, i);
    var last: seq<Atom> := [WordBoundary];
    assert last[1..] == [];
  }

  lemma RegexTestBoundaryPattern(text: string, term: string)
    ensures RegexTest(BoundaryPattern(term), text) <==> exists i :: 0 <= i <= |text| && BoundedOccurrence(text, term, i)
  {
    BoundaryPatternParses(term);
    var atoms := [WordBoundary] + Literals(term) + [WordBoundary];
    assert RegexTest(BoundaryPattern(term), text) == SearchFrom(atoms, text, 0);
    SearchFromSpec(atoms, text, 0);
    forall i | 0 <= i <= |text| ensures MatchFrom(atoms, text, i) <==> BoundedOccurrence(text, term, i) {
      MatchBoundaryPattern(text, term, i);
    }
  }

  /** `matchesWordBoundary(text, term)`: true exactly when some occurrence of `term`, compared
      case-insensitively, has a word boundary at its start and at its end. */
  function MatchesWordBoundary(text: string, term: string): (r: bool)
    ensures r <==> exists i :: 0 <= i <= |text| && BoundedOccurrence(text, term, i)
  {
    RegexTestBoundaryPattern(text, term);
    RegexTest(BoundaryPattern(term), text)
  }

  lemma LowerSlice(s: string, i: nat, j: nat)
    requires i <= j <= |s|
    ensures Lower(s)[i..j] == Lower(s[i..j])
  {
  }

  lemma LowerKeepsWordChars(s: string)
    ensures |Lower(s)| == |s|
    ensures forall k :: 0 <= k < |s| ==> (IsWordChar(Lower(s)[k]) <==> IsWordChar(s[k]))
  {
  }

  /** Word-boundary matching ignores the case of the text and of the term. */
  lemma MatchesWordBoundaryIgnoresCase(text: string, term: string)
    ensures MatchesWordBoundary(Lower(text), term) == MatchesWordBoundary(text, term)
    ensures MatchesWordBoundary(text, Lower(term)) == MatchesWordBoundary(text, term)
  {
    forall i | 0 <= i <= |text|
      ensures BoundedOccurrence(Lower(text), term, i) == BoundedOccurrence(text, term, i)
      ensures BoundedOccurrence(text, Lower(term), i) == BoundedOccurrence(text, term, i)
    {
      OccurrenceIgnoresTextCase(text, term, i);
      OccurrenceIgnoresTermCase(text, term, i);
    }
  }

  lemma OccurrenceIgnoresTextCase(text: string, term: string, i: int)
    ensures BoundedOccurrence(Lower(text), term, i) == BoundedOccurrence(text, term, i)
  {
    LowerKeepsWordChars(text);
    if 0 <= i && i + |term| <= |text| {
      LowerSlice(text, i, i + |term|);
      LowerIdempotent(text[i..i + |term|]);
    }
    assert IsWordAt(Lower(text), i - 1) == IsWordAt(text, i - 1);
    assert IsWordAt(Lower(text), i) == IsWordAt(text, i);
    assert IsWordAt(Lower(text), i + |term| - 1) == IsWordAt(text, i + |term| - 1);
    assert IsWordAt(Lower(text), i + |term|) == IsWordAt(text, i + |term|);
  }

  lemma OccurrenceIgnoresTermCase(text: string, term: string, i: int)
    ensures BoundedOccurrence(text, Lower(term), i) == BoundedOccurrence(text, term, i)
  {
    LowerIdempotent(term);
  }

  lemma LowerCharWord(c: char)
    ensures IsWordChar(LowerChar(c)) == IsWordChar(c)
  {
  }

  /** `\b` is a change of word-ness, not "no word character around": an occurrence is not
      matched when the term's first character is as much a word character as the one before
      the occurrence, or its last character as much as the one after. So a term ending in a
      word character does not match inside a longer word, and a term ending in a non-word
      character (such as `C++`) does not match before a space or at the end of the text. */
  lemma NoBoundaryNotMatched(text: string, term: string, i: nat)
    requires |term| > 0 && i + |term| <= |text|
    requires IsWordChar(term[|term| - 1]) == IsWordAt(text, i + |term|)
          || IsWordChar(term[0]) == IsWordAt(text, i - 1)
    ensures !BoundedOccurrence(text, term, i)
  {
    var w := text[i..i + |term|];
    var n := |term|;
    assert Lower(w) == Lower(term) ==> Lower(w)[0] == Lower(term)[0] && Lower(w)[n - 1] == Lower(term)[n - 1];
    LowerCharWord(w[0]);
    LowerCharWord(term[0]);
    LowerCharWord(w[n - 1]);
    LowerCharWord(term[n - 1]);
    assert w[0] == text[i] && w[n - 1] == text[i + n - 1];
  }

  /** Placing a piece between non-word characters or the ends of a text keeps the word-ness of
      each of its characters and of the positions just outside it. */
  lemma WordAtInContext(pre: string, piece: string, post: string, p: int)
    requires -1 <= p <= |piece|
    requires pre == "" || !IsWordChar(pre[|pre| - 1])
    requires post == "" || !IsWordChar(post[0])
    ensures IsWordAt(pre + piece + post, |pre| + p) == IsWordAt(piece, p)
  {
    var text := pre + piece + post;
    if 0 <= p < |piece| {
      assert text[|pre| + p] == piece[p];
    } else if p == |piece| && post != "" {
      assert text[|pre| + p] == post[0];
    } else if p == -1 && pre != "" {
      assert text[|pre| + p] == pre[|pre| - 1];
    }
  }

  /** A bounded occurrence inside a piece stays one when the piece is placed between
      non-word characters or the ends of a larger text. */
  lemma OccurrenceInContext(pre: string, piece: string, post: string, term: string, i: nat)
    requires BoundedOccurrence(piece, term, i)
    requires pre == "" || !IsWordChar(pre[|pre| - 1])
    requires post == "" || !IsWordChar(post[0])
    ensures BoundedOccurrence(pre + piece + post, term, |pre| + i)
  {
    var text := pre + piece + post;
    var n := |term|;
    assert text[|pre| + i..|pre| + i + n] == piece[i..i + n];
    WordAtInContext(pre, piece, post, i - 1);
    WordAtInContext(pre, piece, post, i);
    WordAtInContext(pre, piece, post, i + n - 1);
    WordAtInContext(pre, piece, post, i + n);
  }

  /** A match inside a piece of text stays a match when the piece is placed between
      non-word characters or the ends of a larger text. */
  lemma MatchInContext(pre: string, piece: string, post: string, term: string)
    requires MatchesWordBoundary(piece, term)
    requires pre == "" || !IsWordChar(pre[|pre| - 1])
    requires post == "" || !IsWordChar(post[0])
    ensures MatchesWordBoundary(pre + piece + post, term)
  {
    var i :| 0 <= i <= |piece| && BoundedOccurrence(piece, term, i);
    OccurrenceInContext(pre, piece, post, term, i);
    assert |pre| + i <= |pre + piece + post|;
  }

  /** `escapeRegex('C++')` is `C\+\+`. */
  lemma EscapeRegexExample()
    ensures EscapeRegex("C++") == "C\\+\\+"
    ensures EscapeRegex("React") == "React"
  {
    assert "C++"[1..] == "++";
    assert "++"[1..] == "+";
    assert "+"[1..] == "";
    EscapeRegexIdentity("React");
  }

  /** An occurrence fails as soon as one character differs, ignoring case. */
  lemma CharMismatch(text: string, term: string, i: nat, d: nat)
    requires i + |term| <= |text| && d < |term|
    requires LowerChar(text[i + d]) != LowerChar(term[d])
    ensures !BoundedOccurrence(text, term, i)
  {
    assert Lower(text[i..i + |term|])[d] == LowerChar(text[i + d]);
    assert Lower(term)[d] == LowerChar(term[d]);
  }

  /** Where `scala` could start inside `scalable system` after the first letter, a character
      differs: the first one, or the second at the `s` of `system`. */
  lemma ScalaMismatch(i: nat) returns (d: nat)
    requires 1 <= i <= 10
    ensures d < 5 && LowerChar("scalable system"[i + d]) != LowerChar("scala"[d])
  {
    var text := "scalable system";
    if i == 9 {
      d := 1;
      assert text[10] == 'y';
    } else {
      d := 0;
      assert text[i] != 's';
    }
  }

  /** `matchesWordBoundary` is false when no position holds a bounded occurrence. */
  lemma NoOccurrenceNotMatched(text: string, term: string)
    requires forall i :: 0 <= i <= |text| ==> !BoundedOccurrence(text, term, i)
    ensures !MatchesWordBoundary(text, term)
  {
  }

  lemma ScalaNoOccurrenceAt(i: nat)
    requires i <= |"scalable system"|
    ensures !BoundedOccurrence("scalable system", "scala", i)
  {
    var text := "scalable system";
    if i == 0 {
      assert text[5] == 'b' && "scala"[4] == 'a';
      NoBoundaryNotMatched(text, "scala", 0);
    } else if i + 5 <= |text| {
      var d := ScalaMismatch(i);
      CharMismatch(text, "scala", i, d);
    }
  }

  /** `'scala'` is not matched in `'scalable system'`: the only occurrence runs on into a word. */
  lemma ScalaNotInScalable()
    ensures !MatchesWordBoundary("scalable system", "scala")
  {
    forall i | 0 <= i <= |"scalable system"| {
      ScalaNoOccurrenceAt(i);
    }
    NoOccurrenceNotMatched("scalable system", "scala");
  }

  lemma CppNoOccurrenceAt(i: nat)
    requires i <= |"I know C++ well"|
    ensures !BoundedOccurrence("I know C++ well", "C++", i)
  {
    var text := "I know C++ well";
    if i == 7 {
      assert text[10] == ' ' && "C++"[2] == '+';
      NoBoundaryNotMatched(text, "C++", 7);
    } else if i + 3 <= |text| {
      assert LowerChar(text[i]) != 'c';
      CharMismatch(text, "C++", i, 0);
    }
  }

  /** `'C++'` is not matched in `'I know C++ well'`: both sides of its end are non-word. */
  lemma CppNotMatchedBeforeSpace()
    ensures !MatchesWordBoundary("I know C++ well", "C++")
  {
    forall i | 0 <= i <= |"I know C++ well"| {
      CppNoOccurrenceAt(i);
    }
    NoOccurrenceNotMatched("I know C++ well", "C++");
  }

  /** `'front-end'` is matched in `'Using front-end tools'`: the hyphen is matched literally. */
  lemma FrontEndInText()
    ensures MatchesWordBoundary("Using front-end tools", "front-end")
  {
    var text := "Using front-end tools";
    assert text[6..15] == "front-end";
    assert Lower("front-end") == "front-end";
    assert BoundedOccurrence(text, "front-end", 6);
  }
}
