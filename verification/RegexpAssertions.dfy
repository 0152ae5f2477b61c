/**
 What the assertions and single-character tests of qjs/libregexp.c mean, in terms of the characters
 of the text: word boundaries are the ends of the runs of [0-9A-Za-z_], lines end at four characters.
 */
module RegexpAssertions {
  import opened RegexpSyntax

  // ---- in terms of characters ----

  /** One of [0-9A-Za-z_]. */
  ghost predicate LetterDigitUnderscore(c: Char) {
    ('0' as int <= c <= '9' as int) || ('A' as int <= c <= 'Z' as int) || ('a' as int <= c <= 'z' as int) || c == '_' as int
  }

  /** LF, CR, LINE SEPARATOR or PARAGRAPH SEPARATOR. */
  ghost predicate EndsLine(c: Char) {
    c == 10 || c == 13 || c == 8232 || c == 8233
  }

  /** [a, b) is a run of such characters that cannot be made longer. */
  ghost predicate MaximalRun(x: Input, a: nat, b: nat) {
    && a < b <= |x.w|
    && (forall k :: a <= k < b ==> LetterDigitUnderscore(x.w[k]))
    && (a > 0 ==> !LetterDigitUnderscore(x.w[a - 1]))
    && (b < |x.w| ==> !LetterDigitUnderscore(x.w[b]))
  }

  ghost predicate EndOfRun(x: Input, i: nat) {
    exists a: nat, b: nat :: MaximalRun(x, a, b) && (i == a || i == b)
  }

  // ---- word boundaries ----

  lemma {:induction false} RunFrom(x: Input, a: nat, c: nat) returns (b: nat)
    requires a < c <= |x.w| && forall k :: a <= k < c ==> LetterDigitUnderscore(x.w[k])
    requires a > 0 ==> !LetterDigitUnderscore(x.w[a - 1])
    ensures MaximalRun(x, a, b)
    decreases |x.w| - c
  {
    if c < |x.w| && LetterDigitUnderscore(x.w[c]) {
      b := RunFrom(x, a, c + 1);
    } else {
      b := c;
    }
  }

  lemma {:induction false} RunTo(x: Input, c: nat, b: nat) returns (a: nat)
    requires c < b <= |x.w| && forall k :: c <= k < b ==> LetterDigitUnderscore(x.w[k])
    requires b < |x.w| ==> !LetterDigitUnderscore(x.w[b])
    ensures MaximalRun(x, a, b)
    decreases c
  {
    if c > 0 && LetterDigitUnderscore(x.w[c - 1]) {
      a := RunTo(x, c - 1, b);
    } else {
      a := c;
    }
  }

  /** Exactly one neighbour is such a character: that is an end of a run. */
  lemma NeighboursDiffer(x: Input, i: nat)
    requires i <= |x.w|
    ensures ((i > 0 && LetterDigitUnderscore(x.w[i - 1])) != (i < |x.w| && LetterDigitUnderscore(x.w[i]))) <==> EndOfRun(x, i)
  {
    var before, after := i > 0 && LetterDigitUnderscore(x.w[i - 1]), i < |x.w| && LetterDigitUnderscore(x.w[i]);
    if before && !after {
      var a := RunTo(x, i - 1, i);
    } else if after && !before {
      var b := RunFrom(x, i, i + 1);
    }
  }

  lemma SameCharacters(c: Char)
    ensures IsWordChar(c) <==> LetterDigitUnderscore(c)
    ensures IsLineTerminator(c) <==> EndsLine(c)
  {
  }

  /** \b matches, with nothing in it, at the ends of the runs of [0-9A-Za-z_] and nowhere else; \B elsewhere. */
  lemma WordBoundaries(back: bool, x: Input, i: nat, j: nat)
    ensures Matches(Assert(WordBoundary), back, x, i, j) <==> i == j && i <= |x.w| && EndOfRun(x, i)
    ensures Matches(Assert(NotWordBoundary), back, x, i, j) <==> i == j && i <= |x.w| && !EndOfRun(x, i)
  {
    hide EndOfRun, LetterDigitUnderscore, IsWordChar;
    if i <= |x.w| {
      NeighboursDiffer(x, i);
      if i > 0 {
        SameCharacters(x.w[i - 1]);
      }
      if i < |x.w| {
        SameCharacters(x.w[i]);
      }
    }
  }

  // ---- lines and single characters ----

  /** ^ and $ match at the ends of the text, and with the multi-line flag at the ends of lines. */
  lemma LineEnds(back: bool, x: Input, i: nat, j: nat)
    ensures Matches(Assert(LineStart), back, x, i, j)
            <==> i == j && i <= |x.w| && (i == 0 || (x.multiLine && (x.w[i - 1] == 10 || x.w[i - 1] == 13 || x.w[i - 1] == 8232 || x.w[i - 1] == 8233)))
    ensures Matches(Assert(LineEnd), back, x, i, j)
            <==> i == j && i <= |x.w| && (i == |x.w| || (x.multiLine && (x.w[i] == 10 || x.w[i] == 13 || x.w[i] == 8232 || x.w[i] == 8233)))
  {
  }

  /** A single character: itself, any, or any but the four that end a line; read forwards or, in a lookbehind, backwards. */
  lemma SingleCharacters(c: Char, back: bool, x: Input, i: nat, j: nat)
    ensures var at := if back then j else i;
            var moves := i <= |x.w| && j <= |x.w| && (if back then i == j + 1 else j == i + 1);
            && (Matches(One(Exactly(c)), back, x, i, j) <==> moves && x.w[at] == c)
            && (Matches(One(AnyChar), back, x, i, j) <==> moves)
            && (Matches(One(Dot), back, x, i, j) <==> moves && x.w[at] != 10 && x.w[at] != 13 && x.w[at] != 8232 && x.w[at] != 8233)
  {
  }

  // ---- the machine's own tests ----

  /** is_word_char */
  method TestWordChar(c: Char) returns (ok: bool)
    ensures ok <==> LetterDigitUnderscore(c)
  {
    ok := (0x30 <= c && c <= 0x39) || (0x61 <= c && c <= 0x7a) || (0x41 <= c && c <= 0x5a) || c == 0x5f;
  }

  /** is_line_terminator */
  method TestLineTerminator(c: Char) returns (ok: bool)
    ensures ok <==> EndsLine(c)
  {
    ok := c == 0x0a || c == 0x0d || c == 0x2028 || c == 0x2029;
  }

  /** REOP_line_start, REOP_line_end, REOP_word_boundary and REOP_not_word_boundary at position i. */
  method TestAssertion(k: Assertion, x: Input, i: nat) returns (ok: bool)
    requires i <= |x.w|
    ensures ok <==> Holds(k, x, i)
    ensures k == WordBoundary ==> (ok <==> EndOfRun(x, i))
    ensures k == NotWordBoundary ==> (ok <==> !EndOfRun(x, i))
    ensures k == LineStart ==> (ok <==> i == 0 || (x.multiLine && EndsLine(x.w[i - 1])))
    ensures k == LineEnd ==> (ok <==> i == |x.w| || (x.multiLine && EndsLine(x.w[i])))
  {
    hide EndOfRun, LetterDigitUnderscore, IsWordChar, EndsLine, IsLineTerminator;
    if i > 0 {
      SameCharacters(x.w[i - 1]);
    }
    if i < |x.w| {
      SameCharacters(x.w[i]);
    }
    match k
    case LineStart =>
      if i == 0 {
        return true;
      }
      if !x.multiLine {
        return false;
      }
      ok := TestLineTerminator(x.w[i - 1]);
    case LineEnd =>
      if i == |x.w| {
        return true;
      }
      if !x.multiLine {
        return false;
      }
      ok := TestLineTerminator(x.w[i]);
    case _ =>
      var v1, v2 := false, false;
      if i > 0 {
        v1 := TestWordChar(x.w[i - 1]);
      }
      if i < |x.w| {
        v2 := TestWordChar(x.w[i]);
      }
      NeighboursDiffer(x, i);
      ok := (v1 != v2) == (k == WordBoundary);
  }
}
