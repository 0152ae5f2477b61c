/**
 Patterns of qjs/libregexp.c and what they match, over plain 8- or 16-bit characters.

 The relation follows section 22.2.2 of ECMA-262 for greedy patterns without back references,
 captures ignored: a term matches from one position of the input to another, forwards, or
 backwards inside a lookbehind.
 */
module RegexpSyntax {

  type Char = nat

  /** What one character can be asked to be. */
  datatype Atom = Exactly(c: Char) | Dot | AnyChar | Class(points: seq<nat>)

  datatype Assertion = LineStart | LineEnd | WordBoundary | NotWordBoundary

  /** The upper bound of a quantifier; INT32_MAX stands for infinity in the source. */
  datatype Bound = Infinite | AtMost(n: nat)

  datatype Re =
    | Empty
    | One(atom: Atom)
    | Assert(kind: Assertion)
    | Seq(first: Re, second: Re)
    | Alt(left: Re, right: Re)
    | Group(body: Re)
    | Repeat(body: Re, min: nat, max: Bound)
    | Look(behind: bool, negative: bool, body: Re)

  /** The input and the multi-line flag. */
  datatype Input = Input(w: seq<Char>, multiLine: bool)

  predicate IsLineTerminator(c: Char) {
    c == 0x0a || c == 0x0d || c == 0x2028 || c == 0x2029
  }

  predicate IsWordChar(c: Char) {
    0x30 <= c <= 0x39 || 0x61 <= c <= 0x7a || 0x41 <= c <= 0x5a || c == 0x5f
  }

  /** Membership in a sorted list of interval end points. */
  predicate InPoints(points: seq<nat>, c: nat) {
    |points| >= 2 && (points[0] <= c < points[1] || InPoints(points[2..], c))
  }

  predicate Accepts(a: Atom, c: Char) {
    match a
    case Exactly(x) => x == c
    case Dot => !IsLineTerminator(c)
    case AnyChar => true
    case Class(points) => InPoints(points, c)
  }

  predicate Holds(k: Assertion, x: Input, i: nat)
    requires i <= |x.w|
  {
    match k
    case LineStart => i == 0 || (x.multiLine && IsLineTerminator(x.w[i - 1]))
    case LineEnd => i == |x.w| || (x.multiLine && IsLineTerminator(x.w[i]))
    case WordBoundary => WordBefore(x, i) != WordAfter(x, i)
    case NotWordBoundary => WordBefore(x, i) == WordAfter(x, i)
  }

  predicate WordBefore(x: Input, i: nat)
    requires i <= |x.w|
  {
    i > 0 && IsWordChar(x.w[i - 1])
  }

  predicate WordAfter(x: Input, i: nat)
    requires i <= |x.w|
  {
    i < |x.w| && IsWordChar(x.w[i])
  }

  predicate Within(b: Bound, k: nat) {
    b.Infinite? || k <= b.n
  }

  /** The parser rejects {n,m} with m < n. */
  predicate WellFormed(re: Re) {
    match re
    case Seq(a, b) => WellFormed(a) && WellFormed(b)
    case Alt(a, b) => WellFormed(a) && WellFormed(b)
    case Group(b) => WellFormed(b)
    case Repeat(b, min, max) => WellFormed(b) && Within(max, min)
    case Look(_, _, b) => WellFormed(b)
    case _ => true
  }

  /** Number of nodes, for inductions over pairs of patterns. */
  function Size(re: Re): nat {
    match re
    case Seq(a, b) => 1 + Size(a) + Size(b)
    case Alt(a, b) => 1 + Size(a) + Size(b)
    case Group(b) => 1 + Size(b)
    case Repeat(b, _, _) => 1 + Size(b)
    case Look(_, _, b) => 1 + Size(b)
    case _ => 1
  }

  predicate Pos(x: Input, i: int) {
    0 <= i <= |x.w|
  }

  /** re matches from position i to position j; back is the direction of a lookbehind. */
  ghost predicate Matches(re: Re, back: bool, x: Input, i: nat, j: nat)
    decreases re, 0, 0
  {
    && Pos(x, i) && Pos(x, j)
    && match re
       case Empty => i == j
       case One(a) => if back then j + 1 == i && Accepts(a, x.w[j]) else j == i + 1 && Accepts(a, x.w[i])
       case Assert(k) => i == j && Holds(k, x, i)
       case Seq(a, b) =>
         if back then exists m: nat :: Matches(b, back, x, i, m) && Matches(a, back, x, m, j)
         else exists m: nat :: Matches(a, back, x, i, m) && Matches(b, back, x, m, j)
       case Alt(a, b) => Matches(a, back, x, i, j) || Matches(b, back, x, i, j)
       case Group(b) => Matches(b, back, x, i, j)
       case Repeat(b, min, max) => exists k: nat :: min <= k && Within(max, k) && Iter(b, back, x, k, i, j)
       case Look(behind, negative, b) => i == j && (exists e: nat :: Matches(b, behind, x, i, e)) != negative
  }

  /** Exactly k copies of re in a row. */
  ghost predicate Iter(re: Re, back: bool, x: Input, k: nat, i: nat, j: nat)
    decreases re, 1, k
  {
    if k == 0 then i == j && Pos(x, i)
    else exists m: nat :: Matches(re, back, x, i, m) && Iter(re, back, x, k - 1, m, j)
  }

  /** Any number of copies, as a greedy * allows. */
  ghost predicate Star(re: Re, back: bool, x: Input, i: nat, j: nat) {
    exists k: nat :: Iter(re, back, x, k, i, j)
  }

  // ---- direction ----

  /** j is i or lies ahead of it in the direction of matching. */
  predicate Ahead(back: bool, i: nat, j: nat) {
    if back then j <= i else i <= j
  }

  lemma {:induction false} MatchesAhead(re: Re, back: bool, x: Input, i: nat, j: nat)
    requires Matches(re, back, x, i, j)
    ensures Ahead(back, i, j) && Pos(x, i) && Pos(x, j)
    decreases re, 0, 0
  {
    match re
    case Seq(a, b) =>
      if back {
        var m: nat :| Matches(b, back, x, i, m) && Matches(a, back, x, m, j);
        MatchesAhead(b, back, x, i, m);
        MatchesAhead(a, back, x, m, j);
      } else {
        var m: nat :| Matches(a, back, x, i, m) && Matches(b, back, x, m, j);
        MatchesAhead(a, back, x, i, m);
        MatchesAhead(b, back, x, m, j);
      }
    case Alt(a, b) =>
      if Matches(a, back, x, i, j) {
        MatchesAhead(a, back, x, i, j);
      } else {
        MatchesAhead(b, back, x, i, j);
      }
    case Group(b) => MatchesAhead(b, back, x, i, j);
    case Repeat(b, min, max) =>
      var k: nat :| min <= k && Within(max, k) && Iter(b, back, x, k, i, j);
      IterAhead(b, back, x, k, i, j);
    case _ =>
  }

  lemma {:induction false} IterAhead(re: Re, back: bool, x: Input, k: nat, i: nat, j: nat)
    requires Iter(re, back, x, k, i, j)
    ensures Ahead(back, i, j) && Pos(x, i) && Pos(x, j)
    decreases re, 1, k
  {
    if k > 0 {
      var m: nat :| Matches(re, back, x, i, m) && Iter(re, back, x, k - 1, m, j);
      MatchesAhead(re, back, x, i, m);
      IterAhead(re, back, x, k - 1, m, j);
    }
  }

  // ---- repetition ----

  lemma {:induction false} IterSum(re: Re, back: bool, x: Input, k: nat, l: nat, i: nat, m: nat, j: nat)
    requires Iter(re, back, x, k, i, m) && Iter(re, back, x, l, m, j)
    ensures Iter(re, back, x, k + l, i, j)
    decreases k
  {
    if k > 0 {
      var m': nat :| Matches(re, back, x, i, m') && Iter(re, back, x, k - 1, m', m);
      IterSum(re, back, x, k - 1, l, m', m, j);
      assert Iter(re, back, x, k - 1 + l, m', j);
    }
  }

  lemma {:induction false} IterSplit(re: Re, back: bool, x: Input, k: nat, l: nat, i: nat, j: nat) returns (m: nat)
    requires Iter(re, back, x, k + l, i, j)
    ensures Iter(re, back, x, k, i, m) && Iter(re, back, x, l, m, j)
    decreases k
  {
    if k == 0 {
      IterAhead(re, back, x, l, i, j);
      m := i;
    } else {
      var m': nat :| Matches(re, back, x, i, m') && Iter(re, back, x, k + l - 1, m', j);
      m := IterSplit(re, back, x, k - 1, l, m', j);
    }
  }

  lemma IterHead(re: Re, back: bool, x: Input, k: nat, i: nat, j: nat) returns (m: nat)
    requires k > 0 && Iter(re, back, x, k, i, j)
    ensures Matches(re, back, x, i, m) && Iter(re, back, x, k - 1, m, j)
  {
    m :| Matches(re, back, x, i, m) && Iter(re, back, x, k - 1, m, j);
  }

  lemma IterOne(re: Re, back: bool, x: Input, i: nat, j: nat)
    ensures Iter(re, back, x, 1, i, j) <==> Matches(re, back, x, i, j)
  {
    if Matches(re, back, x, i, j) {
      MatchesAhead(re, back, x, i, j);
      var one: nat := 1;
      assert Iter(re, back, x, one - 1, j, j);
      assert Iter(re, back, x, one, i, j);
    }
    if Iter(re, back, x, 1, i, j) {
      var m := IterHead(re, back, x, 1, i, j);
    }
  }

  lemma StarRefl(re: Re, back: bool, x: Input, i: nat)
    requires Pos(x, i)
    ensures Star(re, back, x, i, i)
  {
    assert Iter(re, back, x, 0, i, i);
  }

  lemma StarStep(re: Re, back: bool, x: Input, i: nat, m: nat, j: nat)
    requires Matches(re, back, x, i, m) && Star(re, back, x, m, j)
    ensures Star(re, back, x, i, j)
  {
    var k: nat :| Iter(re, back, x, k, m, j);
    assert Iter(re, back, x, k + 1, i, j);
  }

  /** Empty iterations can be dropped: a star stops at once or starts with an iteration that moves. */
  lemma {:induction false} StarMoves(re: Re, back: bool, x: Input, k: nat, i: nat, j: nat) returns (m: nat)
    requires Iter(re, back, x, k, i, j) && i != j
    ensures m != i && Matches(re, back, x, i, m) && Star(re, back, x, m, j)
    decreases k
  {
    m :| Matches(re, back, x, i, m) && Iter(re, back, x, k - 1, m, j);
    if m == i {
      m := StarMoves(re, back, x, k - 1, i, j);
    }
  }

  // ---- the quantifier of ECMA-262 ----

  /**
   RepeatMatcher of section 22.2.2.3.1: once the minimum is used up, an iteration that consumes
   nothing is rejected.
   */
  ghost predicate Repeats(re: Re, back: bool, x: Input, min: nat, max: Bound, n: nat, i: nat, j: nat)
    decreases n
  {
    if n == 0 then min == 0 && i == j && Pos(x, i)
    else
      && Within(max, 1)
      && var less := if max.Infinite? then max else AtMost(max.n - 1);
      exists m: nat ::
        && Matches(re, back, x, i, m)
        && (min == 0 ==> m != i)
        && Repeats(re, back, x, if min == 0 then 0 else min - 1, less, n - 1, m, j)
  }

  lemma RepeatIntro(re: Re, back: bool, x: Input, min: nat, max: Bound, k: nat, i: nat, j: nat)
    requires min <= k && Within(max, k) && Iter(re, back, x, k, i, j)
    ensures Matches(Repeat(re, min, max), back, x, i, j)
  {
    IterAhead(re, back, x, k, i, j);
  }

  lemma RepeatElim(re: Re, back: bool, x: Input, min: nat, max: Bound, i: nat, j: nat) returns (k: nat)
    requires Matches(Repeat(re, min, max), back, x, i, j)
    ensures min <= k && Within(max, k) && Iter(re, back, x, k, i, j)
  {
    k :| min <= k && Within(max, k) && Iter(re, back, x, k, i, j);
  }

  /** For the positions reached, the rejection makes no difference. */
  lemma RepeatIsEcma(re: Re, back: bool, x: Input, min: nat, max: Bound, i: nat, j: nat)
    requires Within(max, min)
    ensures Matches(Repeat(re, min, max), back, x, i, j) <==> exists n: nat :: Repeats(re, back, x, min, max, n, i, j)
  {
    hide Iter, Matches, Repeats;
    if Matches(Repeat(re, min, max), back, x, i, j) {
      var k := RepeatElim(re, back, x, min, max, i, j);
      var n := IterRepeats(re, back, x, min, max, k, i, j);
      assert Repeats(re, back, x, min, max, n, i, j);
    }
    if n: nat :| Repeats(re, back, x, min, max, n, i, j) {
      RepeatsIter(re, back, x, min, max, n, i, j);
      RepeatIntro(re, back, x, min, max, n, i, j);
    }
  }

  lemma {:induction false} IterRepeats(re: Re, back: bool, x: Input, min: nat, max: Bound, k: nat, i: nat, j: nat) returns (n: nat)
    requires min <= k && Within(max, k) && Iter(re, back, x, k, i, j)
    ensures Repeats(re, back, x, min, max, n, i, j)
    decreases k
  {
    if k == 0 {
      return 0;
    }
    var m: nat :| Matches(re, back, x, i, m) && Iter(re, back, x, k - 1, m, j);
    var less := if max.Infinite? then max else AtMost(max.n - 1);
    if min == 0 && m == i {
      n := IterRepeats(re, back, x, 0, max, k - 1, i, j);
    } else {
      n := IterRepeats(re, back, x, if min == 0 then 0 else min - 1, less, k - 1, m, j);
      n := n + 1;
    }
  }

  lemma {:induction false} RepeatsIter(re: Re, back: bool, x: Input, min: nat, max: Bound, n: nat, i: nat, j: nat)
    requires Repeats(re, back, x, min, max, n, i, j)
    ensures min <= n && Within(max, n) && Iter(re, back, x, n, i, j)
    decreases n
  {
    if n > 0 {
      var less := if max.Infinite? then max else AtMost(max.n - 1);
      var m: nat :| Matches(re, back, x, i, m) && (min == 0 ==> m != i)
        && Repeats(re, back, x, if min == 0 then 0 else min - 1, less, n - 1, m, j);
      RepeatsIter(re, back, x, if min == 0 then 0 else min - 1, less, n - 1, m, j);
    }
  }
}
