/**
 Compiled patterns decide exactly what the patterns mean: the search over the code of a
 pattern terminates, and succeeds if and only if the pattern matches.
 */
module RegexpCorrect {
  import opened RegexpSyntax
  import opened RegexpCode
  import opened RegexpMachine

  // ---- one instruction ----

  /** An instruction that hands over to (pc', i', st') gives the same answer. */
  lemma Forward(code: Code, x: Input, pc: nat, i: nat, st: seq<int>, pc': int, i': nat, st': seq<int>, b: bool)
    requires pc < |code| && Pos(x, i) && Answers(code, x, pc', i', st', b)
    requires match code[pc]
             case Test(a) => i < |x.w| && Accepts(a, x.w[i]) && pc' == pc + 1 && i' == i + 1 && st' == st
             case Check(k) => Holds(k, x, i) && pc' == pc + 1 && i' == i && st' == st
             case Prev => i > 0 && pc' == pc + 1 && i' == i - 1 && st' == st
             case Goto(d) => pc' == pc + 1 + d && i' == i && st' == st
             case SaveStart => pc' == pc + 1 && i' == i && st' == st
             case SaveEnd => pc' == pc + 1 && i' == i && st' == st
             case SaveReset => pc' == pc + 1 && i' == i && st' == st
             case PushCount(n) => pc' == pc + 1 && i' == i && st' == st + [n]
             case PushPos => pc' == pc + 1 && i' == i && st' == st + [i]
             case Drop => st != [] && pc' == pc + 1 && i' == i && st' == st[..|st| - 1]
             case Loop(d) =>
               st != [] && i' == i && st' == st[..|st| - 1] + [st[|st| - 1] - 1]
               && pc' == (if st[|st| - 1] - 1 != 0 then pc + 1 + d else pc + 1)
             case BneCharPos(d) =>
               st != [] && i' == i && st' == st[..|st| - 1] && pc' == (if st[|st| - 1] != i then pc + 1 + d else pc + 1)
             case _ => false
    ensures Answers(code, x, pc, i, st, b)
  {
    hide Accepts, Holds, GreedyRun;
    var f: nat :| Eval(code, x, pc', i', st', f) == Ans(b);
    assert Eval(code, x, pc, i, st, f + 1) == Ans(b);
  }

  /** A failing test or a match answers at once. */
  lemma Stops(code: Code, x: Input, pc: nat, i: nat, st: seq<int>, b: bool)
    requires pc < |code| && Pos(x, i)
    requires match code[pc]
             case Match => b
             case Test(a) => !b && !(i < |x.w| && Accepts(a, x.w[i]))
             case Check(k) => !b && !Holds(k, x, i)
             case Prev => !b && i == 0
             case _ => false
    ensures Answers(code, x, pc, i, st, b)
  {
    hide Accepts, Holds, GreedyRun;
    assert Eval(code, x, pc, i, st, 1) == Ans(b);
  }

  /** Enough fuel for two searches. */
  lemma BothAnswer(code: Code, x: Input, p1: int, i1: nat, st1: seq<int>, b1: bool, p2: int, i2: nat, st2: seq<int>, b2: bool) returns (f: nat)
    requires Answers(code, x, p1, i1, st1, b1) && Answers(code, x, p2, i2, st2, b2)
    ensures Eval(code, x, p1, i1, st1, f) == Ans(b1) && Eval(code, x, p2, i2, st2, f) == Ans(b2)
  {
    var f1: nat :| Eval(code, x, p1, i1, st1, f1) == Ans(b1);
    var f2: nat :| Eval(code, x, p2, i2, st2, f2) == Ans(b2);
    f := if f1 < f2 then f2 else f1;
    MoreFuel(code, x, p1, i1, st1, f1, f);
    MoreFuel(code, x, p2, i2, st2, f2, f);
  }

  lemma Splits(code: Code, x: Input, pc: nat, i: nat, st: seq<int>, b1: bool, b2: bool)
    requires pc < |code| && Pos(x, i) && (code[pc].SplitNextFirst? || code[pc].SplitGotoFirst?)
    requires Answers(code, x, pc + 1, i, st, b1) && Answers(code, x, pc + 1 + code[pc].d, i, st, b2)
    ensures Answers(code, x, pc, i, st, b1 || b2)
  {
    var f := BothAnswer(code, x, pc + 1, i, st, b1, pc + 1 + code[pc].d, i, st, b2);
    assert Eval(code, x, pc, i, st, f + 1) == Ans(b1 || b2);
  }

  lemma Looks(code: Code, x: Input, pc: nat, i: nat, st: seq<int>, b1: bool, b2: bool)
    requires pc < |code| && Pos(x, i) && (code[pc].Lookahead? || code[pc].NegativeLookahead?)
    requires Answers(code, x, pc + 1, i, st, b1)
    requires b1 == code[pc].Lookahead? ==> Answers(code, x, pc + 1 + code[pc].d, i, st, b2)
    ensures Answers(code, x, pc, i, st, b1 == code[pc].Lookahead? && b2)
  {
    if b1 == code[pc].Lookahead? {
      var f := BothAnswer(code, x, pc + 1, i, st, b1, pc + 1 + code[pc].d, i, st, b2);
      assert Eval(code, x, pc, i, st, f + 1) == Ans(b2);
    } else {
      var f: nat :| Eval(code, x, pc + 1, i, st, f) == Ans(b1);
      assert Eval(code, x, pc, i, st, f + 1) == Ans(false);
    }
  }

  // ---- what a fragment promises ----

  /** Some end of re lies in s. */
  ghost predicate Hits(re: Re, back: bool, x: Input, i: nat, s: set<nat>) {
    exists e: nat :: e in s && Matches(re, back, x, i, e)
  }

  /** Behind the fragment, at q, every end e of re is answered by membership in s. */
  ghost predicate Continues(code: Code, x: Input, q: int, st: seq<int>, re: Re, back: bool, i: nat, s: set<nat>) {
    forall e: nat :: Matches(re, back, x, i, e) ==> Answers(code, x, q, e, st, e in s)
  }

  // ---- moving atoms ----

  predicate AllNeutral(c: Code) {
    forall k :: 0 <= k < |c| ==> IsNeutral(c[k])
  }

  lemma {:induction false} AdvanceConcat(c: Code, d: Code)
    ensures AlwaysAdvances(c + d) ==> AlwaysAdvances(c) || (AllNeutral(c) && AlwaysAdvances(d))
    decreases c
  {
    if c == [] {
      assert c + d == d;
    } else {
      assert (c + d)[1..] == c[1..] + d;
      AdvanceConcat(c[1..], d);
      assert IsNeutral(c[0]) && AllNeutral(c[1..]) ==> AllNeutral(c);
    }
  }

  lemma NotAdvancing(c: Code)
    requires c == [] || !(c[0].Test? || IsNeutral(c[0]))
    ensures !AlwaysAdvances(c)
  {
  }

  /** The code behind an atom in the quantifier shapes never counts as advancing. */
  lemma TailsDoNotAdvance(c: Code, max: Bound, min: nat, n: nat)
    ensures !AlwaysAdvances(StarCode(c)) && !AlwaysAdvances(UpToCode(c, n)) && !AlwaysAdvances(Optional(c, max)) && !AlwaysAdvances(Rest(c, min, max))
    ensures !AlwaysAdvances([SaveReset] + Optional(c, max))
  {
    assert UpToCode(c, n)[1..] == [SplitNextFirst(|c| + 1)] + c + [Loop(-(|c| + 2)), Drop];
    if max.AtMost? {
      assert UpToCode(c, max.n)[1..] == [SplitNextFirst(|c| + 1)] + c + [Loop(-(|c| + 2)), Drop];
      if max.n > min {
        assert UpToCode(c, max.n - min)[1..] == [SplitNextFirst(|c| + 1)] + c + [Loop(-(|c| + 2)), Drop];
      }
    }
    assert ([SaveReset] + Optional(c, max))[1..] == Optional(c, max);
  }

  /** A quantifier whose code always advances has an advancing atom and at least one iteration. */
  lemma QuantifyAdvances(c: Code, min: nat, max: Bound, captures: bool)
    requires AlwaysAdvances(Quantify(c, min, max, captures)) && Within(max, min)
    ensures min >= 1 && AlwaysAdvances(c)
  {
    hide Optional, Rest, StarCode, UpToCode;
    TailsDoNotAdvance(c, max, min, 0);
    assert [] + Optional(c, max) == Optional(c, max);
    if max != AtMost(0) && AllSimple(c) && CharCount(c) > 0 {
      assert false;
    } else if min == 0 {
      if captures {
        assert false;
      } else {
        assert false;
      }
    } else if min == 1 && max == Infinite && AlwaysAdvances(c) {
    } else {
      AdvanceConcat(Mandatory(c, min), Rest(c, min, max));
      if min > 1 {
        var m := Mandatory(c, min);
        assert m[1..] == c + [Loop(-(|c| + 1)), Drop];
        AdvanceConcat(c, [Loop(-(|c| + 1)), Drop]);
      }
    }
  }

  /** re_check_advance is right: code that always advances belongs to a pattern that never matches the empty string. */
  lemma {:induction false} AdvanceSound(re: Re, back: bool, x: Input, i: nat, j: nat)
    requires WellFormed(re) && AlwaysAdvances(Compile(re, back)) && Matches(re, back, x, i, j)
    ensures i != j
    decreases Size(re), 0
  {
    hide Quantify, Iter, Holds, Accepts;
    match re
    case Empty =>
    case One(a) =>
    case Assert(k) =>
    case Seq(a, b) =>
      if back {
        var m: nat :| Matches(b, back, x, i, m) && Matches(a, back, x, m, j);
        AdvanceSeq(b, a, back, x, i, m, j);
      } else {
        var m: nat :| Matches(a, back, x, i, m) && Matches(b, back, x, m, j);
        AdvanceSeq(a, b, back, x, i, m, j);
      }
    case Alt(a, b) => NotAdvancing(Compile(re, back));
    case Group(b) =>
      var c := Compile(b, back);
      var tail := if back then [SaveStart] else [SaveEnd];
      assert Compile(re, back)[1..] == c + tail;
      AdvanceConcat(c, tail);
      assert tail[1..] == [];
      AdvanceSound(b, back, x, i, j);
    case Look(_, _, _) => NotAdvancing(Compile(re, back));
    case Repeat(b, min, max) =>
      QuantifyAdvances(Compile(b, back), min, max, HasCapture(b));
      var k := RepeatElim(b, back, x, min, max, i, j);
      var m := IterHead(b, back, x, k, i, j);
      AdvanceSound(b, back, x, i, m);
      MatchesAhead(b, back, x, i, m);
      IterAhead(b, back, x, k - 1, m, j);
  }

  lemma {:induction false} AdvanceSeq(a: Re, b: Re, back: bool, x: Input, i: nat, m: nat, j: nat)
    requires WellFormed(a) && WellFormed(b) && AlwaysAdvances(Compile(a, back) + Compile(b, back))
    requires Matches(a, back, x, i, m) && Matches(b, back, x, m, j)
    ensures i != j
    decreases Size(a) + Size(b), 1
  {
    hide Compile, Matches;
    AdvanceConcat(Compile(a, back), Compile(b, back));
    MatchesAhead(a, back, x, i, m);
    MatchesAhead(b, back, x, m, j);
    if AlwaysAdvances(Compile(a, back)) {
      AdvanceSound(a, back, x, i, m);
    } else {
      AdvanceSound(b, back, x, m, j);
    }
  }

  // ---- loops ----

  /** How far the matching can still go. */
  function Distance(back: bool, x: Input, i: nat): nat {
    if back then i else if i <= |x.w| then |x.w| - i else 0
  }

  ghost predicate StarHits(re: Re, back: bool, x: Input, i: nat, s: set<nat>) {
    exists e: nat :: e in s && Star(re, back, x, i, e)
  }

  ghost predicate StarContinues(code: Code, x: Input, q: int, st: seq<int>, re: Re, back: bool, i: nat, s: set<nat>) {
    forall e: nat :: Star(re, back, x, i, e) ==> Answers(code, x, q, e, st, e in s)
  }

  /** Positions from which the loop, entered again, still hits s; staying put counts as leaving it. */
  ghost function Again(re: Re, back: bool, x: Input, i: nat, s: set<nat>): set<nat> {
    set e: nat | 0 <= e <= |x.w| && (if e == i then i in s else StarHits(re, back, x, e, s))
  }

  /** A star hits s at once, or after one iteration that moves. */
  lemma StarHitsUnfold(re: Re, back: bool, x: Input, i: nat, s: set<nat>)
    requires Pos(x, i)
    ensures StarHits(re, back, x, i, s) <==> i in s || Hits(re, back, x, i, Again(re, back, x, i, s))
  {
    hide Matches, Iter;
    var again := Again(re, back, x, i, s);
    if i in s {
      StarRefl(re, back, x, i);
    }
    if e: nat :| e in again && Matches(re, back, x, i, e) {
      if e != i {
        var e': nat :| e' in s && Star(re, back, x, e, e');
        StarStep(re, back, x, i, e, e');
      }
    }
    if e: nat :| e in s && Star(re, back, x, i, e) {
      if e != i {
        var k: nat :| Iter(re, back, x, k, i, e);
        var m := StarMoves(re, back, x, k, i, e);
        MatchesAhead(re, back, x, i, m);
        assert m in again;
      }
    }
  }

  lemma StarContinuesStep(code: Code, x: Input, q: int, st: seq<int>, re: Re, back: bool, i: nat, m: nat, s: set<nat>)
    requires StarContinues(code, x, q, st, re, back, i, s) && Matches(re, back, x, i, m)
    ensures StarContinues(code, x, q, st, re, back, m, s)
  {
    hide Matches, Answers;
    forall e: nat | Star(re, back, x, m, e)
      ensures Answers(code, x, q, e, st, e in s)
    {
      StarStep(re, back, x, i, m, e);
    }
  }

  /** The greedy loop over an atom: both the checked and the unchecked form. */
  lemma {:induction false} StarLoop(b: Re, back: bool, code: Code, x: Input, p: nat, i: nat, st: seq<int>, s: set<nat>)
    requires WellFormed(b) && CodeAt(code, p, StarCode(Compile(b, back))) && Pos(x, i)
    requires StarContinues(code, x, p + |StarCode(Compile(b, back))|, st, b, back, i, s)
    ensures Answers(code, x, p, i, st, StarHits(b, back, x, i, s))
    decreases Size(b), 1, Distance(back, x, i), 2
  {
    hide Compile, Matches, Iter, Answers, Star, CodeAt, Hits, StarHits, AlwaysAdvances, Again;
    var c := Compile(b, back);
    var again := Again(b, back, x, i, s);
    var exit := p + |StarCode(c)|;
    assert Answers(code, x, exit, i, st, i in s) by {
      StarRefl(b, back, x, i);
    }
    CodeAtIndex(code, p, StarCode(c), 0);
    if AlwaysAdvances(c) {
      FreeTurn(b, back, code, x, p, i, st, s);
    } else {
      CheckedTurn(b, back, code, x, p, i, st, s);
    }
    Splits(code, x, p, i, st, Hits(b, back, x, i, again), i in s);
    StarHitsUnfold(b, back, x, i, s);
  }

  /** One turn of the loop that needs no check. */
  lemma {:induction false} FreeTurn(b: Re, back: bool, code: Code, x: Input, p: nat, i: nat, st: seq<int>, s: set<nat>)
    requires WellFormed(b) && CodeAt(code, p, StarCode(Compile(b, back))) && Pos(x, i) && AlwaysAdvances(Compile(b, back))
    requires StarContinues(code, x, p + |StarCode(Compile(b, back))|, st, b, back, i, s)
    ensures Answers(code, x, p + 1, i, st, Hits(b, back, x, i, Again(b, back, x, i, s)))
    decreases Size(b), 1, Distance(back, x, i), 1
  {
    hide Compile, Matches, Iter, Answers, Star, CodeAt, Hits, StarHits, AlwaysAdvances, Again, StarContinues;
    var c := Compile(b, back);
    var again := Again(b, back, x, i, s);
    assert StarCode(c) == [SplitNextFirst(|c| + 1)] + (c + [Goto(-(|c| + 2))]);
    CodeAtConcat(code, p, [SplitNextFirst(|c| + 1)], c + [Goto(-(|c| + 2))]);
    CodeAtConcat(code, p + 1, c, [Goto(-(|c| + 2))]);
    CodeAtIndex(code, p + 1 + |c|, [Goto(-(|c| + 2))], 0);
    forall e: nat | Matches(b, back, x, i, e)
      ensures Answers(code, x, p + 1 + |c|, e, st, e in again)
    {
      LoopBack(b, back, code, x, p, i, e, st, s);
      Forward(code, x, p + 1 + |c|, e, st, p, e, st, e in again);
    }
    Fragment(b, back, code, x, p + 1, i, st, again);
  }

  /** Where the parts of that loop are. */
  lemma CheckedCode(c: Code, code: Code, p: nat)
    requires CodeAt(code, p, StarCode(c)) && !AlwaysAdvances(c)
    ensures p + |StarCode(c)| == p + |c| + 3 <= |code| && code[p + 1] == PushPos && code[p + 2 + |c|] == BneCharPos(-(|c| + 3))
    ensures CodeAt(code, p + 2, c)
  {
    hide CodeAt, AlwaysAdvances;
    var tail := c + [BneCharPos(-(|c| + 3))];
    assert StarCode(c) == [SplitNextFirst(|c| + 2), PushPos] + tail;
    CodeAtIndex(code, p, StarCode(c), 1);
    CodeAtIndex(code, p, StarCode(c), |c| + 2);
    CodeAtConcat(code, p, [SplitNextFirst(|c| + 2), PushPos], tail);
    CodeAtConcat(code, p + 2, c, [BneCharPos(-(|c| + 3))]);
  }

  /** One turn of the loop that remembers its start and leaves when it did not move. */
  lemma {:induction false} CheckedTurn(b: Re, back: bool, code: Code, x: Input, p: nat, i: nat, st: seq<int>, s: set<nat>)
    requires WellFormed(b) && CodeAt(code, p, StarCode(Compile(b, back))) && Pos(x, i) && !AlwaysAdvances(Compile(b, back))
    requires StarContinues(code, x, p + |StarCode(Compile(b, back))|, st, b, back, i, s)
    ensures Answers(code, x, p + 1, i, st, Hits(b, back, x, i, Again(b, back, x, i, s)))
    decreases Size(b), 1, Distance(back, x, i), 1
  {
    hide Compile, Matches, Iter, Answers, Star, CodeAt, Hits, StarHits, AlwaysAdvances, Again;
    var c := Compile(b, back);
    var again := Again(b, back, x, i, s);
    var exit := p + |StarCode(c)|;
    CheckedCode(c, code, p);
    hide StarCode;
    var st' := st + [i];
    assert st'[..|st'| - 1] == st;
    forall e: nat | Matches(b, back, x, i, e)
      ensures Answers(code, x, p + 2 + |c|, e, st', e in again)
    {
      MatchesAhead(b, back, x, i, e);
      if e != i {
        LoopBack(b, back, code, x, p, i, e, st, s);
        Forward(code, x, p + 2 + |c|, e, st', p, e, st, e in again);
      } else {
        StarRefl(b, back, x, i);
        AgainHere(b, back, x, i, s);
        Forward(code, x, p + 2 + |c|, e, st', exit, e, st, e in again);
      }
    }
    Fragment(b, back, code, x, p + 2, i, st', again);
    Forward(code, x, p + 1, i, st, p + 2, i, st', Hits(b, back, x, i, again));
  }

  lemma AgainHere(b: Re, back: bool, x: Input, i: nat, s: set<nat>)
    requires Pos(x, i)
    ensures i in Again(b, back, x, i, s) <==> i in s
  {
  }

  /** Entering the loop again from an end that moved. */
  lemma {:induction false} LoopBack(b: Re, back: bool, code: Code, x: Input, p: nat, i: nat, e: nat, st: seq<int>, s: set<nat>)
    requires WellFormed(b) && CodeAt(code, p, StarCode(Compile(b, back))) && Pos(x, i) && Matches(b, back, x, i, e)
    requires AlwaysAdvances(Compile(b, back)) || e != i
    requires StarContinues(code, x, p + |StarCode(Compile(b, back))|, st, b, back, i, s)
    ensures Pos(x, e) && e != i && Answers(code, x, p, e, st, e in Again(b, back, x, i, s))
    decreases Size(b), 1, Distance(back, x, i), 0
  {
    hide Compile, Matches, Iter, Answers, Star, StarCode;
    MatchesAhead(b, back, x, i, e);
    if AlwaysAdvances(Compile(b, back)) {
      AdvanceSound(b, back, x, i, e);
    }
    StarContinuesStep(code, x, p + |StarCode(Compile(b, back))|, st, b, back, i, e, s);
    StarLoop(b, back, code, x, p, e, st, s);
  }

  /** One or more copies, with the split behind the atom: the shape of `+` when the atom advances. */
  ghost predicate PlusHits(re: Re, back: bool, x: Input, i: nat, s: set<nat>) {
    exists m: nat :: Matches(re, back, x, i, m) && StarHits(re, back, x, m, s)
  }

  ghost function StarSet(re: Re, back: bool, x: Input, s: set<nat>): set<nat> {
    set e: nat | 0 <= e <= |x.w| && StarHits(re, back, x, e, s)
  }

  lemma {:induction false} PlusLoop(b: Re, back: bool, code: Code, x: Input, p: nat, i: nat, st: seq<int>, s: set<nat>)
    requires WellFormed(b) && AlwaysAdvances(Compile(b, back)) && Pos(x, i)
    requires CodeAt(code, p, Compile(b, back) + [SplitGotoFirst(-(|Compile(b, back)| + 1))])
    requires forall m: nat :: Matches(b, back, x, i, m) ==> StarContinues(code, x, p + |Compile(b, back)| + 1, st, b, back, m, s)
    ensures Answers(code, x, p, i, st, PlusHits(b, back, x, i, s))
    decreases Size(b), 1, Distance(back, x, i)
  {
    hide Compile, Matches, Iter, Answers, Star;
    var c := Compile(b, back);
    var split := [SplitGotoFirst(-(|c| + 1))];
    var stars := StarSet(b, back, x, s);
    CodeAtConcat(code, p, c, split);
    CodeAtIndex(code, p + |c|, split, 0);
    forall m: nat | Matches(b, back, x, i, m)
      ensures Answers(code, x, p + |c|, m, st, m in stars)
    {
      MatchesAhead(b, back, x, i, m);
      AdvanceSound(b, back, x, i, m);
      forall m': nat | Matches(b, back, x, m, m')
        ensures StarContinues(code, x, p + |c| + 1, st, b, back, m', s)
      {
        StarContinuesStep(code, x, p + |c| + 1, st, b, back, m, m', s);
      }
      PlusLoop(b, back, code, x, p, m, st, s);
      assert Answers(code, x, p + |c| + 1, m, st, m in s) by {
        StarRefl(b, back, x, m);
      }
      Splits(code, x, p + |c|, m, st, m in s, PlusHits(b, back, x, m, s));
      StarIsPlus(b, back, x, m, s);
    }
    Fragment(b, back, code, x, p, i, st, stars);
    HitsStarSet(b, back, x, i, s);
  }

  lemma HitsStarSet(b: Re, back: bool, x: Input, i: nat, s: set<nat>)
    ensures Hits(b, back, x, i, StarSet(b, back, x, s)) <==> PlusHits(b, back, x, i, s)
  {
    hide Matches, Star;
    if m: nat :| Matches(b, back, x, i, m) && StarHits(b, back, x, m, s) {
      MatchesAhead(b, back, x, i, m);
      assert m in StarSet(b, back, x, s);
    }
  }

  lemma StarIsPlus(b: Re, back: bool, x: Input, i: nat, s: set<nat>)
    requires Pos(x, i)
    ensures StarHits(b, back, x, i, s) <==> i in s || PlusHits(b, back, x, i, s)
  {
    hide Matches;
    if i in s {
      StarRefl(b, back, x, i);
    }
    if m: nat :| Matches(b, back, x, i, m) && StarHits(b, back, x, m, s) {
      var e: nat :| e in s && Star(b, back, x, m, e);
      StarStep(b, back, x, i, m, e);
    }
    if e: nat :| e in s && Star(b, back, x, i, e) {
      var k: nat :| Iter(b, back, x, k, i, e);
      if k > 0 {
        var m := IterHead(b, back, x, k, i, e);
        assert Star(b, back, x, m, e);
      }
    }
  }

  // ---- counted loops ----

  ghost predicate IterHits(re: Re, back: bool, x: Input, k: nat, i: nat, s: set<nat>) {
    exists e: nat :: e in s && Iter(re, back, x, k, i, e)
  }

  ghost function IterSet(re: Re, back: bool, x: Input, k: nat, s: set<nat>): set<nat> {
    set e: nat | 0 <= e <= |x.w| && IterHits(re, back, x, k, e, s)
  }

  lemma HitsIterSet(b: Re, back: bool, x: Input, k: nat, i: nat, s: set<nat>)
    requires k > 0
    ensures Hits(b, back, x, i, IterSet(b, back, x, k - 1, s)) <==> IterHits(b, back, x, k, i, s)
  {
    hide Matches;
    if m: nat :| m in IterSet(b, back, x, k - 1, s) && Matches(b, back, x, i, m) {
      var e: nat :| e in s && Iter(b, back, x, k - 1, m, e);
      assert Iter(b, back, x, k, i, e);
    }
    if e: nat :| e in s && Iter(b, back, x, k, i, e) {
      var m := IterHead(b, back, x, k, i, e);
      MatchesAhead(b, back, x, i, m);
      assert m in IterSet(b, back, x, k - 1, s);
    }
  }

  /** Exactly k more copies, k being on top of the stack: from the first instruction of the atom. */
  lemma {:induction false} CountLoop(b: Re, back: bool, code: Code, x: Input, p: nat, k: nat, i: nat, st: seq<int>, s: set<nat>)
    requires WellFormed(b) && k > 0 && Pos(x, i)
    requires CodeAt(code, p, Compile(b, back) + [Loop(-(|Compile(b, back)| + 1)), Drop])
    requires forall e: nat :: Iter(b, back, x, k, i, e) ==> Answers(code, x, p + |Compile(b, back)| + 2, e, st, e in s)
    ensures Answers(code, x, p, i, st + [k], IterHits(b, back, x, k, i, s))
    decreases Size(b), 1, k
  {
    hide Compile, Matches, Answers, Hits, CodeAt, IterHits;
    var c := Compile(b, back);
    var tail := [Loop(-(|c| + 1)), Drop];
    var ends := IterSet(b, back, x, k - 1, s);
    CodeAtConcat(code, p, c, tail);
    CodeAtIndex(code, p + |c|, tail, 0);
    CodeAtIndex(code, p + |c|, tail, 1);
    var st1, st2 := st + [k], st + [k - 1];
    assert st1[..|st1| - 1] == st && st2[..|st2| - 1] == st;
    forall m: nat | Matches(b, back, x, i, m)
      ensures Answers(code, x, p + |c|, m, st1, m in ends)
    {
      MatchesAhead(b, back, x, i, m);
      if k > 1 {
        forall e: nat | Iter(b, back, x, k - 1, m, e)
          ensures Answers(code, x, p + |c| + 2, e, st, e in s)
        {
          assert Iter(b, back, x, k, i, e);
        }
        CountLoop(b, back, code, x, p, k - 1, m, st, s);
        Forward(code, x, p + |c|, m, st1, p, m, st2, m in ends);
      } else {
        ZeroMore(b, back, x, i, m, s);
        Forward(code, x, p + |c| + 1, m, st2, p + |c| + 2, m, st, m in s);
        Forward(code, x, p + |c|, m, st1, p + |c| + 1, m, st2, m in ends);
      }
    }
    Fragment(b, back, code, x, p, i, st1, ends);
    HitsIterSet(b, back, x, k, i, s);
  }

  lemma ZeroMore(b: Re, back: bool, x: Input, i: nat, m: nat, s: set<nat>)
    requires Matches(b, back, x, i, m)
    ensures Iter(b, back, x, 1, i, m) && (m in IterSet(b, back, x, 0, s) <==> m in s)
  {
    MatchesAhead(b, back, x, i, m);
    IterOne(b, back, x, i, m);
    assert Iter(b, back, x, 0, m, m);
  }

  /** At most k copies. */
  ghost predicate UpHits(re: Re, back: bool, x: Input, k: nat, i: nat, s: set<nat>) {
    exists j: nat :: j <= k && IterHits(re, back, x, j, i, s)
  }

  ghost function UpSet(re: Re, back: bool, x: Input, k: nat, s: set<nat>): set<nat> {
    set e: nat | 0 <= e <= |x.w| && UpHits(re, back, x, k, e, s)
  }

  lemma UpHitsUnfold(b: Re, back: bool, x: Input, k: nat, i: nat, s: set<nat>)
    requires k > 0 && Pos(x, i)
    ensures UpHits(b, back, x, k, i, s) <==> i in s || Hits(b, back, x, i, UpSet(b, back, x, k - 1, s))
  {
    hide Matches, Iter, Hits, IterHits;
    if i in s {
      IterHitsNone(b, back, x, i, s);
    }
    if Hits(b, back, x, i, UpSet(b, back, x, k - 1, s)) {
      var m := HitAt(b, back, x, i, UpSet(b, back, x, k - 1, s));
      var j: nat :| j <= k - 1 && IterHits(b, back, x, j, m, s);
      IterHitsMore(b, back, x, j, i, m, s);
    }
    if j: nat :| j <= k && IterHits(b, back, x, j, i, s) {
      if j == 0 {
        IterHitsNone(b, back, x, i, s);
      } else {
        var m := IterHitsHead(b, back, x, j, i, s);
        assert m in UpSet(b, back, x, k - 1, s);
        HitsBy(b, back, x, i, m, UpSet(b, back, x, k - 1, s));
      }
    }
  }

  lemma HitAt(b: Re, back: bool, x: Input, i: nat, s: set<nat>) returns (m: nat)
    requires Hits(b, back, x, i, s)
    ensures m in s && Matches(b, back, x, i, m)
  {
    m :| m in s && Matches(b, back, x, i, m);
  }

  lemma HitsBy(b: Re, back: bool, x: Input, i: nat, m: nat, s: set<nat>)
    requires m in s && Matches(b, back, x, i, m)
    ensures Hits(b, back, x, i, s)
  {
  }

  lemma IterHitsNone(b: Re, back: bool, x: Input, i: nat, s: set<nat>)
    requires Pos(x, i)
    ensures IterHits(b, back, x, 0, i, s) <==> i in s
  {
    assert Iter(b, back, x, 0, i, i);
  }

  lemma IterHitsMore(b: Re, back: bool, x: Input, j: nat, i: nat, m: nat, s: set<nat>)
    requires Matches(b, back, x, i, m) && IterHits(b, back, x, j, m, s)
    ensures IterHits(b, back, x, j + 1, i, s)
  {
    hide Matches;
    var e: nat :| e in s && Iter(b, back, x, j, m, e);
    assert Iter(b, back, x, j + 1, i, e);
  }

  lemma IterHitsHead(b: Re, back: bool, x: Input, j: nat, i: nat, s: set<nat>) returns (m: nat)
    requires j > 0 && IterHits(b, back, x, j, i, s)
    ensures Pos(x, m) && Matches(b, back, x, i, m) && IterHits(b, back, x, j - 1, m, s)
  {
    hide Matches, Iter;
    var e: nat :| e in s && Iter(b, back, x, j, i, e);
    m := IterHead(b, back, x, j, i, e);
    MatchesAhead(b, back, x, i, m);
  }

  lemma UpZero(b: Re, back: bool, x: Input, i: nat, s: set<nat>)
    requires Pos(x, i)
    ensures i in UpSet(b, back, x, 0, s) <==> i in s
  {
    if i in s {
      assert Iter(b, back, x, 0, i, i);
      assert IterHits(b, back, x, 0, i, s);
    }
  }

  /** All ends of up to k copies are answered behind the loop. */
  ghost predicate UpContinues(code: Code, x: Input, q: int, st: seq<int>, re: Re, back: bool, k: nat, i: nat, s: set<nat>) {
    forall j: nat, e: nat :: j <= k && Iter(re, back, x, j, i, e) ==> Answers(code, x, q, e, st, e in s)
  }

  lemma UpContinuesStep(code: Code, x: Input, q: int, st: seq<int>, re: Re, back: bool, k: nat, i: nat, m: nat, s: set<nat>)
    requires k > 0 && UpContinues(code, x, q, st, re, back, k, i, s) && Matches(re, back, x, i, m)
    ensures UpContinues(code, x, q, st, re, back, k - 1, m, s)
  {
    hide Matches, Answers;
    forall j: nat, e: nat | j <= k - 1 && Iter(re, back, x, j, m, e)
      ensures Answers(code, x, q, e, st, e in s)
    {
      assert Iter(re, back, x, j + 1, i, e);
    }
  }

  /** The loop of UpToCode from its split, with k copies still allowed. */
  lemma {:induction false} UpLoop(b: Re, back: bool, code: Code, x: Input, p: nat, k: nat, i: nat, st: seq<int>, s: set<nat>)
    requires WellFormed(b) && k > 0 && Pos(x, i)
    requires CodeAt(code, p, [SplitNextFirst(|Compile(b, back)| + 1)] + (Compile(b, back) + [Loop(-(|Compile(b, back)| + 2)), Drop]))
    requires UpContinues(code, x, p + |Compile(b, back)| + 3, st, b, back, k, i, s)
    ensures Answers(code, x, p, i, st + [k], UpHits(b, back, x, k, i, s))
    decreases Size(b), 1, k
  {
    hide Compile, Matches, Answers, Iter, CodeAt, Hits, UpHits;
    var c := Compile(b, back);
    var ups := UpSet(b, back, x, k - 1, s);
    CountedCode(c, code, p);
    var st1, st2 := st + [k], st + [k - 1];
    assert st1[..|st1| - 1] == st && st2[..|st2| - 1] == st;
    assert Answers(code, x, p + |c| + 3, i, st, i in s) by {
      ZeroIter(b, back, x, i);
    }
    Forward(code, x, p + |c| + 2, i, st1, p + |c| + 3, i, st, i in s);
    forall m: nat | Matches(b, back, x, i, m)
      ensures Answers(code, x, p + 1 + |c|, m, st1, m in ups)
    {
      MatchesAhead(b, back, x, i, m);
      UpContinuesStep(code, x, p + |c| + 3, st, b, back, k, i, m, s);
      if k > 1 {
        UpLoop(b, back, code, x, p, k - 1, m, st, s);
        Forward(code, x, p + 1 + |c|, m, st1, p, m, st2, m in ups);
      } else {
        UpZero(b, back, x, m, s);
        ZeroIter(b, back, x, m);
        Forward(code, x, p + |c| + 2, m, st2, p + |c| + 3, m, st, m in s);
        Forward(code, x, p + 1 + |c|, m, st1, p + |c| + 2, m, st2, m in ups);
      }
    }
    Fragment(b, back, code, x, p + 1, i, st1, ups);
    Splits(code, x, p, i, st1, Hits(b, back, x, i, ups), i in s);
    UpHitsUnfold(b, back, x, k, i, s);
  }

  /** Where the parts of the counted loop are. */
  lemma CountedCode(c: Code, code: Code, p: nat)
    requires CodeAt(code, p, [SplitNextFirst(|c| + 1)] + (c + [Loop(-(|c| + 2)), Drop]))
    ensures p + |c| + 3 <= |code| && code[p] == SplitNextFirst(|c| + 1)
    ensures CodeAt(code, p + 1, c) && code[p + 1 + |c|] == Loop(-(|c| + 2)) && code[p + 2 + |c|] == Drop
  {
    hide CodeAt;
    var tail := [Loop(-(|c| + 2)), Drop];
    CodeAtConcat(code, p, [SplitNextFirst(|c| + 1)], c + tail);
    CodeAtIndex(code, p, [SplitNextFirst(|c| + 1)], 0);
    CodeAtConcat(code, p + 1, c, tail);
    CodeAtIndex(code, p + 1 + |c|, tail, 0);
    CodeAtIndex(code, p + 1 + |c|, tail, 1);
  }

  lemma ZeroIter(b: Re, back: bool, x: Input, i: nat)
    requires Pos(x, i)
    ensures Iter(b, back, x, 0, i, i)
  {
  }

  // ---- fragments ----

  ghost function HitSet(re: Re, back: bool, x: Input, s: set<nat>): set<nat> {
    set m: nat | 0 <= m <= |x.w| && Hits(re, back, x, m, s)
  }

  /** a, then b ending in s. */
  ghost predicate ThenHits(a: Re, b: Re, back: bool, x: Input, i: nat, s: set<nat>) {
    exists m: nat :: Matches(a, back, x, i, m) && Hits(b, back, x, m, s)
  }

  ghost predicate ThenContinues(code: Code, x: Input, q: int, st: seq<int>, a: Re, b: Re, back: bool, i: nat, s: set<nat>) {
    forall m: nat :: Matches(a, back, x, i, m) ==> Continues(code, x, q, st, b, back, m, s)
  }

  /** a then b: the ends of the first that the second can finish from. */
  lemma {:induction false} FragmentSeq(a: Re, b: Re, back: bool, code: Code, x: Input, p: nat, i: nat, st: seq<int>, s: set<nat>)
    requires WellFormed(a) && WellFormed(b) && Pos(x, i) && CodeAt(code, p, Compile(a, back) + Compile(b, back))
    requires ThenContinues(code, x, p + |Compile(a, back)| + |Compile(b, back)|, st, a, b, back, i, s)
    ensures Answers(code, x, p, i, st, ThenHits(a, b, back, x, i, s))
    decreases Size(a) + Size(b), 1, 0
  {
    hide Compile, Matches, Answers, CodeAt, Hits;
    var q := p + |Compile(a, back)|;
    var mids := HitSet(b, back, x, s);
    CodeAtConcat(code, p, Compile(a, back), Compile(b, back));
    forall m: nat | Matches(a, back, x, i, m)
      ensures Answers(code, x, q, m, st, m in mids)
    {
      MatchesAhead(a, back, x, i, m);
      Fragment(b, back, code, x, q, m, st, s);
    }
    Fragment(a, back, code, x, p, i, st, mids);
    HitsHitSet(a, b, back, x, i, s);
  }

  lemma HitsHitSet(a: Re, b: Re, back: bool, x: Input, i: nat, s: set<nat>)
    ensures Hits(a, back, x, i, HitSet(b, back, x, s)) <==> ThenHits(a, b, back, x, i, s)
  {
    hide Matches;
    if m: nat :| Matches(a, back, x, i, m) && Hits(b, back, x, m, s) {
      MatchesAhead(a, back, x, i, m);
      assert m in HitSet(b, back, x, s);
    }
  }

  lemma {:induction false} FragmentAlt(a: Re, b: Re, back: bool, code: Code, x: Input, p: nat, i: nat, st: seq<int>, s: set<nat>)
    requires WellFormed(a) && WellFormed(b) && Pos(x, i) && CodeAt(code, p, Compile(Alt(a, b), back))
    requires Continues(code, x, p + |Compile(Alt(a, b), back)|, st, Alt(a, b), back, i, s)
    ensures Answers(code, x, p, i, st, Hits(a, back, x, i, s) || Hits(b, back, x, i, s))
    decreases Size(a) + Size(b), 1, 0
  {
    hide Answers, Compile, Matches, CodeAt, Hits;
    var l, r := Compile(a, back), Compile(b, back);
    var split, jump := [SplitNextFirst(|l| + 1)], [Goto(|r|)];
    assert Compile(Alt(a, b), back) == split + (l + (jump + r)) by {
      CompileAlt(a, b, back);
    }
    CodeAtConcat(code, p, split, l + (jump + r));
    CodeAtIndex(code, p, split, 0);
    CodeAtConcat(code, p + 1, l, jump + r);
    CodeAtConcat(code, p + 1 + |l|, jump, r);
    CodeAtIndex(code, p + 1 + |l|, jump, 0);
    var q := p + 1 + |l| + 1 + |r|;
    AltContinues(code, x, q, st, a, b, back, i, s);
    forall e: nat | Matches(a, back, x, i, e)
      ensures Answers(code, x, p + 1 + |l|, e, st, e in s)
    {
      MatchesAhead(a, back, x, i, e);
      Forward(code, x, p + 1 + |l|, e, st, q, e, st, e in s);
    }
    Fragment(a, back, code, x, p + 1, i, st, s);
    Fragment(b, back, code, x, p + 1 + |l| + 1, i, st, s);
    Splits(code, x, p, i, st, Hits(a, back, x, i, s), Hits(b, back, x, i, s));
  }

  lemma CompileAlt(a: Re, b: Re, back: bool)
    ensures var l, r := Compile(a, back), Compile(b, back);
            Compile(Alt(a, b), back) == [SplitNextFirst(|l| + 1)] + (l + ([Goto(|r|)] + r))
  {
    hide Quantify;
    var l, r := Compile(a, back), Compile(b, back);
    assert Compile(Alt(a, b), back) == [SplitNextFirst(|l| + 1)] + l + [Goto(|r|)] + r;
    hide Compile;
    Nested([SplitNextFirst(|l| + 1)], l, [Goto(|r|)], r);
  }

  lemma Nested(a: Code, b: Code, c: Code, d: Code)
    ensures a + b + c + d == a + (b + (c + d))
  {
  }

  lemma AltContinues(code: Code, x: Input, q: int, st: seq<int>, a: Re, b: Re, back: bool, i: nat, s: set<nat>)
    requires Continues(code, x, q, st, Alt(a, b), back, i, s)
    ensures Continues(code, x, q, st, a, back, i, s) && Continues(code, x, q, st, b, back, i, s)
  {
    hide Answers, Matches;
    forall e: nat
      ensures Matches(Alt(a, b), back, x, i, e) <==> Matches(a, back, x, i, e) || Matches(b, back, x, i, e)
    {
      AltMatches(a, b, back, x, i, e);
    }
  }

  ghost predicate Finds(b: Re, behind: bool, x: Input, i: nat) {
    exists e: nat :: Matches(b, behind, x, i, e)
  }

  /** Every position of the input. */
  function Everywhere(x: Input): (s: set<nat>)
    ensures forall e: nat :: e in s <==> e <= |x.w|
  {
    set e: nat | 0 <= e <= |x.w| && Pos(x, e)
  }

  lemma {:induction false} FragmentLook(behind: bool, negative: bool, b: Re, back: bool, code: Code, x: Input, p: nat, i: nat, st: seq<int>, s: set<nat>)
    requires WellFormed(b) && Pos(x, i) && CodeAt(code, p, Compile(Look(behind, negative, b), back))
    requires Continues(code, x, p + |Compile(Look(behind, negative, b), back)|, st, Look(behind, negative, b), back, i, s)
    ensures Answers(code, x, p, i, st, Finds(b, behind, x, i) != negative && i in s)
    decreases Size(b), 1, 0
  {
    hide Answers, Compile, Matches, CodeAt, Hits, Finds;
    var c := Compile(b, behind);
    var look := [if negative then NegativeLookahead(|c| + 1) else Lookahead(|c| + 1)];
    assert Compile(Look(behind, negative, b), back) == look + (c + [Match]) by {
      CompileLook(behind, negative, b, back);
    }
    CodeAtConcat(code, p, look, c + [Match]);
    CodeAtIndex(code, p, look, 0);
    CodeAtConcat(code, p + 1, c, [Match]);
    CodeAtIndex(code, p + 1 + |c|, [Match], 0);
    var all := Everywhere(x);
    forall e: nat | Matches(b, behind, x, i, e)
      ensures Answers(code, x, p + 1 + |c|, e, st, e in all)
    {
      MatchesAhead(b, behind, x, i, e);
      Stops(code, x, p + 1 + |c|, e, st, true);
    }
    Fragment(b, behind, code, x, p + 1, i, st, all);
    HitsEverywhere(b, behind, x, i);
    LookMatches(behind, negative, b, back, x, i, i);
    Looks(code, x, p, i, st, Finds(b, behind, x, i), i in s);
  }

  lemma CompileLook(behind: bool, negative: bool, b: Re, back: bool)
    ensures var c := Compile(b, behind);
            Compile(Look(behind, negative, b), back)
            == [if negative then NegativeLookahead(|c| + 1) else Lookahead(|c| + 1)] + (c + [Match])
  {
    hide Quantify;
    var c := Compile(b, behind);
    var look := [if negative then NegativeLookahead(|c| + 1) else Lookahead(|c| + 1)];
    assert look + c + [Match] == look + (c + [Match]);
  }

  lemma HitsEverywhere(b: Re, back: bool, x: Input, i: nat)
    ensures Hits(b, back, x, i, Everywhere(x)) <==> Finds(b, back, x, i)
  {
    hide Matches;
    if e: nat :| Matches(b, back, x, i, e) {
      MatchesAhead(b, back, x, i, e);
      assert e in Everywhere(x);
    }
  }

  lemma LookMatches(behind: bool, negative: bool, b: Re, back: bool, x: Input, i: nat, j: nat)
    requires Pos(x, i)
    ensures Matches(Look(behind, negative, b), back, x, i, j) <==> i == j && Finds(b, behind, x, i) != negative
  {
  }

  /** A group only records positions. */
  lemma {:induction false} FragmentGroup(b: Re, back: bool, code: Code, x: Input, p: nat, i: nat, st: seq<int>, s: set<nat>)
    requires WellFormed(b) && Pos(x, i) && CodeAt(code, p, Compile(Group(b), back))
    requires Continues(code, x, p + |Compile(Group(b), back)|, st, Group(b), back, i, s)
    ensures Answers(code, x, p, i, st, Hits(b, back, x, i, s))
    decreases Size(b), 1, 0
  {
    hide Answers, Compile, Matches, CodeAt, Hits;
    var c := Compile(b, back);
    var open, close := [if back then SaveEnd else SaveStart], [if back then SaveStart else SaveEnd];
    assert Compile(Group(b), back) == open + (c + close) by {
      CompileGroup(b, back);
    }
    CodeAtConcat(code, p, open, c + close);
    CodeAtIndex(code, p, open, 0);
    CodeAtConcat(code, p + 1, c, close);
    CodeAtIndex(code, p + 1 + |c|, close, 0);
    forall e: nat | Matches(b, back, x, i, e)
      ensures Answers(code, x, p + 1 + |c|, e, st, e in s)
    {
      MatchesAhead(b, back, x, i, e);
      GroupMatches(b, back, x, i, e);
      Forward(code, x, p + 1 + |c|, e, st, p + 1 + |c| + 1, e, st, e in s);
    }
    Fragment(b, back, code, x, p + 1, i, st, s);
    Forward(code, x, p, i, st, p + 1, i, st, Hits(b, back, x, i, s));
  }

  lemma CompileGroup(b: Re, back: bool)
    ensures var open, close := [if back then SaveEnd else SaveStart], [if back then SaveStart else SaveEnd];
            Compile(Group(b), back) == open + (Compile(b, back) + close)
  {
    hide Quantify;
    var open, close := [if back then SaveEnd else SaveStart], [if back then SaveStart else SaveEnd];
    assert open + Compile(b, back) + close == open + (Compile(b, back) + close);
  }

  lemma GroupMatches(b: Re, back: bool, x: Input, i: nat, j: nat)
    ensures Matches(Group(b), back, x, i, j) <==> Matches(b, back, x, i, j)
  {
    if Matches(b, back, x, i, j) {
      MatchesAhead(b, back, x, i, j);
    }
  }

  lemma FragmentOne(a: Atom, back: bool, code: Code, x: Input, p: nat, i: nat, st: seq<int>, s: set<nat>)
    requires Pos(x, i) && CodeAt(code, p, Compile(One(a), back))
    requires Continues(code, x, p + |Compile(One(a), back)|, st, One(a), back, i, s)
    ensures Answers(code, x, p, i, st, Hits(One(a), back, x, i, s))
  {
    hide Answers, Accepts;
    CodeAtIndex(code, p, Compile(One(a), back), 0);
    if back {
      CodeAtIndex(code, p, Compile(One(a), back), 1);
      CodeAtIndex(code, p, Compile(One(a), back), 2);
      if i == 0 {
        Stops(code, x, p, i, st, false);
      } else if Accepts(a, x.w[i - 1]) {
        assert Matches(One(a), back, x, i, i - 1);
        Forward(code, x, p + 2, i, st, p + 3, i - 1, st, i - 1 in s);
        Forward(code, x, p + 1, i - 1, st, p + 2, i, st, i - 1 in s);
        Forward(code, x, p, i, st, p + 1, i - 1, st, i - 1 in s);
      } else {
        Stops(code, x, p + 1, i - 1, st, false);
        Forward(code, x, p, i, st, p + 1, i - 1, st, false);
      }
    } else if i < |x.w| && Accepts(a, x.w[i]) {
      assert Matches(One(a), back, x, i, i + 1);
      Forward(code, x, p, i, st, p + 1, i + 1, st, i + 1 in s);
    } else {
      Stops(code, x, p, i, st, false);
    }
  }

  lemma FragmentAssert(k: Assertion, back: bool, code: Code, x: Input, p: nat, i: nat, st: seq<int>, s: set<nat>)
    requires Pos(x, i) && CodeAt(code, p, [Check(k)]) && Continues(code, x, p + 1, st, Assert(k), back, i, s)
    ensures Answers(code, x, p, i, st, Hits(Assert(k), back, x, i, s))
  {
    hide Answers, Holds;
    CodeAtIndex(code, p, [Check(k)], 0);
    if Holds(k, x, i) {
      assert Matches(Assert(k), back, x, i, i);
      Forward(code, x, p, i, st, p + 1, i, st, i in s);
    } else {
      Stops(code, x, p, i, st, false);
    }
  }

  /**
   The code of a pattern tries its ends: if every end e is answered behind the code by "e is in s",
   the search from the start of the code answers whether some end is in s.
   */
  lemma {:induction false} Fragment(re: Re, back: bool, code: Code, x: Input, p: nat, i: nat, st: seq<int>, s: set<nat>)
    requires WellFormed(re) && Pos(x, i) && CodeAt(code, p, Compile(re, back))
    requires Continues(code, x, p + |Compile(re, back)|, st, re, back, i, s)
    ensures Answers(code, x, p, i, st, Hits(re, back, x, i, s))
    decreases Size(re), 0, 0
  {
    hide Answers, Quantify, CodeAt, Matches, Hits, Continues, Compile;
    CompileLeaf(re, back);
    match re
    case Empty => FragmentEmpty(back, code, x, p, i, st, s);
    case One(a) => FragmentOne(a, back, code, x, p, i, st, s);
    case Assert(k) => FragmentAssert(k, back, code, x, p, i, st, s);
    case Seq(a, b) =>
      var (f, g) := if back then (b, a) else (a, b);
      SeqHits(a, b, f, g, back, x, i, s);
      SeqContinues(code, x, p + |Compile(re, back)|, st, a, b, f, g, back, i, s);
      FragmentSeq(f, g, back, code, x, p, i, st, s);
    case Alt(a, b) =>
      FragmentAlt(a, b, back, code, x, p, i, st, s);
      AltHits(a, b, back, x, i, s);
    case Group(b) =>
      FragmentGroup(b, back, code, x, p, i, st, s);
      GroupHits(b, back, x, i, s);
    case Look(behind, negative, b) =>
      FragmentLook(behind, negative, b, back, code, x, p, i, st, s);
      LookHits(behind, negative, b, back, x, i, s);
    case Repeat(b, min, max) => FragmentRepeat(b, min, max, back, code, x, p, i, st, s);
  }

  /** The code of the patterns without parts, and of a sequence. */
  lemma CompileLeaf(re: Re, back: bool)
    ensures re.Empty? ==> Compile(re, back) == []
    ensures re.Assert? ==> Compile(re, back) == [Check(re.kind)]
    ensures re.Seq? ==> Compile(re, back) == if back then Compile(re.second, back) + Compile(re.first, back) else Compile(re.first, back) + Compile(re.second, back)
  {
    hide Quantify;
  }

  lemma FragmentEmpty(back: bool, code: Code, x: Input, p: nat, i: nat, st: seq<int>, s: set<nat>)
    requires Pos(x, i) && Continues(code, x, p, st, Empty, back, i, s)
    ensures Answers(code, x, p, i, st, Hits(Empty, back, x, i, s))
  {
    hide Answers;
    assert Matches(Empty, back, x, i, i);
  }

  lemma GroupHits(b: Re, back: bool, x: Input, i: nat, s: set<nat>)
    ensures Hits(Group(b), back, x, i, s) <==> Hits(b, back, x, i, s)
  {
    hide Matches;
    forall e: nat
      ensures Matches(Group(b), back, x, i, e) <==> Matches(b, back, x, i, e)
    {
      GroupMatches(b, back, x, i, e);
    }
  }

  lemma SeqMatches(a: Re, b: Re, f: Re, g: Re, back: bool, x: Input, i: nat, m: nat, j: nat)
    requires (f, g) == if back then (b, a) else (a, b)
    requires Matches(f, back, x, i, m) && Matches(g, back, x, m, j)
    ensures Matches(Seq(a, b), back, x, i, j)
  {
    MatchesAhead(f, back, x, i, m);
    MatchesAhead(g, back, x, m, j);
  }

  lemma SeqContinues(code: Code, x: Input, q: int, st: seq<int>, a: Re, b: Re, f: Re, g: Re, back: bool, i: nat, s: set<nat>)
    requires (f, g) == if back then (b, a) else (a, b)
    requires Continues(code, x, q, st, Seq(a, b), back, i, s)
    ensures ThenContinues(code, x, q, st, f, g, back, i, s)
  {
    hide Answers, Matches;
    forall m: nat, e: nat | Matches(f, back, x, i, m) && Matches(g, back, x, m, e)
      ensures Answers(code, x, q, e, st, e in s)
    {
      SeqMatches(a, b, f, g, back, x, i, m, e);
    }
  }

  lemma SeqHits(a: Re, b: Re, f: Re, g: Re, back: bool, x: Input, i: nat, s: set<nat>)
    requires (f, g) == if back then (b, a) else (a, b)
    ensures Hits(Seq(a, b), back, x, i, s) <==> ThenHits(f, g, back, x, i, s)
  {
    if m: nat :| Matches(f, back, x, i, m) && Hits(g, back, x, m, s) {
      var e: nat :| e in s && Matches(g, back, x, m, e);
      SeqMatches(a, b, f, g, back, x, i, m, e);
    }
    if e: nat :| e in s && Matches(Seq(a, b), back, x, i, e) {
      var m := SeqMiddle(a, b, f, g, back, x, i, e);
      assert Hits(g, back, x, m, s);
    }
  }

  lemma SeqMiddle(a: Re, b: Re, f: Re, g: Re, back: bool, x: Input, i: nat, j: nat) returns (m: nat)
    requires (f, g) == if back then (b, a) else (a, b)
    requires Matches(Seq(a, b), back, x, i, j)
    ensures Matches(f, back, x, i, m) && Matches(g, back, x, m, j)
  {
    if back {
      m :| Matches(b, back, x, i, m) && Matches(a, back, x, m, j);
    } else {
      m :| Matches(a, back, x, i, m) && Matches(b, back, x, m, j);
    }
  }

  lemma AltMatches(a: Re, b: Re, back: bool, x: Input, i: nat, e: nat)
    ensures Matches(Alt(a, b), back, x, i, e) <==> Matches(a, back, x, i, e) || Matches(b, back, x, i, e)
  {
    assert Matches(Alt(a, b), back, x, i, e) <==> Pos(x, i) && Pos(x, e) && (Matches(a, back, x, i, e) || Matches(b, back, x, i, e));
    hide Matches;
    if Matches(a, back, x, i, e) {
      MatchesAhead(a, back, x, i, e);
    }
    if Matches(b, back, x, i, e) {
      MatchesAhead(b, back, x, i, e);
    }
  }

  lemma AltHits(a: Re, b: Re, back: bool, x: Input, i: nat, s: set<nat>)
    ensures Hits(Alt(a, b), back, x, i, s) <==> Hits(a, back, x, i, s) || Hits(b, back, x, i, s)
  {
    hide Matches;
    forall e: nat
      ensures Matches(Alt(a, b), back, x, i, e) <==> Matches(a, back, x, i, e) || Matches(b, back, x, i, e)
    {
      AltMatches(a, b, back, x, i, e);
    }
  }

  lemma LookHits(behind: bool, negative: bool, b: Re, back: bool, x: Input, i: nat, s: set<nat>)
    requires Pos(x, i)
    ensures Hits(Look(behind, negative, b), back, x, i, s) <==> Finds(b, behind, x, i) != negative && i in s
  {
    hide Matches, Finds;
    forall e: nat
      ensures Matches(Look(behind, negative, b), back, x, i, e) <==> i == e && Finds(b, behind, x, i) != negative
    {
      LookMatches(behind, negative, b, back, x, i, e);
    }
  }

  // ---- quantifiers ----

  /** After min copies, more copies within max reach s. */
  ghost predicate RestHits(b: Re, min: nat, max: Bound, back: bool, x: Input, i: nat, s: set<nat>) {
    exists k: nat :: Within(max, min + k) && IterHits(b, back, x, k, i, s)
  }

  ghost predicate RestContinues(code: Code, x: Input, q: int, st: seq<int>, b: Re, min: nat, max: Bound, back: bool, i: nat, s: set<nat>) {
    forall k: nat, e: nat :: Within(max, min + k) && Iter(b, back, x, k, i, e) ==> Answers(code, x, q, e, st, e in s)
  }

  lemma RestInfinite(b: Re, min: nat, back: bool, x: Input, i: nat, s: set<nat>)
    ensures RestHits(b, min, Infinite, back, x, i, s) <==> StarHits(b, back, x, i, s)
  {
    hide Iter;
    if e: nat :| e in s && Star(b, back, x, i, e) {
      var k: nat :| Iter(b, back, x, k, i, e);
      assert IterHits(b, back, x, k, i, s);
    }
  }

  lemma RestFinite(b: Re, min: nat, n: nat, back: bool, x: Input, i: nat, s: set<nat>)
    requires min <= n
    ensures RestHits(b, min, AtMost(n), back, x, i, s) <==> UpHits(b, back, x, n - min, i, s)
  {
    hide IterHits;
    if k: nat :| Within(AtMost(n), min + k) && IterHits(b, back, x, k, i, s) {
      assert k <= n - min;
    }
    if j: nat :| j <= n - min && IterHits(b, back, x, j, i, s) {
      assert Within(AtMost(n), min + j);
    }
  }

  /** StarCode and UpToCode behind min copies. */
  lemma {:induction false} RestLoop(b: Re, min: nat, max: Bound, back: bool, code: Code, x: Input, p: nat, i: nat, st: seq<int>, s: set<nat>)
    requires WellFormed(b) && Pos(x, i) && Within(max, min) && CodeAt(code, p, Rest(Compile(b, back), min, max))
    requires RestContinues(code, x, p + |Rest(Compile(b, back), min, max)|, st, b, min, max, back, i, s)
    ensures Answers(code, x, p, i, st, RestHits(b, min, max, back, x, i, s))
    decreases Size(b), 2, 0
  {
    hide Compile, Answers, Iter, StarCode, IterHits;
    var c := Compile(b, back);
    var q := p + |Rest(c, min, max)|;
    if max == Infinite {
      forall e: nat | Star(b, back, x, i, e)
        ensures Answers(code, x, q, e, st, e in s)
      {
        var k: nat :| Iter(b, back, x, k, i, e);
        assert Within(max, min + k);
      }
      StarLoop(b, back, code, x, p, i, st, s);
      RestInfinite(b, min, back, x, i, s);
    } else if max.n > min {
      UpToLoop(b, max.n - min, back, code, x, p, i, st, s) by {
        forall j: nat, e: nat | j <= max.n - min && Iter(b, back, x, j, i, e)
          ensures Answers(code, x, q, e, st, e in s)
        {
          assert Within(max, min + j);
        }
      }
      RestFinite(b, min, max.n, back, x, i, s);
    } else {
      ZeroIter(b, back, x, i);
      assert Within(max, min + 0);
      RestFinite(b, min, max.n, back, x, i, s);
      UpNone(b, back, x, i, s);
    }
  }

  lemma UpNone(b: Re, back: bool, x: Input, i: nat, s: set<nat>)
    requires Pos(x, i)
    ensures UpHits(b, back, x, 0, i, s) <==> i in s
  {
    UpZero(b, back, x, i, s);
  }

  lemma {:induction false} UpToLoop(b: Re, n: nat, back: bool, code: Code, x: Input, p: nat, i: nat, st: seq<int>, s: set<nat>)
    requires WellFormed(b) && Pos(x, i) && n > 0 && CodeAt(code, p, UpToCode(Compile(b, back), n))
    requires UpContinues(code, x, p + |UpToCode(Compile(b, back), n)|, st, b, back, n, i, s)
    ensures Answers(code, x, p, i, st, UpHits(b, back, x, n, i, s))
    decreases Size(b), 1, n + 1
  {
    hide Compile, Answers, Iter, UpHits;
    var c := Compile(b, back);
    var loop := [SplitNextFirst(|c| + 1)] + (c + [Loop(-(|c| + 2)), Drop]);
    assert UpToCode(c, n) == [PushCount(n)] + loop;
    CodeAtConcat(code, p, [PushCount(n)], loop);
    CodeAtIndex(code, p, [PushCount(n)], 0);
    UpLoop(b, back, code, x, p + 1, n, i, st, s);
    Forward(code, x, p, i, st, p + 1, i, st + [n], UpHits(b, back, x, n, i, s));
  }

  /** {0,max}: the same ends as RestLoop with min = 0, one shape more. */
  lemma {:induction false} OptionalLoop(b: Re, max: Bound, back: bool, code: Code, x: Input, p: nat, i: nat, st: seq<int>, s: set<nat>)
    requires WellFormed(b) && Pos(x, i) && CodeAt(code, p, Optional(Compile(b, back), max))
    requires RestContinues(code, x, p + |Optional(Compile(b, back), max)|, st, b, 0, max, back, i, s)
    ensures Answers(code, x, p, i, st, RestHits(b, 0, max, back, x, i, s))
    decreases Size(b), 3, 0
  {
    hide Compile, Answers, Iter;
    var c := Compile(b, back);
    if max == AtMost(1) {
      var q := p + 1 + |c|;
      CodeAtConcat(code, p, [SplitNextFirst(|c|)], c);
      CodeAtIndex(code, p, [SplitNextFirst(|c|)], 0);
      forall e: nat | Matches(b, back, x, i, e)
        ensures Answers(code, x, q, e, st, e in s)
      {
        IterOne(b, back, x, i, e);
        assert Within(max, 0 + 1);
      }
      Fragment(b, back, code, x, p + 1, i, st, s);
      ZeroIter(b, back, x, i);
      assert Within(max, 0 + 0);
      Splits(code, x, p, i, st, Hits(b, back, x, i, s), i in s);
      RestFinite(b, 0, 1, back, x, i, s);
      UpHitsUnfold(b, back, x, 1, i, s);
      UpOnce(b, back, x, i, s);
    } else {
      assert Optional(c, max) == Rest(c, 0, max);
      RestLoop(b, 0, max, back, code, x, p, i, st, s);
    }
  }

  lemma UpOnce(b: Re, back: bool, x: Input, i: nat, s: set<nat>)
    ensures Hits(b, back, x, i, UpSet(b, back, x, 0, s)) <==> Hits(b, back, x, i, s)
  {
    hide Matches;
    if e: nat :| e in s && Matches(b, back, x, i, e) {
      MatchesAhead(b, back, x, i, e);
      UpZero(b, back, x, e, s);
    }
    if e: nat :| e in UpSet(b, back, x, 0, s) && Matches(b, back, x, i, e) {
      UpZero(b, back, x, e, s);
    }
  }

  ghost function RestSet(b: Re, min: nat, max: Bound, back: bool, x: Input, s: set<nat>): set<nat> {
    set m: nat | 0 <= m <= |x.w| && RestHits(b, min, max, back, x, m, s)
  }

  lemma RepeatSplits(b: Re, min: nat, max: Bound, back: bool, x: Input, i: nat, e: nat, s: set<nat>) returns (m: nat)
    requires e in s && Matches(Repeat(b, min, max), back, x, i, e)
    ensures Pos(x, m) && Iter(b, back, x, min, i, m) && RestHits(b, min, max, back, x, m, s)
  {
    hide Matches, Iter;
    var k := RepeatElim(b, back, x, min, max, i, e);
    m := IterSplit(b, back, x, min, k - min, i, e);
    IterAhead(b, back, x, min, i, m);
    var rest: nat := k - min;
    assert IterHits(b, back, x, rest, m, s);
    assert Within(max, min + rest);
  }

  lemma RepeatJoins(b: Re, min: nat, max: Bound, back: bool, x: Input, i: nat, m: nat, s: set<nat>)
    requires RestHits(b, min, max, back, x, m, s) && Iter(b, back, x, min, i, m)
    ensures Hits(Repeat(b, min, max), back, x, i, s)
  {
    hide Matches, Iter;
    var k: nat :| Within(max, min + k) && IterHits(b, back, x, k, m, s);
    var e: nat :| e in s && Iter(b, back, x, k, m, e);
    IterSum(b, back, x, min, k, i, m, e);
    RepeatIntro(b, back, x, min, max, min + k, i, e);
  }

  /** min copies, then the rest. */
  lemma RepeatHits(b: Re, min: nat, max: Bound, back: bool, x: Input, i: nat, s: set<nat>)
    ensures Hits(Repeat(b, min, max), back, x, i, s) <==> IterHits(b, back, x, min, i, RestSet(b, min, max, back, x, s))
  {
    hide Matches, Iter, RestHits;
    if e: nat :| e in s && Matches(Repeat(b, min, max), back, x, i, e) {
      var m := RepeatSplits(b, min, max, back, x, i, e, s);
      assert m in RestSet(b, min, max, back, x, s);
    }
    if m: nat :| m in RestSet(b, min, max, back, x, s) && Iter(b, back, x, min, i, m) {
      RepeatJoins(b, min, max, back, x, i, m, s);
    }
  }

  lemma RepeatContinues(code: Code, x: Input, q: int, st: seq<int>, b: Re, min: nat, max: Bound, back: bool, i: nat, m: nat, s: set<nat>)
    requires Continues(code, x, q, st, Repeat(b, min, max), back, i, s) && Iter(b, back, x, min, i, m)
    ensures RestContinues(code, x, q, st, b, min, max, back, m, s)
  {
    hide Matches, Iter, Answers;
    forall k: nat, e: nat | Within(max, min + k) && Iter(b, back, x, k, m, e)
      ensures Answers(code, x, q, e, st, e in s)
    {
      IterSum(b, back, x, min, k, i, m, e);
      RepeatIntro(b, back, x, min, max, min + k, i, e);
    }
  }

  /** Mandatory copies followed by optional ones. */
  lemma {:induction false} MandatoryLoop(b: Re, min: nat, max: Bound, back: bool, code: Code, x: Input, p: nat, i: nat, st: seq<int>, s: set<nat>)
    requires WellFormed(b) && Pos(x, i) && min > 0 && Within(max, min)
    requires CodeAt(code, p, Mandatory(Compile(b, back), min) + Rest(Compile(b, back), min, max))
    requires Continues(code, x, p + |Mandatory(Compile(b, back), min)| + |Rest(Compile(b, back), min, max)|, st, Repeat(b, min, max), back, i, s)
    ensures Answers(code, x, p, i, st, Hits(Repeat(b, min, max), back, x, i, s))
    decreases Size(b), 3, 0
  {
    hide Compile, Answers, Iter, Matches, Rest, Continues;
    var c := Compile(b, back);
    var q := p + |Mandatory(c, min)|;
    var rests := RestSet(b, min, max, back, x, s);
    CodeAtConcat(code, p, Mandatory(c, min), Rest(c, min, max));
    forall m: nat | Iter(b, back, x, min, i, m)
      ensures Answers(code, x, q, m, st, m in rests)
    {
      IterAhead(b, back, x, min, i, m);
      RepeatContinues(code, x, q + |Rest(c, min, max)|, st, b, min, max, back, i, m, s);
      RestLoop(b, min, max, back, code, x, q, m, st, s);
    }
    RepeatHits(b, min, max, back, x, i, s);
    if min == 1 {
      OneCopy(b, back, code, x, p, i, st, rests);
    } else {
      var loop := c + [Loop(-(|c| + 1)), Drop];
      assert Mandatory(c, min) == [PushCount(min)] + loop;
      CodeAtConcat(code, p, [PushCount(min)], loop);
      CodeAtIndex(code, p, [PushCount(min)], 0);
      CountLoop(b, back, code, x, p + 1, min, i, st, rests);
      Forward(code, x, p, i, st, p + 1, i, st + [min], IterHits(b, back, x, min, i, rests));
    }
  }

  lemma {:induction false} OneCopy(b: Re, back: bool, code: Code, x: Input, p: nat, i: nat, st: seq<int>, s: set<nat>)
    requires WellFormed(b) && Pos(x, i) && CodeAt(code, p, Compile(b, back))
    requires forall m: nat :: Iter(b, back, x, 1, i, m) ==> Answers(code, x, p + |Compile(b, back)|, m, st, m in s)
    ensures Answers(code, x, p, i, st, IterHits(b, back, x, 1, i, s))
    decreases Size(b), 1, 0
  {
    hide Compile, Answers, Iter, Matches;
    forall m: nat | Matches(b, back, x, i, m)
      ensures Answers(code, x, p + |Compile(b, back)|, m, st, m in s)
    {
      IterOne(b, back, x, i, m);
    }
    Fragment(b, back, code, x, p, i, st, s);
    assert Hits(b, back, x, i, s) == IterHits(b, back, x, 1, i, s) by {
      if m: nat :| m in s && Matches(b, back, x, i, m) {
        IterOne(b, back, x, i, m);
      }
      if m: nat :| m in s && Iter(b, back, x, 1, i, m) {
        IterOne(b, back, x, i, m);
      }
    }
  }

  // ---- simple greedy quantifiers ----

  /** Straight-line code: each test moves one character, each check none. */
  function Line(c: Code, x: Input, i: nat): Option {
    if !Pos(x, i) then None
    else if c == [] then Some(i)
    else
      match c[0]
      case Test(a) => if i < |x.w| && Accepts(a, x.w[i]) then Line(c[1..], x, i + 1) else None
      case Check(k) => if Holds(k, x, i) then Line(c[1..], x, i) else None
      case _ => None
  }

  lemma {:induction false} LineConcat(c: Code, d: Code, x: Input, i: nat)
    ensures Line(c + d, x, i) == match Line(c, x, i) case None => None case Some(m) => Line(d, x, m)
    decreases c
  {
    hide Accepts, Holds;
    if c == [] {
      assert c + d == d;
    } else {
      assert (c + d)[1..] == c[1..] + d;
      LineConcat(c[1..], d, x, i + 1);
      LineConcat(c[1..], d, x, i);
    }
  }

  lemma {:induction false} LineAdvances(c: Code, x: Input, i: nat)
    requires Line(c, x, i).Some?
    ensures Line(c, x, i).pos == i + CharCount(c) && Pos(x, i + CharCount(c))
    decreases c
  {
    hide Accepts, Holds;
    if c != [] {
      LineAdvances(c[1..], x, if c[0].Test? then i + 1 else i);
    }
  }

  lemma {:induction false} RunIsLine(code: Code, x: Input, pc: nat, c: Code, i: nat)
    requires AllSimple(c) && CodeAt(code, pc, c + [Match]) && Pos(x, i)
    ensures RunSimple(code, x, pc, i) == Line(c, x, i)
    decreases c
  {
    hide Accepts, Holds;
    CodeAtIndex(code, pc, c + [Match], 0);
    if c != [] {
      assert c + [Match] == [c[0]] + (c[1..] + [Match]);
      CodeAtConcat(code, pc, [c[0]], c[1..] + [Match]);
      if c[0].Test? {
        if i < |x.w| {
          RunIsLine(code, x, pc + 1, c[1..], i + 1);
        }
      } else {
        RunIsLine(code, x, pc + 1, c[1..], i);
      }
    }
  }

  lemma AllSimpleConcat(c: Code, d: Code)
    ensures AllSimple(c + d) <==> AllSimple(c) && AllSimple(d)
  {
    if AllSimple(c + d) {
      forall k | 0 <= k < |c|
        ensures IsSimple(c[k])
      {
        assert (c + d)[k] == c[k];
      }
      forall k | 0 <= k < |d|
        ensures IsSimple(d[k])
      {
        assert (c + d)[|c| + k] == d[k];
      }
    }
  }

  lemma NotSimple(c: Code)
    requires c != [] && (!IsSimple(c[0]) || !IsSimple(c[|c| - 1]))
    ensures !AllSimple(c)
  {
  }

  /** A quantifier produces simple code only for {0} and for {1} over a simple atom. */
  lemma QuantifySimple(c: Code, min: nat, max: Bound, captures: bool)
    requires AllSimple(Quantify(c, min, max, captures)) && Within(max, min)
    ensures (min == 0 && max == AtMost(0) && Quantify(c, min, max, captures) == [])
            || (min == 1 && max == AtMost(1) && Quantify(c, min, max, captures) == c)
  {
    var r := Quantify(c, min, max, captures);
    if r != [] && (!IsSimple(r[0]) || !IsSimple(r[|r| - 1])) {
      NotSimple(r);
    } else if min == 1 && max == AtMost(1) {
      assert c + [] == c;
    }
  }

  /** A pattern with simple code matches where its code runs through. */
  lemma {:induction false} SimpleSem(re: Re, back: bool, x: Input, i: nat, j: nat)
    requires WellFormed(re) && AllSimple(Compile(re, back))
    ensures Matches(re, back, x, i, j) <==> Line(Compile(re, back), x, i) == Some(j)
    decreases Size(re), 0
  {
    hide Quantify, Iter, Holds, Accepts, AllSimple;
    match re
    case Empty =>
    case One(a) =>
      if back {
        NotSimple(Compile(re, back));
      } else {
        SimpleOne(a, x, i, j);
      }
    case Assert(k) => assert [Check(k)][1..] == [];
    case Seq(a, b) =>
      if back {
        SimpleSeq(b, a, back, x, i, j);
      } else {
        SimpleSeq(a, b, back, x, i, j);
      }
      SeqIsThen(a, b, back, x, i, j);
    case Alt(_, _) => NotSimple(Compile(re, back));
    case Group(_) => NotSimple(Compile(re, back));
    case Look(_, _, _) => NotSimple(Compile(re, back));
    case Repeat(b, min, max) =>
      QuantifySimple(Compile(b, back), min, max, HasCapture(b));
      SimpleRepeat(b, min, max, back, x, i, j);
  }

  lemma SimpleOne(a: Atom, x: Input, i: nat, j: nat)
    ensures Matches(One(a), false, x, i, j) <==> Line([Test(a)], x, i) == Some(j)
  {
    assert [Test(a)][1..] == [];
  }

  ghost predicate Then(a: Re, b: Re, back: bool, x: Input, i: nat, j: nat) {
    exists m: nat :: Matches(a, back, x, i, m) && Matches(b, back, x, m, j)
  }

  lemma SeqIsThen(a: Re, b: Re, back: bool, x: Input, i: nat, j: nat)
    ensures Matches(Seq(a, b), back, x, i, j) <==> if back then Then(b, a, back, x, i, j) else Then(a, b, back, x, i, j)
  {
    var (f, g) := if back then (b, a) else (a, b);
    if m: nat :| Matches(f, back, x, i, m) && Matches(g, back, x, m, j) {
      SeqMatches(a, b, f, g, back, x, i, m, j);
    }
    if Matches(Seq(a, b), back, x, i, j) {
      var m := SeqMiddle(a, b, f, g, back, x, i, j);
    }
  }

  lemma {:induction false} SimpleSeq(a: Re, b: Re, back: bool, x: Input, i: nat, j: nat)
    requires WellFormed(a) && WellFormed(b) && AllSimple(Compile(a, back) + Compile(b, back))
    ensures Then(a, b, back, x, i, j) <==> Line(Compile(a, back) + Compile(b, back), x, i) == Some(j)
    decreases Size(a) + Size(b), 1
  {
    hide Compile, Matches, Line;
    var c, d := Compile(a, back), Compile(b, back);
    AllSimpleConcat(c, d);
    LineConcat(c, d, x, i);
    if Line(c, x, i).Some? {
      SimpleSem(a, back, x, i, Line(c, x, i).pos);
      SimpleSem(b, back, x, Line(c, x, i).pos, j);
    }
    if m: nat :| Matches(a, back, x, i, m) && Matches(b, back, x, m, j) {
      SimpleSem(a, back, x, i, m);
    }
  }

  lemma {:induction false} SimpleRepeat(b: Re, min: nat, max: Bound, back: bool, x: Input, i: nat, j: nat)
    requires WellFormed(b)
    requires (min == 0 && max == AtMost(0)) || (min == 1 && max == AtMost(1) && AllSimple(Compile(b, back)))
    ensures Matches(Repeat(b, min, max), back, x, i, j) <==> Line(if min == 0 then [] else Compile(b, back), x, i) == Some(j)
    decreases Size(b), 1
  {
    hide Compile, Matches, Iter;
    if Matches(Repeat(b, min, max), back, x, i, j) {
      var k := RepeatElim(b, back, x, min, max, i, j);
      IterAhead(b, back, x, k, i, j);
      if k == 0 {
        ZeroIterOnly(b, back, x, i, j);
      }
    }
    if min == 0 {
      if i == j && Pos(x, i) {
        ZeroIter(b, back, x, i);
        RepeatIntro(b, back, x, 0, max, 0, i, j);
      }
    } else {
      IterOne(b, back, x, i, j);
      SimpleSem(b, back, x, i, j);
      if Matches(b, back, x, i, j) {
        RepeatIntro(b, back, x, 1, max, 1, i, j);
      }
    }
  }

  lemma ZeroIterOnly(b: Re, back: bool, x: Input, i: nat, j: nat)
    requires Iter(b, back, x, 0, i, j)
    ensures i == j
  {
  }

  /** A simple atom with characters has at most one end, a fixed number of characters on. */
  lemma SimpleEnd(b: Re, back: bool, x: Input, i: nat, j: nat)
    requires WellFormed(b) && AllSimple(Compile(b, back)) && Matches(b, back, x, i, j)
    ensures j == i + CharCount(Compile(b, back))
  {
    hide Compile, Matches, Line;
    SimpleSem(b, back, x, i, j);
    LineAdvances(Compile(b, back), x, i);
  }

  lemma {:induction false} SimpleIterEnd(b: Re, back: bool, x: Input, k: nat, i: nat, j: nat, j': nat)
    requires WellFormed(b) && AllSimple(Compile(b, back)) && Iter(b, back, x, k, i, j) && Iter(b, back, x, k, i, j')
    ensures j == j'
    decreases k
  {
    hide Compile, Matches;
    if k > 0 {
      var m := IterHead(b, back, x, k, i, j);
      var m' := IterHead(b, back, x, k, i, j');
      SimpleEnd(b, back, x, i, m);
      SimpleEnd(b, back, x, i, m');
      SimpleIterEnd(b, back, x, k - 1, m, j, j');
    }
  }

  ghost predicate CanIterate(b: Re, back: bool, x: Input, k: nat, i: nat) {
    exists e: nat :: Iter(b, back, x, k, i, e)
  }

  lemma OneLess(b: Re, back: bool, x: Input, k: nat, i: nat, m: nat)
    requires WellFormed(b) && AllSimple(Compile(b, back)) && k > 0 && CanIterate(b, back, x, k, i) && Matches(b, back, x, i, m)
    ensures CanIterate(b, back, x, k - 1, m)
  {
    hide Compile, Matches, Iter;
    var j: nat :| Iter(b, back, x, k, i, j);
    var m' := IterHead(b, back, x, k, i, j);
    SimpleEnd(b, back, x, i, m');
    SimpleEnd(b, back, x, i, m);
  }

  /** The greedy run counts the longest row of copies the bound allows. */
  lemma {:induction false} GreedyIsLongest(b: Re, back: bool, code: Code, x: Input, pc: nat, i: nat, max: Bound, q: nat)
    requires WellFormed(b) && AllSimple(Compile(b, back)) && CharCount(Compile(b, back)) > 0 && Pos(x, i)
    requires CodeAt(code, pc, Compile(b, back) + [Match]) && Within(max, q)
    ensures var (n, e) := GreedyRun(code, x, pc, i, max, q);
            && q <= n && Within(max, n) && Iter(b, back, x, n - q, i, e)
            && forall k: nat :: k > n - q && Within(max, q + k) ==> !CanIterate(b, back, x, k, i)
    decreases |x.w| - i
  {
    hide Compile, Matches, Line, RunSimple, Iter;
    var c := Compile(b, back);
    var (n, e) := GreedyRun(code, x, pc, i, max, q);
    ZeroIter(b, back, x, i);
    if max.AtMost? && q >= max.n {
    } else {
      RunIsLine(code, x, pc, c, i);
      match RunSimple(code, x, pc, i)
      case None =>
        forall k: nat | k > 0
          ensures !CanIterate(b, back, x, k, i)
        {
          if j: nat :| Iter(b, back, x, k, i, j) {
            var m := IterHead(b, back, x, k, i, j);
            SimpleSem(b, back, x, i, m);
          }
        }
      case Some(m) =>
        SimpleSem(b, back, x, i, m);
        LineAdvances(c, x, i);
        GreedyIsLongest(b, back, code, x, pc, m, max, q + 1);
        IterOne(b, back, x, i, m);
        IterSum(b, back, x, 1, n - (q + 1), i, m, e);
        forall k: nat | k > n - q && Within(max, q + k)
          ensures !CanIterate(b, back, x, k, i)
        {
          if CanIterate(b, back, x, k, i) {
            OneLess(b, back, x, k, i, m);
          }
        }
    }
  }

  /** Some number of copies between min and k ends in s. */
  ghost predicate BetweenHits(b: Re, back: bool, x: Input, min: nat, k: nat, i: nat, s: set<nat>) {
    exists j: nat :: min <= j <= k && IterHits(b, back, x, j, i, s)
  }

  /** Giving back copies one by one tries the ends of k, k - 1, ..., min copies. */
  lemma {:induction false} DownLoop(b: Re, back: bool, code: Code, x: Input, q: int, min: nat, k: nat, i: nat, e: nat, st: seq<int>, s: set<nat>) returns (f: nat)
    requires WellFormed(b) && AllSimple(Compile(b, back)) && min <= k && Iter(b, back, x, k, i, e)
    requires forall j: nat, d: nat :: min <= j <= k && Iter(b, back, x, j, i, d) ==> Answers(code, x, q, d, st, d in s)
    ensures EvalDown(code, x, q, e, CharCount(Compile(b, back)), k - min, st, f) == Ans(BetweenHits(b, back, x, min, k, i, s))
    decreases k
  {
    hide Compile, Matches, Eval, Iter;
    var n := CharCount(Compile(b, back));
    var f1: nat :| Eval(code, x, q, e, st, f1) == Ans(e in s);
    IterHitsOnly(b, back, x, k, i, e, s);
    if k == min {
      f := f1;
    } else {
      var m := IterSplit(b, back, x, k - 1, 1, i, e);
      IterOne(b, back, x, m, e);
      SimpleEnd(b, back, x, m, e);
      var f2 := DownLoop(b, back, code, x, q, min, k - 1, i, m, st, s);
      f := if f1 < f2 then f2 else f1;
      MoreFuel(code, x, q, e, st, f1, f);
      MoreFuelDown(code, x, q, m, n, k - 1 - min, st, f2, f);
      assert BetweenHits(b, back, x, min, k, i, s) <==> e in s || BetweenHits(b, back, x, min, k - 1, i, s);
    }
  }

  lemma IterHitsOnly(b: Re, back: bool, x: Input, k: nat, i: nat, e: nat, s: set<nat>)
    requires WellFormed(b) && AllSimple(Compile(b, back)) && Iter(b, back, x, k, i, e)
    ensures IterHits(b, back, x, k, i, s) <==> e in s
  {
    hide Compile, Iter;
    if e': nat :| e' in s && Iter(b, back, x, k, i, e') {
      SimpleIterEnd(b, back, x, k, i, e, e');
    }
  }

  /** The simple greedy quantifier decides the same ends as the loops it replaces. */
  lemma SimpleLoop(b: Re, min: nat, max: Bound, back: bool, code: Code, x: Input, p: nat, i: nat, st: seq<int>, s: set<nat>)
    requires WellFormed(b) && AllSimple(Compile(b, back)) && CharCount(Compile(b, back)) > 0 && Pos(x, i)
    requires CodeAt(code, p, [SimpleGreedy(|Compile(b, back)| + 1, min, max, CharCount(Compile(b, back)))] + (Compile(b, back) + [Match]))
    requires Continues(code, x, p + 1 + |Compile(b, back)| + 1, st, Repeat(b, min, max), back, i, s)
    ensures Answers(code, x, p, i, st, Hits(Repeat(b, min, max), back, x, i, s))
  {
    hide Compile, Matches, Iter, EvalDown;
    var c := Compile(b, back);
    var greedy := [SimpleGreedy(|c| + 1, min, max, CharCount(c))];
    CodeAtConcat(code, p, greedy, c + [Match]);
    CodeAtIndex(code, p, greedy, 0);
    var q := p + 1 + |c| + 1;
    assert Within(max, 0);
    GreedyIsLongest(b, back, code, x, p + 1, i, max, 0);
    var (n, e) := GreedyRun(code, x, p + 1, i, max, 0);
    RepeatIsBetween(b, min, max, back, x, n, i, s);
    if n < min {
      assert Eval(code, x, p, i, st, 1) == Ans(false);
    } else {
      forall j: nat, d: nat | min <= j <= n && Iter(b, back, x, j, i, d)
        ensures Answers(code, x, q, d, st, d in s)
      {
        RepeatIntro(b, back, x, min, max, j, i, d);
      }
      var f := DownLoop(b, back, code, x, q, min, n, i, e, st, s);
      assert Eval(code, x, p, i, st, f + 1) == Ans(BetweenHits(b, back, x, min, n, i, s));
    }
  }

  lemma RepeatIsBetween(b: Re, min: nat, max: Bound, back: bool, x: Input, n: nat, i: nat, s: set<nat>)
    requires Within(max, n) && forall k: nat :: k > n && Within(max, k) ==> !CanIterate(b, back, x, k, i)
    ensures Hits(Repeat(b, min, max), back, x, i, s) <==> BetweenHits(b, back, x, min, n, i, s)
  {
    hide Matches, Iter;
    if e: nat :| e in s && Matches(Repeat(b, min, max), back, x, i, e) {
      var k := RepeatElim(b, back, x, min, max, i, e);
      assert CanIterate(b, back, x, k, i);
      assert IterHits(b, back, x, k, i, s);
    }
    if j: nat :| min <= j <= n && IterHits(b, back, x, j, i, s) {
      var e: nat :| e in s && Iter(b, back, x, j, i, e);
      RepeatIntro(b, back, x, min, max, j, i, e);
    }
  }

  lemma {:induction false} FragmentRepeat(b: Re, min: nat, max: Bound, back: bool, code: Code, x: Input, p: nat, i: nat, st: seq<int>, s: set<nat>)
    requires WellFormed(b) && Within(max, min) && Pos(x, i) && CodeAt(code, p, Compile(Repeat(b, min, max), back))
    requires Continues(code, x, p + |Compile(Repeat(b, min, max), back)|, st, Repeat(b, min, max), back, i, s)
    ensures Answers(code, x, p, i, st, Hits(Repeat(b, min, max), back, x, i, s))
    decreases Size(b), 4, 0
  {
    hide Matches, Answers, Iter, Optional, Mandatory, Rest, AllSimple, AlwaysAdvances, CharCount, CodeAt, Continues, Hits;
    var c := Compile(b, back);
    assert Compile(Repeat(b, min, max), back) == Quantify(c, min, max, HasCapture(b));
    hide Compile;
    if max != AtMost(0) && AllSimple(c) && CharCount(c) > 0 {
      var greedy := [SimpleGreedy(|c| + 1, min, max, CharCount(c))];
      assert greedy + c + [Match] == greedy + (c + [Match]);
      SimpleLoop(b, min, max, back, code, x, p, i, st, s);
    } else if min == 0 {
      var reset := if HasCapture(b) then [SaveReset] else [];
      CodeAtConcat(code, p, reset, Optional(c, max));
      ZeroIter(b, back, x, i);
      RepeatContinues(code, x, p + |reset| + |Optional(c, max)|, st, b, 0, max, back, i, i, s);
      OptionalLoop(b, max, back, code, x, p + |reset|, i, st, s);
      RepeatIsRest(b, max, back, x, i, s);
      if HasCapture(b) {
        CodeAtIndex(code, p, reset, 0);
        Forward(code, x, p, i, st, p + 1, i, st, RestHits(b, 0, max, back, x, i, s));
      }
    } else if min == 1 && max == Infinite && AlwaysAdvances(c) {
      PlusContinues(code, x, p + |c| + 1, st, b, back, i, s);
      PlusLoop(b, back, code, x, p, i, st, s);
      RepeatIsPlus(b, back, x, i, s);
    } else {
      MandatoryLoop(b, min, max, back, code, x, p, i, st, s);
    }
  }

  lemma RepeatIsRest(b: Re, max: Bound, back: bool, x: Input, i: nat, s: set<nat>)
    requires Pos(x, i)
    ensures Hits(Repeat(b, 0, max), back, x, i, s) <==> RestHits(b, 0, max, back, x, i, s)
  {
    hide Matches, Iter;
    if e: nat :| e in s && Matches(Repeat(b, 0, max), back, x, i, e) {
      var k := RepeatElim(b, back, x, 0, max, i, e);
      assert IterHits(b, back, x, k, i, s);
      assert Within(max, 0 + k);
    }
    if k: nat :| Within(max, 0 + k) && IterHits(b, back, x, k, i, s) {
      var e: nat :| e in s && Iter(b, back, x, k, i, e);
      RepeatIntro(b, back, x, 0, max, k, i, e);
    }
  }

  lemma RepeatIsPlus(b: Re, back: bool, x: Input, i: nat, s: set<nat>)
    ensures Hits(Repeat(b, 1, Infinite), back, x, i, s) <==> PlusHits(b, back, x, i, s)
  {
    hide Matches, Iter;
    if e: nat :| e in s && Matches(Repeat(b, 1, Infinite), back, x, i, e) {
      var k := RepeatElim(b, back, x, 1, Infinite, i, e);
      var m := IterHead(b, back, x, k, i, e);
      assert Star(b, back, x, m, e);
    }
    if m: nat :| Matches(b, back, x, i, m) && StarHits(b, back, x, m, s) {
      var e: nat :| e in s && Star(b, back, x, m, e);
      var k: nat :| Iter(b, back, x, k, m, e);
      IterOne(b, back, x, i, m);
      IterSum(b, back, x, 1, k, i, m, e);
      RepeatIntro(b, back, x, 1, Infinite, 1 + k, i, e);
    }
  }

  lemma PlusContinues(code: Code, x: Input, q: int, st: seq<int>, b: Re, back: bool, i: nat, s: set<nat>)
    requires Continues(code, x, q, st, Repeat(b, 1, Infinite), back, i, s)
    ensures forall m: nat :: Matches(b, back, x, i, m) ==> StarContinues(code, x, q, st, b, back, m, s)
  {
    hide Matches, Iter, Answers;
    forall m: nat, e: nat | Matches(b, back, x, i, m) && Star(b, back, x, m, e)
      ensures Answers(code, x, q, e, st, e in s)
    {
      var k: nat :| Iter(b, back, x, k, m, e);
      IterOne(b, back, x, i, m);
      IterSum(b, back, x, 1, k, i, m, e);
      RepeatIntro(b, back, x, 1, Infinite, 1 + k, i, e);
    }
  }
}
