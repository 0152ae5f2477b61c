/**
 The order in which quantifiers try their ends: simple_greedy_quant of qjs/libregexp.c gives the
 same positions in the same order as the split and loop code it replaces.
 */
module RegexpGreedy {
  import opened RegexpSyntax
  import opened RegexpCode
  import opened RegexpMachine
  import opened RegexpCorrect

  // ---- ends in the order they are tried ----

  datatype Trail = Unknown | Trail(ends: seq<nat>)

  function Then2(a: Trail, b: Trail): Trail {
    if a.Trail? && b.Trail? then Trail(a.ends + b.ends) else Unknown
  }

  /**
   The positions at which a thread arrives at exit, in order, when every arrival is rejected and the
   machine backtracks.
   */
  function Tried(code: Code, x: Input, pc: int, i: nat, st: seq<int>, exit: int, f: nat): Trail
    decreases f, 0
  {
    if f == 0 || !Pos(x, i) then Unknown
    else if pc == exit then Trail([i])
    else if !(0 <= pc < |code|) then Unknown
    else
      var next := pc + 1;
      match code[pc]
      case Test(a) => if i < |x.w| && Accepts(a, x.w[i]) then Tried(code, x, next, i + 1, st, exit, f - 1) else Trail([])
      case Check(k) => if Holds(k, x, i) then Tried(code, x, next, i, st, exit, f - 1) else Trail([])
      case Goto(d) => Tried(code, x, next + d, i, st, exit, f - 1)
      case SplitNextFirst(d) => Then2(Tried(code, x, next, i, st, exit, f - 1), Tried(code, x, next + d, i, st, exit, f - 1))
      case SplitGotoFirst(d) => Then2(Tried(code, x, next + d, i, st, exit, f - 1), Tried(code, x, next, i, st, exit, f - 1))
      case PushCount(n) => Tried(code, x, next, i, st + [n], exit, f - 1)
      case Drop => if st == [] then Unknown else Tried(code, x, next, i, st[..|st| - 1], exit, f - 1)
      case Loop(d) =>
        if st == [] then Unknown
        else
          var n := st[|st| - 1] - 1;
          Tried(code, x, if n != 0 then next + d else next, i, st[..|st| - 1] + [n], exit, f - 1)
      case SimpleGreedy(d, min, max, count) =>
        var (q, e) := GreedyRun(code, x, next, i, max, 0);
        if q < min then Trail([]) else TriedDown(code, x, next + d, e, count, q - min, st, exit, f - 1)
      case _ => Unknown
  }

  function TriedDown(code: Code, x: Input, pc: int, i: nat, count: nat, left: nat, st: seq<int>, exit: int, f: nat): Trail
    decreases f, left + 1
  {
    var a := Tried(code, x, pc, i, st, exit, f);
    if left == 0 then a
    else if i < count then Unknown
    else Then2(a, TriedDown(code, x, pc, i - count, count, left - 1, st, exit, f))
  }

  lemma {:induction false} TriedMore(code: Code, x: Input, pc: int, i: nat, st: seq<int>, exit: int, f: nat, g: nat)
    requires f <= g && Tried(code, x, pc, i, st, exit, f).Trail?
    ensures Tried(code, x, pc, i, st, exit, g) == Tried(code, x, pc, i, st, exit, f)
    decreases f, 0
  {
    hide Accepts, Holds, GreedyRun;
    if pc != exit {
      var next := pc + 1;
      match code[pc]
      case Test(a) =>
        if i < |x.w| && Accepts(a, x.w[i]) {
          TriedMore(code, x, next, i + 1, st, exit, f - 1, g - 1);
        }
      case Check(k) =>
        if Holds(k, x, i) {
          TriedMore(code, x, next, i, st, exit, f - 1, g - 1);
        }
      case Goto(d) => TriedMore(code, x, next + d, i, st, exit, f - 1, g - 1);
      case SplitNextFirst(d) =>
        TriedMore(code, x, next, i, st, exit, f - 1, g - 1);
        TriedMore(code, x, next + d, i, st, exit, f - 1, g - 1);
      case SplitGotoFirst(d) =>
        TriedMore(code, x, next, i, st, exit, f - 1, g - 1);
        TriedMore(code, x, next + d, i, st, exit, f - 1, g - 1);
      case PushCount(n) => TriedMore(code, x, next, i, st + [n], exit, f - 1, g - 1);
      case Drop => TriedMore(code, x, next, i, st[..|st| - 1], exit, f - 1, g - 1);
      case Loop(d) =>
        var n := st[|st| - 1] - 1;
        TriedMore(code, x, if n != 0 then next + d else next, i, st[..|st| - 1] + [n], exit, f - 1, g - 1);
      case SimpleGreedy(d, min, max, count) =>
        var (q, e) := GreedyRun(code, x, next, i, max, 0);
        if q >= min {
          TriedDownMore(code, x, next + d, e, count, q - min, st, exit, f - 1, g - 1);
        }
      case _ =>
    }
  }

  lemma {:induction false} TriedDownMore(code: Code, x: Input, pc: int, i: nat, count: nat, left: nat, st: seq<int>, exit: int, f: nat, g: nat)
    requires f <= g && TriedDown(code, x, pc, i, count, left, st, exit, f).Trail?
    ensures TriedDown(code, x, pc, i, count, left, st, exit, g) == TriedDown(code, x, pc, i, count, left, st, exit, f)
    decreases f, left + 1
  {
    TriedMore(code, x, pc, i, st, exit, f, g);
    if left > 0 && i >= count {
      TriedDownMore(code, x, pc, i - count, count, left - 1, st, exit, f, g);
    }
  }

  /** From pc the ends es are tried, in this order. */
  ghost predicate Tries(code: Code, x: Input, pc: int, i: nat, st: seq<int>, exit: int, es: seq<nat>) {
    exists f: nat :: Tried(code, x, pc, i, st, exit, f) == Trail(es)
  }

  lemma TriesExit(code: Code, x: Input, i: nat, st: seq<int>, exit: int)
    requires Pos(x, i)
    ensures Tries(code, x, exit, i, st, exit, [i])
  {
    assert Tried(code, x, exit, i, st, exit, 1) == Trail([i]);
  }

  /** An instruction that hands over. */
  lemma TriesForward(code: Code, x: Input, pc: nat, i: nat, st: seq<int>, exit: int, pc': int, i': nat, st': seq<int>, es: seq<nat>)
    requires pc < |code| && pc != exit && Pos(x, i) && Tries(code, x, pc', i', st', exit, es)
    requires match code[pc]
             case Test(a) => i < |x.w| && Accepts(a, x.w[i]) && pc' == pc + 1 && i' == i + 1 && st' == st
             case Check(k) => Holds(k, x, i) && pc' == pc + 1 && i' == i && st' == st
             case Goto(d) => pc' == pc + 1 + d && i' == i && st' == st
             case PushCount(n) => pc' == pc + 1 && i' == i && st' == st + [n]
             case Drop => st != [] && pc' == pc + 1 && i' == i && st' == st[..|st| - 1]
             case Loop(d) =>
               st != [] && i' == i && st' == st[..|st| - 1] + [st[|st| - 1] - 1]
               && pc' == (if st[|st| - 1] - 1 != 0 then pc + 1 + d else pc + 1)
             case _ => false
    ensures Tries(code, x, pc, i, st, exit, es)
  {
    hide Accepts, Holds, GreedyRun;
    var f: nat :| Tried(code, x, pc', i', st', exit, f) == Trail(es);
    assert Tried(code, x, pc, i, st, exit, f + 1) == Trail(es);
  }

  /** A test or a check that fails. */
  lemma TriesFails(code: Code, x: Input, pc: nat, i: nat, st: seq<int>, exit: int)
    requires pc < |code| && pc != exit && Pos(x, i)
    requires match code[pc]
             case Test(a) => !(i < |x.w| && Accepts(a, x.w[i]))
             case Check(k) => !Holds(k, x, i)
             case _ => false
    ensures Tries(code, x, pc, i, st, exit, [])
  {
    hide Accepts, Holds, GreedyRun;
    assert Tried(code, x, pc, i, st, exit, 1) == Trail([]);
  }

  /** A split: the ends of the branch taken first, then those of the other. */
  lemma TriesSplit(code: Code, x: Input, pc: nat, i: nat, st: seq<int>, exit: int, p1: int, p2: int, es1: seq<nat>, es2: seq<nat>)
    requires pc < |code| && pc != exit && Pos(x, i)
    requires (code[pc].SplitNextFirst? && p1 == pc + 1 && p2 == pc + 1 + code[pc].d)
             || (code[pc].SplitGotoFirst? && p1 == pc + 1 + code[pc].d && p2 == pc + 1)
    requires Tries(code, x, p1, i, st, exit, es1) && Tries(code, x, p2, i, st, exit, es2)
    ensures Tries(code, x, pc, i, st, exit, es1 + es2)
  {
    hide GreedyRun;
    var f1: nat :| Tried(code, x, p1, i, st, exit, f1) == Trail(es1);
    var f2: nat :| Tried(code, x, p2, i, st, exit, f2) == Trail(es2);
    var f := if f1 < f2 then f2 else f1;
    TriedMore(code, x, p1, i, st, exit, f1, f);
    TriedMore(code, x, p2, i, st, exit, f2, f);
    assert Tried(code, x, pc, i, st, exit, f + 1) == Trail(es1 + es2);
  }

  // ---- the ends of a quantified atom ----

  function Fewer(max: Bound): Bound {
    if max.AtMost? && max.n > 0 then AtMost(max.n - 1) else max
  }

  /** The positions after as many copies of the atom as possible, then one fewer, down to min. */
  function Ends(c: Code, x: Input, min: nat, max: Bound, i: nat): seq<nat>
    decreases |x.w| - i
  {
    var here: seq<nat> := if min == 0 then [i] else [];
    if max == AtMost(0) then here
    else
      match Line(c, x, i)
      case None => here
      case Some(j) => if i < j <= |x.w| then Ends(c, x, if min == 0 then 0 else min - 1, Fewer(max), j) + here else here
  }

  /** The atom's own code: it goes through to its end, or fails. */
  lemma {:induction false} AtomTries(code: Code, x: Input, p: nat, c: Code, i: nat, st: seq<int>, exit: int, es: seq<nat>)
    requires AllSimple(c) && CodeAt(code, p, c) && Pos(x, i) && (exit < p || p + |c| <= exit)
    requires Line(c, x, i).Some? ==> Tries(code, x, p + |c|, Line(c, x, i).pos, st, exit, es)
    ensures Tries(code, x, p, i, st, exit, if Line(c, x, i).Some? then es else [])
    decreases c
  {
    hide Accepts, Holds, Tries;
    if c != [] {
      CodeAtIndex(code, p, c, 0);
      assert c == [c[0]] + c[1..];
      CodeAtConcat(code, p, [c[0]], c[1..]);
      assert IsSimple(c[0]);
      if c[0].Test? {
        if i < |x.w| && Accepts(c[0].atom, x.w[i]) {
          AtomTries(code, x, p + 1, c[1..], i + 1, st, exit, es);
          TriesForward(code, x, p, i, st, exit, p + 1, i + 1, st, if Line(c, x, i).Some? then es else []);
        } else {
          TriesFails(code, x, p, i, st, exit);
        }
      } else {
        if Holds(c[0].kind, x, i) {
          AtomTries(code, x, p + 1, c[1..], i, st, exit, es);
          TriesForward(code, x, p, i, st, exit, p + 1, i, st, if Line(c, x, i).Some? then es else []);
        } else {
          TriesFails(code, x, p, i, st, exit);
        }
      }
    }
  }

  // ---- the loops ----

  /** What re_is_simple_quantifier accepts: at least one character. */
  predicate IsAtom(c: Code) {
    AllSimple(c) && CharCount(c) > 0
  }

  lemma {:induction false} AtomAdvances(c: Code)
    requires IsAtom(c)
    ensures AlwaysAdvances(c)
    decreases |c|
  {
    assert c != [] && IsSimple(c[0]);
    if !c[0].Test? {
      AtomAdvances(c[1..]);
    }
  }

  lemma AtomMoves(c: Code, x: Input, i: nat)
    requires IsAtom(c) && Line(c, x, i).Some?
    ensures i < Line(c, x, i).pos <= |x.w|
  {
    LineAdvances(c, x, i);
  }

  /** Where the parts of the unchecked loop are. */
  lemma FreeStarCode(c: Code, code: Code, p: nat)
    requires CodeAt(code, p, StarCode(c)) && AlwaysAdvances(c)
    ensures |StarCode(c)| == |c| + 2 && p + |c| + 2 <= |code|
    ensures code[p] == SplitNextFirst(|c| + 1) && CodeAt(code, p + 1, c) && code[p + 1 + |c|] == Goto(-(|c| + 2))
  {
    hide CodeAt, AlwaysAdvances;
    var jump := [Goto(-(|c| + 2))];
    assert StarCode(c) == [SplitNextFirst(|c| + 1)] + (c + jump);
    CodeAtIndex(code, p, StarCode(c), |c| + 1);
    CodeAtConcat(code, p, [SplitNextFirst(|c| + 1)], c + jump);
    CodeAtIndex(code, p, [SplitNextFirst(|c| + 1)], 0);
    CodeAtConcat(code, p + 1, c, jump);
  }

  /** The ends of a star: those after one more copy, then the place itself. */
  lemma EndsOfStar(c: Code, x: Input, i: nat)
    requires IsAtom(c)
    ensures Ends(c, x, 0, Infinite, i) == (if Line(c, x, i).Some? then Ends(c, x, 0, Infinite, Line(c, x, i).pos) else []) + [i]
  {
    hide IsAtom, Line;
    if Line(c, x, i).Some? {
      AtomMoves(c, x, i);
    }
  }

  lemma {:induction false} StarTries(code: Code, x: Input, p: nat, c: Code, i: nat, st: seq<int>)
    requires IsAtom(c) && CodeAt(code, p, StarCode(c)) && Pos(x, i)
    ensures Tries(code, x, p, i, st, p + |StarCode(c)|, Ends(c, x, 0, Infinite, i))
    decreases |x.w| - i
  {
    hide Tries, Line, IsAtom, CodeAt, StarCode, Ends, AlwaysAdvances;
    AtomAdvances(c);
    FreeStarCode(c, code, p);
    var exit := p + |c| + 2;
    TriesExit(code, x, i, st, exit);
    var more: seq<nat> := [];
    if Line(c, x, i).Some? {
      AtomMoves(c, x, i);
      var j := Line(c, x, i).pos;
      more := Ends(c, x, 0, Infinite, j);
      StarTries(code, x, p, c, j, st);
      TriesForward(code, x, p + 1 + |c|, j, st, exit, p, j, st, more);
    }
    assert AllSimple(c) by { SimpleAtom(c); }
    AtomTries(code, x, p + 1, c, i, st, exit, more);
    TriesSplit(code, x, p, i, st, exit, p + 1, exit, more, [i]);
    EndsOfStar(c, x, i);
    assert [] + [i] == [i];
  }

  lemma SimpleAtom(c: Code)
    requires IsAtom(c)
    ensures AllSimple(c)
  {
  }

  lemma {:induction false} UpTries(code: Code, x: Input, p: nat, c: Code, k: nat, i: nat, st: seq<int>)
    requires IsAtom(c) && k >= 1 && Pos(x, i) && CodeAt(code, p, [SplitNextFirst(|c| + 1)] + (c + [Loop(-(|c| + 2)), Drop]))
    ensures Tries(code, x, p, i, st + [k], p + |c| + 3, Ends(c, x, 0, AtMost(k), i))
    decreases |x.w| - i
  {
    hide Tries, Line, CharCount;
    var tail := [Loop(-(|c| + 2)), Drop];
    var exit := p + |c| + 3;
    CodeAtConcat(code, p, [SplitNextFirst(|c| + 1)], c + tail);
    CodeAtIndex(code, p, [SplitNextFirst(|c| + 1)], 0);
    CodeAtConcat(code, p + 1, c, tail);
    CodeAtIndex(code, p + 1 + |c|, tail, 0);
    CodeAtIndex(code, p + 1 + |c|, tail, 1);
    var st1, st2 := st + [k], st + [k - 1];
    assert st1[..|st1| - 1] == st && st2[..|st2| - 1] == st;
    TriesExit(code, x, i, st, exit);
    TriesForward(code, x, p + |c| + 2, i, st1, exit, exit, i, st, [i]);
    var more: seq<nat> := [];
    if Line(c, x, i).Some? {
      AtomMoves(c, x, i);
      var j := Line(c, x, i).pos;
      more := Ends(c, x, 0, AtMost(k - 1), j);
      if k > 1 {
        UpTries(code, x, p, c, k - 1, j, st);
        TriesForward(code, x, p + 1 + |c|, j, st1, exit, p, j, st2, more);
      } else {
        TriesExit(code, x, j, st, exit);
        TriesForward(code, x, p + |c| + 2, j, st2, exit, exit, j, st, [j]);
        TriesForward(code, x, p + 1 + |c|, j, st1, exit, p + |c| + 2, j, st2, more);
      }
    }
    AtomTries(code, x, p + 1, c, i, st1, exit, more);
    TriesSplit(code, x, p, i, st1, exit, p + 1, p + |c| + 2, more, [i]);
    assert [] + [i] == [i];
  }

  lemma UpToTries(code: Code, x: Input, p: nat, c: Code, n: nat, i: nat, st: seq<int>)
    requires IsAtom(c) && n >= 1 && Pos(x, i) && CodeAt(code, p, UpToCode(c, n))
    ensures Tries(code, x, p, i, st, p + |UpToCode(c, n)|, Ends(c, x, 0, AtMost(n), i))
  {
    hide Tries, Line, CharCount;
    var loop := [SplitNextFirst(|c| + 1)] + (c + [Loop(-(|c| + 2)), Drop]);
    assert UpToCode(c, n) == [PushCount(n)] + loop;
    CodeAtConcat(code, p, [PushCount(n)], loop);
    CodeAtIndex(code, p, [PushCount(n)], 0);
    UpTries(code, x, p + 1, c, n, i, st);
    TriesForward(code, x, p, i, st, p + 1 + |c| + 3, p + 1, i, st + [n], Ends(c, x, 0, AtMost(n), i));
  }

  lemma OnceTries(code: Code, x: Input, p: nat, c: Code, i: nat, st: seq<int>)
    requires IsAtom(c) && Pos(x, i) && CodeAt(code, p, [SplitNextFirst(|c|)] + c)
    ensures Tries(code, x, p, i, st, p + 1 + |c|, Ends(c, x, 0, AtMost(1), i))
  {
    hide Tries, Line, CharCount;
    var exit := p + 1 + |c|;
    CodeAtConcat(code, p, [SplitNextFirst(|c|)], c);
    CodeAtIndex(code, p, [SplitNextFirst(|c|)], 0);
    TriesExit(code, x, i, st, exit);
    var more: seq<nat> := [];
    if Line(c, x, i).Some? {
      AtomMoves(c, x, i);
      more := [Line(c, x, i).pos];
      TriesExit(code, x, Line(c, x, i).pos, st, exit);
    }
    AtomTries(code, x, p + 1, c, i, st, exit, more);
    TriesSplit(code, x, p, i, st, exit, p + 1, exit, more, [i]);
    assert [] + [i] == [i];
  }

  lemma {:induction false} PlusTries(code: Code, x: Input, p: nat, c: Code, i: nat, st: seq<int>)
    requires IsAtom(c) && Pos(x, i) && CodeAt(code, p, c + [SplitGotoFirst(-(|c| + 1))])
    ensures Tries(code, x, p, i, st, p + |c| + 1, Ends(c, x, 1, Infinite, i))
    decreases |x.w| - i
  {
    hide Tries, Line, CharCount;
    var split := [SplitGotoFirst(-(|c| + 1))];
    var exit := p + |c| + 1;
    CodeAtConcat(code, p, c, split);
    CodeAtIndex(code, p + |c|, split, 0);
    var more: seq<nat> := [];
    if Line(c, x, i).Some? {
      AtomMoves(c, x, i);
      var j := Line(c, x, i).pos;
      PlusTries(code, x, p, c, j, st);
      TriesExit(code, x, j, st, exit);
      more := Ends(c, x, 1, Infinite, j) + [j];
      TriesSplit(code, x, p + |c|, j, st, exit, p, exit, Ends(c, x, 1, Infinite, j), [j]);
      OneMore(c, x, j);
    }
    AtomTries(code, x, p, c, i, st, exit, more);
    assert more + [] == more;
  }

  lemma OneMore(c: Code, x: Input, j: nat)
    ensures Ends(c, x, 0, Infinite, j) == Ends(c, x, 1, Infinite, j) + [j]
  {
    hide Line;
    assert [] + [j] == [j];
    if Line(c, x, j).Some? {
      var k := Line(c, x, j).pos;
      if j < k <= |x.w| {
        assert Ends(c, x, 0, Infinite, k) + [] == Ends(c, x, 0, Infinite, k);
      }
    }
  }

  function Plus(k: nat, rest: Bound): Bound {
    if rest.AtMost? then AtMost(k + rest.n) else Infinite
  }

  /** Behind the mandatory copies, at q, the rest is tried. */
  ghost predicate RestTried(code: Code, x: Input, q: int, c: Code, rest: Bound, st: seq<int>, exit: int) {
    forall j: nat :: Pos(x, j) ==> Tries(code, x, q, j, st, exit, Ends(c, x, 0, rest, j))
  }

  lemma {:induction false} CountTries(code: Code, x: Input, p: nat, c: Code, k: nat, rest: Bound, i: nat, st: seq<int>, exit: int)
    requires IsAtom(c) && k >= 1 && Pos(x, i) && CodeAt(code, p, c + [Loop(-(|c| + 1)), Drop]) && exit >= p + |c| + 2
    requires RestTried(code, x, p + |c| + 2, c, rest, st, exit)
    ensures Tries(code, x, p, i, st + [k], exit, Ends(c, x, k, Plus(k, rest), i))
    decreases |x.w| - i
  {
    hide Tries, Line, CharCount;
    var tail := [Loop(-(|c| + 1)), Drop];
    CodeAtConcat(code, p, c, tail);
    CodeAtIndex(code, p + |c|, tail, 0);
    CodeAtIndex(code, p + |c|, tail, 1);
    var st1, st2 := st + [k], st + [k - 1];
    assert st1[..|st1| - 1] == st && st2[..|st2| - 1] == st;
    var more: seq<nat> := [];
    if Line(c, x, i).Some? {
      AtomMoves(c, x, i);
      var j := Line(c, x, i).pos;
      more := Ends(c, x, k - 1, Plus(k - 1, rest), j);
      if k > 1 {
        CountTries(code, x, p, c, k - 1, rest, j, st, exit);
        TriesForward(code, x, p + |c|, j, st1, exit, p, j, st2, more);
      } else {
        TriesForward(code, x, p + |c| + 1, j, st2, exit, p + |c| + 2, j, st, more);
        TriesForward(code, x, p + |c|, j, st1, exit, p + |c| + 1, j, st2, more);
      }
    }
    AtomTries(code, x, p, c, i, st1, exit, more);
    assert more + [] == more;
  }

  /** The code a quantifier has without the optimisation; captures do not matter for the ends. */
  function Loops(c: Code, min: nat, max: Bound): Code {
    if min == 0 then Optional(c, max)
    else if min == 1 && max == Infinite && AlwaysAdvances(c) then c + [SplitGotoFirst(-(|c| + 1))]
    else Mandatory(c, min) + Rest(c, min, max)
  }

  lemma RestTries(code: Code, x: Input, p: nat, c: Code, min: nat, max: Bound, i: nat, st: seq<int>)
    requires IsAtom(c) && Pos(x, i) && Within(max, min) && CodeAt(code, p, Rest(c, min, max))
    ensures var rest := if max.AtMost? then AtMost(max.n - min) else Infinite;
            Tries(code, x, p, i, st, p + |Rest(c, min, max)|, Ends(c, x, 0, rest, i))
  {
    hide Tries, Line, StarCode, UpToCode, IsAtom;
    if max == Infinite {
      StarTries(code, x, p, c, i, st);
    } else if max.n > min {
      UpToTries(code, x, p, c, max.n - min, i, st);
    } else {
      TriesExit(code, x, i, st, p);
    }
  }

  /** Where the parts of the mandatory copies are. */
  lemma MandatoryCode(c: Code, min: nat, code: Code, p: nat)
    requires CodeAt(code, p, Mandatory(c, min)) && min >= 2
    ensures |Mandatory(c, min)| == |c| + 3 && p < |code| && code[p] == PushCount(min)
    ensures CodeAt(code, p + 1, c + [Loop(-(|c| + 1)), Drop])
  {
    hide CodeAt;
    var loop := c + [Loop(-(|c| + 1)), Drop];
    assert Mandatory(c, min) == [PushCount(min)] + loop;
    CodeAtConcat(code, p, [PushCount(min)], loop);
    CodeAtIndex(code, p, [PushCount(min)], 0);
  }

  lemma OneMandatory(c: Code)
    ensures Mandatory(c, 1) == c
  {
  }

  lemma MandatoryTries(code: Code, x: Input, p: nat, c: Code, min: nat, max: Bound, i: nat, st: seq<int>)
    requires IsAtom(c) && Pos(x, i) && min >= 1 && Within(max, min) && CodeAt(code, p, Mandatory(c, min) + Rest(c, min, max))
    ensures Tries(code, x, p, i, st, p + |Mandatory(c, min)| + |Rest(c, min, max)|, Ends(c, x, min, max, i))
  {
    hide Tries, Line, Rest, IsAtom, Ends, CodeAt, Mandatory;
    var rest := if max.AtMost? then AtMost(max.n - min) else Infinite;
    assert Plus(min, rest) == max;
    var q := p + |Mandatory(c, min)|;
    var exit := q + |Rest(c, min, max)|;
    CodeAtConcat(code, p, Mandatory(c, min), Rest(c, min, max));
    forall j: nat | Pos(x, j)
      ensures Tries(code, x, q, j, st, exit, Ends(c, x, 0, rest, j))
    {
      RestTries(code, x, q, c, min, max, j, st);
    }
    if min == 1 {
      OneMandatory(c);
      OneCopyTries(code, x, p, c, rest, i, st, exit);
    } else {
      MandatoryCode(c, min, code, p);
      CountTries(code, x, p + 1, c, min, rest, i, st, exit);
      TriesForward(code, x, p, i, st, exit, p + 1, i, st + [min], Ends(c, x, min, max, i));
    }
  }

  lemma OneCopyTries(code: Code, x: Input, p: nat, c: Code, rest: Bound, i: nat, st: seq<int>, exit: int)
    requires IsAtom(c) && Pos(x, i) && CodeAt(code, p, c) && exit >= p + |c| && RestTried(code, x, p + |c|, c, rest, st, exit)
    ensures Tries(code, x, p, i, st, exit, Ends(c, x, 1, Plus(1, rest), i))
  {
    hide Tries, Line;
    var more: seq<nat> := [];
    if Line(c, x, i).Some? {
      AtomMoves(c, x, i);
      more := Ends(c, x, 0, rest, Line(c, x, i).pos);
    }
    AtomTries(code, x, p, c, i, st, exit, more);
    assert more + [] == more;
  }

  /** The split and loop code tries the ends in order. */
  lemma LoopsTry(code: Code, x: Input, p: nat, c: Code, min: nat, max: Bound, i: nat, st: seq<int>)
    requires IsAtom(c) && Pos(x, i) && Within(max, min) && max != AtMost(0) && CodeAt(code, p, Loops(c, min, max))
    ensures Tries(code, x, p, i, st, p + |Loops(c, min, max)|, Ends(c, x, min, max, i))
  {
    hide Tries, Line, StarCode, UpToCode, Mandatory, Rest, IsAtom;
    if min == 0 {
      if max == AtMost(1) {
        OnceTries(code, x, p, c, i, st);
      } else if max == Infinite {
        StarTries(code, x, p, c, i, st);
      } else {
        UpToTries(code, x, p, c, max.n, i, st);
      }
    } else if min == 1 && max == Infinite && AlwaysAdvances(c) {
      PlusTries(code, x, p, c, i, st);
    } else {
      MandatoryTries(code, x, p, c, min, max, i, st);
    }
  }

  // ---- the optimised form ----

  /** e, e - count, ..., left + 1 of them. */
  function Down(e: nat, count: nat, left: nat): seq<nat>
    requires left * count <= e
    decreases left
  {
    if left == 0 then [e]
    else
      OneLower(e, count, left);
      [e] + Down(e - count, count, left - 1)
  }

  lemma OneLower(e: int, count: int, left: int)
    requires left >= 1 && count >= 0 && left * count <= e
    ensures count <= e && (left - 1) * count <= e - count
  {
    assert left * count == (left - 1) * count + count;
    assert (left - 1) * count >= 0 by { NotNegative(left - 1, count); }
  }

  lemma NotNegative(x: int, y: int)
    requires x >= 0 && y >= 0
    ensures x * y >= 0
  {
  }

  lemma {:induction false} DownSnoc(e: nat, count: nat, left: nat)
    requires (left + 1) * count <= e
    ensures left * count <= e && Down(e, count, left + 1) == Down(e, count, left) + [e - (left + 1) * count]
    decreases left
  {
    assert (left + 1) * count == left * count + count;
    OneLower(e, count, left + 1);
    if left > 0 {
      OneLower(e, count, left);
      DownSnoc(e - count, count, left - 1);
    } else {
      assert 1 * count == count;
    }
  }

  lemma {:induction false} DownTries(code: Code, x: Input, e: nat, count: nat, left: nat, st: seq<int>, exit: int)
    requires Pos(x, e) && left * count <= e
    ensures TriedDown(code, x, exit, e, count, left, st, exit, 1) == Trail(Down(e, count, left))
    decreases left
  {
    if left > 0 {
      OneLower(e, count, left);
      DownTries(code, x, e - count, count, left - 1, st, exit);
    }
  }

  function Left(min: nat, q: nat): nat {
    if q < min then min - q else 0
  }

  function Minus(max: Bound, q: nat): Bound {
    if max.AtMost? then AtMost(if q <= max.n then max.n - q else 0) else Infinite
  }

  /** The greedy run and its retreat are the ends in order. */
  lemma {:induction false} RunGivesEnds(code: Code, x: Input, pc: nat, c: Code, min: nat, max: Bound, i: nat, q0: nat)
    requires IsAtom(c) && CodeAt(code, pc, c + [Match]) && Pos(x, i) && q0 * CharCount(c) <= i && Within(max, q0)
    ensures var (q, e) := GreedyRun(code, x, pc, i, max, q0);
            && q0 <= q && Pos(x, e) && e == i + (q - q0) * CharCount(c)
            && (q < min ==> Ends(c, x, Left(min, q0), Minus(max, q0), i) == [])
            && (q >= min ==> var low := if min < q0 then q0 else min;
                 (q - low) * CharCount(c) <= e && Ends(c, x, Left(min, q0), Minus(max, q0), i) == Down(e, CharCount(c), q - low))
    decreases |x.w| - i
  {
    hide Line, RunSimple, AllSimple;
    var n := CharCount(c);
    RunIsLine(code, x, pc, c, i);
    var (q, e) := GreedyRun(code, x, pc, i, max, q0);
    if max.AtMost? && q0 >= max.n {
      assert 0 * n == 0;
    } else if Line(c, x, i).None? {
      assert 0 * n == 0;
    } else {
      LineAdvances(c, x, i);
      var j := i + n;
      assert (q0 + 1) * n == q0 * n + n;
      RunGivesEnds(code, x, pc, c, min, max, j, q0 + 1);
      assert (q - q0) * n == (q - (q0 + 1)) * n + n;
      var later := Ends(c, x, Left(min, q0 + 1), Minus(max, q0 + 1), j);
      assert Left(min, q0 + 1) == (if Left(min, q0) == 0 then 0 else Left(min, q0) - 1);
      assert Minus(max, q0 + 1) == Fewer(Minus(max, q0));
      assert later + [] == later;
      if q >= min && min <= q0 {
        DownSnocAt(e, n, q, q0, i);
      }
    }
  }

  lemma DownSnocAt(e: nat, n: nat, q: nat, q0: nat, i: nat)
    requires q >= q0 + 1 && e == i + (q - q0) * n
    ensures (q - q0) * n <= e && (q - q0 - 1) * n <= e && Down(e, n, q - q0) == Down(e, n, q - q0 - 1) + [i]
  {
    DownSnoc(e, n, q - q0 - 1);
  }

  lemma SimpleTries(code: Code, x: Input, p: nat, c: Code, min: nat, max: Bound, i: nat, st: seq<int>)
    requires IsAtom(c) && Pos(x, i) && CodeAt(code, p, [SimpleGreedy(|c| + 1, min, max, CharCount(c))] + (c + [Match]))
    ensures Tries(code, x, p, i, st, p + |c| + 2, Ends(c, x, min, max, i))
  {
    hide Line, AllSimple, GreedyRun, Down;
    var greedy, n, exit := [SimpleGreedy(|c| + 1, min, max, CharCount(c))], CharCount(c), p + |c| + 2;
    CodeAtConcat(code, p, greedy, c + [Match]);
    CodeAtIndex(code, p, greedy, 0);
    assert 0 * n == 0;
    RunGivesEnds(code, x, p + 1, c, min, max, i, 0);
    var (q, e) := GreedyRun(code, x, p + 1, i, max, 0);
    if q < min {
      assert Tried(code, x, p, i, st, exit, 1) == Trail([]);
    } else {
      DownTries(code, x, e, n, q - min, st, exit);
      assert Tried(code, x, p, i, st, exit, 2) == Trail(Down(e, n, q - min));
    }
  }

  /**
   The optimisation keeps the order: both forms of a quantified atom, placed anywhere in any code, try
   the same positions one after the other.
   */
  lemma SameOrder(c: Code, min: nat, max: Bound, code1: Code, p1: nat, code2: Code, p2: nat, x: Input, i: nat, st: seq<int>) returns (es: seq<nat>)
    requires IsAtom(c) && Pos(x, i) && Within(max, min) && max != AtMost(0)
    requires CodeAt(code1, p1, Loops(c, min, max)) && CodeAt(code2, p2, Quantify(c, min, max, false))
    ensures Tries(code1, x, p1, i, st, p1 + |Loops(c, min, max)|, es)
    ensures Tries(code2, x, p2, i, st, p2 + |Quantify(c, min, max, false)|, es)
  {
    hide Tries, Loops, Ends, Line, AllSimple, CharCount;
    es := Ends(c, x, min, max, i);
    LoopsTry(code1, x, p1, c, min, max, i, st);
    var greedy := [SimpleGreedy(|c| + 1, min, max, CharCount(c))];
    assert Quantify(c, min, max, false) == greedy + (c + [Match]);
    SimpleTries(code2, x, p2, c, min, max, i, st);
  }

  // ---- on the machine ----

  /** The positions at which the first n configurations stand at exit. */
  function Visits(code: Code, x: Input, c: Config, n: nat, exit: int): seq<nat>
    decreases n
  {
    if n == 0 then []
    else (if c.Running? && c.pc == exit then [c.i] else []) + Visits(code, x, Step(code, x, c), n - 1, exit)
  }

  /** From c the machine comes to c', standing at exit at the positions es on the way. */
  ghost predicate Runs(code: Code, x: Input, c: Config, c': Config, exit: int, es: seq<nat>) {
    exists n: nat :: StepN(code, x, c, n) == c' && Visits(code, x, c, n, exit) == es
  }

  lemma RunsNowhere(code: Code, x: Input, c: Config, exit: int)
    ensures Runs(code, x, c, c, exit, [])
  {
    assert StepN(code, x, c, 0) == c && Visits(code, x, c, 0, exit) == [];
  }

  lemma RunsStep(code: Code, x: Input, c: Config, c': Config, exit: int, es: seq<nat>)
    requires Runs(code, x, Step(code, x, c), c', exit, es)
    ensures Runs(code, x, c, c', exit, (if c.Running? && c.pc == exit then [c.i] else []) + es)
  {
    hide Step;
    var n: nat :| StepN(code, x, Step(code, x, c), n) == c' && Visits(code, x, Step(code, x, c), n, exit) == es;
    assert StepN(code, x, c, n + 1) == c';
    assert Visits(code, x, c, n + 1, exit) == (if c.Running? && c.pc == exit then [c.i] else []) + es;
  }

  lemma RunsOn(code: Code, x: Input, c: Config, c': Config, exit: int, es: seq<nat>)
    requires Runs(code, x, Step(code, x, c), c', exit, es) && !(c.Running? && c.pc == exit)
    ensures Runs(code, x, c, c', exit, es)
  {
    hide Step, Runs;
    RunsStep(code, x, c, c', exit, es);
    assert [] + es == es;
  }

  lemma {:induction false} VisitsAdd(code: Code, x: Input, c: Config, m: nat, n: nat, exit: int)
    ensures Visits(code, x, c, m + n, exit) == Visits(code, x, c, m, exit) + Visits(code, x, StepN(code, x, c, m), n, exit)
    decreases m
  {
    hide Step;
    if m > 0 {
      VisitsAdd(code, x, Step(code, x, c), m - 1, n, exit);
    }
  }

  lemma RunsTrans(code: Code, x: Input, a: Config, b: Config, c: Config, exit: int, es: seq<nat>, fs: seq<nat>)
    requires Runs(code, x, a, b, exit, es) && Runs(code, x, b, c, exit, fs)
    ensures Runs(code, x, a, c, exit, es + fs)
  {
    hide Step;
    var m: nat :| StepN(code, x, a, m) == b && Visits(code, x, a, m, exit) == es;
    var n: nat :| StepN(code, x, b, n) == c && Visits(code, x, b, n, exit) == fs;
    StepNAdd(code, x, a, m, n);
    VisitsAdd(code, x, a, m, n, exit);
  }

  /** Code that rejects whatever arrives at exit. */
  predicate Rejects(code: Code, exit: int) {
    0 <= exit < |code| && code[exit] == Test(Class([]))
  }

  lemma RejectsNow(code: Code, x: Input, i: nat, st: seq<int>, exit: int, states: seq<Saved>)
    requires Rejects(code, exit) && Pos(x, i)
    ensures Runs(code, x, Running(exit, i, st, states), Unwinding(false, states), exit, [i])
  {
    hide Runs;
    RunsNowhere(code, x, Unwinding(false, states), exit);
    assert Step(code, x, Running(exit, i, st, states)) == Unwinding(false, states);
    RunsStep(code, x, Running(exit, i, st, states), Unwinding(false, states), exit, []);
    assert [i] + [] == [i];
  }

  /** What is tried is what the machine does, whatever is on its stack of saved states. */
  lemma {:induction false} TriedRuns(code: Code, x: Input, pc: int, i: nat, st: seq<int>, exit: int, f: nat, es: seq<nat>, states: seq<Saved>)
    requires Rejects(code, exit) && Tried(code, x, pc, i, st, exit, f) == Trail(es)
    ensures Runs(code, x, Running(pc, i, st, states), Unwinding(false, states), exit, es)
    decreases f, 0
  {
    hide Runs, Accepts, Holds, GreedyRun;
    var c, goal := Running(pc, i, st, states), Unwinding(false, states);
    if pc == exit {
      RejectsNow(code, x, i, st, exit, states);
    } else {
      var next := pc + 1;
      match code[pc] {
      case Test(a) =>
        if i < |x.w| && Accepts(a, x.w[i]) {
          TriedRuns(code, x, next, i + 1, st, exit, f - 1, es, states);
        } else {
          RunsNowhere(code, x, goal, exit);
        }
      case Check(k) =>
        if Holds(k, x, i) {
          TriedRuns(code, x, next, i, st, exit, f - 1, es, states);
        } else {
          RunsNowhere(code, x, goal, exit);
        }
      case Goto(d) => TriedRuns(code, x, next + d, i, st, exit, f - 1, es, states);
      case SplitNextFirst(d) => SplitRuns(code, x, next, next + d, i, st, exit, f - 1, es, states);
      case SplitGotoFirst(d) => SplitRuns(code, x, next + d, next, i, st, exit, f - 1, es, states);
      case PushCount(n) => TriedRuns(code, x, next, i, st + [n], exit, f - 1, es, states);
      case Drop => TriedRuns(code, x, next, i, st[..|st| - 1], exit, f - 1, es, states);
      case Loop(d) =>
        var n := st[|st| - 1] - 1;
        TriedRuns(code, x, if n != 0 then next + d else next, i, st[..|st| - 1] + [n], exit, f - 1, es, states);
      case SimpleGreedy(d, min, max, count) =>
        var (q, e) := GreedyRun(code, x, next, i, max, 0);
        if q < min {
          RunsNowhere(code, x, goal, exit);
        } else {
          DownRuns(code, x, pc, e, q - min, st, exit, f - 1, es, states);
        }
      case _ => assert false;
      }
      RunsOn(code, x, c, goal, exit, es);
    }
  }

  lemma {:induction false} SplitRuns(code: Code, x: Input, p1: int, p2: int, i: nat, st: seq<int>, exit: int, f: nat, es: seq<nat>, states: seq<Saved>)
    requires Rejects(code, exit) && Then2(Tried(code, x, p1, i, st, exit, f), Tried(code, x, p2, i, st, exit, f)) == Trail(es)
    ensures Runs(code, x, Running(p1, i, st, states + [SavedSplit(p2, i, st)]), Unwinding(false, states), exit, es)
    decreases f, 1
  {
    hide Runs;
    var saved := states + [SavedSplit(p2, i, st)];
    assert saved[..|saved| - 1] == states;
    var es1, es2 := Tried(code, x, p1, i, st, exit, f).ends, Tried(code, x, p2, i, st, exit, f).ends;
    TriedRuns(code, x, p1, i, st, exit, f, es1, saved);
    TriedRuns(code, x, p2, i, st, exit, f, es2, states);
    RunsOn(code, x, Unwinding(false, saved), Unwinding(false, states), exit, es2);
    RunsTrans(code, x, Running(p1, i, st, saved), Unwinding(false, saved), Unwinding(false, states), exit, es1, es2);
  }

  lemma {:induction false} DownRuns(code: Code, x: Input, pc: nat, i: nat, left: nat, st: seq<int>, exit: int, f: nat, es: seq<nat>, states: seq<Saved>)
    requires Rejects(code, exit) && pc < |code| && code[pc].SimpleGreedy?
    requires TriedDown(code, x, pc + 1 + code[pc].d, i, code[pc].count, left, st, exit, f) == Trail(es)
    ensures var saved := if left > 0 then states + [SavedGreedy(pc, i, st, left)] else states;
            Runs(code, x, Running(pc + 1 + code[pc].d, i, st, saved), Unwinding(false, states), exit, es)
    decreases f, left + 1
  {
    hide Runs;
    var p1 := pc + 1 + code[pc].d;
    var saved := if left > 0 then states + [SavedGreedy(pc, i, st, left)] else states;
    var es1 := Tried(code, x, p1, i, st, exit, f).ends;
    TriedRuns(code, x, p1, i, st, exit, f, es1, saved);
    if left > 0 {
      assert saved[..|saved| - 1] == states;
      var count := code[pc].count;
      var es2 := TriedDown(code, x, p1, i - count, count, left - 1, st, exit, f).ends;
      DownRuns(code, x, pc, i - count, left - 1, st, exit, f, es2, states);
      RunsOn(code, x, Unwinding(false, saved), Unwinding(false, states), exit, es2);
      RunsTrans(code, x, Running(p1, i, st, saved), Unwinding(false, saved), Unwinding(false, states), exit, es1, es2);
    }
  }

  /** On the machine: with every end rejected, both forms visit the same ends in the same order and then fail. */
  lemma SameVisits(c: Code, min: nat, max: Bound, code1: Code, p1: nat, code2: Code, p2: nat, x: Input, i: nat, st: seq<int>, states: seq<Saved>)
    returns (es: seq<nat>)
    requires IsAtom(c) && Pos(x, i) && Within(max, min) && max != AtMost(0)
    requires CodeAt(code1, p1, Loops(c, min, max)) && Rejects(code1, p1 + |Loops(c, min, max)|)
    requires CodeAt(code2, p2, Quantify(c, min, max, false)) && Rejects(code2, p2 + |Quantify(c, min, max, false)|)
    ensures Runs(code1, x, Running(p1, i, st, states), Unwinding(false, states), p1 + |Loops(c, min, max)|, es)
    ensures Runs(code2, x, Running(p2, i, st, states), Unwinding(false, states), p2 + |Quantify(c, min, max, false)|, es)
  {
    hide Runs, Tried, Loops, Quantify, IsAtom;
    es := SameOrder(c, min, max, code1, p1, code2, p2, x, i, st);
    var exit1, exit2 := p1 + |Loops(c, min, max)|, p2 + |Quantify(c, min, max, false)|;
    var f1: nat :| Tried(code1, x, p1, i, st, exit1, f1) == Trail(es);
    var f2: nat :| Tried(code2, x, p2, i, st, exit2, f2) == Trail(es);
    TriedRuns(code1, x, p1, i, st, exit1, f1, es, states);
    TriedRuns(code2, x, p2, i, st, exit2, f2, es, states);
  }
}
