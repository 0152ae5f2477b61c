/**
 The backtracking machine of qjs/libregexp.c (lre_exec_backtrack): one thread, a stack of
 counters and character positions, and a stack of saved states to return to.
 */
module RegexpMachine {
  import opened RegexpSyntax
  import opened RegexpCode

  /** REExecState: split points, lookahead markers and greedy-quantifier records. */
  datatype Saved =
    | SavedSplit(pc: int, i: nat, st: seq<int>)
    | SavedLook(negative: bool, pc: int, i: nat, st: seq<int>)
    | SavedGreedy(pc: int, i: nat, st: seq<int>, left: nat)

  /** Running code, unwinding with a result, finished, or in a situation valid code never reaches. */
  datatype Config =
    | Running(pc: int, i: nat, st: seq<int>, states: seq<Saved>)
    | Unwinding(ret: bool, states: seq<Saved>)
    | Done(ret: bool)
    | Stuck

  datatype Option = None | Some(pos: nat)

  /** lre_exec_backtrack with no_recurse: a simple atom either fails or ends at its match. */
  function RunSimple(code: Code, x: Input, pc: nat, i: nat): Option
    decreases |code| - pc
  {
    if pc >= |code| || !Pos(x, i) then None
    else
      match code[pc]
      case Match => Some(i)
      case Test(a) => if i < |x.w| && Accepts(a, x.w[i]) then RunSimple(code, x, pc + 1, i + 1) else None
      case Check(k) => if Holds(k, x, i) then RunSimple(code, x, pc + 1, i) else None
      case _ => None
  }

  /** The loop of simple_greedy_quant: how often the atom matches in a row, and where that ends. */
  function GreedyRun(code: Code, x: Input, pc: nat, i: nat, max: Bound, q: nat): (nat, nat)
    decreases |x.w| - i
  {
    if max.AtMost? && q >= max.n then (q, i)
    else
      match RunSimple(code, x, pc, i)
      case None => (q, i)
      case Some(e) => if i < e <= |x.w| then GreedyRun(code, x, pc, e, max, q + 1) else (q, i)
  }

  function Fail(states: seq<Saved>): Config {
    Unwinding(false, states)
  }

  /** One instruction, or one saved state taken off the stack. */
  function Step(code: Code, x: Input, c: Config): Config {
    match c
    case Done(_) => c
    case Stuck => c
    case Unwinding(ret, states) =>
      if states == [] then Done(ret)
      else
        var top, rest := states[|states| - 1], states[..|states| - 1];
        (match top
         case SavedSplit(pc, i, st) => if ret then Unwinding(true, rest) else Running(pc, i, st, rest)
         case SavedLook(negative, pc, i, st) => if ret != negative then Running(pc, i, st, rest) else Fail(rest)
         case SavedGreedy(pc, i, st, left) => if ret then Unwinding(true, rest) else Retry(code, top, rest))
    case Running(pc, i, st, states) =>
      if !(0 <= pc < |code|) || !Pos(x, i) then Stuck else Execute(code, x, pc, i, st, states)
  }

  /** Giving back one iteration of a simple greedy quantifier. */
  function Retry(code: Code, g: Saved, rest: seq<Saved>): Config
    requires g.SavedGreedy?
  {
    if !(0 <= g.pc < |code|) || !code[g.pc].SimpleGreedy? || g.i < code[g.pc].count || g.left == 0 then Stuck
    else
      var ins := code[g.pc];
      var i := g.i - ins.count;
      Running(g.pc + 1 + ins.d, i, g.st, if g.left == 1 then rest else rest + [SavedGreedy(g.pc, i, g.st, g.left - 1)])
  }

  function Execute(code: Code, x: Input, pc: nat, i: nat, st: seq<int>, states: seq<Saved>): Config
    requires pc < |code| && Pos(x, i)
  {
    var next := pc + 1;
    match code[pc]
    case Match => Unwinding(true, states)
    case Test(a) => if i < |x.w| && Accepts(a, x.w[i]) then Running(next, i + 1, st, states) else Fail(states)
    case Check(k) => if Holds(k, x, i) then Running(next, i, st, states) else Fail(states)
    case Prev => if i == 0 then Fail(states) else Running(next, i - 1, st, states)
    case Goto(d) => Running(next + d, i, st, states)
    case SplitNextFirst(d) => Running(next, i, st, states + [SavedSplit(next + d, i, st)])
    case SplitGotoFirst(d) => Running(next + d, i, st, states + [SavedSplit(next, i, st)])
    case Lookahead(d) => Running(next, i, st, states + [SavedLook(false, next + d, i, st)])
    case NegativeLookahead(d) => Running(next, i, st, states + [SavedLook(true, next + d, i, st)])
    case PushCount(n) => Running(next, i, st + [n], states)
    case PushPos => Running(next, i, st + [i], states)
    case Drop => if st == [] then Stuck else Running(next, i, st[..|st| - 1], states)
    case Loop(d) =>
      if st == [] then Stuck
      else
        var n := st[|st| - 1] - 1;
        Running(if n != 0 then next + d else next, i, st[..|st| - 1] + [n], states)
    case BneCharPos(d) =>
      if st == [] then Stuck
      else Running(if st[|st| - 1] != i then next + d else next, i, st[..|st| - 1], states)
    case SimpleGreedy(d, min, max, count) =>
      var (q, e) := GreedyRun(code, x, next, i, max, 0);
      if q < min then Fail(states)
      else Running(next + d, e, st, if q > min then states + [SavedGreedy(pc, e, st, q - min)] else states)
    case _ => Running(next, i, st, states)
  }

  function StepN(code: Code, x: Input, c: Config, n: nat): Config
    decreases n
  {
    if n == 0 then c else StepN(code, x, Step(code, x, c), n - 1)
  }

  ghost predicate Reaches(code: Code, x: Input, c: Config, c': Config) {
    exists n: nat :: StepN(code, x, c, n) == c'
  }

  lemma {:induction false} StepNAdd(code: Code, x: Input, c: Config, m: nat, n: nat)
    ensures StepN(code, x, StepN(code, x, c, m), n) == StepN(code, x, c, m + n)
    decreases m
  {
    if m > 0 {
      StepNAdd(code, x, Step(code, x, c), m - 1, n);
    }
  }

  lemma ReachRefl(code: Code, x: Input, c: Config)
    ensures Reaches(code, x, c, c)
  {
    assert StepN(code, x, c, 0) == c;
  }

  lemma ReachStep(code: Code, x: Input, c: Config, c': Config)
    requires Reaches(code, x, Step(code, x, c), c')
    ensures Reaches(code, x, c, c')
  {
    hide Step;
    var n: nat :| StepN(code, x, Step(code, x, c), n) == c';
    assert StepN(code, x, c, n + 1) == c';
  }

  lemma ReachTrans(code: Code, x: Input, a: Config, b: Config, c: Config)
    requires Reaches(code, x, a, b) && Reaches(code, x, b, c)
    ensures Reaches(code, x, a, c)
  {
    hide Step;
    var m: nat :| StepN(code, x, a, m) == b;
    var n: nat :| StepN(code, x, b, n) == c;
    StepNAdd(code, x, a, m, n);
  }

  // ---- the same search without an explicit stack ----

  datatype Answer = NoFuel | Wrong | Ans(b: bool)

  /** Try a first, and b only when a fails. */
  function Orelse(a: Answer, b: Answer): Answer {
    if a == Ans(false) then b else a
  }

  /** Whether the thread at pc, or one it can fall back to, reaches Match. */
  function Eval(code: Code, x: Input, pc: int, i: nat, st: seq<int>, f: nat): Answer
    decreases f, 0
  {
    if f == 0 then NoFuel
    else if !(0 <= pc < |code|) || !Pos(x, i) then Wrong
    else
      var next := pc + 1;
      match code[pc]
      case Match => Ans(true)
      case Test(a) => if i < |x.w| && Accepts(a, x.w[i]) then Eval(code, x, next, i + 1, st, f - 1) else Ans(false)
      case Check(k) => if Holds(k, x, i) then Eval(code, x, next, i, st, f - 1) else Ans(false)
      case Prev => if i == 0 then Ans(false) else Eval(code, x, next, i - 1, st, f - 1)
      case Goto(d) => Eval(code, x, next + d, i, st, f - 1)
      case SplitNextFirst(d) => Orelse(Eval(code, x, next, i, st, f - 1), Eval(code, x, next + d, i, st, f - 1))
      case SplitGotoFirst(d) => Orelse(Eval(code, x, next + d, i, st, f - 1), Eval(code, x, next, i, st, f - 1))
      case Lookahead(d) =>
        var a := Eval(code, x, next, i, st, f - 1);
        if a == Ans(true) then Eval(code, x, next + d, i, st, f - 1) else a
      case NegativeLookahead(d) =>
        var a := Eval(code, x, next, i, st, f - 1);
        if a == Ans(false) then Eval(code, x, next + d, i, st, f - 1)
        else if a == Ans(true) then Ans(false) else a
      case PushCount(n) => Eval(code, x, next, i, st + [n], f - 1)
      case PushPos => Eval(code, x, next, i, st + [i], f - 1)
      case Drop => if st == [] then Wrong else Eval(code, x, next, i, st[..|st| - 1], f - 1)
      case Loop(d) =>
        if st == [] then Wrong
        else
          var n := st[|st| - 1] - 1;
          Eval(code, x, if n != 0 then next + d else next, i, st[..|st| - 1] + [n], f - 1)
      case BneCharPos(d) =>
        if st == [] then Wrong
        else Eval(code, x, if st[|st| - 1] != i then next + d else next, i, st[..|st| - 1], f - 1)
      case SimpleGreedy(d, min, max, count) =>
        var (q, e) := GreedyRun(code, x, next, i, max, 0);
        if q < min then Ans(false) else EvalDown(code, x, next + d, e, count, q - min, st, f - 1)
      case _ => Eval(code, x, next, i, st, f - 1)
  }

  /** The ends of a simple greedy quantifier, longest first. */
  function EvalDown(code: Code, x: Input, pc: int, i: nat, count: nat, left: nat, st: seq<int>, f: nat): Answer
    decreases f, left + 1
  {
    var a := Eval(code, x, pc, i, st, f);
    if left == 0 then a
    else if i < count then (if a == Ans(true) then a else if a == NoFuel then a else Wrong)
    else Orelse(a, EvalDown(code, x, pc, i - count, count, left - 1, st, f))
  }

  /** The machine computes what the search computes, whatever is on its stack of saved states. */
  lemma {:induction false} Simulates(code: Code, x: Input, pc: int, i: nat, st: seq<int>, f: nat, b: bool, states: seq<Saved>)
    requires Eval(code, x, pc, i, st, f) == Ans(b)
    ensures Reaches(code, x, Running(pc, i, st, states), Unwinding(b, states))
    decreases f, 3
  {
    var c, goal := Running(pc, i, st, states), Unwinding(b, states);
    var next := pc + 1;
    hide Reaches, Accepts, Holds, GreedyRun;
    assert f > 0 && 0 <= pc < |code|;
    match code[pc] {
    case Match => ReachRefl(code, x, goal);
    case Test(_) => SimulatesTest(code, x, pc, i, st, f, b, states);
    case Check(_) => SimulatesTest(code, x, pc, i, st, f, b, states);
    case Prev => SimulatesTest(code, x, pc, i, st, f, b, states);
    case Goto(d) => Simulates(code, x, next + d, i, st, f - 1, b, states);
    case SplitNextFirst(d) => SimulatesSplit(code, x, next, next + d, i, st, f - 1, b, states);
    case SplitGotoFirst(d) => SimulatesSplit(code, x, next + d, next, i, st, f - 1, b, states);
    case Lookahead(d) => SimulatesLook(code, x, false, next, next + d, i, st, f - 1, b, states);
    case NegativeLookahead(d) => SimulatesLook(code, x, true, next, next + d, i, st, f - 1, b, states);
    case PushCount(n) => Simulates(code, x, next, i, st + [n], f - 1, b, states);
    case PushPos => Simulates(code, x, next, i, st + [i], f - 1, b, states);
    case Drop => SimulatesStack(code, x, pc, i, st, f, b, states);
    case Loop(_) => SimulatesStack(code, x, pc, i, st, f, b, states);
    case BneCharPos(_) => SimulatesStack(code, x, pc, i, st, f, b, states);
    case SimpleGreedy(d, min, max, count) =>
      var (q, e) := GreedyRun(code, x, next, i, max, 0);
      if q < min {
        ReachRefl(code, x, goal);
      } else {
        SimulatesDown(code, x, pc, e, q - min, st, f - 1, b, states);
      }
    case _ => Simulates(code, x, next, i, st, f - 1, b, states);
    }
    ReachStep(code, x, c, goal);
  }

  /** The instructions that look at the text. */
  lemma {:induction false} SimulatesTest(code: Code, x: Input, pc: int, i: nat, st: seq<int>, f: nat, b: bool, states: seq<Saved>)
    requires Eval(code, x, pc, i, st, f) == Ans(b) && f > 0 && 0 <= pc < |code|
    requires code[pc].Test? || code[pc].Check? || code[pc].Prev?
    ensures Reaches(code, x, Step(code, x, Running(pc, i, st, states)), Unwinding(b, states))
    decreases f, 2
  {
    hide Reaches, Accepts, Holds, GreedyRun;
    ReachRefl(code, x, Unwinding(false, states));
    match code[pc] {
    case Test(a) =>
      if i < |x.w| && Accepts(a, x.w[i]) {
        Simulates(code, x, pc + 1, i + 1, st, f - 1, b, states);
      }
    case Check(k) =>
      if Holds(k, x, i) {
        Simulates(code, x, pc + 1, i, st, f - 1, b, states);
      }
    case Prev =>
      if i > 0 {
        Simulates(code, x, pc + 1, i - 1, st, f - 1, b, states);
      }
    }
  }

  /** The instructions that look at the counters. */
  lemma {:induction false} SimulatesStack(code: Code, x: Input, pc: int, i: nat, st: seq<int>, f: nat, b: bool, states: seq<Saved>)
    requires Eval(code, x, pc, i, st, f) == Ans(b) && f > 0 && 0 <= pc < |code|
    requires code[pc].Drop? || code[pc].Loop? || code[pc].BneCharPos?
    ensures Reaches(code, x, Step(code, x, Running(pc, i, st, states)), Unwinding(b, states))
    decreases f, 2
  {
    hide Reaches, Accepts, Holds, GreedyRun;
    var next, rest := pc + 1, st[..|st| - 1];
    match code[pc] {
    case Drop => Simulates(code, x, next, i, rest, f - 1, b, states);
    case Loop(d) =>
      var n := st[|st| - 1] - 1;
      Simulates(code, x, if n != 0 then next + d else next, i, rest + [n], f - 1, b, states);
    case BneCharPos(d) =>
      Simulates(code, x, if st[|st| - 1] != i then next + d else next, i, rest, f - 1, b, states);
    }
  }

  /** Reaching a saved state, taking it off and going on. */
  lemma ReachVia(code: Code, x: Input, a: Config, b: Config, c: Config)
    requires Reaches(code, x, a, b) && Reaches(code, x, Step(code, x, b), c)
    ensures Reaches(code, x, a, c)
  {
    hide Reaches, Step;
    ReachStep(code, x, b, c);
    ReachTrans(code, x, a, b, c);
  }

  lemma {:induction false} SimulatesSplit(code: Code, x: Input, p1: int, p2: int, i: nat, st: seq<int>, f: nat, b: bool, states: seq<Saved>)
    requires Orelse(Eval(code, x, p1, i, st, f), Eval(code, x, p2, i, st, f)) == Ans(b)
    ensures Reaches(code, x, Running(p1, i, st, states + [SavedSplit(p2, i, st)]), Unwinding(b, states))
    decreases f, 4
  {
    hide Reaches, Eval, Execute;
    var saved := states + [SavedSplit(p2, i, st)];
    assert saved[..|saved| - 1] == states;
    var b1 := Eval(code, x, p1, i, st, f).b;
    Simulates(code, x, p1, i, st, f, b1, saved);
    if b1 {
      ReachRefl(code, x, Unwinding(true, states));
    } else {
      Simulates(code, x, p2, i, st, f, b, states);
    }
    ReachVia(code, x, Running(p1, i, st, saved), Unwinding(b1, saved), Unwinding(b, states));
  }

  lemma {:induction false} SimulatesLook(code: Code, x: Input, negative: bool, p1: int, p2: int, i: nat, st: seq<int>, f: nat, b: bool, states: seq<Saved>)
    requires Eval(code, x, p1, i, st, f).Ans?
    requires if Eval(code, x, p1, i, st, f).b != negative then Eval(code, x, p2, i, st, f) == Ans(b) else !b
    ensures Reaches(code, x, Running(p1, i, st, states + [SavedLook(negative, p2, i, st)]), Unwinding(b, states))
    decreases f, 4
  {
    hide Reaches, Eval, Execute;
    var saved := states + [SavedLook(negative, p2, i, st)];
    assert saved[..|saved| - 1] == states;
    var b1 := Eval(code, x, p1, i, st, f).b;
    Simulates(code, x, p1, i, st, f, b1, saved);
    if b1 != negative {
      Simulates(code, x, p2, i, st, f, b, states);
    } else {
      ReachRefl(code, x, Unwinding(false, states));
    }
    ReachVia(code, x, Running(p1, i, st, saved), Unwinding(b1, saved), Unwinding(b, states));
  }

  lemma {:induction false} SimulatesDown(code: Code, x: Input, pc: nat, i: nat, left: nat, st: seq<int>, f: nat, b: bool, states: seq<Saved>)
    requires pc < |code| && code[pc].SimpleGreedy?
    requires EvalDown(code, x, pc + 1 + code[pc].d, i, code[pc].count, left, st, f) == Ans(b)
    ensures var saved := if left > 0 then states + [SavedGreedy(pc, i, st, left)] else states;
            Reaches(code, x, Running(pc + 1 + code[pc].d, i, st, saved), Unwinding(b, states))
    decreases f, left + 4
  {
    hide Reaches, Eval, Execute;
    var p1 := pc + 1 + code[pc].d;
    var saved := if left > 0 then states + [SavedGreedy(pc, i, st, left)] else states;
    var b1 := Eval(code, x, p1, i, st, f).b;
    Simulates(code, x, p1, i, st, f, b1, saved);
    if left > 0 {
      assert saved[..|saved| - 1] == states;
      if b1 {
        ReachRefl(code, x, Unwinding(true, states));
      } else {
        SimulatesDown(code, x, pc, i - code[pc].count, left - 1, st, f, b, states);
      }
      ReachVia(code, x, Running(p1, i, st, saved), Unwinding(b1, saved), Unwinding(b, states));
    }
  }

  // ---- fuel ----

  /** More fuel does not change an answer. */
  lemma {:induction false} MoreFuel(code: Code, x: Input, pc: int, i: nat, st: seq<int>, f: nat, g: nat)
    requires f <= g && Eval(code, x, pc, i, st, f).Ans?
    ensures Eval(code, x, pc, i, st, g) == Eval(code, x, pc, i, st, f)
    decreases f, 1
  {
    hide Accepts, Holds, GreedyRun;
    var next := pc + 1;
    match code[pc]
    case Match =>
    case Test(a) =>
      if i < |x.w| && Accepts(a, x.w[i]) {
        MoreFuel(code, x, next, i + 1, st, f - 1, g - 1);
      }
    case Check(k) =>
      if Holds(k, x, i) {
        MoreFuel(code, x, next, i, st, f - 1, g - 1);
      }
    case Prev =>
      if i > 0 {
        MoreFuel(code, x, next, i - 1, st, f - 1, g - 1);
      }
    case Goto(d) => MoreFuel(code, x, next + d, i, st, f - 1, g - 1);
    case SplitNextFirst(d) => MoreFuelTwo(code, x, next, next + d, i, st, f - 1, g - 1);
    case SplitGotoFirst(d) => MoreFuelTwo(code, x, next + d, next, i, st, f - 1, g - 1);
    case Lookahead(d) => MoreFuelTwo(code, x, next, next + d, i, st, f - 1, g - 1);
    case NegativeLookahead(d) => MoreFuelTwo(code, x, next, next + d, i, st, f - 1, g - 1);
    case PushCount(n) => MoreFuelStack(code, x, pc, i, st, f, g);
    case PushPos => MoreFuelStack(code, x, pc, i, st, f, g);
    case Drop => MoreFuelStack(code, x, pc, i, st, f, g);
    case Loop(d) => MoreFuelStack(code, x, pc, i, st, f, g);
    case BneCharPos(d) => MoreFuelStack(code, x, pc, i, st, f, g);
    case SimpleGreedy(d, min, max, count) =>
      var (q, e) := GreedyRun(code, x, next, i, max, 0);
      if q >= min {
        MoreFuelDown(code, x, next + d, e, count, q - min, st, f - 1, g - 1);
      }
    case _ => MoreFuel(code, x, next, i, st, f - 1, g - 1);
  }

  lemma {:induction false} MoreFuelStack(code: Code, x: Input, pc: int, i: nat, st: seq<int>, f: nat, g: nat)
    requires f <= g && Eval(code, x, pc, i, st, f).Ans?
    requires code[pc].PushCount? || code[pc].PushPos? || code[pc].Drop? || code[pc].Loop? || code[pc].BneCharPos?
    ensures Eval(code, x, pc, i, st, g) == Eval(code, x, pc, i, st, f)
    decreases f, 0
  {
    hide Accepts, Holds, GreedyRun;
    var next := pc + 1;
    match code[pc]
    case PushCount(n) => MoreFuel(code, x, next, i, st + [n], f - 1, g - 1);
    case PushPos => MoreFuel(code, x, next, i, st + [i], f - 1, g - 1);
    case Drop => MoreFuel(code, x, next, i, st[..|st| - 1], f - 1, g - 1);
    case Loop(d) =>
      var n := st[|st| - 1] - 1;
      MoreFuel(code, x, if n != 0 then next + d else next, i, st[..|st| - 1] + [n], f - 1, g - 1);
    case BneCharPos(d) => MoreFuel(code, x, if st[|st| - 1] != i then next + d else next, i, st[..|st| - 1], f - 1, g - 1);
  }

  lemma {:induction false} MoreFuelTwo(code: Code, x: Input, p1: int, p2: int, i: nat, st: seq<int>, f: nat, g: nat)
    requires f <= g
    ensures Eval(code, x, p1, i, st, f).Ans? ==> Eval(code, x, p1, i, st, g) == Eval(code, x, p1, i, st, f)
    ensures Eval(code, x, p2, i, st, f).Ans? ==> Eval(code, x, p2, i, st, g) == Eval(code, x, p2, i, st, f)
    decreases f, 2
  {
    if Eval(code, x, p1, i, st, f).Ans? {
      MoreFuel(code, x, p1, i, st, f, g);
    }
    if Eval(code, x, p2, i, st, f).Ans? {
      MoreFuel(code, x, p2, i, st, f, g);
    }
  }

  lemma {:induction false} MoreFuelDown(code: Code, x: Input, pc: int, i: nat, count: nat, left: nat, st: seq<int>, f: nat, g: nat)
    requires f <= g && EvalDown(code, x, pc, i, count, left, st, f).Ans?
    ensures EvalDown(code, x, pc, i, count, left, st, g) == EvalDown(code, x, pc, i, count, left, st, f)
    decreases f, left + 2
  {
    MoreFuel(code, x, pc, i, st, f, g);
    if left > 0 && i >= count && Eval(code, x, pc, i, st, f) == Ans(false) {
      MoreFuelDown(code, x, pc, i - count, count, left - 1, st, f, g);
    }
  }

  /** The search from pc answers b, with enough fuel. */
  ghost predicate Answers(code: Code, x: Input, pc: int, i: nat, st: seq<int>, b: bool) {
    exists f: nat :: Eval(code, x, pc, i, st, f) == Ans(b)
  }
}
