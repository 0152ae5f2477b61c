/**
 Running a compiled pattern (lre_exec): the loop of lre_exec_backtrack with its stack in a
 buffer of the computed size, proved to decide whether the pattern matches.
 */
module RegexpExec {
  import opened RegexpSyntax
  import opened RegexpCode
  import opened RegexpMachine
  import opened RegexpCorrect
  import opened RegexpStack
  import opened RegexpClasses
  import RegexpAssertions
  import RegexpEmit

  // ---- whole programs ----

  /** The pattern matches at the starting position, or, unless sticky, at some later one. */
  ghost predicate Found(re: Re, sticky: bool, x: Input, i: nat) {
    exists start: nat, end: nat :: i <= start && (sticky ==> start == i) && Matches(re, false, x, start, end)
  }

  lemma FoundHere(re: Re, x: Input, i: nat)
    ensures Found(re, true, x, i) <==> Finds(re, false, x, i)
  {
    hide Matches;
    if e: nat :| Matches(re, false, x, i, e) {
      assert Found(re, true, x, i);
    }
  }

  lemma FoundLater(re: Re, x: Input, i: nat)
    requires Pos(x, i)
    ensures Found(re, false, x, i) <==> Finds(re, false, x, i) || (i < |x.w| && Found(re, false, x, i + 1))
  {
    hide Matches;
    if start: nat, end: nat :| i <= start && Matches(re, false, x, start, end) {
      MatchesAhead(re, false, x, start, end);
      if start > i {
        assert Found(re, false, x, i + 1);
      }
    }
    if e: nat :| Matches(re, false, x, i, e) {
      assert Found(re, false, x, i);
    }
    if i < |x.w| && Found(re, false, x, i + 1) {
      var start: nat, end: nat :| i + 1 <= start && Matches(re, false, x, start, end);
      assert Found(re, false, x, i);
    }
  }

  /** The pattern between its two outer saves. */
  lemma BodyAnswers(re: Re, code: Code, x: Input, p: nat, i: nat)
    requires WellFormed(re) && Pos(x, i) && CodeAt(code, p, [SaveStart] + (Compile(re, false) + [SaveEnd, Match]))
    ensures Answers(code, x, p, i, [], Finds(re, false, x, i))
  {
    hide Compile, Matches, Answers, CodeAt, Hits;
    var c, end := Compile(re, false), [SaveEnd, Match];
    CodeAtConcat(code, p, [SaveStart], c + end);
    CodeAtIndex(code, p, [SaveStart], 0);
    CodeAtConcat(code, p + 1, c, end);
    CodeAtIndex(code, p + 1 + |c|, end, 0);
    CodeAtIndex(code, p + 1 + |c|, end, 1);
    var all := Everywhere(x);
    forall e: nat | Matches(re, false, x, i, e)
      ensures Answers(code, x, p + 1 + |c|, e, [], e in all)
    {
      MatchesAhead(re, false, x, i, e);
      Stops(code, x, p + 1 + |c| + 1, e, [], true);
      Forward(code, x, p + 1 + |c|, e, [], p + 1 + |c| + 1, e, [], true);
    }
    Fragment(re, false, code, x, p + 1, i, [], all);
    HitsEverywhere(re, false, x, i);
    Forward(code, x, p, i, [], p + 1, i, [], Finds(re, false, x, i));
  }

  lemma {:induction false} ProgramAnswers(re: Re, sticky: bool, x: Input, i: nat)
    requires WellFormed(re) && Pos(x, i)
    ensures Answers(Program(re, sticky), x, 0, i, [], Found(re, sticky, x, i))
    decreases |x.w| - i
  {
    hide Compile, Matches, Answers, CodeAt, Finds, Found;
    var code := Program(re, sticky);
    var body := [SaveStart] + (Compile(re, false) + [SaveEnd, Match]);
    var prefix := if sticky then [] else [SplitGotoFirst(2), Test(AnyChar), Goto(-3)];
    assert code == prefix + body;
    WholeCode(prefix, body);
    BodyAnswers(re, code, x, |prefix|, i);
    if sticky {
      FoundHere(re, x, i);
    } else {
      assert code[0] == SplitGotoFirst(2) && code[1] == Test(AnyChar) && code[2] == Goto(-3);
      FoundLater(re, x, i);
      var later := i < |x.w| && Found(re, false, x, i + 1);
      if i < |x.w| {
        ProgramAnswers(re, sticky, x, i + 1);
        Forward(code, x, 2, i + 1, [], 0, i + 1, [], later);
        Forward(code, x, 1, i, [], 2, i + 1, [], later);
      } else {
        Stops(code, x, 1, i, [], false);
      }
      Splits(code, x, 0, i, [], later, Finds(re, false, x, i));
    }
  }

  lemma WholeCode(prefix: Code, body: Code)
    ensures CodeAt(prefix + body, |prefix|, body)
  {
  }

  function Start(i: nat): Config {
    Running(0, i, [], [])
  }

  /** On every input the machine comes to rest, with the answer the semantics gives. */
  lemma ExecDecides(re: Re, sticky: bool, x: Input, i: nat) returns (n: nat)
    requires WellFormed(re) && Pos(x, i)
    ensures StepN(Program(re, sticky), x, Start(i), n) == Done(Found(re, sticky, x, i))
  {
    hide Program, Found, Eval, Step;
    var code, b := Program(re, sticky), Found(re, sticky, x, i);
    ProgramAnswers(re, sticky, x, i);
    var f: nat :| Eval(code, x, 0, i, [], f) == Ans(b);
    Simulates(code, x, 0, i, [], f, b, []);
    assert Step(code, x, Unwinding(b, [])) == Done(b) by {
      LastUnwind(code, x, b);
    }
    ReachRefl(code, x, Done(b));
    ReachStep(code, x, Unwinding(b, []), Done(b));
    ReachTrans(code, x, Start(i), Unwinding(b, []), Done(b));
    n :| StepN(code, x, Start(i), n) == Done(b);
  }

  lemma LastUnwind(code: Code, x: Input, b: bool)
    ensures Step(code, x, Unwinding(b, [])) == Done(b)
  {
  }

  /** The stack of every reachable state fits in the size stored with the program. */
  lemma StackFits(re: Re, sticky: bool, x: Input, i: nat, n: nat)
    requires Pos(x, i)
    ensures var c := StepN(Program(re, sticky), x, Start(i), n);
            && !c.Stuck?
            && (c.Running? ==> 0 <= c.pc < |Program(re, sticky)| && |c.st| == Depth(Program(re, sticky), c.pc))
  {
    hide Program, StepN, Closed;
    var p := Program(re, sticky);
    ProgramClosed(re, sticky);
    StartInv(p, x, i);
    RunKeeps(p, x, Start(i), n);
  }

  lemma StartInv(p: Code, x: Input, i: nat)
    requires Closed(p) && Pos(x, i)
    ensures StackInv(p, x, Start(i))
  {
  }

  // ---- the loop ----

  /** lre_exec_backtrack with no_recurse on a simple atom. */
  method RunAtom(code: Code, x: Input, pc0: nat, i0: nat) returns (r: Option)
    requires Pos(x, i0) && TestsOk(code) && PlainInput(x)
    ensures r == RunSimple(code, x, pc0, i0)
  {
    hide Accepts, Holds, AtomOk;
    var pc, i := pc0, i0;
    while pc < |code|
      invariant Pos(x, i) && RunSimple(code, x, pc0, i0) == RunSimple(code, x, pc, i)
      decreases |code| - pc
    {
      match code[pc] {
        case Match => return Some(i);
        case Test(a) =>
          if i == |x.w| {
            return None;
          }
          var ok := AcceptsChar(a, x.w[i]);
          if !ok {
            return None;
          }
          i := i + 1;
        case Check(k) =>
          var holds := RegexpAssertions.TestAssertion(k, x, i);
          if !holds {
            return None;
          }
        case _ => return None;
      }
      pc := pc + 1;
    }
    r := None;
  }

  /** The counting loop of simple_greedy_quant; the test for the bound comes after the first copy. */
  method CountCopies(p: Code, x: Input, pc: nat, i0: nat) returns (q: nat, i: nat)
    requires pc < |p| && p[pc].SimpleGreedy? && AtomFollows(p, pc) && Pos(x, i0) && TestsOk(p) && PlainInput(x)
    ensures (q, i) == GreedyRun(p, x, pc + 1, i0, p[pc].max, 0)
  {
    hide RunSimple, AllSimple, CharCount, TestsOk, PlainInput;
    var max := p[pc].max;
    q, i := 0, i0;
    while true
      invariant Pos(x, i) && !(max.AtMost? && q >= max.n)
      invariant GreedyRun(p, x, pc + 1, i0, max, 0) == GreedyRun(p, x, pc + 1, i, max, q)
      decreases |x.w| - i
    {
      var r := RunAtom(p, x, pc + 1, i);
      if r.None? {
        break;
      }
      SimpleAdvance(p, x, pc + 1, pc + p[pc].d, i);
      i := r.pos;
      q := q + 1;
      if max.AtMost? && q >= max.n {
        break;
      }
    }
  }

  /** REExecContext and the locals of lre_exec_backtrack. */
  class Machine {
    const code: Code
    const x: Input
    const stack: array<int>
    var len: nat
    var pc: int
    var i: nat
    var states: seq<Saved>

    constructor (code: Code, x: Input, size: nat, i: nat)
      ensures this.code == code && this.x == x && fresh(stack) && stack.Length == size
      ensures len == 0 && pc == 0 && this.i == i && states == []
    {
      this.code, this.x := code, x;
      stack := new int[size];
      len, pc, this.i, states := 0, 0, i, [];
    }

    ghost predicate Valid()
      reads this, stack
    {
      && len <= stack.Length && Closed(code) && TestsOk(code) && PlainInput(x)
      && forall k :: 0 <= k <= |code| ==> Depth(code, k) <= stack.Length
    }

    /** The state as a running configuration. */
    ghost function Now(): Config
      reads this, stack
      requires len <= stack.Length
    {
      Running(pc, i, stack[..len], states)
    }

    /** Restoring the stack of a saved state. */
    method Restore(s: Saved)
      requires Valid() && |s.st| <= stack.Length
      modifies this`pc, this`i, this`len, stack
      ensures Valid() && pc == s.pc && i == s.i && stack[..len] == s.st
    {
      hide Closed, TestsOk, PlainInput;
      for k := 0 to |s.st|
        invariant stack[..k] == s.st[..k]
      {
        stack[k] := s.st[k];
      }
      pc, i, len := s.pc, s.i, |s.st|;
    }

    /** The inner loop at `recurse`: saved states are taken off until one can be resumed. */
    method Unwind(result: bool) returns (resumed: bool, ret: bool)
      requires Valid() && AllOk(code, x, states)
      modifies this, stack
      ensures Valid()
      ensures resumed ==> Now() == Resume(code, x, old(states), result) && StackInv(code, x, Now())
      ensures !resumed ==> Resume(code, x, old(states), result) == Done(ret)
    {
      hide Closed, Depth, TestsOk, PlainInput;
      ret := result;
      while states != []
        invariant Valid() && AllOk(code, x, states)
        invariant Resume(code, x, states, ret) == Resume(code, x, old(states), result)
        decreases |states|
      {
        var rs, rest := states[|states| - 1], states[..|states| - 1];
        assert SavedOk(code, x, rs);
        StepKeeps(code, x, Unwinding(ret, states));
        Fits(code, x, rs, stack.Length);
        match rs {
          case SavedSplit(_, _, _) =>
            if !ret {
              Restore(rs);
              states := rest;
              return true, ret;
            }
          case SavedGreedy(p, _, _, left) =>
            if !ret {
              var ins := code[p];
              Restore(rs);
              i := i - ins.count;
              pc := p + 1 + ins.d;
              states := if left == 1 then rest else rest + [SavedGreedy(p, i, rs.st, left - 1)];
              return true, ret;
            }
          case SavedLook(negative, _, _, _) =>
            ret := ret != negative;
            if ret {
              Restore(rs);
              states := rest;
              return true, ret;
            }
        }
        states := rest;
      }
      return false, ret;
    }

    method Push(v: int)
      requires Valid() && len < stack.Length
      modifies this`len, stack
      ensures Valid() && stack[..len] == old(stack[..len]) + [v]
    {
      hide Closed, Depth, TestsOk, PlainInput;
      stack[len] := v;
      len := len + 1;
    }

    /** push_state */
    method Save(s: Saved)
      requires Valid()
      modifies this`states
      ensures Valid() && states == old(states) + [s]
    {
      states := states + [s];
    }

    /** simple_greedy_quant */
    method Greedy() returns (status: Status)
      requires Valid() && StackInv(code, x, Now()) && code[pc].SimpleGreedy?
      modifies this
      ensures Valid()
      ensures status == Go ==> Now() == Step(code, x, old(Now()))
      ensures status != Go ==> status == Failed && Step(code, x, old(Now())) == Unwinding(false, old(states)) && states == old(states)
    {
      hide Closed, Depth, GreedyRun, AllOk, AtomFollows, TestsOk, PlainInput;
      var ins := code[pc];
      AtomThere(code, pc);
      var q, e := CountCopies(code, x, pc, i);
      if q < ins.min {
        return Failed;
      }
      i := e;
      if q > ins.min {
        Save(SavedGreedy(pc, i, stack[..len], q - ins.min));
      }
      pc := pc + 1 + ins.d;
      return Go;
    }

    /** The instructions that look at the text. */
    method TextInstruction() returns (status: Status)
      requires Valid() && StackInv(code, x, Now()) && (code[pc].Test? || code[pc].Check? || code[pc].Prev?)
      modifies this`pc, this`i
      ensures Valid()
      ensures status == Go ==> Now() == Step(code, x, old(Now()))
      ensures status != Go ==> status == Failed && Step(code, x, old(Now())) == Unwinding(false, states)
    {
      hide Closed, Depth, Accepts, Holds, GreedyRun, AllOk, Sound, AtomOk;
      var ins := code[pc];
      pc := pc + 1;
      match ins {
      case Test(a) =>
        if i == |x.w| {
          return Failed;
        }
        var ok := AcceptsChar(a, x.w[i]);
        if !ok {
          return Failed;
        }
        i := i + 1;
      case Check(k) =>
        var holds := RegexpAssertions.TestAssertion(k, x, i);
        if !holds {
          return Failed;
        }
      case Prev =>
        if i == 0 {
          return Failed;
        }
        i := i - 1;
      }
      return Go;
    }

    /** The instructions that look at the counters, or push one. */
    method StackInstruction()
      requires Valid() && StackInv(code, x, Now())
      requires code[pc].PushCount? || code[pc].PushPos? || code[pc].Drop? || code[pc].Loop? || code[pc].BneCharPos?
      modifies this`pc, this`len, stack
      ensures Valid() && Now() == Step(code, x, old(Now()))
    {
      hide Closed, Depth, Accepts, Holds, GreedyRun, AllOk, Sound, TestsOk, PlainInput;
      ghost var was := stack[..len];
      NoUnderflow(code, x, pc, i, was);
      Room(code, x, pc, i, was, stack.Length);
      var ins := code[pc];
      pc := pc + 1;
      match ins {
      case PushCount(n) => Push(n);
      case PushPos => Push(i);
      case Drop =>
        len := len - 1;
        assert stack[..len] == was[..|was| - 1];
      case Loop(d) =>
        stack[len - 1] := stack[len - 1] - 1;
        assert stack[..len] == was[..|was| - 1] + [was[|was| - 1] - 1];
        if stack[len - 1] != 0 {
          pc := pc + d;
        }
      case BneCharPos(d) =>
        len := len - 1;
        assert stack[..len] == was[..|was| - 1];
        if stack[len] != i {
          pc := pc + d;
        }
      }
    }

    /** One turn of the main loop, short of what follows a match or a failure. */
    method Instruction() returns (status: Status)
      requires Valid() && StackInv(code, x, Now())
      modifies this, stack
      ensures Valid()
      ensures status == Go ==> Now() == Step(code, x, old(Now()))
      ensures status != Go ==> Step(code, x, old(Now())) == Unwinding(status == Matched, old(states)) && states == old(states)
    {
      hide Closed, Depth, Accepts, Holds, GreedyRun, AllOk, Sound, TestsOk, PlainInput;
      var ins := code[pc];
      if ins.Test? || ins.Check? || ins.Prev? {
        status := TextInstruction();
        return;
      } else if ins.PushCount? || ins.PushPos? || ins.Drop? || ins.Loop? || ins.BneCharPos? {
        StackInstruction();
        return Go;
      }
      match ins {
      case Match => return Matched;
      case Goto(d) => pc := pc + 1 + d;
      case SplitNextFirst(d) =>
        Save(SavedSplit(pc + 1 + d, i, stack[..len]));
        pc := pc + 1;
      case SplitGotoFirst(d) =>
        Save(SavedSplit(pc + 1, i, stack[..len]));
        pc := pc + 1 + d;
      case Lookahead(d) =>
        Save(SavedLook(false, pc + 1 + d, i, stack[..len]));
        pc := pc + 1;
      case NegativeLookahead(d) =>
        Save(SavedLook(true, pc + 1 + d, i, stack[..len]));
        pc := pc + 1;
      case SimpleGreedy(d, min, max, count) =>
        status := Greedy();
        return;
      case SaveStart => pc := pc + 1;
      case SaveEnd => pc := pc + 1;
      case SaveReset => pc := pc + 1;
      }
      return Go;
    }
  }

  datatype Status = Go | Matched | Failed

  lemma Room(p: Code, x: Input, pc: int, i: nat, st: seq<int>, size: nat)
    requires InPlace(p, x, pc, i, st) && Closed(p) && forall k :: 0 <= k <= |p| ==> Depth(p, k) <= size
    ensures p[pc].PushCount? || p[pc].PushPos? ==> |st| < size
  {
    hide Closed;
    assert Depth(p, pc + 1) == Depth(p, pc) + Delta(p[pc]);
  }

  lemma AtomThere(p: Code, k: nat)
    requires Closed(p) && k < |p| && p[k].SimpleGreedy?
    ensures AtomFollows(p, k)
  {
    ClosedSound(p, k);
  }

  /** Unwinding takes the machine to where Resume says. */
  lemma {:induction false} ResumeSteps(code: Code, x: Input, states: seq<Saved>, ret: bool, n: nat, b: bool) returns (m: nat)
    requires StepN(code, x, Unwinding(ret, states), n) == Done(b)
    ensures m <= n && StepN(code, x, Resume(code, x, states, ret), m) == Done(b)
    decreases |states|
  {
    hide Step;
    var c := Step(code, x, Unwinding(ret, states));
    if states == [] {
      LastUnwind(code, x, ret);
      return n - 1;
    } else if c.Unwinding? {
      OneLower(code, x, states, ret);
      m := ResumeSteps(code, x, states[..|states| - 1], c.ret, n - 1, b);
    } else {
      return n - 1;
    }
  }

  lemma OneLower(code: Code, x: Input, states: seq<Saved>, ret: bool)
    requires states != [] && Step(code, x, Unwinding(ret, states)).Unwinding?
    ensures Step(code, x, Unwinding(ret, states)).states == states[..|states| - 1]
  {
  }

  lemma {:induction false} DoneStays(code: Code, x: Input, b: bool, n: nat)
    ensures StepN(code, x, Done(b), n) == Done(b)
  {
    if n > 0 {
      DoneStays(code, x, b, n - 1);
    }
  }

  datatype Outcome = TooManyRanges | TooDeep | Finished(found: bool)

  /** lre_compile followed by lre_exec. */
  method Exec(re: Re, sticky: bool, x: Input, cindex: nat) returns (r: Outcome)
    requires WellFormed(re) && ClassesCanonical(re) && PlainInput(x) && Pos(x, cindex)
    ensures r.TooManyRanges? <==> exists a :: a in Atoms(re) && a.Class? && |a.points| / 2 >= 65535
    ensures r.TooDeep? <==> !r.TooManyRanges? && exists k :: 0 <= k <= |Program(re, sticky)| && Depth(Program(re, sticky), k) >= 0x100
    ensures r.Finished? ==> (r.found <==> Found(re, sticky, x, cindex))
  {
    hide Program, Found, Closed, Depth, Step, Resume, TestsOk, PlainInput;
    var fit := EmitClasses(re);
    if !fit {
      return TooManyRanges;
    }
    ClassesFitThen(re);
    ProgramTests(re, sticky);
    var e := new RegexpEmit.Emitter();
    e.Whole(re, sticky);
    var code := e.code;
    ProgramClosed(re, sticky);
    var size := ComputeStackSize(code);
    if size < 0 {
      return TooDeep;
    }
    var s := new Machine(code, x, size, cindex);
    ghost var b := Found(re, sticky, x, cindex);
    ghost var n := ExecDecides(re, sticky, x, cindex);
    StartInv(code, x, cindex);
    assert s.stack[..0] == [];
    while true
      invariant s.Valid() && s.code == code && s.x == x && fresh(s) && fresh(s.stack)
      invariant StackInv(code, x, s.Now()) && StepN(code, x, s.Now(), n) == Done(b)
      decreases n
    {
      ghost var was := s.Now();
      StepKeeps(code, x, was);
      var status := s.Instruction();
      n := n - 1;
      if status != Go {
        ghost var m := ResumeSteps(code, x, s.states, status == Matched, n, b);
        var resumed, ret := s.Unwind(status == Matched);
        if !resumed {
          DoneStays(code, x, ret, m);
          return Finished(ret);
        }
        n := m;
      }
    }
  }

  /** Where unwinding ends: in a resumed thread, or in the final result. */
  function Resume(code: Code, x: Input, states: seq<Saved>, ret: bool): Config
    decreases |states|
  {
    if states == [] then Done(ret)
    else
      var c := Step(code, x, Unwinding(ret, states));
      if c.Unwinding? then Resume(code, x, states[..|states| - 1], c.ret) else c
  }

  lemma Fits(p: Code, x: Input, s: Saved, size: nat)
    requires SavedOk(p, x, s) && forall k :: 0 <= k <= |p| ==> Depth(p, k) <= size
    ensures |s.st| <= size
  {
  }
}
