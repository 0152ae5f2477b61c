/**
 The stack of the regexp machine: the linear scan of compute_stack_size finds the depth at
 every instruction, and no run leaves it.
 */
module RegexpStack {
  import opened RegexpSyntax
  import opened RegexpCode
  import opened RegexpMachine

  /** What the linear scan adds for one instruction. */
  function Delta(ins: Instr): int {
    if ins.PushCount? || ins.PushPos? then 1
    else if ins.Drop? || ins.BneCharPos? then -1
    else 0
  }

  /** The depth the linear scan has in front of instruction k. */
  function Depth(c: Code, k: nat): int
    requires k <= |c|
  {
    if k == 0 then 0 else Depth(c, k - 1) + Delta(c[k - 1])
  }

  lemma {:induction false} DepthConcat(c: Code, d: Code, k: nat)
    requires k <= |c| + |d|
    ensures Depth(c + d, k) == if k <= |c| then Depth(c, k) else Depth(c, |c|) + Depth(d, k - |c|)
    decreases k
  {
    if k > 0 {
      DepthConcat(c, d, k - 1);
    }
  }

  predicate Jumps(ins: Instr) {
    || ins.Goto? || ins.SplitGotoFirst? || ins.SplitNextFirst? || ins.Loop? || ins.Lookahead? || ins.NegativeLookahead?
    || ins.BneCharPos? || ins.SimpleGreedy?
  }

  predicate NeedsOne(ins: Instr) {
    ins.Drop? || ins.Loop? || ins.BneCharPos?
  }

  /** The atom of a simple greedy quantifier follows it and has the recorded number of characters. */
  predicate AtomFollows(c: Code, k: nat)
    requires k < |c| && c[k].SimpleGreedy?
  {
    var d := c[k].d;
    && 1 <= d <= |c| - k - 1
    && c[k + d].Match?
    && AllSimple(c[k + 1..k + d]) && CharCount(c[k + 1..k + d]) == c[k].count && c[k].count > 0
    && c[k].max != AtMost(0)
  }

  /** The instruction does not underflow, and jumps to a place of the depth it leaves. */
  predicate Sound(c: Code, k: nat)
    requires k < |c|
  {
    && Depth(c, k) >= 0
    && (NeedsOne(c[k]) ==> Depth(c, k) >= 1)
    && (Jumps(c[k]) ==> 0 <= k + 1 + c[k].d <= |c| && Depth(c, k + 1 + c[k].d) == Depth(c, k) + Delta(c[k]))
    && (c[k].SimpleGreedy? ==> AtomFollows(c, k))
  }

  /** Code that leaves the depth as it found it, whatever surrounds it. */
  ghost predicate Balanced(c: Code) {
    Depth(c, |c|) == 0 && forall k :: 0 <= k < |c| ==> Sound(c, k)
  }

  // ---- fragments in context ----

  lemma DepthInside(pre: Code, c: Code, post: Code, k: nat)
    requires k <= |c|
    ensures Depth(pre + c + post, |pre| + k) == Depth(pre, |pre|) + Depth(c, k)
  {
    DepthConcat(pre + c, post, |pre| + k);
    DepthConcat(pre, c, |pre| + k);
  }

  lemma SoundInside(pre: Code, c: Code, post: Code, k: nat)
    requires k < |c| && Sound(c, k) && Depth(pre, |pre|) >= 0
    ensures Sound(pre + c + post, |pre| + k)
  {
    hide Depth, AllSimple, CharCount;
    var w := pre + c + post;
    DepthInside(pre, c, post, k);
    assert w[|pre| + k] == c[k];
    if Jumps(c[k]) {
      DepthInside(pre, c, post, k + 1 + c[k].d);
    }
    if c[k].SimpleGreedy? {
      AtomInside(pre, c, post, k);
    }
  }

  lemma AtomInside(pre: Code, c: Code, post: Code, k: nat)
    requires k < |c| && c[k].SimpleGreedy? && AtomFollows(c, k)
    ensures (pre + c + post)[|pre| + k] == c[k] && AtomFollows(pre + c + post, |pre| + k)
  {
    hide AllSimple, CharCount;
    var w, d := pre + c + post, c[k].d;
    assert w[|pre| + k + 1..|pre| + k + d] == c[k + 1..k + d];
    assert w[|pre| + k + d] == c[k + d];
  }

  lemma Concat(c: Code, d: Code)
    requires Balanced(c) && Balanced(d)
    ensures Balanced(c + d)
  {
    hide Depth, Sound;
    assert c + d == [] + c + d && c + d == c + d + [];
    forall k | 0 <= k < |c + d|
      ensures Sound(c + d, k)
    {
      if k < |c| {
        DepthNone([]);
        SoundInside([], c, d, k);
      } else {
        SoundInside(c, d, [], k - |c|);
      }
    }
    DepthConcat(c, d, |c| + |d|);
    if |d| == 0 {
      DepthNone(d);
    }
  }

  lemma DepthNone(c: Code)
    ensures Depth(c, 0) == 0
  {
  }

  /** A few instructions in front of and behind a balanced fragment. */
  lemma Wrap(pre: Code, c: Code, post: Code)
    requires Balanced(c) && Depth(pre, |pre|) >= 0 && Depth(pre, |pre|) + Depth(post, |post|) == 0
    requires forall k :: 0 <= k < |pre| ==> Sound(pre + c + post, k)
    requires forall k :: |pre| + |c| <= k < |pre| + |c| + |post| ==> Sound(pre + c + post, k)
    ensures Balanced(pre + c + post)
  {
    hide Depth, Sound;
    var w := pre + c + post;
    WholeDepth(pre, c, post);
    forall k: nat | |pre| <= k < |pre| + |c|
      ensures Sound(w, k)
    {
      SoundMiddle(pre, c, post, k);
    }
  }

  lemma SoundMiddle(pre: Code, c: Code, post: Code, k: nat)
    requires Balanced(c) && Depth(pre, |pre|) >= 0 && |pre| <= k < |pre| + |c|
    ensures Sound(pre + c + post, k)
  {
    hide Depth, Sound;
    SoundInside(pre, c, post, k - |pre|);
  }

  lemma WholeDepth(pre: Code, c: Code, post: Code)
    requires Depth(c, |c|) == 0
    ensures Depth(pre + c + post, |pre + c + post|) == Depth(pre, |pre|) + Depth(post, |post|)
  {
    hide Depth;
    DepthConcat(pre + c, post, |pre| + |c| + |post|);
    DepthConcat(pre, c, |pre| + |c|);
    DepthNone(post);
    DepthNone(c);
  }

  /** Depths in front of, inside and behind a wrapped fragment. */
  lemma WrapDepths(pre: Code, c: Code, post: Code, k: nat)
    requires Balanced(c)
    ensures k <= |pre| ==> Depth(pre + c + post, k) == Depth(pre, k)
    ensures k <= |post| ==> Depth(pre + c + post, |pre| + |c| + k) == Depth(pre, |pre|) + Depth(post, k)
  {
    hide Sound;
    if k <= |pre| {
      DepthConcat(pre, c + post, k);
      assert pre + (c + post) == pre + c + post;
    }
    if k <= |post| {
      DepthConcat(pre + c, post, |pre| + |c| + k);
      DepthConcat(pre, c, |pre| + |c|);
    }
  }

  // ---- compiled code is balanced ----

  lemma Single(ins: Instr)
    requires Delta(ins) == 0 && !Jumps(ins) && !NeedsOne(ins)
    ensures Balanced([ins])
  {
    assert Depth([ins], 1) == Depth([ins], 0) + Delta(ins);
  }

  lemma StarBalanced(c: Code)
    requires Balanced(c)
    ensures Balanced(StarCode(c))
  {
    hide Balanced, AlwaysAdvances;
    if AlwaysAdvances(c) {
      FreeStar(c);
    } else {
      CheckedStar(c);
    }
  }

  lemma FreeStar(c: Code)
    requires Balanced(c)
    ensures Balanced([SplitNextFirst(|c| + 1)] + c + [Goto(-(|c| + 2))])
  {
    hide Balanced, AtomFollows;
    var pre, post := [SplitNextFirst(|c| + 1)], [Goto(-(|c| + 2))];
    var w := pre + c + post;
    DepthTwo(pre);
    DepthTwo(post);
    WrapDepths(pre, c, post, 0);
    WrapDepths(pre, c, post, 1);
    assert w[0] == pre[0] && w[1 + |c|] == post[0];
    Wrap(pre, c, post);
  }

  lemma CheckedStar(c: Code)
    requires Balanced(c)
    ensures Balanced([SplitNextFirst(|c| + 2), PushPos] + c + [BneCharPos(-(|c| + 3))])
  {
    hide Balanced, AtomFollows;
    var pre, post := [SplitNextFirst(|c| + 2), PushPos], [BneCharPos(-(|c| + 3))];
    var w := pre + c + post;
    DepthTwo(pre);
    DepthTwo(post);
    WrapDepths(pre, c, post, 0);
    WrapDepths(pre, c, post, 1);
    assert w[0] == pre[0] && w[1] == pre[1] && w[2 + |c|] == post[0];
    Wrap(pre, c, post);
  }

  lemma DepthTwo(c: Code)
    ensures |c| >= 1 ==> Depth(c, 1) == Delta(c[0])
    ensures |c| >= 2 ==> Depth(c, 2) == Delta(c[0]) + Delta(c[1])
    ensures Depth(c, 0) == 0
  {
    if |c| >= 1 {
      assert Depth(c, 1) == Depth(c, 0) + Delta(c[0]);
      if |c| >= 2 {
        assert Depth(c, 2) == Depth(c, 1) + Delta(c[1]);
      }
    }
  }

  /** Both counted loops: with and without a split at their head. */
  lemma CountedBalanced(c: Code, n: nat, split: bool)
    requires Balanced(c)
    ensures Balanced(if split then UpToCode(c, n) else [PushCount(n)] + c + [Loop(-(|c| + 1)), Drop])
  {
    hide Balanced;
    var (pre, post) := if split then ([PushCount(n), SplitNextFirst(|c| + 1)], [Loop(-(|c| + 2)), Drop])
                       else ([PushCount(n)], [Loop(-(|c| + 1)), Drop]);
    var w := pre + c + post;
    DepthTwo(pre);
    DepthTwo(post);
    WrapDepths(pre, c, post, 0);
    WrapDepths(pre, c, post, 1);
    WrapDepths(pre, c, post, 2);
    assert w[0] == pre[0] && w[|pre| + |c|] == post[0] && w[|pre| + |c| + 1] == post[1];
    if split {
      assert w[1] == pre[1];
    }
    Wrap(pre, c, post);
  }

  lemma OptionBalanced(c: Code)
    requires Balanced(c)
    ensures Balanced([SplitNextFirst(|c|)] + c)
  {
    hide Balanced;
    var pre := [SplitNextFirst(|c|)];
    assert pre + c == pre + c + [];
    DepthTwo(pre);
    DepthTwo([]);
    WrapDepths(pre, c, [], 0);
    assert (pre + c + [])[0] == pre[0];
    Wrap(pre, c, []);
  }

  lemma PlusBalanced(c: Code)
    requires Balanced(c)
    ensures Balanced(c + [SplitGotoFirst(-(|c| + 1))])
  {
    hide Balanced;
    var post := [SplitGotoFirst(-(|c| + 1))];
    assert c + post == [] + c + post;
    DepthTwo(post);
    DepthTwo([]);
    WrapDepths([], c, post, 0);
    WrapDepths([], c, post, 1);
    assert ([] + c + post)[|c|] == post[0];
    Wrap([], c, post);
  }

  lemma {:induction false} SimpleDepth(c: Code, k: nat)
    requires AllSimple(c) && k <= |c|
    ensures Depth(c, k) == 0
    decreases k
  {
    if k > 0 {
      SimpleDepth(c, k - 1);
      assert IsSimple(c[k - 1]);
    }
  }

  lemma GreedyBalanced(c: Code, min: nat, max: Bound)
    requires Balanced(c) && AllSimple(c) && CharCount(c) > 0 && max != AtMost(0)
    ensures Balanced([SimpleGreedy(|c| + 1, min, max, CharCount(c))] + c + [Match])
  {
    hide Balanced, CharCount, AllSimple;
    var pre, post := [SimpleGreedy(|c| + 1, min, max, CharCount(c))], [Match];
    var w := pre + c + post;
    DepthTwo(pre);
    DepthTwo(post);
    WrapDepths(pre, c, post, 0);
    WrapDepths(pre, c, post, 1);
    assert w[0] == pre[0] && w[1 + |c|] == post[0];
    assert w[1..1 + |c|] == c;
    assert AtomFollows(w, 0);
    Wrap(pre, c, post);
  }

  lemma QuantifyBalanced(c: Code, min: nat, max: Bound, captures: bool)
    requires Balanced(c)
    ensures Balanced(Quantify(c, min, max, captures))
  {
    hide Balanced, AlwaysAdvances, AllSimple, CharCount, StarCode;
    if max != AtMost(0) && AllSimple(c) && CharCount(c) > 0 {
      GreedyBalanced(c, min, max);
    } else if min == 0 {
      var reset := if captures then [SaveReset] else [];
      NoneBalanced();
      Single(SaveReset);
      OptionalBalanced(c, max);
      Concat(reset, Optional(c, max));
    } else if min == 1 && max == Infinite && AlwaysAdvances(c) {
      PlusBalanced(c);
    } else {
      if min > 1 {
        CountedBalanced(c, min, false);
      }
      RestBalanced(c, min, max);
      Concat(Mandatory(c, min), Rest(c, min, max));
    }
  }

  lemma NoneBalanced()
    ensures Balanced([])
  {
  }

  lemma OptionalBalanced(c: Code, max: Bound)
    requires Balanced(c)
    ensures Balanced(Optional(c, max))
  {
    hide Balanced, StarCode, UpToCode;
    if max == AtMost(0) {
      NoneBalanced();
    } else if max == AtMost(1) {
      OptionBalanced(c);
    } else if max == Infinite {
      StarBalanced(c);
    } else {
      CountedBalanced(c, max.n, true);
    }
  }

  lemma RestBalanced(c: Code, min: nat, max: Bound)
    requires Balanced(c)
    ensures Balanced(Rest(c, min, max))
  {
    hide Balanced, StarCode, UpToCode;
    if max == Infinite {
      StarBalanced(c);
    } else if max.n > min {
      CountedBalanced(c, max.n - min, true);
    } else {
      NoneBalanced();
    }
  }

  lemma AltBalanced(l: Code, r: Code)
    requires Balanced(l) && Balanced(r)
    ensures Balanced([SplitNextFirst(|l| + 1)] + l + [Goto(|r|)] + r)
  {
    hide Balanced;
    var pre, post := [SplitNextFirst(|l| + 1)], [Goto(|r|)] + r;
    var w := pre + l + post;
    assert w == pre + l + [Goto(|r|)] + r;
    DepthTwo(pre);
    DepthTwo(post);
    JumpOver(r);
    WrapDepths(pre, l, post, 0);
    WrapDepths(pre, l, post, 1);
    WrapDepths(pre, l, post, |post|);
    assert w[0] == pre[0];
    forall k | 1 + |l| <= k < |w|
      ensures Sound(w, k)
    {
      assert w == (pre + l) + post + [];
      DepthConcat(pre, l, 1 + |l|);
      assert Depth(l, |l|) == 0 by { BalancedEnd(l); }
      SoundAt(post, k - 1 - |l|);
      SoundInside(pre + l, post, [], k - 1 - |l|);
    }
    Wrap(pre, l, post);
  }

  lemma BalancedEnd(c: Code)
    requires Balanced(c)
    ensures Depth(c, |c|) == 0
  {
  }

  lemma SoundAt(c: Code, k: nat)
    requires Balanced(c) && k < |c|
    ensures Sound(c, k)
  {
  }

  lemma JumpOver(r: Code)
    requires Balanced(r)
    ensures Balanced([Goto(|r|)] + r) && Depth([Goto(|r|)] + r, 1 + |r|) == 0
  {
    hide Balanced;
    var pre := [Goto(|r|)];
    assert pre + r == pre + r + [];
    DepthTwo(pre);
    DepthTwo([]);
    WrapDepths(pre, r, [], 0);
    assert (pre + r + [])[0] == pre[0];
    Wrap(pre, r, []);
  }

  lemma LookBalanced(c: Code, negative: bool)
    requires Balanced(c)
    ensures Balanced([if negative then NegativeLookahead(|c| + 1) else Lookahead(|c| + 1)] + c + [Match])
  {
    hide Balanced;
    var pre, post := [if negative then NegativeLookahead(|c| + 1) else Lookahead(|c| + 1)], [Match];
    var w := pre + c + post;
    DepthTwo(pre);
    DepthTwo(post);
    WrapDepths(pre, c, post, 0);
    WrapDepths(pre, c, post, 1);
    assert w[0] == pre[0] && w[1 + |c|] == post[0];
    Wrap(pre, c, post);
  }

  lemma {:induction false} CompileBalanced(re: Re, back: bool)
    ensures Balanced(Compile(re, back))
    decreases re
  {
    hide Balanced, Quantify;
    match re
    case Empty => NoneBalanced();
    case One(a) =>
      Single(Test(a));
      Single(Prev);
      if back {
        Concat([Prev], [Test(a)]);
        Concat([Prev] + [Test(a)], [Prev]);
        assert [Prev, Test(a), Prev] == [Prev] + [Test(a)] + [Prev];
      }
    case Assert(k) => Single(Check(k));
    case Seq(a, b) =>
      CompileBalanced(a, back);
      CompileBalanced(b, back);
      if back {
        Concat(Compile(b, back), Compile(a, back));
      } else {
        Concat(Compile(a, back), Compile(b, back));
      }
    case Alt(a, b) =>
      CompileBalanced(a, back);
      CompileBalanced(b, back);
      AltBalanced(Compile(a, back), Compile(b, back));
    case Group(b) =>
      CompileBalanced(b, back);
      var open, close := if back then SaveEnd else SaveStart, if back then SaveStart else SaveEnd;
      Single(open);
      Single(close);
      Concat([open], Compile(b, back));
      Concat([open] + Compile(b, back), [close]);
    case Look(behind, negative, b) =>
      CompileBalanced(b, behind);
      LookBalanced(Compile(b, behind), negative);
    case Repeat(b, min, max) =>
      CompileBalanced(b, back);
      QuantifyBalanced(Compile(b, back), min, max, HasCapture(b));
  }

  /** Balanced code in front of a final match. */
  ghost predicate Closed(p: Code) {
    p != [] && p[|p| - 1].Match? && Balanced(p[..|p| - 1])
  }

  lemma PrefixBalanced()
    ensures Balanced([SplitGotoFirst(2), Test(AnyChar), Goto(-3)])
  {
    var c := [SplitGotoFirst(2), Test(AnyChar), Goto(-3)];
    DepthTwo(c);
    assert Depth(c, 3) == Depth(c, 2) + Delta(c[2]);
  }

  lemma ProgramClosed(re: Re, sticky: bool)
    ensures Closed(Program(re, sticky))
  {
    hide Balanced;
    var prefix := if sticky then [] else [SplitGotoFirst(2), Test(AnyChar), Goto(-3)];
    var body := Compile(re, false);
    NoneBalanced();
    PrefixBalanced();
    CompileBalanced(re, false);
    Single(SaveStart);
    Single(SaveEnd);
    Concat(prefix, [SaveStart]);
    Concat(prefix + [SaveStart], body);
    Concat(prefix + [SaveStart] + body, [SaveEnd]);
    var p := Program(re, sticky);
    assert p == prefix + [SaveStart] + body + [SaveEnd] + [Match];
    assert p[..|p| - 1] == prefix + [SaveStart] + body + [SaveEnd];
  }

  /** In closed code every instruction is sound, and every way out of it but a match stays inside. */
  lemma ClosedSound(p: Code, k: nat)
    requires Closed(p) && k < |p|
    ensures Sound(p, k) && (Jumps(p[k]) ==> k + 1 + p[k].d < |p|) && (!p[k].Match? ==> k + 1 < |p|)
  {
    hide Depth;
    var c, last := p[..|p| - 1], p[|p| - 1];
    assert p == [] + c + [last];
    DepthNone([]);
    if k < |c| {
      SoundInside([], c, [last], k);
      assert p[k] == c[k];
    } else {
      DepthConcat([] + c, [last], k);
      assert [] + c == c;
    }
  }

  // ---- every reachable state ----

  /** A thread whose stack has the depth of its place in the code. */
  ghost predicate InPlace(p: Code, x: Input, pc: int, i: nat, st: seq<int>) {
    0 <= pc < |p| && Pos(x, i) && |st| == Depth(p, pc)
  }

  ghost predicate SavedOk(p: Code, x: Input, s: Saved) {
    && InPlace(p, x, s.pc, s.i, s.st)
    && (s.SavedGreedy? ==> p[s.pc].SimpleGreedy? && s.left > 0 && s.left * p[s.pc].count <= s.i)
  }

  ghost predicate AllOk(p: Code, x: Input, states: seq<Saved>) {
    forall k :: 0 <= k < |states| ==> SavedOk(p, x, states[k])
  }

  ghost predicate StackInv(p: Code, x: Input, c: Config) {
    match c
    case Running(pc, i, st, states) => InPlace(p, x, pc, i, st) && AllOk(p, x, states)
    case Unwinding(_, states) => AllOk(p, x, states)
    case Done(_) => true
    case Stuck => false
  }

  lemma {:induction false} SimpleAdvance(code: Code, x: Input, pc: nat, e: nat, i: nat)
    requires pc <= e < |code| && AllSimple(code[pc..e]) && code[e].Match? && RunSimple(code, x, pc, i).Some?
    ensures RunSimple(code, x, pc, i).pos == i + CharCount(code[pc..e]) && Pos(x, i + CharCount(code[pc..e]))
    decreases e - pc
  {
    hide Accepts, Holds;
    var c := code[pc..e];
    if pc < e {
      assert IsSimple(c[0]);
      assert c[1..] == code[pc + 1..e];
      SimpleAdvance(code, x, pc + 1, e, if code[pc].Test? then i + 1 else i);
    }
  }

  lemma {:induction false} GreedyAdvance(p: Code, x: Input, k: nat, i: nat, max: Bound, q: nat)
    requires k < |p| && p[k].SimpleGreedy? && AtomFollows(p, k) && Pos(x, i) && i >= q * p[k].count
    ensures var (n, e) := GreedyRun(p, x, k + 1, i, max, q);
            n >= q && Pos(x, e) && e >= n * p[k].count
    decreases |x.w| - i
  {
    hide RunSimple, AllSimple, CharCount;
    if !(max.AtMost? && q >= max.n) && RunSimple(p, x, k + 1, i).Some? {
      SimpleAdvance(p, x, k + 1, k + p[k].d, i);
      var e := RunSimple(p, x, k + 1, i).pos;
      assert e >= (q + 1) * p[k].count;
      GreedyAdvance(p, x, k, e, max, q + 1);
    }
  }

  lemma Kept(p: Code, x: Input, states: seq<Saved>, s: Saved)
    requires AllOk(p, x, states) && SavedOk(p, x, s)
    ensures AllOk(p, x, states + [s])
  {
  }

  /** The next instruction, and the target of a jump, are in place. */
  lemma NextInPlace(p: Code, x: Input, pc: nat, i: nat, st: seq<int>, i': nat, st': seq<int>)
    requires Closed(p) && InPlace(p, x, pc, i, st) && Pos(x, i')
    requires |st'| == |st| + Delta(p[pc])
    ensures !p[pc].Match? ==> InPlace(p, x, pc + 1, i', st')
    ensures Jumps(p[pc]) ==> InPlace(p, x, pc + 1 + p[pc].d, i', st')
  {
    ClosedSound(p, pc);
  }

  lemma ExecuteKeeps(p: Code, x: Input, pc: nat, i: nat, st: seq<int>, states: seq<Saved>)
    requires Closed(p) && InPlace(p, x, pc, i, st) && AllOk(p, x, states)
    ensures StackInv(p, x, Execute(p, x, pc, i, st, states))
  {
    hide Closed, AllOk, InPlace, Accepts, Holds, GreedyRun, Sound;
    InPlaceBounds(p, x, pc, i, st);
    NoUnderflow(p, x, pc, i, st);
    var next := pc + 1;
    match p[pc]
    case Test(a) =>
      if i < |x.w| {
        NextInPlace(p, x, pc, i, st, i + 1, st);
      }
    case Prev =>
      if i > 0 {
        NextInPlace(p, x, pc, i, st, i - 1, st);
      }
    case SplitNextFirst(d) =>
      NextInPlace(p, x, pc, i, st, i, st);
      Kept(p, x, states, SavedSplit(next + d, i, st));
    case SplitGotoFirst(d) =>
      NextInPlace(p, x, pc, i, st, i, st);
      Kept(p, x, states, SavedSplit(next, i, st));
    case Lookahead(d) =>
      NextInPlace(p, x, pc, i, st, i, st);
      Kept(p, x, states, SavedLook(false, next + d, i, st));
    case NegativeLookahead(d) =>
      NextInPlace(p, x, pc, i, st, i, st);
      Kept(p, x, states, SavedLook(true, next + d, i, st));
    case PushCount(n) => NextInPlace(p, x, pc, i, st, i, st + [n]);
    case PushPos => NextInPlace(p, x, pc, i, st, i, st + [i]);
    case Drop => NextInPlace(p, x, pc, i, st, i, st[..|st| - 1]);
    case Loop(d) => NextInPlace(p, x, pc, i, st, i, st[..|st| - 1] + [st[|st| - 1] - 1]);
    case BneCharPos(d) => NextInPlace(p, x, pc, i, st, i, st[..|st| - 1]);
    case SimpleGreedy(d, min, max, count) => GreedyKeeps(p, x, pc, i, st, states);
    case _ => NextInPlace(p, x, pc, i, st, i, st);
  }

  lemma InPlaceBounds(p: Code, x: Input, pc: int, i: nat, st: seq<int>)
    requires InPlace(p, x, pc, i, st)
    ensures 0 <= pc < |p| && Pos(x, i)
  {
  }

  lemma NoUnderflow(p: Code, x: Input, pc: nat, i: nat, st: seq<int>)
    requires Closed(p) && InPlace(p, x, pc, i, st)
    ensures NeedsOne(p[pc]) ==> st != []
  {
    ClosedSound(p, pc);
  }

  lemma GreedyKeeps(p: Code, x: Input, pc: nat, i: nat, st: seq<int>, states: seq<Saved>)
    requires Closed(p) && InPlace(p, x, pc, i, st) && AllOk(p, x, states) && p[pc].SimpleGreedy?
    ensures StackInv(p, x, Execute(p, x, pc, i, st, states))
  {
    hide Closed, AllOk, GreedyRun, AtomFollows;
    ClosedSound(p, pc);
    GreedyAdvance(p, x, pc, i, p[pc].max, 0);
    var (q, e) := GreedyRun(p, x, pc + 1, i, p[pc].max, 0);
    NextInPlace(p, x, pc, i, st, e, st);
    if q > p[pc].min {
      LeftOver(q, p[pc].min, p[pc].count, e);
      Kept(p, x, states, SavedGreedy(pc, e, st, q - p[pc].min));
    }
  }

  lemma LeftOver(q: int, min: int, count: int, e: int)
    requires q >= min >= 0 && count >= 0 && e >= q * count
    ensures (q - min) * count <= e
  {
    assert min * count >= 0;
    assert (q - min) * count == q * count - min * count;
  }

  lemma UnwindKeeps(p: Code, x: Input, ret: bool, states: seq<Saved>)
    requires Closed(p) && AllOk(p, x, states)
    ensures StackInv(p, x, Step(p, x, Unwinding(ret, states)))
  {
    hide Closed;
    if states != [] {
      var top, rest := states[|states| - 1], states[..|states| - 1];
      assert SavedOk(p, x, top);
      assert AllOk(p, x, rest);
      if top.SavedGreedy? && !ret {
        RetryKeeps(p, x, top, rest);
      }
    }
  }

  lemma RetryKeeps(p: Code, x: Input, g: Saved, rest: seq<Saved>)
    requires Closed(p) && g.SavedGreedy? && SavedOk(p, x, g) && AllOk(p, x, rest)
    ensures StackInv(p, x, Retry(p, g, rest))
  {
    hide Closed, AllOk;
    var count := p[g.pc].count;
    assert g.left * count == (g.left - 1) * count + count;
    LessLeft(g.left - 1, count);
    NextInPlace(p, x, g.pc, g.i, g.st, g.i - count, g.st);
    if g.left > 1 {
      Kept(p, x, rest, SavedGreedy(g.pc, g.i - count, g.st, g.left - 1));
    }
  }

  lemma LessLeft(n: int, count: int)
    requires n >= 0 && count >= 0
    ensures n * count >= 0
  {
  }

  lemma StepKeeps(p: Code, x: Input, c: Config)
    requires Closed(p) && StackInv(p, x, c)
    ensures StackInv(p, x, Step(p, x, c))
  {
    hide Closed, AllOk, Execute;
    match c
    case Running(pc, i, st, states) => ExecuteKeeps(p, x, pc, i, st, states);
    case Unwinding(ret, states) => UnwindKeeps(p, x, ret, states);
    case _ =>
  }

  /**
   Every state a compiled pattern can reach has the stack depth of the linear scan at its place,
   the saved states included, and is never stuck.
   */
  lemma {:induction false} RunKeeps(p: Code, x: Input, c: Config, n: nat)
    requires Closed(p) && StackInv(p, x, c)
    ensures StackInv(p, x, StepN(p, x, c, n))
    decreases n
  {
    hide Closed, StackInv, Step;
    if n > 0 {
      StepKeeps(p, x, c);
      RunKeeps(p, x, Step(p, x, c), n - 1);
    }
  }

  // ---- compute_stack_size ----

  const StackSizeMax: nat := 255

  /** compute_stack_size: -1 if some depth exceeds the maximum, otherwise the largest depth. */
  method ComputeStackSize(p: Code) returns (size: int)
    requires Closed(p)
    ensures size == -1 || 0 <= size < 0x100
    ensures size == -1 ==> exists k :: 0 <= k <= |p| && Depth(p, k) >= 0x100
    ensures size >= 0 ==> forall k :: 0 <= k <= |p| ==> Depth(p, k) <= size
    ensures size >= 0 ==> exists k :: 0 <= k <= |p| && Depth(p, k) == size
  {
    hide Closed, Sound;
    var depth, pos := 0, 0;
    size := 0;
    ghost var at := 0;
    while pos < |p|
      invariant 0 <= pos <= |p| && depth == Depth(p, pos)
      invariant 0 <= at <= |p| && Depth(p, at) == size && 0 <= size <= StackSizeMax
      invariant forall k :: 0 <= k <= pos ==> Depth(p, k) <= size
    {
      match p[pos] {
        case PushCount(_) => depth := depth + 1;
        case PushPos => depth := depth + 1;
        case Drop =>
          assert depth > 0 by { Deep(p, pos); }
          depth := depth - 1;
        case BneCharPos(_) =>
          assert depth > 0 by { Deep(p, pos); }
          depth := depth - 1;
        case _ =>
      }
      pos := pos + 1;
      assert depth == Depth(p, pos);
      if depth > size {
        if depth > StackSizeMax {
          return -1;
        }
        size, at := depth, pos;
      }
    }
  }

  lemma Deep(p: Code, k: nat)
    requires Closed(p) && k < |p| && NeedsOne(p[k])
    ensures Depth(p, k) > 0
  {
    ClosedSound(p, k);
  }
}
