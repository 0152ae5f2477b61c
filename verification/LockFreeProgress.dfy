/**
 Progress of the queue of base/fifo_lockfree.h: from every reachable state a call that runs alone
 returns after a bounded number of its own steps, with the answer of a sequential queue.
 */
module LockFreeProgress {
  import opened LockFreeQueue
  import opened LockFreeHistory
  import opened LockFreeDelivery

  // ---- running alone ----

  function SoloStep(s: State, id: Tid): State
    requires id in s.threads && !s.threads[id].Idle?
  {
    if s.threads[id].Pushing? then PushStep(s, id, s.threads[id]) else PopStep(s, id, s.threads[id])
  }

  /** Up to n steps of thread id alone, until its call returns. */
  function Solo(s: State, id: Tid, n: nat): State
    decreases n
  {
    if n == 0 || id !in s.threads || s.threads[id].Idle? then s else Solo(SoloStep(s, id), id, n - 1)
  }

  lemma SoloInv(s: State, id: Tid)
    requires Inv(s) && id in s.threads && !s.threads[id].Idle?
    ensures StepBy(s, SoloStep(s, id), id) && Inv(SoloStep(s, id)) && Effect(s, SoloStep(s, id), id, s.threads[id])
    ensures id in SoloStep(s, id).threads
  {
    hide Inv, PushStep, PopStep, Refines;
    var s' := SoloStep(s, id);
    assert StepBy(s, s', id);
    hide StepBy;
    StepRefines(s, s') by { NextIntro(s, s', id); }
    CallEffect(s, s', id);
  }

  lemma NextIntro(s: State, s': State, id: Tid)
    requires StepBy(s, s', id)
    ensures Next(s, s')
  {
    hide StepBy;
  }

  // ---- how many steps are left ----

  /** What push has read is still true of the tail. */
  predicate FreshPush(s: State, p: Thread)
    requires p.Pushing?
  {
    var next := if s.tail.node in s.next then s.next[s.tail.node] else Ptr(NULL, 0);
    match p.ppc
    case ReadTailPtr => true
    case ReadTailTag => p.ptail.node == s.tail.node
    case ReadNextPtr => p.ptail == s.tail
    case ReadNextTag => p.ptail == s.tail && p.pnext.node == next.node
    case CheckTailPtr => p.ptail == s.tail && p.pnext == next
    case CheckTailTag => p.ptail == s.tail && p.pnext == next
    case ReadTarget => p.ptail == s.tail && p.pnext == next
    case LinkNode => p.ptail == s.tail && p.pnext == next && p.target == s.tail.node
    case HelpTail => p.ptail == s.tail && p.pnext == next
    case SwingTail => true
  }

  /** Steps to the end when nothing has to be read again. */
  function PushRank(pc: PushPc): nat {
    match pc
    case ReadTailPtr => 9
    case ReadTailTag => 8
    case ReadNextPtr => 7
    case ReadNextTag => 6
    case CheckTailPtr => 5
    case CheckTailTag => 4
    case ReadTarget => 3
    case HelpTail => 3
    case LinkNode => 2
    case SwingTail => 1
  }

  /** Whether the tail has to be helped before anything else. */
  predicate Lags(s: State) {
    s.t + 1 < |s.chain|
  }

  function PushLeft(s: State, p: Thread): nat
    requires p.Pushing?
  {
    if p.ppc.SwingTail? then 1
    else if !FreshPush(s, p) then 16 + PushRank(p.ppc)
    else if Lags(s) then 7 + PushRank(p.ppc)
    else PushRank(p.ppc)
  }

  /** What pop has read is still true of head and tail. */
  predicate FreshPop(s: State, p: Thread)
    requires p.Popping?
  {
    var next := if s.head.node in s.next then s.next[s.head.node] else Ptr(NULL, 0);
    match p.qpc
    case PopHeadPtr => true
    case PopHeadTag => p.qhead.node == s.head.node
    case PopTailPtr => p.qhead == s.head
    case PopTailTag => p.qhead == s.head && p.qtail.node == s.tail.node
    case PopNextPtr => p.qhead == s.head && p.qtail == s.tail
    case PopNextTag => p.qhead == s.head && p.qtail == s.tail && p.qnext.node == next.node
    case PopCheckPtr => p.qhead == s.head && p.qtail == s.tail && p.qnext.node == next.node
    case PopCheckTag => p.qhead == s.head && p.qtail == s.tail && p.qnext.node == next.node
    case PopHelpTail => p.qhead == s.head && p.qtail == s.tail && p.qnext.node == next.node
    case PopReadValue => p.qhead == s.head
    case PopSwingHead => p.qhead == s.head
    case PopStoreValue => true
  }

  function PopRank(pc: PopPc): nat {
    match pc
    case PopHeadPtr => 11
    case PopHeadTag => 10
    case PopTailPtr => 9
    case PopTailTag => 8
    case PopNextPtr => 7
    case PopNextTag => 6
    case PopCheckPtr => 5
    case PopCheckTag => 4
    case PopHelpTail => 3
    case PopReadValue => 3
    case PopSwingHead => 2
    case PopStoreValue => 1
  }

  /** The tail stands on the dummy although something is linked behind it. */
  predicate Stuck(s: State) {
    s.h == s.t && Lags(s)
  }

  function PopLeft(s: State, p: Thread): nat
    requires p.Popping?
  {
    if p.qpc.PopStoreValue? then 1
    else if !FreshPop(s, p) then 20 + PopRank(p.qpc)
    else if Stuck(s) then 9 + PopRank(p.qpc)
    else PopRank(p.qpc)
  }

  function Left(s: State, p: Thread): (n: nat)
    ensures p.Pushing? ==> n <= 24
    ensures p.Popping? ==> n <= 30
  {
    match p
    case Idle => 0
    case Pushing(_, _, _, _, _, _, _, _, _) => PushLeft(s, p)
    case Popping(_, _, _, _, _, _, _, _, _) => PopLeft(s, p)
  }

  /** Where head and tail point, and what follows them. */
  lemma Ends(s: State)
    requires Inv(s)
    ensures !s.crashed && s.h <= s.t < |s.chain| <= s.t + 2
    ensures s.tail.node in s.next && (s.next[s.tail.node].node != NULL <==> Lags(s))
    ensures s.head.node in s.next && (s.next[s.head.node].node != NULL <==> s.h + 1 < |s.chain|)
    ensures s.head.node == s.tail.node <==> s.h == s.t
    ensures InChain(s, s.head.node, s.h) && InChain(s, s.tail.node, s.t)
  {
    InvShape(s);
    hide Inv;
    ShapeFacts(s);
    NextOf(s, s.tail.node, s.t);
    NextOf(s, s.head.node, s.h);
    hide Shape;
    if s.head.node == s.tail.node {
      SamePosition(s, s.head.node, s.h, s.t) by { InvShape(s); }
    }
  }

  lemma PushReadLess(s: State, id: Tid, p: Thread)
    requires Inv(s) && id in s.threads && s.threads[id] == p && p.Pushing?
    requires p.ppc.ReadTailPtr? || p.ppc.ReadTailTag? || p.ppc.ReadNextPtr? || p.ppc.ReadNextTag? || p.ppc.CheckTailPtr? || p.ppc.CheckTailTag?
    requires !PushStep(s, id, p).crashed
    ensures var s' := PushStep(s, id, p); id in s'.threads && s'.threads[id].Pushing? && PushLeft(s', s'.threads[id]) < PushLeft(s, p)
  {
    Ends(s);
    hide Inv, Contents;
  }

  /** The private write before the swing does not touch the list. */
  lemma PushTargetLess(s: State, id: Tid, p: Thread)
    requires Inv(s) && id in s.threads && s.threads[id] == p && p.Pushing? && p.ppc.ReadTarget?
    ensures var s' := PushStep(s, id, p); id in s'.threads && s'.threads[id].Pushing? && PushLeft(s', s'.threads[id]) < PushLeft(s, p)
  {
    Ends(s);
    InvParts(s, id);
    assert p.nd != s.tail.node;
    hide Inv, Contents, Shape;
  }

  lemma PushLinkLess(s: State, id: Tid, p: Thread)
    requires Inv(s) && id in s.threads && s.threads[id] == p && p.Pushing? && p.ppc.LinkNode? && !PushStep(s, id, p).crashed
    ensures var s' := PushStep(s, id, p); id in s'.threads && s'.threads[id].Pushing? && PushLeft(s', s'.threads[id]) < PushLeft(s, p)
  {
    Ends(s);
    hide Inv, Contents;
  }

  lemma PushHelpLess(s: State, id: Tid, p: Thread)
    requires Inv(s) && id in s.threads && s.threads[id] == p && p.Pushing? && p.ppc.HelpTail?
    ensures var s' := PushStep(s, id, p); id in s'.threads && s'.threads[id].Pushing? && PushLeft(s', s'.threads[id]) < PushLeft(s, p)
  {
    Ends(s);
    InvParts(s, id);
    hide Inv, Contents, Shape;
  }

  lemma PopReadLess(s: State, id: Tid, p: Thread)
    requires Inv(s) && id in s.threads && s.threads[id] == p && p.Popping? && !PopStep(s, id, p).crashed
    requires p.qpc.PopHeadPtr? || p.qpc.PopHeadTag? || p.qpc.PopTailPtr? || p.qpc.PopTailTag?
    ensures var s' := PopStep(s, id, p); id in s'.threads && s'.threads[id].Popping? && PopLeft(s', s'.threads[id]) < PopLeft(s, p)
  {
    Ends(s);
    hide Inv, Contents;
  }

  lemma PopNextLess(s: State, id: Tid, p: Thread)
    requires Inv(s) && id in s.threads && s.threads[id] == p && p.Popping? && !PopStep(s, id, p).crashed
    requires p.qpc.PopNextPtr? || p.qpc.PopNextTag? || p.qpc.PopCheckPtr?
    ensures var s' := PopStep(s, id, p); id in s'.threads && s'.threads[id].Popping? && PopLeft(s', s'.threads[id]) < PopLeft(s, p)
  {
    Ends(s);
    hide Inv, Contents;
  }

  lemma PopDecideLess(s: State, id: Tid, p: Thread)
    requires Inv(s) && id in s.threads && s.threads[id] == p && p.Popping? && p.qpc.PopCheckTag?
    ensures var s' := PopStep(s, id, p);
            id in s'.threads && (s'.threads[id].Idle? || (s'.threads[id].Popping? && PopLeft(s', s'.threads[id]) < PopLeft(s, p)))
  {
    Ends(s);
    hide Inv, Contents;
  }

  lemma PopTakeLess(s: State, id: Tid, p: Thread)
    requires Inv(s) && id in s.threads && s.threads[id] == p && p.Popping? && !PopStep(s, id, p).crashed
    requires p.qpc.PopReadValue? || p.qpc.PopSwingHead? || p.qpc.PopHelpTail? || p.qpc.PopStoreValue?
    ensures var s' := PopStep(s, id, p);
            id in s'.threads && (s'.threads[id].Idle? || (s'.threads[id].Popping? && PopLeft(s', s'.threads[id]) < PopLeft(s, p)))
  {
    Ends(s);
    InvParts(s, id);
    hide Inv, Contents, Shape;
  }

  /** Every step of a call that runs alone brings it closer to its return. */
  lemma SoloLess(s: State, id: Tid)
    requires Inv(s) && id in s.threads && !s.threads[id].Idle?
    ensures var s' := SoloStep(s, id);
            id in s'.threads && (s'.threads[id].Idle? || Left(s', s'.threads[id]) < Left(s, s.threads[id]))
  {
    hide Inv, PushStep, PopStep, PushLeft, PopLeft, Effect, StepBy;
    var p, s' := s.threads[id], SoloStep(s, id);
    SoloInv(s, id);
    NoCrash(s');
    if p.Pushing? {
      match p.ppc
      case ReadTarget => PushTargetLess(s, id, p);
      case LinkNode => PushLinkLess(s, id, p);
      case HelpTail => PushHelpLess(s, id, p);
      case SwingTail => PushReturns(s, id, p);
      case _ => PushReadLess(s, id, p);
    } else {
      match p.qpc
      case PopHeadPtr => PopReadLess(s, id, p);
      case PopHeadTag => PopReadLess(s, id, p);
      case PopTailPtr => PopReadLess(s, id, p);
      case PopTailTag => PopReadLess(s, id, p);
      case PopNextPtr => PopNextLess(s, id, p);
      case PopNextTag => PopNextLess(s, id, p);
      case PopCheckPtr => PopNextLess(s, id, p);
      case PopCheckTag => PopDecideLess(s, id, p);
      case _ => PopTakeLess(s, id, p);
    }
  }

  lemma PushReturns(s: State, id: Tid, p: Thread)
    requires p.Pushing? && p.ppc.SwingTail?
    ensures id in PushStep(s, id, p).threads && PushStep(s, id, p).threads[id].Idle?
  {
  }

  // ---- the answers ----

  /** What the history says the queue holds. */
  lemma ContentsAre(s: State)
    requires Inv(s)
    ensures Replay(s.log) == Holding(Contents(s))
  {
    hide Replay, Contents;
    ShapeFacts(s) by { InvShape(s); }
  }

  lemma AppendedIs(log: seq<Event>, e: Event)
    ensures (log + [e])[..|log|] == log && (log + [e])[|log|] == e
  {
  }

  /** How the contents follow a step's event. */
  lemma ContentsFollow(s: State, s': State)
    requires Inv(s) && Inv(s')
    ensures s'.log == s.log ==> Contents(s') == Contents(s)
    ensures forall v: Value :: s'.log == s.log + [Enqueued(v)] ==> Contents(s') == Contents(s) + [v]
    ensures forall v: Value :: s'.log == s.log + [Dequeued(v)] ==> Contents(s) == [v] + Contents(s')
  {
    hide Inv, Contents;
    ContentsAre(s);
    ContentsAre(s');
    forall v: Value | s'.log == s.log + [Enqueued(v)]
      ensures Contents(s') == Contents(s) + [v]
    {
      AppendedIs(s.log, Enqueued(v));
    }
    forall v: Value | s'.log == s.log + [Dequeued(v)]
      ensures Contents(s) == [v] + Contents(s')
    {
      AppendedIs(s.log, Dequeued(v));
      assert Contents(s) == [v] + Contents(s)[1..];
    }
  }

  lemma SoloUnfold(s: State, id: Tid, n: nat)
    requires n > 0 && id in s.threads && !s.threads[id].Idle?
    ensures Solo(s, id, n) == Solo(SoloStep(s, id), id, n - 1)
  {
  }

  lemma SoloDone(s: State, id: Tid, n: nat)
    requires id in s.threads && s.threads[id].Idle?
    ensures Solo(s, id, n) == s
  {
  }

  /** A push that runs alone returns within 24 steps, having linked its value. */
  lemma {:induction false} PushAlone(s: State, id: Tid, n: nat)
    requires Inv(s) && id in s.threads && s.threads[id].Pushing? && Left(s, s.threads[id]) <= n
    ensures var p, e := s.threads[id], Solo(s, id, n);
            && id in e.threads && e.threads[id].Idle?
            && (exists at :: e.results == s.results + [Pushed(id, p.began, at, p.val)])
            && Contents(e) == if p.ppc.SwingTail? then Contents(s) else Contents(s) + [p.val]
    decreases n
  {
    hide Inv, Contents, StepBy, Left, SoloStep, Solo;
    var p, s' := s.threads[id], SoloStep(s, id);
    assert n > 0 by { SomeLeft(s, p); }
    SoloInv(s, id);
    SoloLess(s, id);
    SoloUnfold(s, id, n);
    ContentsFollow(s, s');
    var th := s'.threads[id];
    if th.Idle? {
      SoloDone(s', id, n - 1);
    } else {
      assert th.Pushing? by { PushStays(s, id); }
      PushAlone(s', id, n - 1);
    }
  }

  lemma SomeLeft(s: State, p: Thread)
    requires !p.Idle?
    ensures Left(s, p) > 0
  {
  }

  lemma PushStays(s: State, id: Tid)
    requires id in s.threads && s.threads[id].Pushing? && id in SoloStep(s, id).threads
    requires Effect(s, SoloStep(s, id), id, s.threads[id])
    ensures !SoloStep(s, id).threads[id].Popping?
  {
    hide PushStep, Contents;
  }

  /**
   A pop that runs alone and has not seen the queue empty yet returns within 30 steps: NULL if the
   queue is empty, and otherwise a node that holds the value at the front.
   */
  lemma {:induction false} PopAlone(s: State, id: Tid, n: nat)
    requires Inv(s) && id in s.threads && s.threads[id].Popping? && Left(s, s.threads[id]) <= n
    ensures var p, e := s.threads[id], Solo(s, id, n);
            && id in e.threads && e.threads[id].Idle?
            && (Takes(p) ==> Gives(s, e, id, p.began, p.got) && Contents(e) == Contents(s))
            && (!Takes(p) && Contents(s) == [] ==> Contents(e) == [] && exists at :: e.results == s.results + [Nothing(id, p.began, at)])
            && (!Takes(p) && Contents(s) != [] && !p.sawEmpty ==>
                  Gives(s, e, id, p.began, Contents(s)[0]) && Contents(e) == Contents(s)[1..])
    decreases n
  {
    hide Inv, Contents, StepBy, Left, SoloStep, Solo;
    var p, s' := s.threads[id], SoloStep(s, id);
    assert n > 0 by { SomeLeft(s, p); }
    SoloInv(s, id);
    SoloLess(s, id);
    SoloUnfold(s, id, n);
    ContentsFollow(s, s');
    var th := s'.threads[id];
    if th.Idle? {
      SoloDone(s', id, n - 1);
      if Takes(p) {
        CallHands(s, s', id);
        GivesIntro(s, s', id, p);
      }
    } else {
      assert th.Popping? by { PopStays(s, id); }
      PopAlone(s', id, n - 1);
    }
  }

  /** The call returned a node that now holds v. */
  ghost predicate Gives(s: State, e: State, id: Tid, began: nat, v: Value) {
    exists at: nat, node: Node :: e.results == s.results + [Got(id, began, at, v, node)] && node in e.value && e.value[node] == v
  }

  lemma GivesIntro(s: State, s': State, id: Tid, p: Thread)
    requires p.Popping? && Takes(p) && Hands(s, s', id, p) && Effect(s, s', id, p)
    ensures Gives(s, s', id, p.began, p.got)
  {
    hide Contents;
    assert s'.results == s.results + [Got(id, p.began, s.clock, p.got, p.qhead.node)];
  }

  lemma PopStays(s: State, id: Tid)
    requires id in s.threads && s.threads[id].Popping? && id in SoloStep(s, id).threads
    requires Effect(s, SoloStep(s, id), id, s.threads[id])
    ensures !SoloStep(s, id).threads[id].Pushing?
  {
    hide PopStep, Contents;
  }

  /** From every reachable state: whoever runs alone inside a call returns, a push within 24 steps and a pop within 30. */
  lemma Returns(r: seq<State>, i: nat, id: Tid)
    requires IsRun(r) && i < |r| && id in r[i].threads && !r[i].threads[id].Idle?
    ensures var e := Solo(r[i], id, if r[i].threads[id].Pushing? then 24 else 30); id in e.threads && e.threads[id].Idle?
    ensures |Solo(r[i], id, if r[i].threads[id].Pushing? then 24 else 30).results| == |r[i].results| + 1
  {
    hide IsRun, Inv, Solo, Left;
    RunInv(r, i);
    if r[i].threads[id].Pushing? {
      PushAlone(r[i], id, 24);
    } else {
      SoloPopReturns(r[i], id, 30);
    }
  }

  lemma {:induction false} SoloPopReturns(s: State, id: Tid, n: nat)
    requires Inv(s) && id in s.threads && s.threads[id].Popping? && Left(s, s.threads[id]) <= n
    ensures var e := Solo(s, id, n); id in e.threads && e.threads[id].Idle? && |e.results| == |s.results| + 1
    decreases n
  {
    hide Inv, Contents, StepBy, Left, SoloStep, Solo;
    var p, s' := s.threads[id], SoloStep(s, id);
    assert n > 0 by { SomeLeft(s, p); }
    SoloInv(s, id);
    SoloLess(s, id);
    SoloUnfold(s, id, n);
    if s'.threads[id].Idle? {
      SoloDone(s', id, n - 1);
    } else {
      assert s'.threads[id].Popping? by { PopStays(s, id); }
      SoloPopReturns(s', id, n - 1);
    }
  }
}
