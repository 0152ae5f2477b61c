/**
 What a pop of base/fifo_lockfree.h hands to its caller: the node that was the dummy, holding the
 value taken, and nobody else gets that node.
 */
module LockFreeDelivery {
  import opened LockFreeQueue
  import opened LockFreeHistory

  // ---- what is handed out ----

  /** The node handed out was at place k of the chain and holds the value pushed with its successor. */
  ghost predicate GivenAt(s: State, res: Return, k: nat)
    requires res.Got?
  {
    k < s.h && InChain(s, res.node, k) && res.node in s.value && s.value[res.node] == res.v && ValueAt(s, res.v, k + 1)
  }

  ghost predicate Given(s: State, res: Return) {
    res.Got? ==> exists k: nat :: GivenAt(s, res, k)
  }

  /** A thread that has taken a value and not yet stored it owns the node it will hand out. */
  predicate Takes(th: Thread) {
    th.Popping? && th.qpc.PopStoreValue?
  }

  ghost predicate Apart(s: State) {
    && (forall a, b :: 0 <= a < b < |s.results| && s.results[a].Got? && s.results[b].Got? ==> s.results[a].node != s.results[b].node)
    && (forall a, id :: 0 <= a < |s.results| && s.results[a].Got? && id in s.threads && Takes(s.threads[id])
          ==> s.results[a].node != s.threads[id].qhead.node)
    && (forall i, j :: i in s.threads && j in s.threads && i != j && Takes(s.threads[i]) && Takes(s.threads[j])
          ==> s.threads[i].qhead.node != s.threads[j].qhead.node)
  }

  ghost predicate Delivered(s: State) {
    && (forall a :: 0 <= a < |s.results| ==> Given(s, s.results[a]))
    && Apart(s)
    && s.vals != [] && s.vals[1..] == EnqueuedValues(s.log)
  }

  // ---- one step ----

  /** Chain, values and head only grow. */
  ghost predicate Onward(s: State, s': State) {
    s.chain <= s'.chain && s.vals <= s'.vals && s.h <= s'.h
  }

  /** The step of a pop that stores the value and returns the node. */
  ghost predicate Stores(s: State, s': State, p: Thread)
    requires p.Popping?
  {
    && s'.value == s.value[p.qhead.node := p.got]
    && |s'.results| == |s.results| + 1 && s'.results[..|s.results|] == s.results
    && var res := s'.results[|s.results|];
    && res.Got? && res.node == p.qhead.node && res.v == p.got
  }

  /** Any other step: no node in use is written, and nothing is handed out. */
  ghost predicate Leaves(s: State, s': State) {
    && s'.value == s.value
    && (|| s'.results == s.results
        || (|s'.results| == |s.results| + 1 && s'.results[..|s.results|] == s.results && !s'.results[|s.results|].Got?))
  }

  /** The history and the values pushed grow together. */
  ghost predicate Records(s: State, s': State) {
    || (|s'.vals| == |s.vals| && s'.log == s.log)
    || (|s'.vals| == |s.vals| && |s'.log| == |s.log| + 1 && s'.log[..|s.log|] == s.log && s'.log[|s.log|].Dequeued?)
    || (|s'.vals| == |s.vals| + 1 && s'.log == s.log + [Enqueued(s'.vals[|s.vals|])])
  }

  /** What a step of thread id, at record p inside a call, does to memory and to what is handed out. */
  ghost predicate Hands(s: State, s': State, id: Tid, p: Thread) {
    && Onward(s, s') && Records(s, s')
    && id in s'.threads && s'.threads == s.threads[id := s'.threads[id]]
    && var th := s'.threads[id];
    && (if Takes(p) then th.Idle? && Stores(s, s', p) else Leaves(s, s'))
    && (Takes(th) ==> s'.h == s.h + 1 && th.qhead.node == s.head.node)
  }

  lemma PushReadsHand(s: State, id: Tid, p: Thread)
    requires p.Pushing? && !s.crashed && !PushStep(s, id, p).crashed
    requires !p.ppc.LinkNode? && !p.ppc.SwingTail? && !p.ppc.HelpTail? && !p.ppc.ReadTarget?
    ensures Hands(s, PushStep(s, id, p), id, p)
  {
    hide Contents;
  }

  lemma PushCasHands(s: State, id: Tid, p: Thread)
    requires p.Pushing? && !s.crashed && !PushStep(s, id, p).crashed
    requires p.ppc.LinkNode? || p.ppc.SwingTail? || p.ppc.HelpTail? || p.ppc.ReadTarget?
    ensures Hands(s, PushStep(s, id, p), id, p)
  {
    hide Contents;
  }

  lemma PopReadsHand(s: State, id: Tid, p: Thread)
    requires p.Popping? && !s.crashed && !PopStep(s, id, p).crashed
    requires p.qpc.PopHeadPtr? || p.qpc.PopHeadTag? || p.qpc.PopTailPtr? || p.qpc.PopTailTag? || p.qpc.PopNextPtr? || p.qpc.PopNextTag?
             || p.qpc.PopCheckPtr?
    ensures Hands(s, PopStep(s, id, p), id, p)
  {
    hide Contents;
  }

  lemma PopDecidesHand(s: State, id: Tid, p: Thread)
    requires p.Popping? && !s.crashed && !PopStep(s, id, p).crashed
    requires p.qpc.PopCheckTag? || p.qpc.PopReadValue?
    ensures Hands(s, PopStep(s, id, p), id, p)
  {
    hide Contents;
  }

  lemma PopHelpHands(s: State, id: Tid, p: Thread)
    requires p.Popping? && !s.crashed && !PopStep(s, id, p).crashed && p.qpc.PopHelpTail?
    ensures Hands(s, PopStep(s, id, p), id, p)
  {
    hide Contents;
  }

  lemma PopCasHands(s: State, id: Tid, p: Thread)
    requires p.Popping? && !s.crashed && !PopStep(s, id, p).crashed
    requires p.qpc.PopSwingHead? || p.qpc.PopStoreValue?
    ensures Hands(s, PopStep(s, id, p), id, p)
  {
    hide Contents;
  }

  lemma CallHands(s: State, s': State, id: Tid)
    requires Inv(s) && Inv(s') && StepBy(s, s', id) && id in s.threads && !s.threads[id].Idle?
    ensures Hands(s, s', id, s.threads[id])
  {
    hide Inv, PushStep, PopStep, Hands;
    var p := s.threads[id];
    NoCrash(s);
    NoCrash(s');
    if p.Pushing? {
      if p.ppc.LinkNode? || p.ppc.SwingTail? || p.ppc.HelpTail? || p.ppc.ReadTarget? {
        PushCasHands(s, id, p);
      } else {
        PushReadsHand(s, id, p);
      }
    } else if p.qpc.PopCheckTag? || p.qpc.PopReadValue? {
      PopDecidesHand(s, id, p);
    } else if p.qpc.PopHelpTail? {
      PopHelpHands(s, id, p);
    } else if p.qpc.PopSwingHead? || p.qpc.PopStoreValue? {
      PopCasHands(s, id, p);
    } else {
      PopReadsHand(s, id, p);
    }
  }

  /** Entering a call writes at most to a node that was never used. */
  lemma BeginHands(s: State, s': State, id: Tid)
    requires StepBy(s, s', id) && (id !in s.threads || s.threads[id].Idle?)
    ensures id in s'.threads && s'.threads == s.threads[id := s'.threads[id]] && !Takes(s'.threads[id])
    ensures s'.results == s.results && s'.log == s.log && s'.chain == s.chain && s'.vals == s.vals && s'.h == s.h
    ensures forall n :: n in s.used && n in s.value ==> n in s'.value && s'.value[n] == s.value[n]
  {
  }

  /** Places of the chain hold different, used nodes. */
  lemma ChainFacts(s: State)
    requires Inv(s)
    ensures Distinct(s.chain) && AllIn(s.chain, s.used) && s.h < |s.chain| == |s.vals| && InChain(s, s.head.node, s.h)
    ensures forall i :: 0 <= i < |s.chain| ==> s.chain[i] in s.value
  {
    hide Replay, Contents;
  }

  /** A thread about to store has a place of its own at which its value belongs. */
  lemma TakerFacts(s: State, id: Tid)
    requires Inv(s) && id in s.threads && Takes(s.threads[id])
    ensures var p := s.threads[id]; p.k < s.h && InChain(s, p.qhead.node, p.k) && ValueAt(s, p.got, p.k + 1)
  {
    InvParts(s, id);
    hide Inv, Shape;
  }

  lemma GivenKept(s: State, s': State, res: Return)
    requires Given(s, res) && Onward(s, s')
    requires res.Got? ==> res.node in s'.value && (res.node in s.value ==> s'.value[res.node] == s.value[res.node])
    ensures Given(s', res)
  {
    if res.Got? {
      var k: nat :| GivenAt(s, res, k);
      assert GivenAt(s', res, k);
    }
  }

  lemma BeginDelivers(s: State, s': State, id: Tid)
    requires Inv(s) && Delivered(s) && StepBy(s, s', id) && (id !in s.threads || s.threads[id].Idle?)
    ensures Delivered(s')
  {
    hide Inv, StepBy, EnqueuedValues;
    BeginHands(s, s', id);
    ChainFacts(s);
    forall a | 0 <= a < |s'.results|
      ensures Given(s', s'.results[a])
    {
      GivenInMemory(s, s.results[a]);
      GivenKept(s, s', s.results[a]);
    }
  }

  /** The node taken now was never taken before: it was the head until this step. */
  lemma NewNode(s: State, s': State, id: Tid)
    requires Inv(s) && Delivered(s) && id in s.threads && Hands(s, s', id, s.threads[id]) && Takes(s'.threads[id])
    ensures forall a :: 0 <= a < |s.results| && s.results[a].Got? ==> s.results[a].node != s'.threads[id].qhead.node
    ensures forall j :: j in s.threads && Takes(s.threads[j]) ==> s.threads[j].qhead.node != s'.threads[id].qhead.node
  {
    hide Inv, EnqueuedValues;
    ChainFacts(s);
    forall a | 0 <= a < |s.results| && s.results[a].Got?
      ensures s.results[a].node != s.head.node
    {
      assert Given(s, s.results[a]);
    }
    forall j | j in s.threads && Takes(s.threads[j])
      ensures s.threads[j].qhead.node != s.head.node
    {
      TakerFacts(s, j);
    }
  }

  lemma ApartAfter(s: State, s': State, id: Tid)
    requires Inv(s) && Delivered(s) && id in s.threads && Hands(s, s', id, s.threads[id])
    ensures Apart(s')
  {
    hide Inv, EnqueuedValues, Given;
    var p := s.threads[id];
    if Takes(s'.threads[id]) {
      NewNode(s, s', id);
    }
    var n := |s.results|;
    assert forall a :: 0 <= a < n ==> s'.results[a] == s.results[a];
  }

  lemma ResultsAfter(s: State, s': State, id: Tid)
    requires Inv(s) && Inv(s') && Delivered(s) && id in s.threads && Hands(s, s', id, s.threads[id])
    ensures forall a :: 0 <= a < |s'.results| ==> Given(s', s'.results[a])
  {
    hide Inv, EnqueuedValues, Given;
    var p, n := s.threads[id], |s.results|;
    assert forall a :: 0 <= a < n ==> s'.results[a] == s.results[a];
    forall a | 0 <= a < |s'.results|
      ensures Given(s', s'.results[a])
    {
      if a < n {
        GivenInMemory(s, s.results[a]);
        GivenKept(s, s', s.results[a]);
      } else if Takes(p) {
        TakerFacts(s, id);
        NewGiven(s', s'.results[a], p.k);
      } else {
        NoGift(s', s'.results[a]);
      }
    }
  }

  lemma GivenInMemory(s: State, res: Return)
    requires Given(s, res)
    ensures res.Got? ==> res.node in s.value && res.node in s.chain
  {
  }

  lemma NewGiven(s: State, res: Return, k: nat)
    requires res.Got? && GivenAt(s, res, k)
    ensures Given(s, res)
  {
  }

  lemma NoGift(s: State, res: Return)
    requires !res.Got?
    ensures Given(s, res)
  {
  }

  lemma ValuesAfter(s: State, s': State, id: Tid)
    requires Delivered(s) && id in s.threads && Hands(s, s', id, s.threads[id])
    ensures s'.vals != [] && s'.vals[1..] == EnqueuedValues(s'.log)
  {
    if |s'.vals| == |s.vals| {
      assert s'.vals == s.vals;
    } else {
      assert s'.vals == s.vals + [s'.vals[|s.vals|]];
      assert s'.vals[1..] == s.vals[1..] + [s'.vals[|s.vals|]];
      assert s'.log[..|s'.log| - 1] == s.log;
    }
  }

  lemma StepDelivers(s: State, s': State, id: Tid)
    requires Inv(s) && Inv(s') && Delivered(s) && StepBy(s, s', id)
    ensures Delivered(s')
  {
    hide Inv, StepBy, Hands, Delivered, Apart, Given;
    if id !in s.threads || s.threads[id].Idle? {
      BeginDelivers(s, s', id);
    } else {
      CallHands(s, s', id);
      ApartAfter(s, s', id);
      ResultsAfter(s, s', id);
      ValuesAfter(s, s', id);
      DeliveredIntro(s');
    }
  }

  lemma DeliveredIntro(s: State)
    requires forall a :: 0 <= a < |s.results| ==> Given(s, s.results[a])
    requires Apart(s) && s.vals != [] && s.vals[1..] == EnqueuedValues(s.log)
    ensures Delivered(s)
  {
  }

  lemma {:induction false} RunDelivers(r: seq<State>, i: nat)
    requires IsRun(r) && i < |r|
    ensures Delivered(r[i])
  {
    hide IsRun, Inv, StepBy;
    if i == 0 {
      RunStarts(r);
    } else {
      hide Delivered;
      RunDelivers(r, i - 1);
      RunInv(r, i - 1);
      RunInv(r, i);
      RunGoes(r, i - 1);
      var id :| StepBy(r[i - 1], r[i], id);
      StepDelivers(r[i - 1], r[i], id);
    }
  }

  // ---- the theorems ----

  /** The values dequeued are those at the places the head has passed. */
  lemma DequeuedAre(s: State)
    requires Inv(s) && Delivered(s)
    ensures |DequeuedValues(s.log)| == s.h && forall k :: 0 <= k < s.h ==> k + 1 < |s.vals| && DequeuedValues(s.log)[k] == s.vals[k + 1]
  {
    hide Inv, Replay, EnqueuedValues, DequeuedValues;
    ChainFacts(s);
    ShapeFacts(s) by { InvShape(s); }
    LegalIsFifo(s.log);
    var d := DequeuedValues(s.log);
    assert s.vals[1..] == d + s.vals[s.h + 1..];
    assert |d| == s.h;
    forall k | 0 <= k < s.h
      ensures d[k] == s.vals[k + 1]
    {
      assert d[k] == s.vals[1..][k];
    }
  }

  /**
   Over every run: a node handed out holds the value its pop took from the queue, at the return and
   for ever after; it was the dummy when the k-th value was taken, and that is its value; and no
   two pops hand out the same node.
   */
  lemma HandedOut(r: seq<State>, i: nat, a: nat) returns (k: nat)
    requires IsRun(r) && i < |r| && a < |r[i].results| && r[i].results[a].Got?
    ensures var res := r[i].results[a];
            && res.node in r[i].value && r[i].value[res.node] == res.v
            && k < |DequeuedValues(r[i].log)| && DequeuedValues(r[i].log)[k] == r[i].value[res.node]
            && k < |r[i].chain| && r[i].chain[k] == res.node
    ensures forall b :: 0 <= b < |r[i].results| && b != a && r[i].results[b].Got? ==> r[i].results[b].node != r[i].results[a].node
  {
    hide IsRun, Inv, EnqueuedValues, DequeuedValues;
    RunInv(r, i);
    RunDelivers(r, i);
    DequeuedAre(r[i]);
    var res := r[i].results[a];
    assert Given(r[i], res);
    k :| GivenAt(r[i], res, k);
  }

  /** The same node was the dummy at the head until the step at which this call took its value. */
  lemma WasDummy(r: seq<State>, i: nat, a: nat)
    requires IsRun(r) && i < |r| && a < |r[i].results| && r[i].results[a].Got?
    ensures var res := r[i].results[a];
            res.node in r[i].value && TookDummy(r, res.began, res.at + 1, res.who, r[i].value[res.node], res.node)
  {
    hide IsRun, TookDummy, Once;
    RunWitnessed(r, i);
    assert Linearized(r, r[i].results[a]);
    var k := HandedOut(r, i, a);
  }
}
