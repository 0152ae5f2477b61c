/**
 Linearizability of the queue of base/fifo_lockfree.h: every finished push, and every pop that
 returned a value, put exactly one event into the history, by a step of its own between its
 invocation and its return; every event belongs to one call; the history is that of a queue.
 */
module LockFreeHistory {
  import opened LockFreeQueue

  // ---- points ----

  /** Step j of the run is the step of thread id that puts e into the history. */
  ghost predicate LinPoint(r: seq<State>, j: nat, id: Tid, e: Event) {
    j + 1 < |r| && StepBy(r[j], r[j + 1], id) && r[j + 1].log == r[j].log + [e]
  }

  /** No step of thread id in [lo, hi) puts anything into the history. */
  ghost predicate Quiet(r: seq<State>, lo: nat, hi: nat, id: Tid) {
    forall j: nat, e: Event :: lo <= j < hi ==> !LinPoint(r, j, id, e)
  }

  /** Exactly one step of thread id in [lo, hi) puts something into the history, and that is e. */
  ghost predicate Once(r: seq<State>, lo: nat, hi: nat, id: Tid, e: Event) {
    exists j: nat :: lo <= j < hi && LinPoint(r, j, id, e) && Quiet(r, lo, j, id) && Quiet(r, j + 1, hi, id)
  }

  /** A step of thread id in [lo, hi) took v out of the queue, and node was the dummy at the head until then. */
  ghost predicate TookDummy(r: seq<State>, lo: nat, hi: nat, id: Tid, v: Value, node: Node) {
    exists j: nat :: lo <= j < hi && LinPoint(r, j, id, Dequeued(v)) && r[j].head.node == node
  }

  ghost predicate WasEmpty(r: seq<State>, lo: nat, hi: nat) {
    exists j: nat :: lo < j <= hi && j < |r| && Contents(r[j]) == []
  }

  // ---- what a call has done ----

  /** Between the step that takes effect and the return. */
  predicate InFlight(th: Thread) {
    (th.Pushing? && th.ppc.SwingTail?) || (th.Popping? && th.qpc.PopStoreValue?)
  }

  function EventOf(th: Thread): Event
    requires InFlight(th)
  {
    if th.Pushing? then Enqueued(th.val) else Dequeued(th.got)
  }

  /** What a thread in the middle of a call has achieved: nothing yet, or its one event. */
  ghost predicate ThreadWitness(r: seq<State>, i: nat, id: Tid, th: Thread) {
    !th.Idle? ==>
      && th.began <= i
      && (if InFlight(th) then Once(r, th.began, i, id, EventOf(th)) else Quiet(r, th.began, i, id))
      && (th.Popping? && InFlight(th) ==> TookDummy(r, th.began, i, id, th.got, th.qhead.node))
      && (th.Popping? && th.sawEmpty ==> WasEmpty(r, th.began, i))
  }

  /** A finished call put exactly one event into the history while it ran; a pop that returned NULL put none. */
  ghost predicate Linearized(r: seq<State>, res: Return) {
    match res
    case Pushed(id, began, at, v) => Once(r, began, at + 1, id, Enqueued(v))
    case Got(id, began, at, v, node) => Once(r, began, at + 1, id, Dequeued(v)) && TookDummy(r, began, at + 1, id, v, node)
    case Nothing(id, began, at) => Quiet(r, began, at + 1, id) && WasEmpty(r, began, at)
  }

  /** The result a thread is about to give back. */
  function ResultOf(th: Thread, id: Tid, at: nat): Return
    requires InFlight(th)
  {
    if th.Pushing? then Pushed(id, th.began, at, th.val) else Got(id, th.began, at, th.got, th.qhead.node)
  }

  /** What one step of thread id, at record p, does to the record, the history and the results. */
  ghost predicate Effect(s: State, s': State, id: Tid, p: Thread)
    requires !p.Idle?
  {
    && id in s'.threads && s'.threads == s.threads[id := s'.threads[id]]
    && var th := s'.threads[id];
    && (!th.Idle? ==> th.began == p.began && s'.results == s.results && !InFlight(p))
    && (if !th.Idle? && InFlight(th) then s'.log == s.log + [EventOf(th)] else s'.log == s.log)
    && (th.Idle? && InFlight(p) ==> s'.results == s.results + [ResultOf(p, id, s.clock)])
    && (th.Idle? && !InFlight(p) ==> p.Popping? && p.sawEmpty && s'.results == s.results + [Nothing(id, p.began, s.clock)])
    && (th.Popping? ==> p.Popping? && (th.sawEmpty && !p.sawEmpty ==> Contents(s') == []))
    && (th.Popping? && InFlight(th) ==> th.qhead.node == s.head.node)
    && (th.Pushing? ==> p.Pushing? && th.val == p.val)
  }

  lemma PushReadEffect(s: State, id: Tid, p: Thread)
    requires p.Pushing? && !PushStep(s, id, p).crashed && !s.crashed
    requires !p.ppc.LinkNode? && !p.ppc.SwingTail? && !p.ppc.HelpTail? && !p.ppc.ReadTarget?
    ensures Effect(s, PushStep(s, id, p), id, p)
  {
    hide Contents;
    var s' := PushStep(s, id, p);
    assert s'.results == s.results && s'.threads[id].Pushing? && !s'.threads[id].ppc.SwingTail?;
  }

  lemma PushCasEffect(s: State, id: Tid, p: Thread)
    requires p.Pushing? && !PushStep(s, id, p).crashed && !s.crashed
    requires p.ppc.LinkNode? || p.ppc.SwingTail? || p.ppc.HelpTail? || p.ppc.ReadTarget?
    ensures Effect(s, PushStep(s, id, p), id, p)
  {
    hide Contents;
  }

  lemma PopReadEffect(s: State, id: Tid, p: Thread)
    requires p.Popping? && !PopStep(s, id, p).crashed && !s.crashed
    requires p.qpc.PopHeadPtr? || p.qpc.PopHeadTag? || p.qpc.PopTailPtr? || p.qpc.PopTailTag? || p.qpc.PopNextTag? || p.qpc.PopCheckPtr? || p.qpc.PopReadValue?
    ensures Effect(s, PopStep(s, id, p), id, p)
  {
    hide Contents;
    var s' := PopStep(s, id, p);
    assert s'.results == s.results && s'.threads[id].Popping? && s'.threads[id].sawEmpty == p.sawEmpty;
  }

  lemma PopNextEffect(s: State, id: Tid, p: Thread)
    requires p.Popping? && !PopStep(s, id, p).crashed && !s.crashed && p.qpc.PopNextPtr?
    ensures Effect(s, PopStep(s, id, p), id, p)
  {
  }

  lemma PopCasEffect(s: State, id: Tid, p: Thread)
    requires p.Popping? && !PopStep(s, id, p).crashed && !s.crashed
    requires p.qpc.PopHelpTail? || p.qpc.PopSwingHead? || p.qpc.PopStoreValue?
    ensures Effect(s, PopStep(s, id, p), id, p)
  {
    hide Contents;
  }

  lemma PopDecideEffect(s: State, id: Tid, p: Thread)
    requires p.Popping? && !s.crashed && p.qpc.PopCheckTag? && (p.qnext.node == NULL ==> p.sawEmpty)
    ensures Effect(s, PopStep(s, id, p), id, p)
  {
    hide Contents;
  }

  lemma NoCrash(s: State)
    requires Inv(s)
    ensures !s.crashed
  {
  }

  /** A call began in the past, and reads NULL at the decision only if it saw the queue empty. */
  lemma Invoked(s: State, id: Tid)
    requires Inv(s) && id in s.threads
    ensures !s.threads[id].Idle? ==> s.threads[id].began <= s.clock
    ensures s.threads[id].Popping? && s.threads[id].qpc.PopCheckTag? && s.threads[id].qnext.node == NULL ==> s.threads[id].sawEmpty
  {
    InvParts(s, id);
    hide Inv, Shape;
  }

  lemma CallEffect(s: State, s': State, id: Tid)
    requires Inv(s) && Inv(s') && StepBy(s, s', id) && id in s.threads && !s.threads[id].Idle?
    ensures Effect(s, s', id, s.threads[id])
  {
    hide Inv, PushStep, PopStep, Effect;
    var p := s.threads[id];
    NoCrash(s);
    NoCrash(s');
    Invoked(s, id);
    if p.Pushing? {
      if p.ppc.LinkNode? || p.ppc.SwingTail? || p.ppc.HelpTail? || p.ppc.ReadTarget? {
        PushCasEffect(s, id, p);
      } else {
        PushReadEffect(s, id, p);
      }
    } else if p.qpc.PopCheckTag? {
      PopDecideEffect(s, id, p);
    } else if p.qpc.PopNextPtr? {
      PopNextEffect(s, id, p);
    } else if p.qpc.PopHelpTail? || p.qpc.PopSwingHead? || p.qpc.PopStoreValue? {
      PopCasEffect(s, id, p);
    } else {
      PopReadEffect(s, id, p);
    }
  }

  /** Entering a call: a new record, begun now, and nothing else that matters here. */
  lemma BeginEffect(s: State, s': State, id: Tid)
    requires StepBy(s, s', id) && (id !in s.threads || s.threads[id].Idle?)
    ensures id in s'.threads && s'.threads == s.threads[id := s'.threads[id]] && s'.results == s.results && s'.log == s.log
    ensures var th := s'.threads[id]; !th.Idle? && !InFlight(th) && th.began == s.clock && (th.Popping? ==> !th.sawEmpty)
  {
  }

  // ---- whose step it was ----

  /** A step changes the record of its own thread at most, and changes it when it adds an event. */
  lemma StepOwner(s: State, s': State, id: Tid)
    requires Inv(s) && Inv(s') && StepBy(s, s', id)
    ensures forall x :: x in s.threads && x != id ==> x in s'.threads && s'.threads[x] == s.threads[x]
    ensures s'.log != s.log ==> id in s.threads && id in s'.threads && s'.threads[id] != s.threads[id]
  {
    hide Inv, StepBy, Contents;
    if id !in s.threads || s.threads[id].Idle? {
      BeginEffect(s, s', id);
    } else {
      CallEffect(s, s', id);
    }
  }

  /** The point of an event determines the thread and the event. */
  lemma PointDetermines(r: seq<State>, j: nat, id: Tid, e: Event, id': Tid, e': Event)
    requires LinPoint(r, j, id, e) && LinPoint(r, j, id', e') && Inv(r[j]) && Inv(r[j + 1])
    ensures id == id' && e == e'
  {
    hide StepBy, Inv;
    assert (r[j].log + [e])[|r[j].log|] == (r[j].log + [e'])[|r[j].log|];
    assert r[j + 1].log != r[j].log;
    StepOwner(r[j], r[j + 1], id);
    StepOwner(r[j], r[j + 1], id');
  }

  lemma QuietNext(r: seq<State>, lo: nat, i: nat, id: Tid, mover: Tid)
    requires Quiet(r, lo, i, id) && i + 1 < |r| && StepBy(r[i], r[i + 1], mover) && Inv(r[i]) && Inv(r[i + 1])
    requires id != mover || r[i + 1].log == r[i].log
    ensures Quiet(r, lo, i + 1, id)
  {
    hide StepBy, Inv;
    forall j: nat, e: Event | lo <= j < i + 1
      ensures !LinPoint(r, j, id, e)
    {
      if j == i && LinPoint(r, j, id, e) {
        StepOwner(r[i], r[i + 1], id);
        StepOwner(r[i], r[i + 1], mover);
        assert false;
      }
    }
  }

  lemma OnceNext(r: seq<State>, lo: nat, i: nat, id: Tid, e: Event, mover: Tid)
    requires Once(r, lo, i, id, e) && i + 1 < |r| && StepBy(r[i], r[i + 1], mover) && Inv(r[i]) && Inv(r[i + 1])
    requires id != mover || r[i + 1].log == r[i].log
    ensures Once(r, lo, i + 1, id, e)
  {
    hide LinPoint, Quiet, Inv;
    var j: nat :| lo <= j < i && LinPoint(r, j, id, e) && Quiet(r, lo, j, id) && Quiet(r, j + 1, i, id);
    QuietNext(r, j + 1, i, id, mover);
  }

  lemma OnceNow(r: seq<State>, lo: nat, i: nat, id: Tid, e: Event)
    requires Quiet(r, lo, i, id) && lo <= i && LinPoint(r, i, id, e)
    ensures Once(r, lo, i + 1, id, e)
  {
    hide LinPoint;
  }

  // ---- threads and results over a run ----

  ghost predicate Witnessed(r: seq<State>, i: nat)
    requires i < |r|
  {
    && (forall id :: id in r[i].threads ==> ThreadWitness(r, i, id, r[i].threads[id]))
    && (forall res :: res in r[i].results ==> Linearized(r, res))
  }

  lemma OtherLater(r: seq<State>, i: nat, id: Tid, th: Thread, mover: Tid)
    requires ThreadWitness(r, i, id, th) && i + 1 < |r| && StepBy(r[i], r[i + 1], mover) && id != mover && Inv(r[i]) && Inv(r[i + 1])
    ensures ThreadWitness(r, i + 1, id, th)
  {
    hide Inv, Quiet, Once, StepBy;
    if !th.Idle? {
      if InFlight(th) {
        OnceNext(r, th.began, i, id, EventOf(th), mover);
      } else {
        QuietNext(r, th.began, i, id, mover);
      }
    }
  }

  /** The thread that moved: what it has achieved after the step. */
  lemma MoverWitness(r: seq<State>, i: nat, id: Tid, p: Thread)
    requires i + 1 < |r| && Inv(r[i]) && Inv(r[i + 1]) && StepBy(r[i], r[i + 1], id) && id in r[i].threads && r[i].threads[id] == p && !p.Idle?
    requires ThreadWitness(r, i, id, p) && Effect(r[i], r[i + 1], id, p)
    ensures ThreadWitness(r, i + 1, id, r[i + 1].threads[id])
  {
    hide Inv, Quiet, Once, StepBy, Contents;
    var s, s' := r[i], r[i + 1];
    var th := s'.threads[id];
    if !th.Idle? {
      if InFlight(th) {
        assert LinPoint(r, i, id, EventOf(th));
        OnceNow(r, th.began, i, id, EventOf(th));
      } else {
        QuietNext(r, th.began, i, id, id);
      }
    }
  }

  /** The result of the step, if it returned. */
  lemma ResultWitness(r: seq<State>, i: nat, id: Tid, p: Thread)
    requires i + 1 < |r| && Inv(r[i]) && Inv(r[i + 1]) && r[i].clock == i && StepBy(r[i], r[i + 1], id) && id in r[i].threads && r[i].threads[id] == p && !p.Idle?
    requires ThreadWitness(r, i, id, p) && Effect(r[i], r[i + 1], id, p)
    ensures r[i + 1].threads[id].Idle? && InFlight(p) ==> Linearized(r, ResultOf(p, id, i))
    ensures r[i + 1].threads[id].Idle? && !InFlight(p) ==> Linearized(r, Nothing(id, p.began, i))
  {
    hide Inv, Quiet, Once, StepBy, Contents, WasEmpty;
    if r[i + 1].threads[id].Idle? {
      if InFlight(p) {
        OnceNext(r, p.began, i, id, EventOf(p), id);
      } else {
        QuietNext(r, p.began, i, id, id);
      }
    }
  }

  lemma BeginWitness(r: seq<State>, i: nat, id: Tid)
    requires i + 1 < |r| && Inv(r[i]) && Inv(r[i + 1]) && r[i].clock == i && StepBy(r[i], r[i + 1], id) && (id !in r[i].threads || r[i].threads[id].Idle?)
    ensures id in r[i + 1].threads && ThreadWitness(r, i + 1, id, r[i + 1].threads[id])
  {
    hide Inv, StepBy, LinPoint;
    BeginEffect(r[i], r[i + 1], id);
    assert Quiet(r, i, i, id);
    QuietNext(r, i, i, id, id);
  }

  lemma StepWitnessed(r: seq<State>, i: nat, id: Tid)
    requires i + 1 < |r| && Inv(r[i]) && Inv(r[i + 1]) && r[i].clock == i && StepBy(r[i], r[i + 1], id) && Witnessed(r, i)
    ensures Witnessed(r, i + 1)
  {
    hide Inv, StepBy, ThreadWitness, Linearized, Contents;
    var s, s' := r[i], r[i + 1];
    if id !in s.threads || s.threads[id].Idle? {
      BeginEffect(s, s', id);
      BeginWitness(r, i, id);
    } else {
      CallEffect(s, s', id);
      MoverWitness(r, i, id, s.threads[id]);
      ResultWitness(r, i, id, s.threads[id]);
    }
    forall x | x in s'.threads
      ensures ThreadWitness(r, i + 1, x, s'.threads[x])
    {
      if x != id {
        OtherLater(r, i, x, s.threads[x], id);
      }
    }
  }

  lemma {:induction false} RunWitnessed(r: seq<State>, i: nat)
    requires IsRun(r) && i < |r|
    ensures Witnessed(r, i)
  {
    hide IsRun, Inv, StepBy;
    if i == 0 {
      RunStarts(r);
    } else {
      hide Witnessed;
      RunWitnessed(r, i - 1);
      RunInv(r, i - 1);
      RunInv(r, i);
      RunGoes(r, i - 1);
      var id :| StepBy(r[i - 1], r[i], id);
      StepWitnessed(r, i - 1, id);
    }
  }

  // ---- every event belongs to a call, and calls of a thread follow one another ----

  /** Thread id owns the event of step j: its running call, or one of its finished calls, covers the step. */
  ghost predicate Claimed(s: State, j: nat, id: Tid) {
    || (id in s.threads && InFlight(s.threads[id]) && s.threads[id].began <= j)
    || exists n :: 0 <= n < |s.results| && Covers(s.results[n], j, id)
  }

  predicate Covers(res: Return, j: nat, id: Tid) {
    !res.Nothing? && res.who == id && res.began <= j <= res.at
  }

  ghost predicate AllClaimed(r: seq<State>, i: nat)
    requires i < |r|
  {
    forall j: nat, id: Tid, e: Event :: j < i && LinPoint(r, j, id, e) ==> Claimed(r[i], j, id)
  }

  /** Entry k of the history was put there by one step of one thread. */
  ghost predicate HasPoint(r: seq<State>, i: nat, k: nat)
    requires i < |r| && k < |r[i].log|
  {
    exists j: nat, id: Tid :: j < i && |r[j].log| == k && LinPoint(r, j, id, r[i].log[k])
  }

  ghost predicate AllHavePoints(r: seq<State>, i: nat)
    requires i < |r|
  {
    forall k: nat :: k < |r[i].log| ==> HasPoint(r, i, k)
  }

  /** Finished calls of one thread do not overlap, nor with its running call. */
  ghost predicate CallsApart(s: State) {
    && (forall a, b :: 0 <= a < b < |s.results| && s.results[a].who == s.results[b].who ==> s.results[a].at < s.results[b].began)
    && (forall a :: 0 <= a < |s.results| ==> s.results[a].at < s.clock)
    && (forall a :: 0 <= a < |s.results| ==> Before(s, s.results[a]))
  }

  predicate Before(s: State, res: Return) {
    res.who in s.threads && !s.threads[res.who].Idle? ==> res.at < s.threads[res.who].began
  }

  lemma StillClaimed(s: State, s': State, id: Tid, j: nat, x: Tid)
    requires Claimed(s, j, x) && StepBy(s, s', id) && Inv(s) && Inv(s') && j < s.clock
    ensures Claimed(s', j, x)
  {
    hide Inv, StepBy, Contents;
    if id !in s.threads || s.threads[id].Idle? {
      BeginEffect(s, s', id);
    } else {
      CallEffect(s, s', id);
    }
    if x in s.threads && InFlight(s.threads[x]) && s.threads[x].began <= j {
      if x == id {
        var n := |s.results|;
        assert Covers(s'.results[n], j, x);
      }
    } else {
      var n :| 0 <= n < |s.results| && Covers(s.results[n], j, x);
      assert Covers(s'.results[n], j, x);
    }
  }

  lemma StepClaimed(r: seq<State>, i: nat, id: Tid)
    requires i + 1 < |r| && Inv(r[i]) && Inv(r[i + 1]) && r[i].clock == i && StepBy(r[i], r[i + 1], id) && AllClaimed(r, i)
    ensures AllClaimed(r, i + 1)
  {
    hide Inv, StepBy, Claimed, Contents;
    var s, s' := r[i], r[i + 1];
    forall j: nat, x: Tid, e: Event | j < i + 1 && LinPoint(r, j, x, e)
      ensures Claimed(s', j, x)
    {
      if j < i {
        StillClaimed(s, s', id, j, x);
      } else {
        NewClaim(s, s', id, x, e, i);
      }
    }
  }

  lemma NewClaim(s: State, s': State, id: Tid, x: Tid, e: Event, i: nat)
    requires Inv(s) && Inv(s') && s.clock == i && StepBy(s, s', id) && StepBy(s, s', x) && s'.log == s.log + [e]
    ensures Claimed(s', i, x)
  {
    hide Inv, StepBy, Contents;
    assert s'.log != s.log;
    StepOwner(s, s', id);
    StepOwner(s, s', x);
    if s.threads[x].Idle? {
      BeginEffect(s, s', x);
      assert false;
    }
    CallEffect(s, s', x);
    Invoked(s, x);
  }

  lemma StepHasPoints(r: seq<State>, i: nat, id: Tid)
    requires i + 1 < |r| && Inv(r[i]) && Inv(r[i + 1]) && StepBy(r[i], r[i + 1], id) && AllHavePoints(r, i)
    ensures AllHavePoints(r, i + 1)
  {
    hide Inv, StepBy, Contents;
    var s, s' := r[i], r[i + 1];
    if id !in s.threads || s.threads[id].Idle? {
      BeginEffect(s, s', id);
    } else {
      CallEffect(s, s', id);
    }
    hide Effect;
    var next := i + 1;
    forall k: nat | k < |s'.log|
      ensures HasPoint(r, next, k)
    {
      if k < |s.log| {
        assert HasPoint(r, i, k);
        assert s'.log[k] == s.log[k];
      } else {
        assert LinPoint(r, i, id, s'.log[k]);
      }
    }
  }

  lemma StepApart(s: State, s': State, id: Tid)
    requires Inv(s) && Inv(s') && StepBy(s, s', id) && CallsApart(s) && s'.clock == s.clock + 1
    ensures CallsApart(s')
  {
    hide Inv, StepBy, Contents;
    if id !in s.threads || s.threads[id].Idle? {
      BeginEffect(s, s', id);
    } else {
      CallEffect(s, s', id);
      Invoked(s, id);
    }
    hide Effect;
    forall a | 0 <= a < |s'.results|
      ensures Before(s', s'.results[a]) && s'.results[a].at < s'.clock
    {
      if a < |s.results| {
        assert Before(s, s.results[a]);
      }
    }
    forall a, b | 0 <= a < b < |s'.results| && s'.results[a].who == s'.results[b].who
      ensures s'.results[a].at < s'.results[b].began
    {
      assert Before(s, s.results[a]);
    }
  }

  lemma {:induction false} RunHistory(r: seq<State>, i: nat)
    requires IsRun(r) && i < |r|
    ensures AllClaimed(r, i) && AllHavePoints(r, i) && CallsApart(r[i])
  {
    hide IsRun, Inv, StepBy;
    if i == 0 {
      RunStarts(r);
    } else {
      hide AllClaimed, AllHavePoints, CallsApart;
      RunHistory(r, i - 1);
      RunInv(r, i - 1);
      RunInv(r, i);
      RunGoes(r, i - 1);
      var id :| StepBy(r[i - 1], r[i], id);
      StepClaimed(r, i - 1, id);
      StepHasPoints(r, i - 1, id);
      StepApart(r[i - 1], r[i], id);
    }
  }

  // ---- the theorem ----

  /** Entry k of the history belongs to one call: it is its only event, put there by a step of its own. */
  ghost predicate OfOneCall(r: seq<State>, i: nat, k: nat)
    requires i < |r| && k < |r[i].log|
  {
    exists j: nat, id: Tid :: j < i && |r[j].log| == k && LinPoint(r, j, id, r[i].log[k]) && Claimed(r[i], j, id)
  }

  /**
   Linearizability: over every run, every finished call that changed the queue did so by exactly
   one step of its own thread between its invocation and its return; a pop that returned NULL did
   nothing, and the queue was empty at some moment in between; every entry of the history belongs
   to a call, finished or past its effect; and the history is that of a sequential queue ending
   with what the queue now holds.
   */
  lemma Linearizable(r: seq<State>, i: nat)
    requires IsRun(r) && i < |r|
    ensures forall res :: res in r[i].results ==> Linearized(r, res)
    ensures forall k: nat :: k < |r[i].log| ==> OfOneCall(r, i, k)
    ensures Replay(r[i].log) == Holding(Contents(r[i]))
  {
    hide IsRun, Inv, Contents, Replay, Linearized;
    RunWitnessed(r, i);
    RunHistory(r, i);
    RunInv(r, i);
    ShapeFacts(r[i]) by { InvShape(r[i]); }
    hide LinPoint, Claimed;
    forall k: nat | k < |r[i].log|
      ensures OfOneCall(r, i, k)
    {
      assert HasPoint(r, i, k);
    }
  }

  lemma InvShape(s: State)
    requires Inv(s)
    ensures Shape(s)
  {
  }

  lemma PointInside(r: seq<State>, j: nat, id: Tid, e: Event)
    requires LinPoint(r, j, id, e)
    ensures j + 1 < |r|
  {
  }

  /** Two finished calls that changed the queue did so at different steps. */
  lemma DifferentPoints(r: seq<State>, i: nat, a: nat, b: nat, j: nat, j': nat, e: Event, e': Event)
    requires IsRun(r) && i < |r| && a < b < |r[i].results|
    requires Covers(r[i].results[a], j, r[i].results[a].who) && LinPoint(r, j, r[i].results[a].who, e)
    requires Covers(r[i].results[b], j', r[i].results[b].who) && LinPoint(r, j', r[i].results[b].who, e')
    ensures j != j'
  {
    hide IsRun, LinPoint;
    RunHistory(r, i);
    if j == j' {
      hide Inv, Covers;
      assert j + 1 < |r| by { PointInside(r, j, r[i].results[a].who, e); }
      RunInv(r, j);
      RunInv(r, j + 1);
      PointDetermines(r, j, r[i].results[a].who, e, r[i].results[b].who, e');
      assert false;
    }
  }
}
