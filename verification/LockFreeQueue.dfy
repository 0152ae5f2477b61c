/**
 The lock-free queue of base/fifo_lockfree.h as a state machine: any number of threads run
 push and pop, and every read of shared memory and every CAS2 is one step of one thread.

 Memory is sequentially consistent, the 64-bit tags do not wrap, and a node handed to push
 has not been used before.  Fields marked "auxiliary" exist only to state properties: no
 step of the algorithm depends on them.
 */
module LockFreeQueue {

  type Node = nat
  type Value = int
  type Tid = nat

  const NULL: Node := 0

  /** pointer_t: a node and the counter CAS2 compares with it. */
  datatype Ptr = Ptr(node: Node, tag: nat)

  /** The shared accesses of push, in program order. */
  datatype PushPc =
    | ReadTailPtr | ReadTailTag | ReadNextPtr | ReadNextTag | CheckTailPtr | CheckTailTag
    | ReadTarget | LinkNode | HelpTail | SwingTail

  /** The shared accesses of pop, in program order. */
  datatype PopPc =
    | PopHeadPtr | PopHeadTag | PopTailPtr | PopTailTag | PopNextPtr | PopNextTag | PopCheckPtr | PopCheckTag
    | PopHelpTail | PopReadValue | PopSwingHead | PopStoreValue

  /**
   A thread between calls or inside one.  began is the time of the call, k and m are the
   positions in the chain of the nodes the thread has read (auxiliary); sawEmpty records
   that the queue was empty when head->next was read as NULL (auxiliary).
   */
  datatype Thread =
    | Idle
    | Pushing(ppc: PushPc, nd: Node, val: Value, ptail: Ptr, pnext: Ptr, target: Node, began: nat, k: nat, m: nat)
    | Popping(qpc: PopPc, qhead: Ptr, qtail: Ptr, qnext: Ptr, got: Value, sawEmpty: bool, began: nat, k: nat, m: nat)

  /** What happened to the queue, in the order of the successful CAS2 steps (auxiliary). */
  datatype Event = Enqueued(v: Value) | Dequeued(v: Value)

  /** A finished call: when it ran and what it gave back; v is the value a pop took from the history (auxiliary), node what it returned. */
  datatype Return =
    | Pushed(who: Tid, began: nat, at: nat, v: Value)
    | Got(who: Tid, began: nat, at: nat, v: Value, node: Node)
    | Nothing(who: Tid, began: nat, at: nat)

  datatype State = State(
    head: Ptr, tail: Ptr, next: map<Node, Ptr>, value: map<Node, Value>, threads: map<Tid, Thread>,
    crashed: bool, results: seq<Return>, clock: nat,
    // auxiliary: every node ever linked and its value, oldest first; where head and tail are; the history
    chain: seq<Node>, vals: seq<Value>, h: nat, t: nat, log: seq<Event>, used: set<Node>)

  /** fifo_lockfree_t(): one dummy node. */
  predicate Init(s: State) {
    && s.chain == [s.head.node] && s.head.node != NULL && s.head.tag == 0 && s.tail == s.head
    && s.next == map[s.head.node := Ptr(NULL, 0)] && s.value.Keys == {s.head.node} && s.vals == [s.value[s.head.node]]
    && s.h == 0 && s.t == 0 && s.log == [] && s.used == {s.head.node} && s.threads == map[]
    && !s.crashed && s.results == [] && s.clock == 0
  }

  // ---- steps ----

  function SetThread(s: State, id: Tid, th: Thread): State {
    s.(threads := s.threads[id := th], clock := s.clock + 1)
  }

  /** A dereference of a node that does not exist. */
  function Crash(s: State): State {
    s.(crashed := true, clock := s.clock + 1)
  }

  /** Entering push: the node is still private, so its fields are set at once. */
  function BeginPush(s: State, id: Tid, nd: Node, val: Value, tag: nat): State {
    SetThread(s.(next := s.next[nd := Ptr(NULL, tag)], value := s.value[nd := val], used := s.used + {nd}),
              id, Pushing(ReadTailPtr, nd, val, Ptr(NULL, 0), Ptr(NULL, 0), NULL, s.clock, 0, 0))
  }

  function BeginPop(s: State, id: Tid): State {
    SetThread(s, id, Popping(PopHeadPtr, Ptr(NULL, 0), Ptr(NULL, 0), Ptr(NULL, 0), 0, false, s.clock, 0, 0))
  }

  function PushStep(s: State, id: Tid, p: Thread): (s': State)
    requires p.Pushing?
    ensures s'.clock == s.clock + 1
  {
    match p.ppc
    case ReadTailPtr => SetThread(s, id, p.(ppc := ReadTailTag, ptail := Ptr(s.tail.node, p.ptail.tag), k := s.t))
    case ReadTailTag => SetThread(s, id, p.(ppc := ReadNextPtr, ptail := Ptr(p.ptail.node, s.tail.tag)))
    case ReadNextPtr =>
      if p.ptail.node !in s.next then Crash(s) else
      SetThread(s, id, p.(ppc := ReadNextTag, pnext := Ptr(s.next[p.ptail.node].node, p.pnext.tag)))
    case ReadNextTag =>
      if p.ptail.node !in s.next then Crash(s) else
      SetThread(s, id, p.(ppc := CheckTailPtr, pnext := Ptr(p.pnext.node, s.next[p.ptail.node].tag)))
    case CheckTailPtr => SetThread(s, id, p.(ppc := if p.ptail.node == s.tail.node then CheckTailTag else ReadTailPtr))
    case CheckTailTag =>
      SetThread(s, id, p.(ppc := if p.ptail.tag != s.tail.tag then ReadTailPtr
                                 else if p.pnext.node == NULL then ReadTarget else HelpTail))
    case ReadTarget =>
      // nd->next.tag = next.tag + 1 is a private write; then this->tail_.ptr is read again for the address
      SetThread(s.(next := s.next[p.nd := Ptr(NULL, p.pnext.tag + 1)]), id, p.(ppc := LinkNode, target := s.tail.node, m := s.t))
    case LinkNode =>
      if p.target !in s.next then Crash(s)
      else if s.next[p.target] == p.pnext then
        SetThread(s.(next := s.next[p.target := Ptr(p.nd, p.pnext.tag + 1)],
                     chain := s.chain + [p.nd], vals := s.vals + [p.val], log := s.log + [Enqueued(p.val)]),
                  id, p.(ppc := SwingTail, m := |s.chain|))
      else SetThread(s, id, p.(ppc := ReadTailPtr))
    case HelpTail =>
      var s1 := s.(next := s.next[p.nd := Ptr(NULL, p.ptail.tag + 1)]);
      SetThread(CasTail(s1, p.ptail, p.pnext.node), id, p.(ppc := ReadTailPtr))
    case SwingTail =>
      SetThread(CasTail(s, p.ptail, p.nd).(results := s.results + [Pushed(id, p.began, s.clock, p.val)]), id, Idle)
  }

  /** CAS2(&tail_, expected, (node, expected.tag + 1)). */
  function CasTail(s: State, expected: Ptr, node: Node): State {
    if s.tail == expected then s.(tail := Ptr(node, expected.tag + 1), t := s.t + 1) else s
  }

  function PopStep(s: State, id: Tid, p: Thread): (s': State)
    requires p.Popping?
    ensures s'.clock == s.clock + 1
  {
    match p.qpc
    case PopHeadPtr => SetThread(s, id, p.(qpc := PopHeadTag, qhead := Ptr(s.head.node, p.qhead.tag), k := s.h))
    case PopHeadTag => SetThread(s, id, p.(qpc := PopTailPtr, qhead := Ptr(p.qhead.node, s.head.tag)))
    case PopTailPtr => SetThread(s, id, p.(qpc := PopTailTag, qtail := Ptr(s.tail.node, p.qtail.tag), m := s.t))
    case PopTailTag => SetThread(s, id, p.(qpc := PopNextPtr, qtail := Ptr(p.qtail.node, s.tail.tag)))
    case PopNextPtr =>
      if p.qhead.node !in s.next then Crash(s) else
      SetThread(s, id, p.(qpc := PopNextTag, qnext := Ptr(s.next[p.qhead.node].node, p.qnext.tag),
                          sawEmpty := p.sawEmpty || Contents(s) == []))
    case PopNextTag =>
      if p.qhead.node !in s.next then Crash(s) else
      SetThread(s, id, p.(qpc := PopCheckPtr, qnext := Ptr(p.qnext.node, s.next[p.qhead.node].tag)))
    case PopCheckPtr => SetThread(s, id, p.(qpc := if p.qhead.node == s.head.node then PopCheckTag else PopHeadPtr))
    case PopCheckTag =>
      if p.qhead.tag != s.head.tag then SetThread(s, id, p.(qpc := PopHeadPtr))
      else if p.qhead.node != p.qtail.node then SetThread(s, id, p.(qpc := PopReadValue))
      else if p.qnext.node != NULL then SetThread(s, id, p.(qpc := PopHelpTail))
      else SetThread(s.(results := s.results + [Nothing(id, p.began, s.clock)]), id, Idle)
    case PopHelpTail => SetThread(CasTail(s, p.qtail, p.qnext.node), id, p.(qpc := PopHeadPtr))
    case PopReadValue =>
      if p.qnext.node !in s.value then Crash(s) else
      SetThread(s, id, p.(qpc := PopSwingHead, got := s.value[p.qnext.node]))
    case PopSwingHead =>
      if s.head == p.qhead then
        SetThread(s.(head := Ptr(p.qnext.node, p.qhead.tag + 1), h := s.h + 1, log := s.log + [Dequeued(p.got)]),
                  id, p.(qpc := PopStoreValue))
      else SetThread(s, id, p.(qpc := PopHeadPtr))
    case PopStoreValue =>
      SetThread(s.(value := s.value[p.qhead.node := p.got],
                   results := s.results + [Got(id, p.began, s.clock, p.got, p.qhead.node)]), id, Idle)
  }

  /** One step of one thread: it enters a call, or performs its next shared access. */
  ghost predicate Next(s: State, s': State) {
    exists id: Tid :: StepBy(s, s', id)
  }

  ghost predicate StepBy(s: State, s': State, id: Tid) {
    if id !in s.threads || s.threads[id].Idle? then
      || s' == BeginPop(s, id)
      || exists nd: Node, val: Value, tag: nat :: nd != NULL && nd !in s.used && s' == BeginPush(s, id, nd, val, tag)
    else if s.threads[id].Pushing? then s' == PushStep(s, id, s.threads[id])
    else s' == PopStep(s, id, s.threads[id])
  }

  // ---- what the queue holds ----

  /** The abstract queue: values linked behind the head node, oldest first. */
  function Contents(s: State): seq<Value> {
    if s.h < |s.vals| then s.vals[s.h + 1..] else []
  }

  /** The sequential queue: replaying a history from an empty queue; None when a Dequeued value was not at the front. */
  datatype Replayed = Illegal | Holding(q: seq<Value>)

  function Replay(log: seq<Event>): Replayed {
    if log == [] then Holding([])
    else
      match Replay(log[..|log| - 1])
      case Illegal => Illegal
      case Holding(q) =>
        match log[|log| - 1]
        case Enqueued(v) => Holding(q + [v])
        case Dequeued(v) => if q != [] && q[0] == v then Holding(q[1..]) else Illegal
  }

  // ---- the invariant ----

  ghost predicate Distinct(c: seq<Node>) {
    forall i, j :: 0 <= i < j < |c| ==> c[i] != c[j]
  }

  /** c is the list that the next pointers spell out. */
  ghost predicate Linked(c: seq<Node>, next: map<Node, Ptr>) {
    && |c| > 0 && Distinct(c)
    && (forall i :: 0 <= i < |c| ==> c[i] != NULL && c[i] in next)
    && (forall i :: 0 <= i < |c| - 1 ==> next[c[i]].node == c[i + 1])
    && next[c[|c| - 1]].node == NULL
  }

  /** Nodes behind position h still hold what was pushed with them. */
  ghost predicate Stored(c: seq<Node>, vals: seq<Value>, value: map<Node, Value>, h: nat) {
    && |c| == |vals|
    && (forall i :: 0 <= i < |c| ==> c[i] in value)
    && (forall i :: h < i < |c| ==> value[c[i]] == vals[i])
  }

  ghost predicate AllIn(c: seq<Node>, used: set<Node>) {
    forall i :: 0 <= i < |c| ==> c[i] in used
  }

  /** The list, the lag of the tail, and the tags that count the moves of head and tail. */
  ghost predicate Shape(s: State) {
    && !s.crashed
    && Linked(s.chain, s.next) && Stored(s.chain, s.vals, s.value, s.h) && AllIn(s.chain, s.used)
    && s.h <= s.t < |s.chain| <= s.t + 2
    && s.head == Ptr(s.chain[s.h], s.h) && s.tail == Ptr(s.chain[s.t], s.t)
    && Replay(s.log) == Holding(Contents(s))
  }

  /** A pushing thread still owns its node. */
  predicate Owns(p: Thread) {
    p.Pushing? && p.ppc != SwingTail
  }

  ghost predicate Private(s: State, p: Thread) {
    Owns(p) ==> p.nd != NULL && p.nd !in s.chain && p.nd in s.used && p.nd in s.next && p.nd in s.value
                && s.next[p.nd].node == NULL && s.value[p.nd] == p.val
  }

  ghost predicate InChain(s: State, n: Node, k: nat) {
    k < |s.chain| && s.chain[k] == n
  }

  /** Position k of the chain is the node n, at or before bound. */
  ghost predicate At(s: State, n: Node, k: nat, bound: nat) {
    k <= bound && InChain(s, n, k)
  }

  /** n is NULL or the successor of position k. */
  ghost predicate Succ(s: State, n: Node, k: nat) {
    n != NULL ==> InChain(s, n, k + 1)
  }

  ghost predicate ValueAt(s: State, v: Value, i: nat) {
    i < |s.vals| && s.vals[i] == v
  }

  ghost predicate PushOk(s: State, p: Thread)
    requires p.Pushing?
  {
    var pc := p.ppc;
    && p.began <= s.clock
    && (pc != ReadTailPtr ==> At(s, p.ptail.node, p.k, s.t))
    && (pc != ReadTailPtr && pc != ReadTailTag ==> p.k <= p.ptail.tag <= s.t)
    && (pc != ReadTailPtr && pc != ReadTailTag && pc != ReadNextPtr ==> Succ(s, p.pnext.node, p.k))
    && (pc.CheckTailTag? || pc.ReadTarget? || pc.LinkNode? || pc.HelpTail? || pc.SwingTail? ==> p.ptail.tag == p.k)
    && (pc.ReadTarget? || pc.LinkNode? ==> p.pnext.node == NULL)
    && (pc.HelpTail? ==> p.pnext.node != NULL)
    && (pc.LinkNode? ==> p.k <= p.m && At(s, p.target, p.m, s.t))
    && (pc.SwingTail? ==> p.k < p.m && p.m - 1 <= s.t && InChain(s, p.nd, p.m))
  }

  ghost predicate PopOk(s: State, p: Thread)
    requires p.Popping?
  {
    var pc := p.qpc;
    var afterTail := pc != PopHeadPtr && pc != PopHeadTag && pc != PopTailPtr;
    var afterNext := afterTail && pc != PopTailTag && pc != PopNextPtr;
    && p.began <= s.clock
    && (pc != PopHeadPtr ==> At(s, p.qhead.node, p.k, s.h))
    && (pc != PopHeadPtr && pc != PopHeadTag ==> p.k <= p.qhead.tag <= s.h)
    && (afterTail ==> p.k <= p.m && At(s, p.qtail.node, p.m, s.t))
    && (afterTail && pc != PopTailTag ==> p.m <= p.qtail.tag <= s.t)
    && (afterNext ==> Succ(s, p.qnext.node, p.k) && (p.k < p.m ==> p.qnext.node != NULL) && (p.qnext.node == NULL ==> p.sawEmpty))
    && (pc.PopCheckTag? || pc.PopHelpTail? || pc.PopReadValue? || pc.PopSwingHead? || pc.PopStoreValue? ==> p.qhead.tag == p.k)
    && (pc.PopHelpTail? ==> p.k == p.m && p.qnext.node != NULL)
    && (pc.PopReadValue? || pc.PopSwingHead? || pc.PopStoreValue? ==> p.k < p.m)
    && (pc.PopSwingHead? && s.h == p.k ==> ValueAt(s, p.got, p.k + 1))
    && (pc.PopStoreValue? ==> p.k < s.h && ValueAt(s, p.got, p.k + 1))
  }

  ghost predicate ThreadOk(s: State, p: Thread) {
    Private(s, p) && (p.Pushing? ==> PushOk(s, p)) && (p.Popping? ==> PopOk(s, p))
  }

  ghost predicate Inv(s: State) {
    && Shape(s)
    && (forall id :: id in s.threads ==> ThreadOk(s, s.threads[id]))
    && (forall i, j :: i in s.threads && j in s.threads && i != j && Owns(s.threads[i]) && Owns(s.threads[j])
          ==> s.threads[i].nd != s.threads[j].nd)
  }

  // ---- what the shape says about single nodes ----

  lemma LinkedAppend(c: seq<Node>, next: map<Node, Ptr>, nd: Node, tag: nat)
    requires Linked(c, next) && nd != NULL && nd !in c && nd in next && next[nd].node == NULL
    ensures Linked(c + [nd], next[c[|c| - 1] := Ptr(nd, tag)])
  {
  }

  /** A write to a node outside the list does not change the list. */
  lemma LinkedFrame(c: seq<Node>, next: map<Node, Ptr>, nd: Node, p: Ptr)
    requires Linked(c, next) && nd !in c
    ensures Linked(c, next[nd := p])
  {
  }

  lemma StoredAppend(c: seq<Node>, vals: seq<Value>, value: map<Node, Value>, h: nat, nd: Node)
    requires Stored(c, vals, value, h) && nd in value
    ensures Stored(c + [nd], vals + [value[nd]], value, h)
  {
  }

  /** A write to a node outside the list, or at or before position h, does not matter. */
  lemma StoredFrame(c: seq<Node>, vals: seq<Value>, value: map<Node, Value>, h: nat, nd: Node, v: Value)
    requires Stored(c, vals, value, h) && Distinct(c) && (nd !in c || exists k :: 0 <= k <= h && k < |c| && c[k] == nd)
    ensures Stored(c, vals, value[nd := v], h)
  {
  }

  lemma ShapeFacts(s: State)
    requires Shape(s)
    ensures !s.crashed && s.h <= s.t < |s.chain| == |s.vals| && |s.chain| <= s.t + 2
    ensures At(s, s.head.node, s.h, s.h) && s.head.tag == s.h && At(s, s.tail.node, s.t, s.t) && s.tail.tag == s.t
    ensures Replay(s.log) == Holding(Contents(s))
  {
    hide Replay, Distinct, Contents;
  }

  lemma NextOf(s: State, n: Node, k: nat)
    requires Shape(s) && InChain(s, n, k)
    ensures n != NULL && n in s.next && n in s.value && n in s.used && Succ(s, s.next[n].node, k)
    ensures s.next[n].node == NULL <==> k == |s.chain| - 1
  {
    hide Replay, Distinct, Contents;
    if k < |s.chain| - 1 {
      assert s.next[s.chain[k]].node == s.chain[k + 1];
    }
  }

  lemma ValueOf(s: State, n: Node, i: nat)
    requires Shape(s) && InChain(s, n, i) && s.h < i
    ensures n in s.value && ValueAt(s, s.value[n], i)
  {
    hide Replay, Distinct, Contents;
  }

  /** A position is determined by its node. */
  lemma SamePosition(s: State, n: Node, i: nat, j: nat)
    requires Shape(s) && InChain(s, n, i) && InChain(s, n, j)
    ensures i == j
  {
    hide Replay, Contents;
  }

  // ---- preservation ----

  /** Shared state only moves forward. */
  ghost predicate Grows(s: State, s': State) {
    s.chain <= s'.chain && s.vals <= s'.vals && s.h <= s'.h && s.t <= s'.t && s.clock <= s'.clock
  }

  lemma ViewKeeps(s: State, s': State)
    requires Grows(s, s')
    ensures forall n, k :: InChain(s, n, k) ==> InChain(s', n, k)
    ensures forall n, k :: At(s, n, k, s.t) ==> At(s', n, k, s'.t)
    ensures forall n, k :: At(s, n, k, s.h) ==> At(s', n, k, s'.h)
    ensures forall n, k :: Succ(s, n, k) ==> Succ(s', n, k)
    ensures forall v, i :: ValueAt(s, v, i) ==> ValueAt(s', v, i)
  {
    assert forall i :: 0 <= i < |s.chain| ==> s'.chain[i] == s.chain[i];
    assert forall i :: 0 <= i < |s.vals| ==> s'.vals[i] == s.vals[i];
  }

  ghost predicate Untouched(s: State, s': State, nd: Node) {
    && nd !in s'.chain && nd in s'.used && nd in s.next && nd in s.value && nd in s'.next && nd in s'.value
    && s'.next[nd] == s.next[nd] && s'.value[nd] == s.value[nd]
  }

  /** What another thread knows stays true. */
  lemma OthersKeep(s: State, s': State, p: Thread)
    requires Grows(s, s') && ThreadOk(s, p) && (Owns(p) ==> Untouched(s, s', p.nd))
    ensures ThreadOk(s', p)
  {
    ViewKeeps(s, s');
    hide At, Succ, ValueAt, InChain;
  }

  /** Memory of nodes owned by other threads is untouched. */
  ghost predicate LeavesOwned(s: State, s': State, id: Tid) {
    forall j :: j in s.threads && j != id && Owns(s.threads[j]) ==> Untouched(s, s', s.threads[j].nd)
  }

  lemma InvParts(s: State, id: Tid)
    requires Inv(s) && id in s.threads
    ensures Shape(s) && ThreadOk(s, s.threads[id])
  {
    hide Shape, ThreadOk;
  }

  /** No two threads own the same node, and owned nodes are not in the queue. */
  lemma OwnedApart(s: State, id: Tid)
    requires Inv(s) && id in s.threads
    ensures forall j :: j in s.threads && j != id && Owns(s.threads[j]) ==> Untouched(s, s, s.threads[j].nd)
    ensures forall j :: j in s.threads && j != id && Owns(s.threads[j]) && Owns(s.threads[id]) ==> s.threads[j].nd != s.threads[id].nd
  {
    hide Shape, PushOk, PopOk;
  }

  /** The common part of every step. */
  lemma StepKeeps(s: State, s': State, id: Tid, th: Thread)
    requires Inv(s) && Shape(s') && Grows(s, s') && LeavesOwned(s, s', id)
    requires s'.threads == s.threads[id := th] && ThreadOk(s', th)
    requires Owns(th) ==> (id in s.threads && Owns(s.threads[id]) && s.threads[id].nd == th.nd) || th.nd !in s.used
    ensures Inv(s')
  {
    hide Shape, PushOk, PopOk, Grows;
    forall j | j in s'.threads
      ensures ThreadOk(s', s'.threads[j])
    {
      if j != id {
        OthersKeep(s, s', s.threads[j]);
      }
    }
  }

  ghost predicate SameShared(s: State, s': State) {
    && s'.head == s.head && s'.tail == s.tail && s'.next == s.next && s'.value == s.value && s'.crashed == s.crashed
    && s'.chain == s.chain && s'.vals == s.vals && s'.h == s.h && s'.t == s.t && s'.log == s.log && s'.used == s.used
  }

  lemma ShapeFrame(s: State, s': State)
    requires Shape(s) && SameShared(s, s')
    ensures Shape(s')
  {
    hide Replay, Linked, Stored;
  }

  /** Steps that change nothing shared. */
  lemma ReadStep(s: State, s': State, id: Tid, th: Thread)
    requires Inv(s) && id in s.threads && SameShared(s, s') && s.clock <= s'.clock && s'.threads == s.threads[id := th]
    requires ThreadOk(s, th)
    requires Owns(th) ==> Owns(s.threads[id]) && s.threads[id].nd == th.nd
    ensures Inv(s')
  {
    InvParts(s, id);
    OwnedApart(s, id);
    ShapeFrame(s, s');
    hide Shape, PushOk, PopOk;
    OthersKeep(s, s', th);
    StepKeeps(s, s', id, th);
  }

  lemma BeginPushKeeps(s: State, id: Tid, nd: Node, val: Value, tag: nat)
    requires Inv(s) && (id !in s.threads || s.threads[id].Idle?) && nd != NULL && nd !in s.used
    ensures Inv(BeginPush(s, id, nd, val, tag))
  {
    var s' := BeginPush(s, id, nd, val, tag);
    assert Shape(s') by {
      LinkedFrame(s.chain, s.next, nd, Ptr(NULL, tag));
      StoredFrame(s.chain, s.vals, s.value, s.h, nd, val);
      hide Replay, Linked, Stored, ThreadOk;
    }
    hide Shape, PopOk;
    StepKeeps(s, s', id, s'.threads[id]);
  }

  lemma BeginPopKeeps(s: State, id: Tid)
    requires Inv(s) && (id !in s.threads || s.threads[id].Idle?)
    ensures Inv(BeginPop(s, id))
  {
    var s' := BeginPop(s, id);
    ShapeFrame(s, s');
    hide Shape, PushOk;
    StepKeeps(s, s', id, s'.threads[id]);
  }

  /** The reads and checks of push. */
  lemma PushReadsKeep(s: State, id: Tid, p: Thread)
    requires Inv(s) && id in s.threads && s.threads[id] == p && p.Pushing?
    requires p.ppc.ReadTailPtr? || p.ppc.ReadTailTag? || p.ppc.ReadNextPtr? || p.ppc.ReadNextTag? || p.ppc.CheckTailPtr? || p.ppc.CheckTailTag?
    ensures Inv(PushStep(s, id, p)) && SameShared(s, PushStep(s, id, p))
  {
    hide Inv;
    if p.ppc.ReadTailPtr? || p.ppc.ReadTailTag? || p.ppc.ReadNextPtr? {
      PushFirstReadsKeep(s, id, p);
    } else {
      PushLaterReadsKeep(s, id, p);
    }
  }

  lemma PushFirstReadsKeep(s: State, id: Tid, p: Thread)
    requires Inv(s) && id in s.threads && s.threads[id] == p && p.Pushing?
    requires p.ppc.ReadTailPtr? || p.ppc.ReadTailTag? || p.ppc.ReadNextPtr?
    ensures Inv(PushStep(s, id, p)) && SameShared(s, PushStep(s, id, p))
  {
    InvParts(s, id);
    ShapeFacts(s);
    hide Shape, Inv, PopOk, Replay, Contents;
    var s' := PushStep(s, id, p);
    assert !p.ppc.ReadTailPtr? ==> InChain(s, p.ptail.node, p.k);
    if !p.ppc.ReadTailPtr? {
      NextOf(s, p.ptail.node, p.k);
    }
    hide Succ, InChain;
    ReadStep(s, s', id, s'.threads[id]);
  }

  lemma PushLaterReadsKeep(s: State, id: Tid, p: Thread)
    requires Inv(s) && id in s.threads && s.threads[id] == p && p.Pushing?
    requires p.ppc.ReadNextTag? || p.ppc.CheckTailPtr? || p.ppc.CheckTailTag?
    ensures Inv(PushStep(s, id, p)) && SameShared(s, PushStep(s, id, p))
  {
    InvParts(s, id);
    ShapeFacts(s);
    hide Shape, Inv, PopOk, Replay, Contents;
    var s' := PushStep(s, id, p);
    NextOf(s, p.ptail.node, p.k);
    if p.ppc.CheckTailPtr? && p.ptail.node == s.tail.node {
      SamePosition(s, p.ptail.node, p.k, s.t);
    }
    hide Shape, Inv, Succ, InChain, PopOk;
    ReadStep(s, s', id, s'.threads[id]);
  }

  /** A private write to the thread's own node is invisible to everyone else. */
  lemma OwnWriteKeeps(s: State, id: Tid, p: Thread, tag: nat)
    requires Inv(s) && id in s.threads && s.threads[id] == p && Owns(p)
    ensures Inv(s.(next := s.next[p.nd := Ptr(NULL, tag)]))
  {
    InvParts(s, id);
    OwnedApart(s, id);
    var s' := s.(next := s.next[p.nd := Ptr(NULL, tag)]);
    assert Shape(s') by {
      LinkedFrame(s.chain, s.next, p.nd, Ptr(NULL, tag));
      hide Replay, Linked, Stored, Inv, PushOk, PopOk;
    }
    ViewKeeps(s, s');
    hide At, Succ, InChain, Shape, PopOk;
    StepKeeps(s, s', id, p);
  }

  /** Moving the tail over the next link, which is all a successful CAS2 on tail_ can do. */
  lemma CasTailKeeps(s: State, id: Tid, expected: Ptr, node: Node, th: Thread)
    requires Inv(s) && id in s.threads
    requires s.tail == expected ==> InChain(s, node, s.t + 1)
    requires ThreadOk(s, th)
    requires Owns(th) ==> Owns(s.threads[id]) && s.threads[id].nd == th.nd
    ensures Inv(SetThread(CasTail(s, expected, node), id, th))
    ensures Contents(SetThread(CasTail(s, expected, node), id, th)) == Contents(s)
  {
    InvParts(s, id);
    OwnedApart(s, id);
    var s' := SetThread(CasTail(s, expected, node), id, th);
    assert Shape(s') by {
      hide Replay, Linked, Stored, Inv, ThreadOk;
    }
    hide Shape, PushOk, PopOk;
    OthersKeep(s, s', th);
    StepKeeps(s, s', id, th);
  }

  lemma PushHelpKeeps(s: State, id: Tid, p: Thread)
    requires Inv(s) && id in s.threads && s.threads[id] == p && p.Pushing? && p.ppc.HelpTail?
    ensures Inv(PushStep(s, id, p)) && Contents(PushStep(s, id, p)) == Contents(s)
  {
    hide Shape, Inv, InChain, PopOk, Replay, Contents;
    InvParts(s, id);
    OwnWriteKeeps(s, id, p, p.ptail.tag + 1);
    var s1 := s.(next := s.next[p.nd := Ptr(NULL, p.ptail.tag + 1)]);
    HelpTailKeeps(s1, id, p);
    assert Contents(s1) == Contents(s) by {
      SameQueue(s, s1);
    }
  }

  lemma SameQueue(s: State, s': State)
    requires s'.h == s.h && s'.vals == s.vals
    ensures Contents(s') == Contents(s)
  {
  }

  lemma HelpTailKeeps(s: State, id: Tid, p: Thread)
    requires Inv(s) && id in s.threads && s.threads[id] == p && p.Pushing? && p.ppc.HelpTail?
    ensures var s' := SetThread(CasTail(s, p.ptail, p.pnext.node), id, p.(ppc := ReadTailPtr));
            Inv(s') && Contents(s') == Contents(s)
  {
    hide Shape, Inv, InChain, PopOk, Replay, Contents;
    InvParts(s, id);
    ShapeFacts(s);
    CasTailKeeps(s, id, p.ptail, p.pnext.node, p.(ppc := ReadTailPtr));
  }

  lemma PushSwingKeeps(s: State, id: Tid, p: Thread)
    requires Inv(s) && id in s.threads && s.threads[id] == p && p.Pushing? && p.ppc.SwingTail?
    ensures Inv(PushStep(s, id, p)) && Contents(PushStep(s, id, p)) == Contents(s)
  {
    InvParts(s, id);
    ShapeFacts(s);
    hide Shape, Inv, InChain, PopOk, Replay;
    CasTailKeeps(s, id, p.ptail, p.nd, Idle);
    var s1 := SetThread(CasTail(s, p.ptail, p.nd), id, Idle);
    ReadStep(s1, PushStep(s, id, p), id, Idle);
  }

  lemma TargetOk(s: State, p: Thread)
    requires Shape(s) && ThreadOk(s, p) && p.Pushing? && p.ppc.ReadTarget?
    ensures ThreadOk(s, p.(ppc := LinkNode, target := s.tail.node, m := s.t))
  {
    ShapeFacts(s);
    hide Shape, InChain, Replay;
  }

  /** Re-reading tail_.ptr for the address of the link. */
  lemma PushTargetKeeps(s: State, id: Tid, p: Thread)
    requires Inv(s) && id in s.threads && s.threads[id] == p && p.Pushing? && p.ppc.ReadTarget?
    ensures Inv(PushStep(s, id, p)) && Contents(PushStep(s, id, p)) == Contents(s)
  {
    hide Shape, Inv, ThreadOk;
    OwnWriteKeeps(s, id, p, p.pnext.tag + 1) by { InvParts(s, id); }
    var s1 := s.(next := s.next[p.nd := Ptr(NULL, p.pnext.tag + 1)]);
    var q := p.(ppc := LinkNode, target := s.tail.node, m := s.t);
    InvParts(s1, id);
    TargetOk(s1, p);
    ReadStep(s1, PushStep(s, id, p), id, q);
  }

  lemma ReplayEnqueue(log: seq<Event>, q: seq<Value>, v: Value)
    requires Replay(log) == Holding(q)
    ensures Replay(log + [Enqueued(v)]) == Holding(q + [v])
  {
    assert (log + [Enqueued(v)])[..|log|] == log;
  }

  lemma ReplayDequeue(log: seq<Event>, q: seq<Value>, v: Value)
    requires Replay(log) == Holding([v] + q)
    ensures Replay(log + [Dequeued(v)]) == Holding(q)
  {
    assert (log + [Dequeued(v)])[..|log|] == log;
  }

  /** Linking nd behind the last node keeps the shape. */
  lemma LinkShape(s: State, s': State, nd: Node, val: Value, tag: nat)
    requires Shape(s) && s.t == |s.chain| - 1 && nd != NULL && nd !in s.chain && nd in s.used && nd in s.next && nd in s.value
    requires s.next[nd].node == NULL && s.value[nd] == val
    requires s' == s.(next := s.next[s.tail.node := Ptr(nd, tag)], chain := s.chain + [nd], vals := s.vals + [val],
                      log := s.log + [Enqueued(val)], threads := s'.threads, clock := s'.clock)
    ensures Shape(s') && Contents(s') == Contents(s) + [val]
  {
    hide Replay, Linked, Stored;
    assert Contents(s') == Contents(s) + [val] by { ValuesUpToTail(s); }
    hide Contents;
    ReplayEnqueue(s.log, Contents(s), val);
    LinkedAppend(s.chain, s.next, nd, tag);
    StoredAppend(s.chain, s.vals, s.value, s.h, nd);
  }

  lemma ValuesUpToTail(s: State)
    requires Shape(s)
    ensures |s.vals| == |s.chain| && s.h < |s.vals|
  {
    hide Replay, Linked;
  }

  /** The linearization point of push: the node goes behind the last one, and tail_ was there. */
  lemma PushLinkKeeps(s: State, id: Tid, p: Thread)
    requires Inv(s) && id in s.threads && s.threads[id] == p && p.Pushing? && p.ppc.LinkNode?
    ensures p.target in s.next && Inv(PushStep(s, id, p))
    ensures Contents(PushStep(s, id, p)) == (if s.next[p.target] == p.pnext then Contents(s) + [p.val] else Contents(s))
  {
    InvParts(s, id);
    ShapeFacts(s);
    NextOf(s, p.target, p.m);
    var s' := PushStep(s, id, p);
    if s.next[p.target] == p.pnext {
      PushLinked(s, s', id, p);
    } else {
      hide Shape, Inv, PopOk, Replay;
      ReadStep(s, s', id, p.(ppc := ReadTailPtr));
    }
  }

  lemma PushLinked(s: State, s': State, id: Tid, p: Thread)
    requires Inv(s) && id in s.threads && s.threads[id] == p && p.Pushing? && p.ppc.LinkNode? && s' == PushStep(s, id, p)
    requires p.target in s.next && s.next[p.target] == p.pnext
    ensures Inv(s') && Contents(s') == Contents(s) + [p.val]
  {
    hide Replay, Contents;
    InvParts(s, id);
    OwnedApart(s, id);
    ShapeFacts(s);
    NextOf(s, p.target, p.m);
    assert s.t == p.m == |s.chain| - 1 && s.tail.node == p.target;
    hide Shape, PopOk;
    LinkShape(s, s', p.nd, p.val, p.pnext.tag + 1);
    ViewKeeps(s, s');
    assert InChain(s', p.nd, |s.chain|);
    hide InChain;
    StepKeeps(s, s', id, s'.threads[id]);
  }

  /** The reads and checks of pop, up to the decision. */
  lemma PopReadsKeep(s: State, id: Tid, p: Thread)
    requires Inv(s) && id in s.threads && s.threads[id] == p && p.Popping?
    requires p.qpc.PopHeadPtr? || p.qpc.PopHeadTag? || p.qpc.PopTailPtr? || p.qpc.PopTailTag?
    ensures Inv(PopStep(s, id, p)) && SameShared(s, PopStep(s, id, p))
  {
    InvParts(s, id);
    ShapeFacts(s);
    var s' := PopStep(s, id, p);
    hide Shape, Inv, PushOk, Replay, Contents, InChain;
    ReadStep(s, s', id, s'.threads[id]);
  }

  lemma PopNextKeep(s: State, id: Tid, p: Thread)
    requires Inv(s) && id in s.threads && s.threads[id] == p && p.Popping?
    requires p.qpc.PopNextPtr? || p.qpc.PopNextTag?
    ensures Inv(PopStep(s, id, p)) && SameShared(s, PopStep(s, id, p))
  {
    InvParts(s, id);
    ShapeFacts(s);
    assert At(s, p.qhead.node, p.k, s.h);
    NextOf(s, p.qhead.node, p.k);
    var s' := PopStep(s, id, p);
    assert p.k == |s.chain| - 1 ==> Contents(s) == [];
    hide Shape, Inv, PushOk, Replay, Contents, InChain;
    ReadStep(s, s', id, s'.threads[id]);
  }

  lemma PopCheckKeeps(s: State, id: Tid, p: Thread)
    requires Inv(s) && id in s.threads && s.threads[id] == p && p.Popping? && p.qpc.PopCheckPtr?
    ensures Inv(PopStep(s, id, p)) && SameShared(s, PopStep(s, id, p))
  {
    InvParts(s, id);
    ShapeFacts(s);
    var s' := PopStep(s, id, p);
    if p.qhead.node == s.head.node {
      SamePosition(s, p.qhead.node, p.k, s.h);
    }
    hide Shape, Inv, PushOk, Replay, Contents, InChain;
    ReadStep(s, s', id, s'.threads[id]);
  }

  lemma PopDecideKeeps(s: State, id: Tid, p: Thread)
    requires Inv(s) && id in s.threads && s.threads[id] == p && p.Popping? && p.qpc.PopCheckTag?
    ensures Inv(PopStep(s, id, p)) && SameShared(s, PopStep(s, id, p))
  {
    InvParts(s, id);
    var s' := PopStep(s, id, p);
    if p.qhead.node == p.qtail.node {
      SamePosition(s, p.qhead.node, p.k, p.m);
    }
    hide Shape, Inv, PushOk, Replay, Contents, InChain;
    ReadStep(s, s', id, s'.threads[id]);
  }

  lemma PopHelpKeeps(s: State, id: Tid, p: Thread)
    requires Inv(s) && id in s.threads && s.threads[id] == p && p.Popping? && p.qpc.PopHelpTail?
    ensures Inv(PopStep(s, id, p)) && Contents(PopStep(s, id, p)) == Contents(s)
  {
    InvParts(s, id);
    ShapeFacts(s);
    if s.tail == p.qtail {
      SamePosition(s, s.tail.node, p.m, s.t);
    }
    hide Shape, Inv, PushOk, Replay, InChain;
    CasTailKeeps(s, id, p.qtail, p.qnext.node, p.(qpc := PopHeadPtr));
  }

  lemma PopReadValueKeeps(s: State, id: Tid, p: Thread)
    requires Inv(s) && id in s.threads && s.threads[id] == p && p.Popping? && p.qpc.PopReadValue?
    ensures Inv(PopStep(s, id, p)) && SameShared(s, PopStep(s, id, p))
  {
    InvParts(s, id);
    assert InChain(s, p.qnext.node, p.k + 1);
    NextOf(s, p.qnext.node, p.k + 1);
    if s.h == p.k {
      ValueOf(s, p.qnext.node, p.k + 1);
    }
    var s' := PopStep(s, id, p);
    hide Shape, Inv, PushOk, Replay, Contents, InChain, ValueAt;
    ReadStep(s, s', id, s'.threads[id]);
  }

  lemma PopStoreKeeps(s: State, id: Tid, p: Thread)
    requires Inv(s) && id in s.threads && s.threads[id] == p && p.Popping? && p.qpc.PopStoreValue?
    ensures Inv(PopStep(s, id, p)) && Contents(PopStep(s, id, p)) == Contents(s)
  {
    InvParts(s, id);
    OwnedApart(s, id);
    var s' := PopStep(s, id, p);
    assert Shape(s') by {
      StoredFrame(s.chain, s.vals, s.value, s.h, p.qhead.node, p.got);
      hide Replay, Linked, Stored, Inv, PushOk;
    }
    assert Grows(s, s') by {
      hide Shape, Replay, Inv, PushOk;
    }
    hide Shape, PushOk, PopOk, Replay, Grows, Contents;
    assert LeavesOwned(s, s', id);
    StepKeeps(s, s', id, Idle);
  }

  /** The linearization point of a successful pop: head_ moves on and the value at the front is taken. */
  lemma PopSwingKeeps(s: State, id: Tid, p: Thread)
    requires Inv(s) && id in s.threads && s.threads[id] == p && p.Popping? && p.qpc.PopSwingHead?
    ensures Inv(PopStep(s, id, p))
    ensures var s' := PopStep(s, id, p);
            if s.head == p.qhead then Contents(s) == [p.got] + Contents(s') else Contents(s') == Contents(s)
  {
    InvParts(s, id);
    ShapeFacts(s);
    var s' := PopStep(s, id, p);
    if s.head == p.qhead {
      PopSwung(s, s', id, p);
    } else {
      hide Shape, Inv, PushOk, Replay, InChain;
      ReadStep(s, s', id, p.(qpc := PopHeadPtr));
    }
  }

  lemma PopSwung(s: State, s': State, id: Tid, p: Thread)
    requires Inv(s) && id in s.threads && s.threads[id] == p && p.Popping? && p.qpc.PopSwingHead? && s' == PopStep(s, id, p)
    requires s.head == p.qhead
    ensures Inv(s') && Contents(s) == [p.got] + Contents(s')
  {
    InvParts(s, id);
    OwnedApart(s, id);
    ShapeFacts(s);
    assert s.h == p.k;
    assert Contents(s) == [p.got] + Contents(s');
    ReplayDequeue(s.log, Contents(s'), p.got);
    assert Shape(s') by {
      hide Replay, Contents, Linked, Inv, PushOk;
    }
    assert Grows(s, s') && LeavesOwned(s, s', id) by {
      hide Shape, Replay, Contents, Inv, PushOk, PopOk;
    }
    ViewKeeps(s, s');
    assert ThreadOk(s', s'.threads[id]) by {
      hide Shape, Replay, Contents, Inv, PushOk, InChain, ValueAt;
    }
    hide Shape, PushOk, PopOk, Replay, Contents, InChain, ValueAt, Grows, LeavesOwned;
    StepKeeps(s, s', id, s'.threads[id]);
  }

  // ---- every step, every run ----

  /** The queue changes only as a sequential queue may, and the history records it. */
  ghost predicate Refines(s: State, s': State) {
    || (s'.log == s.log && Contents(s') == Contents(s))
    || (exists v :: s'.log == s.log + [Enqueued(v)] && Contents(s') == Contents(s) + [v])
    || (exists v :: s'.log == s.log + [Dequeued(v)] && Contents(s) == [v] + Contents(s'))
  }

  lemma PushStepKeeps(s: State, id: Tid, p: Thread)
    requires Inv(s) && id in s.threads && s.threads[id] == p && p.Pushing?
    ensures Inv(PushStep(s, id, p)) && Refines(s, PushStep(s, id, p))
  {
    hide Inv, Replay, Contents;
    match p.ppc
    case ReadTarget => PushTargetKeeps(s, id, p);
    case LinkNode =>
      PushLinkKeeps(s, id, p);
    case HelpTail => PushHelpKeeps(s, id, p);
    case SwingTail => PushSwingKeeps(s, id, p);
    case _ =>
      PushReadsKeep(s, id, p);
      SameContents(s, PushStep(s, id, p));
  }

  lemma SameContents(s: State, s': State)
    requires SameShared(s, s')
    ensures Contents(s') == Contents(s)
  {
  }

  lemma PopStepKeeps(s: State, id: Tid, p: Thread)
    requires Inv(s) && id in s.threads && s.threads[id] == p && p.Popping?
    ensures Inv(PopStep(s, id, p)) && Refines(s, PopStep(s, id, p))
  {
    hide Inv, Replay, Contents;
    match p.qpc
    case PopHelpTail => PopHelpKeeps(s, id, p);
    case PopSwingHead => PopSwingKeeps(s, id, p);
    case PopStoreValue => PopStoreKeeps(s, id, p);
    case PopReadValue =>
      PopReadValueKeeps(s, id, p);
      SameContents(s, PopStep(s, id, p));
    case PopCheckTag =>
      PopDecideKeeps(s, id, p);
      SameContents(s, PopStep(s, id, p));
    case PopHeadPtr =>
      PopReadsKeep(s, id, p);
      SameContents(s, PopStep(s, id, p));
    case PopHeadTag =>
      PopReadsKeep(s, id, p);
      SameContents(s, PopStep(s, id, p));
    case PopTailPtr =>
      PopReadsKeep(s, id, p);
      SameContents(s, PopStep(s, id, p));
    case PopTailTag =>
      PopReadsKeep(s, id, p);
      SameContents(s, PopStep(s, id, p));
    case PopCheckPtr =>
      PopCheckKeeps(s, id, p);
      SameContents(s, PopStep(s, id, p));
    case _ =>
      PopNextKeep(s, id, p);
      SameContents(s, PopStep(s, id, p));
  }

  /** Every step of every thread keeps the invariant and refines the sequential queue. */
  lemma StepRefines(s: State, s': State)
    requires Inv(s) && Next(s, s')
    ensures Inv(s') && Refines(s, s')
  {
    hide Inv;
    var id :| StepBy(s, s', id);
    if id !in s.threads || s.threads[id].Idle? {
      if s' == BeginPop(s, id) {
        BeginPopKeeps(s, id);
      } else {
        var nd, val, tag :| nd != NULL && nd !in s.used && s' == BeginPush(s, id, nd, val, tag);
        BeginPushKeeps(s, id, nd, val, tag);
      }
    } else if s.threads[id].Pushing? {
      PushStepKeeps(s, id, s.threads[id]);
    } else {
      PopStepKeeps(s, id, s.threads[id]);
    }
  }

  lemma InitInv(s: State)
    requires Init(s)
    ensures Inv(s)
  {
    assert s.head.node in s.value;
  }

  ghost predicate IsRun(r: seq<State>) {
    |r| > 0 && Init(r[0]) && forall i :: 0 <= i < |r| - 1 ==> Next(r[i], r[i + 1])
  }

  lemma RunStarts(r: seq<State>)
    requires IsRun(r)
    ensures |r| > 0 && Init(r[0])
  {
  }

  lemma RunGoes(r: seq<State>, i: nat)
    requires IsRun(r) && i + 1 < |r|
    ensures Next(r[i], r[i + 1])
  {
    hide Next;
  }

  lemma {:induction false} RunInv(r: seq<State>, i: nat)
    requires IsRun(r) && i < |r|
    ensures Inv(r[i]) && r[i].clock == i
  {
    hide IsRun, Next, Inv;
    if i == 0 {
      RunStarts(r);
      InitInv(r[0]);
    } else {
      RunInv(r, i - 1);
      RunGoes(r, i - 1);
      StepRefines(r[i - 1], r[i]);
      ClockTicks(r[i - 1], r[i]);
    }
  }

  lemma ClockTicks(s: State, s': State)
    requires Next(s, s')
    ensures s'.clock == s.clock + 1
  {
    var id :| StepBy(s, s', id);
    hide PushStep, PopStep;
  }

  /** In every reachable state the tail is not behind the head, lags the last node by at most one, and nothing was dereferenced badly. */
  lemma TailLag(r: seq<State>, i: nat)
    requires IsRun(r) && i < |r|
    ensures !r[i].crashed
    ensures var s := r[i];
            exists a: nat, b: nat :: a <= b < |s.chain| <= b + 2 && |s.vals| == |s.chain| && s.chain[a] == s.head.node && s.chain[b] == s.tail.node
                                     && Linked(s.chain, s.next) && Contents(s) == s.vals[a + 1..]
  {
    RunInv(r, i);
    var s := r[i];
    assert s.h <= s.t < |s.chain| <= s.t + 2 && |s.vals| == |s.chain| && s.chain[s.h] == s.head.node && s.chain[s.t] == s.tail.node;
  }

  // ---- first in, first out ----

  function EnqueuedValues(log: seq<Event>): seq<Value> {
    if log == [] then []
    else
      var rest := EnqueuedValues(log[..|log| - 1]);
      match log[|log| - 1] case Enqueued(v) => rest + [v] case Dequeued(_) => rest
  }

  function DequeuedValues(log: seq<Event>): seq<Value> {
    if log == [] then []
    else
      var rest := DequeuedValues(log[..|log| - 1]);
      match log[|log| - 1] case Enqueued(_) => rest case Dequeued(v) => rest + [v]
  }

  /** A legal history is first in, first out: what came out, then what is left, is what went in. */
  lemma {:induction false} LegalIsFifo(log: seq<Event>)
    requires Replay(log).Holding?
    ensures EnqueuedValues(log) == DequeuedValues(log) + Replay(log).q
  {
    if log != [] {
      var before := log[..|log| - 1];
      LegalIsFifo(before);
      var q := Replay(before).q;
      match log[|log| - 1]
      case Enqueued(v) => assert DequeuedValues(before) + q + [v] == DequeuedValues(before) + (q + [v]);
      case Dequeued(v) => assert q == [v] + q[1..];
    }
  }

  /** Over every run, popped values are a prefix of the pushed values in link order; the rest is still queued. */
  lemma PoppedIsPrefix(r: seq<State>, i: nat)
    requires IsRun(r) && i < |r|
    ensures EnqueuedValues(r[i].log) == DequeuedValues(r[i].log) + Contents(r[i])
  {
    RunInv(r, i);
    ShapeFacts(r[i]);
    LegalIsFifo(r[i].log);
  }
}
