/**
 The lock-less list of base/llist.h as a state machine: any number of threads run
 llist_add_batch, llist_del_all and llist_del_first, one shared access at a time.

 Nodes may be reused: a node that was taken off the list belongs to the code that took it
 and can be added again.  That is what makes llist_del_first delicate, and the header says
 when a lock between consumers is needed; `Disciplined` is that rule.
 */
module LockLessList {

  type Node = nat
  type Tid = nat

  const NULL: Node := 0

  /**
   A thread between calls or inside one.  An adder owns the nodes of its batch, which are linked
   to each other; `first` is the list head it read last.
   */
  datatype Thread =
    | Idle
    | AddRead(batch: seq<Node>)
    | AddCas(batch: seq<Node>, first: Node)
    | DelStart
    | DelNext(entry: Node)
    | DelCas(entry: Node, nxt: Node)

  /** Completed list operations in the order of their atomic steps, with what each call returned (auxiliary). */
  datatype Event = Added(batch: seq<Node>, wasEmpty: bool) | TookAll(head: Node, nodes: seq<Node>) | TookFirst(node: Node) | FoundEmpty

  /** list is what the head points at, newest first; free are the nodes client code holds; log is the history (all auxiliary). */
  datatype State = State(first: Node, next: map<Node, Node>, threads: map<Tid, Thread>,
                         list: seq<Node>, free: set<Node>, log: seq<Event>)

  predicate Init(s: State) {
    s.first == NULL && s.threads == map[] && s.list == [] && s.log == [] && NULL !in s.free && s.next.Keys == s.free
  }

  // ---- steps ----

  /** The batch is linked from its first to its last node before llist_add_batch is called. */
  function LinkBatch(next: map<Node, Node>, batch: seq<Node>): map<Node, Node> {
    if |batch| < 2 then next else LinkBatch(next, batch[1..])[batch[0] := batch[1]]
  }

  function SetThread(s: State, id: Tid, th: Thread): State {
    s.(threads := s.threads[id := th])
  }

  function BeginAdd(s: State, id: Tid, batch: seq<Node>): State {
    SetThread(s.(next := LinkBatch(s.next, batch), free := s.free - (set n | n in batch)), id, AddRead(batch))
  }

  /** new_last->next = first = head->first. */
  function AddReadStep(s: State, id: Tid, batch: seq<Node>): State
    requires batch != []
  {
    SetThread(s.(next := s.next[batch[|batch| - 1] := s.first]), id, AddCas(batch, s.first))
  }

  /** cmpxchg(&head->first, first, new_first); the result of the call is !first. */
  function AddCasStep(s: State, id: Tid, batch: seq<Node>, first: Node): State
    requires batch != []
  {
    if s.first == first then
      SetThread(s.(first := batch[0], list := batch + s.list, log := s.log + [Added(batch, first == NULL)]), id, Idle)
    else SetThread(s, id, AddRead(batch))
  }

  /** The nodes a chain reaches from n, as a consumer walks them. */
  ghost predicate Spells(n: Node, next: map<Node, Node>, list: seq<Node>)
    decreases list
  {
    if list == [] then n == NULL
    else n == list[0] && n != NULL && n in next && Spells(next[n], next, list[1..])
  }

  /** xchg(&head->first, NULL): the caller gets the whole chain. */
  function DelAll(s: State, id: Tid): State {
    SetThread(s.(first := NULL, list := [], free := s.free + (set n | n in s.list), log := s.log + [TookAll(s.first, s.list)]), id, Idle)
  }

  /** llist_del_first returns NULL, the head it has just read. */
  function GiveNull(s: State, id: Tid): State {
    SetThread(s.(log := s.log + [FoundEmpty]), id, Idle)
  }

  function DelStep(s: State, id: Tid, th: Thread): State
    requires th.DelStart? || th.DelNext? || th.DelCas?
  {
    match th
    case DelStart => if s.first == NULL then GiveNull(s, id) else SetThread(s, id, DelNext(s.first))
    case DelNext(entry) => if entry in s.next then SetThread(s, id, DelCas(entry, s.next[entry])) else s
    case DelCas(entry, nxt) =>
      if s.first == entry then
        SetThread(s.(first := nxt, list := if s.list == [] then [] else s.list[1..], free := s.free + {entry},
                     log := s.log + [TookFirst(entry)]), id, Idle)
      else if s.first == NULL then GiveNull(s, id) else SetThread(s, id, DelNext(s.first))
  }

  predicate Resting(s: State, id: Tid) {
    id !in s.threads || s.threads[id].Idle?
  }

  predicate InDelFirst(s: State, id: Tid) {
    id in s.threads && (s.threads[id].DelStart? || s.threads[id].DelNext? || s.threads[id].DelCas?)
  }

  predicate NoRepeat(b: seq<Node>) {
    forall i, j :: 0 <= i < j < |b| ==> b[i] != b[j]
  }

  ghost predicate Begins(s: State, s': State, id: Tid) {
    && Resting(s, id)
    && (|| s' == DelAll(s, id)
        || s' == SetThread(s, id, DelStart)
        || exists batch :: batch != [] && NoRepeat(batch) && (forall n :: n in batch ==> n in s.free) && s' == BeginAdd(s, id, batch))
  }

  ghost predicate StepBy(s: State, s': State, id: Tid) {
    || Begins(s, s', id)
    || (id in s.threads &&
        match s.threads[id]
        case Idle => false
        case AddRead(batch) => batch != [] && s' == AddReadStep(s, id, batch)
        case AddCas(batch, first) => batch != [] && s' == AddCasStep(s, id, batch, first)
        case _ => s' == DelStep(s, id, s.threads[id]))
  }

  /** The rule of the header's table: a consumer inside llist_del_first excludes every other consumer. */
  ghost predicate Disciplined(s: State, s': State, id: Tid) {
    (s' == DelAll(s, id) || s' == SetThread(s, id, DelStart)) && Resting(s, id) ==> forall j :: j != id ==> !InDelFirst(s, j)
  }

  ghost predicate Next(s: State, s': State) {
    exists id :: StepBy(s, s', id) && Disciplined(s, s', id)
  }

  // ---- the sequential stack the history must obey ----

  datatype Replayed = Illegal | Holding(list: seq<Node>)

  function Apply(q: seq<Node>, e: Event): Replayed {
    match e
    case Added(batch, wasEmpty) => if wasEmpty == (q == []) then Holding(batch + q) else Illegal
    case TookAll(head, nodes) => if nodes == q && head == (if q == [] then NULL else q[0]) then Holding([]) else Illegal
    case TookFirst(n) => if q != [] && q[0] == n then Holding(q[1..]) else Illegal
    case FoundEmpty => if q == [] then Holding([]) else Illegal
  }

  function Replay(log: seq<Event>): Replayed {
    if log == [] then Holding([])
    else
      match Replay(log[..|log| - 1])
      case Illegal => Illegal
      case Holding(q) => Apply(q, log[|log| - 1])
  }

  // ---- the invariant ----

  /** The nodes an adder owns. */
  function Owned(th: Thread): seq<Node> {
    if th.AddRead? || th.AddCas? then th.batch else []
  }

  /** The batch is linked up to its last node; after the read, that one points at the head that was read. */
  ghost predicate BatchLinked(next: map<Node, Node>, b: seq<Node>) {
    && b != [] && NoRepeat(b)
    && (forall i :: 0 <= i < |b| ==> b[i] != NULL && b[i] in next)
    && (forall i :: 0 <= i < |b| - 1 ==> next[b[i]] == b[i + 1])
  }

  /** entry is on the list and nxt is the node behind it. */
  ghost predicate Behind(list: seq<Node>, entry: Node, nxt: Node) {
    exists i: nat :: BehindAt(list, i, entry, nxt)
  }

  ghost predicate BehindAt(list: seq<Node>, i: nat, entry: Node, nxt: Node) {
    i < |list| && list[i] == entry && nxt == (if i + 1 < |list| then list[i + 1] else NULL)
  }

  ghost predicate ThreadOk(s: State, th: Thread) {
    match th
    case AddRead(b) => BatchLinked(s.next, b)
    case AddCas(b, first) => BatchLinked(s.next, b) && s.next[b[|b| - 1]] == first
    case DelNext(entry) => entry in s.list
    case DelCas(entry, nxt) => Behind(s.list, entry, nxt)
    case _ => true
  }

  /** Every node is in one place only: on the list, in one adder's hands, or free. */
  ghost predicate Apart(s: State) {
    && NoRepeat(s.list)
    && NULL !in s.free
    && (forall n :: n in s.free ==> n in s.next && n !in s.list)
    && (forall id, n :: id in s.threads && n in Owned(s.threads[id]) ==> n !in s.list && n !in s.free)
    && (forall i, j, n :: i in s.threads && j in s.threads && i != j && n in Owned(s.threads[i]) ==> n !in Owned(s.threads[j]))
  }

  ghost predicate OneDeleter(s: State) {
    forall i, j :: InDelFirst(s, i) && InDelFirst(s, j) ==> i == j
  }

  ghost predicate Inv(s: State) {
    && Spells(s.first, s.next, s.list)
    && Apart(s)
    && OneDeleter(s)
    && (forall id :: id in s.threads ==> ThreadOk(s, s.threads[id]))
    && Replay(s.log) == Holding(s.list)
  }

  // ---- chains ----

  lemma {:induction false} SpellsFrame(n: Node, next: map<Node, Node>, next': map<Node, Node>, list: seq<Node>)
    requires Spells(n, next, list)
    requires forall m :: m in list && m in next ==> m in next' && next'[m] == next[m]
    ensures Spells(n, next', list)
    decreases list
  {
    if list != [] {
      SpellsFrame(next[n], next, next', list[1..]);
    }
  }

  lemma {:induction false} SpellsAt(n: Node, next: map<Node, Node>, list: seq<Node>, i: nat)
    requires Spells(n, next, list) && i < |list|
    ensures list[i] != NULL && list[i] in next && next[list[i]] == (if i + 1 < |list| then list[i + 1] else NULL)
    decreases list
  {
    if i > 0 {
      SpellsAt(next[n], next, list[1..], i - 1);
    } else if |list| > 1 {
      assert Spells(next[n], next, list[1..]);
    }
  }

  /** A linked batch in front of a chain is a longer chain. */
  lemma {:induction false} SpellsPrepend(next: map<Node, Node>, b: seq<Node>, list: seq<Node>)
    requires BatchLinked(next, b) && Spells(next[b[|b| - 1]], next, list)
    ensures Spells(b[0], next, b + list)
    decreases b
  {
    assert (b + list)[1..] == b[1..] + list;
    if |b| > 1 {
      SpellsPrepend(next, b[1..], list);
    } else {
      assert b[1..] + list == list;
    }
  }

  /** Linking a batch touches only its own nodes. */
  lemma {:induction false} LinkBatchLinks(next: map<Node, Node>, b: seq<Node>)
    requires b != [] && NoRepeat(b) && forall i :: 0 <= i < |b| ==> b[i] != NULL && b[i] in next
    ensures BatchLinked(LinkBatch(next, b), b)
    ensures forall n :: n in next && n !in b ==> n in LinkBatch(next, b) && LinkBatch(next, b)[n] == next[n]
    ensures next.Keys == LinkBatch(next, b).Keys
    decreases b
  {
    if |b| >= 2 {
      LinkBatchLinks(next, b[1..]);
      var rest := LinkBatch(next, b[1..]);
      var all := rest[b[0] := b[1]];
      assert b[0] !in b[1..];
      forall i | 0 <= i < |b| - 1
        ensures all[b[i]] == b[i + 1]
      {
        if i > 0 {
          assert b[1..][i - 1] == b[i] && b[1..][i] == b[i + 1];
        }
      }
    }
  }

  // ---- preservation ----

  /** A thread's knowledge survives any step that leaves its batch alone and only grows the list at the front. */
  lemma OthersKeep(s: State, s': State, th: Thread)
    requires ThreadOk(s, th)
    requires forall n :: n in Owned(th) && n in s.next ==> n in s'.next && s'.next[n] == s.next[n]
    requires (th.DelNext? || th.DelCas?) ==> |s.list| <= |s'.list| && s'.list[|s'.list| - |s.list|..] == s.list
    ensures ThreadOk(s', th)
  {
    var d := |s'.list| - |s.list|;
    if th.DelNext? {
      var i :| 0 <= i < |s.list| && s.list[i] == th.entry;
      assert s'.list[d + i] == s'.list[d..][i];
    }
    if th.DelCas? {
      var i: nat :| BehindAt(s.list, i, th.entry, th.nxt);
      assert forall k :: 0 <= k < |s.list| ==> s'.list[d + k] == s'.list[d..][k];
      assert BehindAt(s'.list, d + i, th.entry, th.nxt);
    }
  }

  /** The nodes thread id owns, in a state where it may not have run yet. */
  function OwnedBy(s: State, id: Tid): seq<Node> {
    if id in s.threads then Owned(s.threads[id]) else []
  }

  /** A step that moves nodes only between its own thread, the list and the free nodes keeps them apart. */
  lemma ApartStep(s: State, s': State, id: Tid, th: Thread)
    requires Apart(s) && s'.threads == s.threads[id := th]
    requires NoRepeat(s'.list) && NULL !in s'.free
    requires forall n :: n in s'.free ==> n in s'.next && n !in s'.list && (n in s.free || n in s.list || n in OwnedBy(s, id))
    requires forall n :: n in s'.list ==> n in s.list || n in OwnedBy(s, id)
    requires forall n :: n in Owned(th) ==> n !in s'.list && n !in s'.free && (n in s.free || n in OwnedBy(s, id))
    ensures Apart(s')
  {
    forall j, n | j in s'.threads && n in Owned(s'.threads[j])
      ensures n !in s'.list && n !in s'.free
    {
      if j != id {
        assert n !in s.list && n !in s.free && n !in OwnedBy(s, id);
      }
    }
    forall i, j, n | i in s'.threads && j in s'.threads && i != j && n in Owned(s'.threads[i])
      ensures n !in Owned(s'.threads[j])
    {
      if i == id {
        assert n in s.free || n in OwnedBy(s, id);
      }
    }
  }

  lemma DeleterStep(s: State, s': State, id: Tid, th: Thread)
    requires OneDeleter(s) && s'.threads == s.threads[id := th]
    requires InDelFirst(s', id) ==> InDelFirst(s, id) || forall j :: j != id ==> !InDelFirst(s, j)
    ensures OneDeleter(s')
  {
    forall i, j | InDelFirst(s', i) && InDelFirst(s', j)
      ensures i == j
    {
      assert i != id ==> InDelFirst(s, i);
      assert j != id ==> InDelFirst(s, j);
    }
  }

  lemma AllOthersKeep(s: State, s': State, id: Tid)
    requires forall j :: j in s.threads ==> ThreadOk(s, s.threads[j])
    requires id in s'.threads && s'.threads == s.threads[id := s'.threads[id]] && ThreadOk(s', s'.threads[id])
    requires forall j, n :: j in s.threads && j != id && n in Owned(s.threads[j]) && n in s.next ==> n in s'.next && s'.next[n] == s.next[n]
    requires (exists j :: j != id && InDelFirst(s, j)) ==> |s.list| <= |s'.list| && s'.list[|s'.list| - |s.list|..] == s.list
    ensures forall j :: j in s'.threads ==> ThreadOk(s', s'.threads[j])
  {
    hide ThreadOk;
    forall j | j in s'.threads
      ensures ThreadOk(s', s'.threads[j])
    {
      if j != id {
        assert InDelFirst(s, j) || !(s.threads[j].DelNext? || s.threads[j].DelCas?);
        OthersKeep(s, s', s.threads[j]);
      }
    }
  }

  lemma ReplayAppend(log: seq<Event>, q: seq<Node>, e: Event)
    requires Replay(log) == Holding(q)
    ensures Replay(log + [e]) == Apply(q, e)
  {
    assert (log + [e])[..|log|] == log;
  }

  lemma BeginAddKeeps(s: State, id: Tid, b: seq<Node>)
    requires Inv(s) && Resting(s, id) && b != [] && NoRepeat(b) && forall n :: n in b ==> n in s.free
    ensures Inv(BeginAdd(s, id, b))
  {
    hide Replay;
    var s' := BeginAdd(s, id, b);
    LinkBatchLinks(s.next, b);
    assert forall n :: n in s.list ==> n !in b;
    SpellsFrame(s.first, s.next, s'.next, s.list);
    assert s'.list[|s'.list| - |s.list|..] == s.list;
    hide Spells;
    AllOthersKeep(s, s', id);
    ApartStep(s, s', id, AddRead(b));
    DeleterStep(s, s', id, AddRead(b));
  }

  lemma AddReadKeeps(s: State, id: Tid, b: seq<Node>)
    requires Inv(s) && id in s.threads && s.threads[id] == AddRead(b)
    ensures b != [] && Inv(AddReadStep(s, id, b))
  {
    hide Replay;
    assert ThreadOk(s, s.threads[id]);
    var s' := AddReadStep(s, id, b);
    var last := b[|b| - 1];
    assert last in Owned(s.threads[id]);
    SpellsFrame(s.first, s.next, s'.next, s.list);
    assert s'.list[|s'.list| - |s.list|..] == s.list;
    hide Spells;
    assert Owned(s'.threads[id]) == b;
    assert BatchLinked(s'.next, b);
    AllOthersKeep(s, s', id);
    ApartStep(s, s', id, s'.threads[id]);
    DeleterStep(s, s', id, s'.threads[id]);
  }

  lemma AddCasKeeps(s: State, id: Tid, b: seq<Node>, first: Node)
    requires Inv(s) && id in s.threads && s.threads[id] == AddCas(b, first)
    ensures b != [] && Inv(AddCasStep(s, id, b, first))
  {
    assert ThreadOk(s, s.threads[id]);
    var s' := AddCasStep(s, id, b, first);
    assert Owned(s.threads[id]) == b;
    assert s'.list[|s'.list| - |s.list|..] == s.list;
    if s.first == first {
      SpellsPrepend(s.next, b, s.list);
      assert first == NULL <==> s.list == [];
      ReplayAppend(s.log, s.list, Added(b, first == NULL));
      assert NoRepeat(b + s.list);
    }
    hide Spells, Replay;
    AllOthersKeep(s, s', id);
    ApartStep(s, s', id, s'.threads[id]);
    DeleterStep(s, s', id, s'.threads[id]);
  }

  lemma DelAllKeeps(s: State, id: Tid)
    requires Inv(s) && Resting(s, id) && forall j :: j != id ==> !InDelFirst(s, j)
    ensures Inv(DelAll(s, id))
  {
    var s' := DelAll(s, id);
    assert s.first == if s.list == [] then NULL else s.list[0];
    ReplayAppend(s.log, s.list, TookAll(s.first, s.list));
    forall n | n in s.list
      ensures n != NULL && n in s.next
    {
      var i :| 0 <= i < |s.list| && s.list[i] == n;
      SpellsAt(s.first, s.next, s.list, i);
    }
    assert Spells(NULL, s'.next, []);
    hide Spells, Replay;
    AllOthersKeep(s, s', id);
    ApartStep(s, s', id, s'.threads[id]);
    DeleterStep(s, s', id, s'.threads[id]);
  }

  lemma BeginDelKeeps(s: State, id: Tid)
    requires Inv(s) && Resting(s, id) && forall j :: j != id ==> !InDelFirst(s, j)
    ensures Inv(SetThread(s, id, DelStart))
  {
    hide Spells, Replay;
    var s' := SetThread(s, id, DelStart);
    assert ThreadOk(s', DelStart) && Owned(DelStart) == [];
    assert s'.list[|s'.list| - |s.list|..] == s.list;
    hide ThreadOk, Owned;
    AllOthersKeep(s, s', id);
    DeleterStep(s, s', id, DelStart);
    assert Apart(s') by { ApartStep(s, s', id, DelStart); }
  }

  lemma DelStartKeeps(s: State, id: Tid, th: Thread)
    requires Inv(s) && id in s.threads && s.threads[id] == th && th.DelStart?
    ensures Inv(DelStep(s, id, th))
  {
    var s' := DelStep(s, id, th);
    assert s.first != NULL ==> s.list != [] && s.list[0] == s.first;
    if s.first == NULL {
      assert s.list == [];
      ReplayAppend(s.log, [], FoundEmpty);
    }
    hide Spells, Replay;
    assert InDelFirst(s, id);
    assert s'.list[|s'.list| - |s.list|..] == s.list;
    AllOthersKeep(s, s', id);
    ApartStep(s, s', id, s'.threads[id]);
    DeleterStep(s, s', id, s'.threads[id]);
  }

  lemma DelNextKeeps(s: State, id: Tid, th: Thread)
    requires Inv(s) && id in s.threads && s.threads[id] == th && th.DelNext?
    ensures th.entry in s.next && Inv(DelStep(s, id, th))
  {
    hide Replay;
    assert ThreadOk(s, th);
    var s' := DelStep(s, id, th);
    var i :| 0 <= i < |s.list| && s.list[i] == th.entry;
    SpellsAt(s.first, s.next, s.list, i);
    assert BehindAt(s.list, i, th.entry, s.next[th.entry]);
    hide Spells, BehindAt;
    assert InDelFirst(s, id);
    assert s'.list[|s'.list| - |s.list|..] == s.list;
    AllOthersKeep(s, s', id);
    ApartStep(s, s', id, s'.threads[id]);
    DeleterStep(s, s', id, s'.threads[id]);
  }

  /** The compare-and-swap of llist_del_first: on success the node behind the entry really is the new head. */
  lemma DelCasKeeps(s: State, id: Tid, th: Thread)
    requires Inv(s) && id in s.threads && s.threads[id] == th && th.DelCas?
    ensures Inv(DelStep(s, id, th))
  {
    assert ThreadOk(s, th);
    var s' := DelStep(s, id, th);
    assert InDelFirst(s, id);
    if s.first == th.entry {
      var i: nat :| BehindAt(s.list, i, th.entry, th.nxt);
      assert s.list[0] == s.first && i == 0;
      SpellsAt(s.first, s.next, s.list, 0);
      ReplayAppend(s.log, s.list, TookFirst(th.entry));
      assert Spells(s'.first, s'.next, s'.list);
    } else {
      assert s'.list[|s'.list| - |s.list|..] == s.list;
      assert s.list != [] && s.list[0] == s.first;
    }
    hide Spells, Replay;
    AllOthersKeep(s, s', id);
    ApartStep(s, s', id, s'.threads[id]);
    DeleterStep(s, s', id, s'.threads[id]);
  }

  /** Every disciplined step keeps the invariant. */
  lemma StepKeeps(s: State, s': State)
    requires Inv(s) && Next(s, s')
    ensures Inv(s')
  {
    hide Inv, Spells, Replay;
    var id :| StepBy(s, s', id) && Disciplined(s, s', id);
    if Begins(s, s', id) {
      if s' == DelAll(s, id) {
        DelAllKeeps(s, id);
      } else if s' == SetThread(s, id, DelStart) {
        BeginDelKeeps(s, id);
      } else {
        var batch :| batch != [] && NoRepeat(batch) && (forall n :: n in batch ==> n in s.free) && s' == BeginAdd(s, id, batch);
        BeginAddKeeps(s, id, batch);
      }
    } else {
      match s.threads[id]
      case AddRead(batch) => AddReadKeeps(s, id, batch);
      case AddCas(batch, first) => AddCasKeeps(s, id, batch, first);
      case DelStart => DelStartKeeps(s, id, s.threads[id]);
      case DelNext(_) => DelNextKeeps(s, id, s.threads[id]);
      case DelCas(_, _) => DelCasKeeps(s, id, s.threads[id]);
    }
  }

  ghost predicate IsRun(r: seq<State>) {
    |r| > 0 && Init(r[0]) && forall i :: 0 <= i < |r| - 1 ==> Next(r[i], r[i + 1])
  }

  lemma {:induction false} RunInv(r: seq<State>, i: nat)
    requires IsRun(r) && i < |r|
    ensures Inv(r[i])
  {
    if i > 0 {
      RunInv(r, i - 1);
      assert Next(r[i - 1], r[i - 1 + 1]);
      StepKeeps(r[i - 1], r[i]);
    }
  }

  // ---- what the header promises ----

  function AddedNodes(log: seq<Event>): multiset<Node> {
    if log == [] then multiset{}
    else
      var rest := AddedNodes(log[..|log| - 1]);
      match log[|log| - 1] case Added(b, _) => rest + multiset(b) case _ => rest
  }

  function TakenNodes(log: seq<Event>): multiset<Node> {
    if log == [] then multiset{}
    else
      var rest := TakenNodes(log[..|log| - 1]);
      match log[|log| - 1] case TookAll(_, ns) => rest + multiset(ns) case TookFirst(n) => rest + multiset{n} case _ => rest
  }

  /** One operation moves nodes between what was taken and the list, or adds a batch. */
  lemma ApplyConserves(q: seq<Node>, e: Event)
    requires Apply(q, e).Holding?
    ensures match e
            case Added(b, _) => multiset(Apply(q, e).list) == multiset(q) + multiset(b)
            case TookAll(_, ns) => multiset(q) == multiset(ns) && Apply(q, e).list == []
            case TookFirst(n) => multiset(q) == multiset{n} + multiset(Apply(q, e).list)
            case FoundEmpty => q == [] && Apply(q, e).list == []
  {
    if e.TookFirst? {
      assert q == [e.node] + q[1..];
    }
  }

  /** In a legal history nothing is lost and nothing is delivered twice: added nodes are those taken plus those on the list. */
  lemma {:induction false} LegalConserves(log: seq<Event>)
    requires Replay(log).Holding?
    ensures AddedNodes(log) == TakenNodes(log) + multiset(Replay(log).list)
  {
    if log != [] {
      var before := log[..|log| - 1];
      LegalConserves(before);
      var q, e := Replay(before).list, log[|log| - 1];
      assert Replay(log) == Apply(q, e);
      ApplyConserves(q, e);
    }
  }

  /**
   Over every disciplined run: what the head points at is the list the history describes, newest
   first; each added node is taken exactly once or still there; and every call returned what a
   stack would (llist_add_batch: whether the list was empty).
   */
  lemma Conservation(r: seq<State>, i: nat)
    requires IsRun(r) && i < |r|
    ensures Spells(r[i].first, r[i].next, r[i].list) && Replay(r[i].log) == Holding(r[i].list)
    ensures AddedNodes(r[i].log) == TakenNodes(r[i].log) + multiset(r[i].list)
  {
    RunInv(r, i);
    LegalConserves(r[i].log);
  }

  // ---- the order of delivery ----

  function Reversed<T>(s: seq<T>): (r: seq<T>)
    ensures |r| == |s| && forall i :: 0 <= i < |s| ==> r[i] == s[|s| - 1 - i]
  {
    seq(|s|, i requires 0 <= i < |s| => s[|s| - 1 - i])
  }

  /** What is on the list, oldest first, as the swaps of the history put it there. */
  function Arrivals(log: seq<Event>): seq<Node> {
    if log == [] then []
    else
      var rest := Arrivals(log[..|log| - 1]);
      match log[|log| - 1]
      case Added(b, _) => rest + Reversed(b)
      case TookAll(_, _) => []
      case TookFirst(_) => if rest == [] then [] else rest[..|rest| - 1]
      case FoundEmpty => rest
  }

  /** For each of them, which entry of the history is the swap. */
  function Swaps(log: seq<Event>): (r: seq<nat>)
    ensures |r| == |Arrivals(log)|
  {
    if log == [] then []
    else
      var rest := Swaps(log[..|log| - 1]);
      match log[|log| - 1]
      case Added(b, _) => rest + seq(|b|, _ => |log| - 1)
      case TookAll(_, _) => []
      case TookFirst(_) => if rest == [] then [] else rest[..|rest| - 1]
      case FoundEmpty => rest
  }

  /** Later places belong to later swaps, and every node is in the batch of its swap. */
  ghost predicate InSwapOrder(log: seq<Event>, nodes: seq<Node>, swaps: seq<nat>) {
    && |swaps| == |nodes|
    && (forall i, j :: 0 <= i < j < |swaps| ==> swaps[i] <= swaps[j])
    && (forall i :: 0 <= i < |swaps| ==> swaps[i] < |log| && log[swaps[i]].Added? && nodes[i] in log[swaps[i]].batch)
  }

  lemma {:induction false} ArrivalsInOrder(log: seq<Event>)
    ensures InSwapOrder(log, Arrivals(log), Swaps(log))
  {
    if log != [] {
      var before := log[..|log| - 1];
      ArrivalsInOrder(before);
      var a, t, e := Arrivals(before), Swaps(before), log[|log| - 1];
      forall i | 0 <= i < |Swaps(log)|
        ensures Swaps(log)[i] < |log| && log[Swaps(log)[i]].Added? && Arrivals(log)[i] in log[Swaps(log)[i]].batch
      {
        if i < |t| {
          assert log[t[i]] == before[t[i]];
        } else {
          assert Arrivals(log)[i] == Reversed(e.batch)[i - |t|];
        }
      }
    }
  }

  lemma ReversedConcat<T>(a: seq<T>, b: seq<T>)
    ensures Reversed(a + b) == Reversed(b) + Reversed(a)
  {
  }

  /** The list behind a legal history, walked backwards, is in order of arrival. */
  lemma {:induction false} ListIsArrivals(log: seq<Event>)
    requires Replay(log).Holding?
    ensures Reversed(Replay(log).list) == Arrivals(log)
  {
    if log != [] {
      var before := log[..|log| - 1];
      ListIsArrivals(before);
      var q, e := Replay(before).list, log[|log| - 1];
      match e
      case Added(b, _) => ReversedConcat(b, q);
      case TookAll(_, _) =>
      case TookFirst(n) =>
        assert q == [n] + q[1..];
        ReversedConcat([n], q[1..]);
        assert Reversed(q)[..|q| - 1] == Reversed(q[1..]);
      case FoundEmpty =>
    }
  }

  lemma {:induction false} ReplayPrefix(log: seq<Event>, k: nat)
    requires Replay(log).Holding? && k <= |log|
    ensures Replay(log[..k]).Holding?
    decreases |log|
  {
    if k < |log| {
      ReplayPrefix(log[..|log| - 1], k);
      assert log[..|log| - 1][..k] == log[..k];
    } else {
      assert log[..k] == log;
    }
  }

  /** One entry of a legal history acts on what the entries before it left. */
  lemma EntryActs(log: seq<Event>, k: nat)
    requires Replay(log).Holding? && k < |log|
    ensures Replay(log[..k]).Holding? && Apply(Replay(log[..k]).list, log[k]).Holding?
  {
    ReplayPrefix(log, k);
    ReplayPrefix(log, k + 1);
    assert log[..k + 1][..|log[..k + 1]| - 1] == log[..k];
  }

  /**
   Over every disciplined run: a chain taken by llist_del_all, reversed, lists its nodes in the
   order in which their batches were swapped in.
   */
  lemma TakenReversed(r: seq<State>, i: nat, k: nat)
    requires IsRun(r) && i < |r| && k < |r[i].log| && r[i].log[k].TookAll?
    ensures Reversed(r[i].log[k].nodes) == Arrivals(r[i].log[..k])
    ensures InSwapOrder(r[i].log[..k], Reversed(r[i].log[k].nodes), Swaps(r[i].log[..k]))
  {
    RunInv(r, i);
    EntryActs(r[i].log, k);
    ListIsArrivals(r[i].log[..k]);
    ArrivalsInOrder(r[i].log[..k]);
  }

  /** The batches of a history in the order of their swaps, each from its last node to its first. */
  function AddedInOrder(log: seq<Event>): seq<Node> {
    if log == [] then []
    else
      var rest := AddedInOrder(log[..|log| - 1]);
      if log[|log| - 1].Added? then rest + Reversed(log[|log| - 1].batch) else rest
  }

  /** With llist_del_all consumers only, what is on the list is all that was added since the last one. */
  lemma {:induction false} AllSinceLastTake(log: seq<Event>, since: nat)
    requires since <= |log| && (since > 0 ==> log[since - 1].TookAll?)
    requires forall k :: since <= k < |log| ==> log[k].Added?
    ensures Arrivals(log) == AddedInOrder(log[since..])
    decreases |log|
  {
    if since == |log| {
      assert log[since..] == [];
    } else {
      var before := log[..|log| - 1];
      AllSinceLastTake(before, since);
      assert log[since..][..|log[since..]| - 1] == before[since..];
    }
  }

  lemma TakesAll(s: State, s': State, id: Tid, head: Node, nodes: seq<Node>)
    requires StepBy(s, s', id) && |s'.log| == |s.log| + 1 && s'.log[|s.log|] == TookAll(head, nodes)
    ensures s' == DelAll(s, id) && head == s.first && nodes == s.list
  {
  }

  /** What llist_del_all returns leads through exactly the nodes taken, in the memory it leaves behind. */
  lemma TakenChain(s: State, s': State, id: Tid, head: Node, nodes: seq<Node>)
    requires Inv(s) && StepBy(s, s', id) && s'.log == s.log + [TookAll(head, nodes)]
    ensures Spells(head, s'.next, nodes) && nodes == s.list && s'.first == NULL && s'.list == []
  {
    TakesAll(s, s', id, head, nodes);
  }

  // ---- an empty answer ----

  /** Over every disciplined run: when llist_del_first returned NULL, the list was empty at the head it read. */
  lemma NullMeansEmpty(r: seq<State>, i: nat, k: nat)
    requires IsRun(r) && i < |r| && k < |r[i].log| && r[i].log[k].FoundEmpty?
    ensures Replay(r[i].log[..k]) == Holding([])
  {
    RunInv(r, i);
    EntryActs(r[i].log, k);
  }

  /** A call of llist_del_first leaves exactly one entry, when it returns. */
  lemma DelFirstAnswers(s: State, s': State, id: Tid)
    requires Inv(s) && StepBy(s, s', id) && InDelFirst(s, id)
    ensures InDelFirst(s', id) ==> s'.log == s.log
    ensures Resting(s', id) ==> (s.list == [] && s'.log == s.log + [FoundEmpty]) || (s.list != [] && s'.log == s.log + [TookFirst(s.list[0])])
    ensures InDelFirst(s', id) || Resting(s', id)
  {
    assert ThreadOk(s, s.threads[id]);
    hide ThreadOk, Apart, Replay;
  }

  // ---- why the table asks for a lock ----

  /** A run without the rule: any thread may take its next step. */
  ghost predicate Path(r: seq<State>) {
    |r| > 0 && forall i :: 0 <= i < |r| - 1 ==> AnyStep(r[i], r[i + 1])
  }

  ghost predicate AnyStep(s: State, s': State) {
    exists id :: StepBy(s, s', id)
  }

  ghost predicate Reaches(s: State, s': State) {
    exists r :: Path(r) && r[0] == s && r[|r| - 1] == s'
  }

  lemma ReachStep(s: State, s': State, id: Tid)
    requires StepBy(s, s', id)
    ensures Reaches(s, s')
  {
    hide StepBy;
    var r := [s, s'];
    assert AnyStep(s, s');
    assert Path(r);
    assert r[0] == s && r[|r| - 1] == s';
  }

  lemma ReachTrans(s: State, s': State, s'': State)
    requires Reaches(s, s') && Reaches(s', s'')
    ensures Reaches(s, s'')
  {
    hide AnyStep;
    var r1 :| Path(r1) && r1[0] == s && r1[|r1| - 1] == s';
    var r2 :| Path(r2) && r2[0] == s' && r2[|r2| - 1] == s'';
    var r := r1 + r2[1..];
    forall i | 0 <= i < |r| - 1
      ensures AnyStep(r[i], r[i + 1])
    {
      if i < |r1| - 1 {
        assert r[i] == r1[i] && r[i + 1] == r1[i + 1];
      } else {
        var j := i - (|r1| - 1);
        assert r[i] == r2[j] && r[i + 1] == r2[j + 1];
      }
    }
    assert Path(r);
  }

  /** A whole llist_add of one node, undisturbed. */
  lemma AddOne(s: State, id: Tid, n: Node) returns (s': State)
    requires Resting(s, id) && n in s.free
    ensures Reaches(s, s')
    ensures s' == s.(first := n, next := s.next[n := s.first], list := [n] + s.list, free := s.free - {n},
                     log := s.log + [Added([n], s.first == NULL)], threads := s.threads[id := Idle])
  {
    var s1 := EnterAdd(s, id, n);
    hide Path, BeginAdd, DelStep, Begins;
    var s2 := AddReadStep(s1, id, [n]);
    assert StepBy(s1, s2, id);
    s' := AddCasStep(s2, id, [n], s2.first);
    assert StepBy(s2, s', id);
    hide StepBy;
    ReachStep(s1, s2, id);
    ReachStep(s2, s', id);
    ReachTrans(s, s1, s2);
    ReachTrans(s, s2, s');
    assert s'.threads == s.threads[id := Idle];
  }

  lemma EnterAdd(s: State, id: Tid, n: Node) returns (s': State)
    requires Resting(s, id) && n in s.free
    ensures Reaches(s, s') && s' == s.(free := s.free - {n}, threads := s.threads[id := AddRead([n])])
  {
    hide Path;
    var batch := [n];
    s' := BeginAdd(s, id, batch);
    assert batch != [] && NoRepeat(batch) && (forall m :: m in batch ==> m in s.free);
    assert StepBy(s, s', id);
    hide StepBy, Begins;
    assert (set m | m in batch) == {n};
    ReachStep(s, s', id);
  }

  /** llist_del_first up to, but not including, its compare-and-swap. */
  lemma EnterDelFirst(s: State, id: Tid) returns (s': State)
    requires Resting(s, id) && s.first != NULL && s.first in s.next
    ensures Reaches(s, s') && s' == s.(threads := s.threads[id := DelCas(s.first, s.next[s.first])])
  {
    hide Path, DelAll, BeginAdd;
    var s1 := SetThread(s, id, DelStart);
    assert StepBy(s, s1, id);
    var s2 := SetThread(s, id, DelNext(s.first));
    assert s2 == DelStep(s1, id, DelStart) && StepBy(s1, s2, id);
    s' := SetThread(s, id, DelCas(s.first, s.next[s.first]));
    assert s' == DelStep(s2, id, DelNext(s.first)) && StepBy(s2, s', id);
    hide StepBy, DelStep;
    ReachStep(s, s1, id);
    ReachStep(s1, s2, id);
    ReachStep(s2, s', id);
    ReachTrans(s, s1, s2);
    ReachTrans(s, s2, s');
  }

  /** Its compare-and-swap, when the head still holds the entry. */
  lemma LeaveDelFirst(s: State, id: Tid, entry: Node, nxt: Node) returns (s': State)
    requires id in s.threads && s.threads[id] == DelCas(entry, nxt) && s.first == entry && s.list != []
    ensures Reaches(s, s')
    ensures s' == s.(first := nxt, list := s.list[1..], free := s.free + {entry}, log := s.log + [TookFirst(entry)],
                     threads := s.threads[id := Idle])
  {
    s' := DelStep(s, id, s.threads[id]);
    ReachStep(s, s', id);
  }

  const Start := State(NULL, map[1 := NULL, 2 := NULL, 3 := NULL], map[], [], {1, 2, 3}, [])

  /** Two consumers in llist_del_first at once, and the other one re-adds the node it got: node 3 is lost. */
  lemma TwoDelFirstLoseANode()
    ensures Init(Start)
    ensures exists s :: Reaches(Start, s) && s.list == [3, 2] && s.first == 2 && !Spells(s.first, s.next, s.list)
  {
    hide StepBy;
    var s1 := AddOne(Start, 0, 2);
    var s2 := AddOne(s1, 0, 1);
    ReachTrans(Start, s1, s2);
    var s3 := EnterDelFirst(s2, 1);
    ReachTrans(Start, s2, s3);
    var s4 := EnterDelFirst(s3, 2);
    ReachTrans(Start, s3, s4);
    var s5 := LeaveDelFirst(s4, 2, 1, 2);
    ReachTrans(Start, s4, s5);
    var s6 := AddOne(s5, 0, 3);
    ReachTrans(Start, s5, s6);
    var s7 := AddOne(s6, 0, 1);
    ReachTrans(Start, s6, s7);
    var s8 := LeaveDelFirst(s7, 1, 1, 2);
    ReachTrans(Start, s7, s8);
    assert s8.list == [3, 2] && s8.first == 2;
    assert !Spells(s8.first, s8.next, s8.list);
  }

  /** llist_del_all while another consumer is in llist_del_first: node 2 is handed out and is still the head. */
  lemma DelAllDuringDelFirstDuplicates()
    ensures exists s :: Reaches(Start, s) && s.first == 2 && 2 in s.free && s.list == [] && !Spells(s.first, s.next, s.list)
  {
    hide StepBy;
    var s1 := AddOne(Start, 0, 2);
    var s2 := AddOne(s1, 0, 1);
    ReachTrans(Start, s1, s2);
    var s3 := EnterDelFirst(s2, 1);
    ReachTrans(Start, s2, s3);
    var s4 := DelAll(s3, 2);
    TakeAllStep(s3, 2);
    ReachTrans(Start, s3, s4);
    assert s4.free == {1, 2, 3};
    var s5 := AddOne(s4, 0, 1);
    ReachTrans(Start, s4, s5);
    var s6 := LeaveDelFirst(s5, 1, 1, 2);
    ReachTrans(Start, s5, s6);
    assert s6.first == 2 && 2 in s6.free && s6.list == [];
  }

  lemma TakeAllStep(s: State, id: Tid)
    requires Resting(s, id)
    ensures Reaches(s, DelAll(s, id))
  {
    ReachStep(s, DelAll(s, id), id);
  }

  // ---- llist_reverse_order ----

  /** A node in memory; name is the number it has in the runs above. */
  class ListNode {
    const name: Node
    var next: ListNode?

    constructor (name: Node)
      ensures this.name == name && next == null
    {
      this.name, next := name, null;
    }
  }

  function Names(nodes: seq<ListNode>): (r: seq<Node>)
    ensures |r| == |nodes| && forall i :: 0 <= i < |r| ==> r[i] == nodes[i].name
  {
    seq(|nodes|, i requires 0 <= i < |nodes| => nodes[i].name)
  }

  /** head leads through exactly these nodes, all different, to NULL. */
  ghost predicate Chain(head: ListNode?, nodes: seq<ListNode>)
    reads nodes
  {
    && (forall i, j :: 0 <= i < j < |nodes| ==> nodes[i] != nodes[j])
    && head == At(nodes, 0)
    && (forall i :: 0 <= i < |nodes| ==> nodes[i].next == At(nodes, i + 1))
  }

  /** The node at position i, or null at either end. */
  function At(nodes: seq<ListNode>, i: int): ListNode? {
    if 0 <= i < |nodes| then nodes[i] else null
  }

  /** Two reversals give the chain back. */
  lemma ReversedTwice(nodes: seq<ListNode>)
    ensures Reversed(Reversed(nodes)) == nodes
  {
  }

  /** Every node pointing back to the one before it. */
  lemma RelinkedIsReversed(head: ListNode?, nodes: seq<ListNode>)
    requires forall i, j :: 0 <= i < j < |nodes| ==> nodes[i] != nodes[j]
    requires head == At(nodes, |nodes| - 1) && forall j :: 0 <= j < |nodes| ==> nodes[j].next == At(nodes, j - 1)
    ensures Chain(head, Reversed(nodes))
  {
    hide At, Reversed;
    var rev, n := Reversed(nodes), |nodes|;
    ReversedAt(nodes, 0);
    forall k | 0 <= k < n
      ensures k < |rev| && rev[k] == nodes[n - 1 - k] && rev[k].next == At(rev, k + 1)
    {
      ReversedAt(nodes, k);
      ReversedAt(nodes, k + 1);
    }
  }

  /** What llist_reverse_order makes of a chain taken by llist_del_all: the nodes in order of arrival. */
  lemma ReversedIsArrivals(nodes: seq<ListNode>, log: seq<Event>)
    requires Replay(log + [TookAll(if nodes == [] then NULL else nodes[0].name, Names(nodes))]).Holding?
    ensures Names(Reversed(nodes)) == Arrivals(log)
    ensures InSwapOrder(log, Names(Reversed(nodes)), Swaps(log))
  {
    var whole := log + [TookAll(if nodes == [] then NULL else nodes[0].name, Names(nodes))];
    assert whole[..|whole| - 1] == log;
    ListIsArrivals(log);
    ArrivalsInOrder(log);
    assert Names(Reversed(nodes)) == Reversed(Names(nodes));
  }

  lemma AtIs(nodes: seq<ListNode>, i: int)
    ensures At(nodes, i) == if 0 <= i < |nodes| then nodes[i] else null
  {
  }

  lemma ReversedAt(nodes: seq<ListNode>, k: int)
    ensures |Reversed(nodes)| == |nodes| && At(Reversed(nodes), k) == At(nodes, |nodes| - 1 - k)
    ensures 0 <= k < |nodes| ==> Reversed(nodes)[k] == nodes[|nodes| - 1 - k]
  {
  }

  /** llist_reverse_order: relinks the chain in place. */
  method ReverseOrder(head: ListNode?, ghost nodes: seq<ListNode>) returns (newHead: ListNode?)
    requires Chain(head, nodes)
    modifies nodes
    ensures Chain(newHead, Reversed(nodes))
  {
    hide At;
    AtIs(nodes, -1);
    newHead := null;
    var h := head;
    ghost var i := 0;
    while h != null
      invariant 0 <= i <= |nodes| && h == At(nodes, i) && newHead == At(nodes, i - 1)
      invariant forall j :: i <= j < |nodes| ==> nodes[j].next == At(nodes, j + 1)
      invariant forall j :: 0 <= j < i ==> nodes[j].next == At(nodes, j - 1)
      decreases |nodes| - i
    {
      AtIs(nodes, i);
      assert h == nodes[i] && forall j :: 0 <= j < |nodes| && j != i ==> nodes[j] != h;
      var tmp := h;
      h := h.next;
      tmp.next := newHead;
      newHead := tmp;
      i := i + 1;
    }
    AtIs(nodes, i);
    RelinkedIsReversed(newHead, nodes);
  }
}
