/** The work queue of utils_common.c: a list of items under a mutex, a semaphore that counts them, any
    number of threads that put items in and any number that take them out. The two critical sections
    are methods on the heap; every interleaving of all threads is a run of a state machine over the
    same list. */
module WorkQueue {
  import opened Counting
  import opened ListRing

  datatype QueueState = Unknown | Started | Paused | Stopped

  datatype Status = Success | PreConditionFails | NotStarted | InternalError

  // ---------------------------------------------------------------------------------------------
  // On the heap

  class QueueProcessor {
    var state: QueueState
    var semPendingItems: nat
    const anchor: ListHead
    ghost var items: seq<ListHead>

    ghost predicate Valid()
      reads this, anchor, items
    {
      IsRing([anchor] + items)
    }

    /** hfsQueueInit */
    constructor ()
      ensures Valid() && fresh(anchor) && items == [] && state == Unknown && semPendingItems == 0
    {
      state := Unknown;
      semPendingItems := 0;
      anchor := new ListHead();
      items := [];
      new;
      assert [anchor] + items == [anchor];
    }

    /** hfsQueueItem. `ring` is the list that the item is on, beginning with the item: alone, another
        list, or this very queue. `posted` is whether the semaphore could be posted. */
    method QueueItem(item: ListHead?, ghost ring: seq<ListHead>, posted: bool) returns (status: Status)
      requires Valid()
      requires item != null ==> IsRing(ring) && ring[0] == item && (item in items || Disjoint(ring, [anchor] + items))
      modifies this, item, anchor, items
      ensures Valid()
      ensures status == if item == null || ring != [item] then PreConditionFails
                        else if old(state) != Started then NotStarted
                        else if !posted then InternalError
                        else Success
      ensures items == if status == Success then old(items) + [item] else old(items)
      ensures semPendingItems == old(semPendingItems) + if status == Success then 1 else 0
      ensures state == old(state)
      ensures item != null && ring == [item] && status != Success ==> IsRing([item])
    {
      if item == null {
        return PreConditionFails;
      }
      var alone := ListEmpty(item, ring);
      if !alone {
        return PreConditionFails;
      }
      if state != Started {
        return NotStarted;
      }
      ghost var s := [anchor] + items;
      if item in items {
        SingleRing(s, item);
      }
      assert PrevOk(s, 0);
      ListAddTail(item, anchor, s);
      assert s + [item] == [anchor] + (items + [item]);
      if !posted {
        ghost var t := s + [item];
        assert NextOk(t, |t| - 1) && PrevOk(t, |t| - 1);
        ListDelInit(item, t, |t| - 1);
        assert Without(t, |t| - 1) == s;
        return InternalError;
      }
      items := items + [item];
      semPendingItems := semPendingItems + 1;
      status := Success;
    }

    /** What a dispatch thread does under the lock (CommonQueueDispatch): it takes the first item, or
        finds none. */
    method TakeFirst() returns (item: ListHead?)
      requires Valid()
      modifies this`items, anchor, items
      ensures Valid()
      ensures item == null <==> old(items) == []
      ensures item != null ==> old(items) == [item] + items && IsRing([item])
    {
      ghost var s := [anchor] + items;
      var empty := ListEmpty(anchor, s);
      if empty {
        assert items == [];
        return null;
      }
      assert NextOk(s, 0) && NextOk(s, 1) && PrevOk(s, 1);
      item := anchor.next;
      ListDelInit(item, s, 1);
      assert Without(s, 1) == [anchor] + items[1..];
      items := items[1..];
    }
  }

  /** A node that is a ring of its own is on no other list. */
  lemma SingleRing(s: seq<ListHead>, x: ListHead)
    requires IsRing(s) && IsRing([x]) && |s| > 1
    ensures x !in s
  {
    assert NextOk([x], 0);
    forall i: nat | i < |s|
      ensures s[i] != x
    {
      assert NextOk(s, i);
    }
  }

  // ---------------------------------------------------------------------------------------------
  // Every interleaving

  /** A dispatch thread: before its look at the state, waiting for the semaphore, past the wait, in the
      critical section, after the dequeue but still in it, processing, or gone. */
  datatype Worker<X> = Top | Waiting | Past | Inside | Took(x: X) | Processing(x: X) | Gone

  /** A caller of hfsQueueItem: the checks are made before the lock is taken. */
  datatype Producer<X> = Ready | Checked(x: X) | Locked(x: X) | Appended(x: X) | Leaving(status: Status)

  datatype Owner = Nobody | HeldByWorker(w: nat) | HeldByProducer(p: nat)

  datatype Queue<X> = Queue(
    state: QueueState,
    sem: nat,
    items: seq<X>,
    lock: Owner,
    workers: seq<Worker<X>>,
    producers: seq<Producer<X>>,
    accepted: seq<X>,
    taken: seq<X>)

  datatype WorkerStep = Look | Wait | Enter | Dequeue | Leave | Process

  datatype ProducerStep<X> = Offer(x: X) | Acquire | Append | Post | PostFails | Release

  datatype Action<X> =
    | SetState(to: QueueState)
    | ByWorker(w: nat, ws: WorkerStep)
    | ByProducer(p: nat, ps: ProducerStep<X>)

  predicate HasPassed<X>(w: Worker<X>) {
    w.Past? || w.Inside?
  }

  predicate WorkerMay<X>(q: Queue<X>, w: nat, k: WorkerStep) {
    && w < |q.workers|
    && match k
       case Look => q.workers[w].Top?
       case Wait => q.workers[w].Waiting? && q.sem > 0
       case Enter => q.workers[w].Past? && q.lock == Nobody
       case Dequeue => q.workers[w].Inside?
       case Leave => q.workers[w].Took?
       case Process => q.workers[w].Processing?
  }

  /** An item is in one caller's hands at a time, and is offered only when it is on no list: that is
      what the first check of hfsQueueItem looks at. */
  predicate ProducerMay<X(==)>(q: Queue<X>, p: nat, k: ProducerStep<X>) {
    && p < |q.producers|
    && match k
       case Offer(x) =>
         q.producers[p].Ready? && q.state == Started && x !in q.items &&
         forall i :: 0 <= i < |q.producers| ==> !InHand(q.producers[i], x)
       case Acquire => q.producers[p].Checked? && q.lock == Nobody
       case Append => q.producers[p].Locked?
       case Post => q.producers[p].Appended?
       case PostFails => q.producers[p].Appended?
       case Release => q.producers[p].Leaving?
  }

  predicate InHand<X(==)>(p: Producer<X>, x: X) {
    (p.Checked? || p.Locked? || p.Appended?) && p.x == x
  }

  predicate Enabled<X(==)>(q: Queue<X>, a: Action<X>) {
    match a
    case SetState(_) => q.lock == Nobody
    case ByWorker(w, k) => WorkerMay(q, w, k)
    case ByProducer(p, k) => ProducerMay(q, p, k)
  }

  function DoWorker<X>(q: Queue<X>, w: nat, k: WorkerStep): Queue<X>
    requires WorkerMay(q, w, k)
  {
    match k
    case Look => q.(workers := q.workers[w := if q.state == Stopped then Gone else Waiting])
    case Wait => q.(workers := q.workers[w := Past], sem := q.sem - 1)
    case Enter => q.(workers := q.workers[w := Inside], lock := HeldByWorker(w))
    case Dequeue =>
      if q.items == [] then q.(workers := q.workers[w := Top], lock := Nobody)
      else q.(workers := q.workers[w := Took(q.items[0])], items := q.items[1..], taken := q.taken + [q.items[0]])
    case Leave => q.(workers := q.workers[w := Processing(q.workers[w].x)], lock := Nobody)
    case Process => q.(workers := q.workers[w := Top])
  }

  function DoProducer<X(==)>(q: Queue<X>, p: nat, k: ProducerStep<X>): Queue<X>
    requires ProducerMay(q, p, k)
  {
    match k
    case Offer(x) => q.(producers := q.producers[p := Checked(x)])
    case Acquire => q.(producers := q.producers[p := Locked(q.producers[p].x)], lock := HeldByProducer(p))
    case Append => q.(producers := q.producers[p := Appended(q.producers[p].x)], items := q.items + [q.producers[p].x])
    case Post =>
      q.(producers := q.producers[p := Leaving(Success)], sem := q.sem + 1, accepted := q.accepted + [q.producers[p].x])
    case PostFails => q.(producers := q.producers[p := Leaving(InternalError)],
                         items := Remove(q.items, q.producers[p].x))
    case Release => q.(producers := q.producers[p := Ready], lock := Nobody)
  }

  /** `list_del_init` of an item, wherever it is. */
  function Remove<X(==)>(s: seq<X>, x: X): seq<X> {
    if s == [] then [] else if s[0] == x then s[1..] else [s[0]] + Remove(s[1..], x)
  }

  function Do<X(==)>(q: Queue<X>, a: Action<X>): Queue<X>
    requires Enabled(q, a)
  {
    match a
    case SetState(to) => q.(state := to)
    case ByWorker(w, k) => DoWorker(q, w, k)
    case ByProducer(p, k) => DoProducer(q, p, k)
  }

  predicate Init<X>(q: Queue<X>) {
    && q.sem == 0 && q.items == [] && q.lock == Nobody && q.accepted == [] && q.taken == []
    && (forall w :: 0 <= w < |q.workers| ==> q.workers[w].Top?)
    && (forall p :: 0 <= p < |q.producers| ==> q.producers[p].Ready?)
  }

  /** The item that has been appended and is not yet counted by the semaphore. */
  function Uncounted<X>(q: Queue<X>): seq<X> {
    match q.lock
    case HeldByProducer(p) => if p < |q.producers| && q.producers[p].Appended? then [q.producers[p].x] else []
    case _ => []
  }

  predicate ProducerOk<X(==)>(q: Queue<X>, p: nat)
    requires p < |q.producers|
  {
    match q.producers[p]
    case Ready => q.lock != HeldByProducer(p)
    case Checked(x) => q.lock != HeldByProducer(p) && x !in q.items
    case Locked(x) => q.lock == HeldByProducer(p) && x !in q.items
    case Appended(x) => q.lock == HeldByProducer(p) && q.items != [] && q.items[|q.items| - 1] == x
    case Leaving(_) => q.lock == HeldByProducer(p)
  }

  predicate WorkerOk<X>(q: Queue<X>, w: nat)
    requires w < |q.workers|
  {
    q.workers[w].Inside? || q.workers[w].Took? <==> q.lock == HeldByWorker(w)
  }

  predicate HandsDiffer<X(==)>(q: Queue<X>, i: nat, j: nat)
    requires i < |q.producers| && j < |q.producers|
  {
    i != j && (q.producers[i].Checked? || q.producers[i].Locked? || q.producers[i].Appended?) ==>
    !InHand(q.producers[j], q.producers[i].x)
  }

  /** Items are counted by the semaphore or by a worker that is past the wait, and what has been taken
      and what is on the list is what was accepted, in order. */
  predicate Counted<X(==)>(q: Queue<X>) {
    && |q.items| == q.sem + Count(q.workers, HasPassed) + |Uncounted(q)|
    && q.taken + q.items == q.accepted + Uncounted(q)
    && NoDuplicates(q.items)
  }

  ghost predicate Inv<X>(q: Queue<X>) {
    && Counted(q)
    && (forall w: nat :: w < |q.workers| ==> WorkerOk(q, w))
    && (forall p: nat :: p < |q.producers| ==> ProducerOk(q, p))
    && (forall i: nat, j: nat :: i < |q.producers| && j < |q.producers| ==> HandsDiffer(q, i, j))
    && LockOk(q)
  }

  /** The lock is held by one of the threads. */
  predicate LockOk<X>(q: Queue<X>) {
    match q.lock
    case Nobody => true
    case HeldByWorker(w) => w < |q.workers|
    case HeldByProducer(p) => p < |q.producers|
  }

  lemma WorkerKeepsCounted<X>(q: Queue<X>, w: nat, k: WorkerStep)
    requires Inv(q) && WorkerMay(q, w, k)
    ensures Counted(DoWorker(q, w, k))
  {
    assert WorkerOk(q, w);
    CountUpdate(q.workers, HasPassed, w, DoWorker(q, w, k).workers[w]);
  }

  lemma WorkerKeeps<X>(q: Queue<X>, w: nat, k: WorkerStep)
    requires Inv(q) && WorkerMay(q, w, k)
    ensures Inv(DoWorker(q, w, k))
  {
    WorkerKeepsCounted(q, w, k);
    var t := DoWorker(q, w, k);
    assert WorkerOk(q, w);
    forall v: nat | v < |t.workers| ensures WorkerOk(t, v) {
      assert WorkerOk(q, v);
    }
    forall p: nat | p < |t.producers| ensures ProducerOk(t, p) {
      assert ProducerOk(q, p);
    }
    forall i: nat, j: nat | i < |t.producers| && j < |t.producers| ensures HandsDiffer(t, i, j) {
      assert HandsDiffer(q, i, j);
    }
  }

  lemma RemoveLast<X>(s: seq<X>, x: X)
    requires x !in s
    ensures Remove(s + [x], x) == s
  {
    if s != [] {
      assert (s + [x])[1..] == s[1..] + [x];
      RemoveLast(s[1..], x);
    } else {
      assert s + [x] == [x];
    }
  }

  lemma AppendKeepsCounted<X>(q: Queue<X>, p: nat)
    requires Inv(q) && ProducerMay(q, p, Append)
    ensures Counted(DoProducer(q, p, Append))
  {
    assert ProducerOk(q, p);
    var x := q.producers[p].x;
    AppendOne(q.items, x);
    assert q.taken + (q.items + [x]) == (q.taken + q.items) + [x];
    assert q.accepted + [] == q.accepted;
  }

  lemma UndoKeepsCounted<X>(q: Queue<X>, p: nat)
    requires Inv(q) && ProducerMay(q, p, PostFails)
    ensures Counted(DoProducer(q, p, PostFails))
  {
    assert ProducerOk(q, p);
    var t := DoProducer(q, p, PostFails);
    PostFailsUndoes(q, p);
    hide Remove;
    var x := q.producers[p].x;
    assert forall i :: 0 <= i < |t.items| ==> t.items[i] == q.items[i];
    assert q.taken + (t.items + [x]) == (q.taken + t.items) + [x] == q.accepted + [x];
    SameInit(q.taken + t.items, q.accepted, x);
    assert q.accepted + [] == q.accepted;
  }

  lemma SameInit<X>(s: seq<X>, t: seq<X>, x: X)
    requires s + [x] == t + [x]
    ensures s == t
  {
    assert s == (s + [x])[..|s|];
    assert t == (t + [x])[..|t|];
  }

  lemma ProducerKeepsCounted<X>(q: Queue<X>, p: nat, k: ProducerStep<X>)
    requires Inv(q) && ProducerMay(q, p, k)
    ensures Counted(DoProducer(q, p, k))
  {
    if k.Append? {
      AppendKeepsCounted(q, p);
    } else if k.PostFails? {
      UndoKeepsCounted(q, p);
    } else {
      assert ProducerOk(q, p);
      assert q.accepted + [] == q.accepted;
    }
  }

  /** An item whose announcement failed is the last of the list, and is taken off again. */
  lemma PostFailsUndoes<X>(q: Queue<X>, p: nat)
    requires Inv(q) && ProducerMay(q, p, PostFails)
    ensures q.items == DoProducer(q, p, PostFails).items + [q.producers[p].x]
  {
    assert ProducerOk(q, p);
    var n := |q.items| - 1;
    assert q.items == q.items[..n] + [q.producers[p].x];
    RemoveLast(q.items[..n], q.producers[p].x);
  }

  lemma ProducerKeeps<X>(q: Queue<X>, p: nat, k: ProducerStep<X>)
    requires Inv(q) && ProducerMay(q, p, k)
    ensures Inv(DoProducer(q, p, k))
  {
    ProducerKeepsCounted(q, p, k);
    var t := DoProducer(q, p, k);
    if k.PostFails? {
      PostFailsUndoes(q, p);
    }
    assert ProducerOk(q, p);
    forall w: nat | w < |t.workers| ensures WorkerOk(t, w) {
      assert WorkerOk(q, w);
    }
    forall v: nat | v < |t.producers| ensures ProducerOk(t, v) {
      assert ProducerOk(q, v) && HandsDiffer(q, p, v);
    }
    forall i: nat, j: nat | i < |t.producers| && j < |t.producers| ensures HandsDiffer(t, i, j) {
      assert HandsDiffer(q, i, j);
    }
  }

  /** Every step of every thread keeps the invariant. */
  lemma StepKeeps<X>(q: Queue<X>, a: Action<X>)
    requires Inv(q) && Enabled(q, a)
    ensures Inv(Do(q, a))
  {
    match a
    case SetState(to) =>
      var t := Do(q, a);
      forall w: nat | w < |t.workers| ensures WorkerOk(t, w) {
        assert WorkerOk(q, w);
      }
      forall p: nat | p < |t.producers| ensures ProducerOk(t, p) {
        assert ProducerOk(q, p);
      }
      forall i: nat, j: nat | i < |t.producers| && j < |t.producers| ensures HandsDiffer(t, i, j) {
        assert HandsDiffer(q, i, j);
      }
    case ByWorker(w, k) => WorkerKeeps(q, w, k);
    case ByProducer(p, k) => ProducerKeeps(q, p, k);
  }

  predicate Reaches<X(==)>(from: Queue<X>, acts: seq<Action<X>>, to: Queue<X>)
    decreases |acts|
  {
    if acts == [] then from == to
    else Enabled(from, acts[0]) && Reaches(Do(from, acts[0]), acts[1..], to)
  }

  lemma {:induction false} AlwaysInv<X>(from: Queue<X>, acts: seq<Action<X>>, to: Queue<X>)
    requires Inv(from) && Reaches(from, acts, to)
    ensures Inv(to)
    decreases |acts|
  {
    hide Inv, Enabled, Do;
    if acts != [] {
      StepKeeps(from, acts[0]);
      AlwaysInv(Do(from, acts[0]), acts[1..], to);
    }
  }

  lemma Reachable<X>(start: Queue<X>, acts: seq<Action<X>>, q: Queue<X>)
    requires Init(start) && Reaches(start, acts, q)
    ensures Inv(q)
  {
    CountNone(start.workers, HasPassed);
    AlwaysInv(start, acts, q);
  }

  /** Whenever the lock is free, the list is as long as the semaphore's value plus the number of
      workers that have passed the wait and not yet dequeued. */
  lemma LengthIsSem<X>(start: Queue<X>, acts: seq<Action<X>>, q: Queue<X>)
    requires Init(start) && Reaches(start, acts, q) && q.lock == Nobody
    ensures |q.items| == q.sem + Count(q.workers, HasPassed)
  {
    Reachable(start, acts, q);
  }

  /** A worker never finds the list empty, in whatever state the queue is: the branch that complains
      is dead. */
  lemma NeverEmpty<X>(start: Queue<X>, acts: seq<Action<X>>, q: Queue<X>, w: nat)
    requires Init(start) && Reaches(start, acts, q) && WorkerMay(q, w, Dequeue)
    ensures q.items != []
  {
    Reachable(start, acts, q);
    if Count(q.workers, HasPassed) == 0 {
      CountZero(q.workers, HasPassed, w);
    }
  }

  /** First in, first out, and nothing lost or doubled: what workers have taken is a prefix of what was
      accepted, and when the lock is free the rest is on the list, in order. */
  lemma Fifo<X>(start: Queue<X>, acts: seq<Action<X>>, q: Queue<X>)
    requires Init(start) && Reaches(start, acts, q)
    ensures q.taken <= q.accepted
    ensures q.lock == Nobody ==> q.taken + q.items == q.accepted
    ensures NoDuplicates(q.items)
  {
    Reachable(start, acts, q);
    if Uncounted(q) != [] {
      var (p, n) := (q.lock.p, |q.items| - 1);
      assert ProducerOk(q, p);
      assert q.items == q.items[..n] + Uncounted(q);
      assert q.taken + (q.items[..n] + Uncounted(q)) == (q.taken + q.items[..n]) + Uncounted(q);
      SameInit(q.taken + q.items[..n], q.accepted, q.producers[p].x);
    } else {
      assert q.accepted + Uncounted(q) == q.accepted;
    }
  }

  /** A caller has put its item on the list and has not yet posted the semaphore. */
  predicate SomebodyPosting<X>(q: Queue<X>) {
    exists p :: 0 <= p < |q.producers| && q.producers[p].Appended?
  }

  predicate SomebodyPast<X>(q: Queue<X>) {
    exists w :: 0 <= w < |q.workers| && HasPassed(q.workers[w])
  }

  /** hfsQueueDrain returns success once it reads zero from the semaphore, without the lock. The list is
      then empty if and only if no worker is between its wait and its dequeue, and no caller between its
      append and its post. */
  lemma DrainedExactly<X>(start: Queue<X>, acts: seq<Action<X>>, q: Queue<X>)
    requires Init(start) && Reaches(start, acts, q) && q.sem == 0
    ensures q.items == [] <==> !SomebodyPast(q) && !SomebodyPosting(q)
  {
    Reachable(start, acts, q);
    PostingIsUncounted(q);
    if Count(q.workers, HasPassed) > 0 {
      var w := CountSome(q.workers, HasPassed);
    } else {
      forall w | 0 <= w < |q.workers| ensures !HasPassed(q.workers[w]) {
        CountZero(q.workers, HasPassed, w);
      }
    }
  }

  lemma PostingIsUncounted<X>(q: Queue<X>)
    requires Inv(q)
    ensures SomebodyPosting(q) <==> Uncounted(q) != []
  {
    if SomebodyPosting(q) {
      var p :| 0 <= p < |q.producers| && q.producers[p].Appended?;
      assert ProducerOk(q, p);
    }
  }

  lemma {:induction false} ReachesJoin<X>(from: Queue<X>, first: seq<Action<X>>, mid: Queue<X>, second: seq<Action<X>>,
                                          to: Queue<X>)
    requires Reaches(from, first, mid) && Reaches(mid, second, to)
    ensures Reaches(from, first + second, to)
    decreases |first|
  {
    hide Enabled, Do;
    if first == [] {
      assert first + second == second;
    } else {
      assert (first + second)[1..] == first[1..] + second;
      ReachesJoin(Do(from, first[0]), first[1..], mid, second, to);
    }
  }

  /** One more step at the end of a run. */
  lemma Then<X>(from: Queue<X>, acts: seq<Action<X>>, mid: Queue<X>, a: Action<X>)
    returns (more: seq<Action<X>>, to: Queue<X>)
    requires Reaches(from, acts, mid) && Enabled(mid, a)
    ensures to == Do(mid, a) && Reaches(from, more, to) && more == acts + [a]
  {
    to := Do(mid, a);
    assert Reaches(mid, [a], to);
    ReachesJoin(from, acts, mid, [a], to);
    more := acts + [a];
  }

  /** What one call does while the lock is free: the item is appended and counted, or, if the post fails, the
      queue is exactly as it was. */
  lemma OfferInFull<X>(q: Queue<X>, p: nat, x: X, posts: bool) returns (acts: seq<Action<X>>, to: Queue<X>)
    requires Inv(q) && q.lock == Nobody && q.state == Started && x !in q.items
    requires p < |q.producers| && q.producers[p].Ready?
    requires forall i :: 0 <= i < |q.producers| ==> !InHand(q.producers[i], x)
    ensures Reaches(q, acts, to) && KeepsState(acts)
    ensures to == if posts then q.(items := q.items + [x], sem := q.sem + 1, accepted := q.accepted + [x]) else q
  {
    RemoveLast(q.items, x);
    assert Reaches(q, [], q);
    hide Inv, Reaches, DoWorker, WorkerMay, Remove;
    acts, to := Then(q, [], q, ByProducer(p, Offer(x)));
    acts, to := Then(q, acts, to, ByProducer(p, Acquire));
    acts, to := Then(q, acts, to, ByProducer(p, Append));
    acts, to := Then(q, acts, to, ByProducer(p, if posts then Post else PostFails));
    acts, to := Then(q, acts, to, ByProducer(p, Release));
    assert to.producers == q.producers;
  }

  /** One item goes in. */
  lemma OfferOne<X>(start: Queue<X>, x: X) returns (acts: seq<Action<X>>, q: Queue<X>)
    requires Init(start) && start.state == Started && start.producers == [Ready]
    ensures Reaches(start, acts, q)
    ensures q == start.(items := [x], sem := 1, accepted := [x])
  {
    assert Reaches(start, [], start);
    Reachable(start, [], start);
    acts, q := OfferInFull(start, 0, x, true);
  }

  /** So a queue that was found drained may still have an item on its list. */
  lemma DrainedWithItem<X>(start: Queue<X>, x: X) returns (acts: seq<Action<X>>, q: Queue<X>)
    requires Init(start) && start.state == Started && start.producers == [Ready] && start.workers == [Top]
    ensures Reaches(start, acts, q) && q.lock == Nobody && q.state == Paused && q.sem == 0 && q.items == [x]
  {
    acts, q := OfferOne(start, x);
    hide Reaches, DoProducer, ProducerMay;
    acts, q := Then(start, acts, q, ByWorker(0, Look));
    acts, q := Then(start, acts, q, ByWorker(0, Wait));
    acts, q := Then(start, acts, q, SetState(Paused));
  }

  /** Or with every worker at rest, while the item's owner has yet to post the semaphore. */
  lemma DrainedWhilePosting<X>(start: Queue<X>, x: X) returns (acts: seq<Action<X>>, q: Queue<X>)
    requires Init(start) && start.state == Started && start.producers == [Ready]
    ensures Reaches(start, acts, q) && q.state == Paused && q.sem == 0 && q.items == [x]
    ensures q.workers == start.workers && !SomebodyPast(q)
  {
    assert Reaches(start, [], start);
    hide Reaches, DoWorker, WorkerMay;
    acts, q := Then(start, [], start, ByProducer(0, Offer(x)));
    acts, q := Then(start, acts, q, SetState(Paused));
    acts, q := Then(start, acts, q, ByProducer(0, Acquire));
    acts, q := Then(start, acts, q, ByProducer(0, Append));
    assert q.items == [x];
  }

  /** No caller has passed the checks of hfsQueueItem without having been through its lock. */
  predicate NobodyEntering<X>(q: Queue<X>) {
    forall p :: 0 <= p < |q.producers| ==> q.producers[p].Ready? || q.producers[p].Leaving?
  }

  /** A queue that is not started, and that no caller is entering, accepts nothing more. */
  lemma {:induction false} ClosedToCallers<X>(q: Queue<X>, acts: seq<Action<X>>, to: Queue<X>)
    requires q.state != Started && NobodyEntering(q) && Reaches(q, acts, to) && KeepsState(acts)
    ensures to.accepted == q.accepted && NobodyEntering(to)
    decreases |acts|
  {
    if acts != [] {
      var next := Do(q, acts[0]);
      assert NobodyEntering(next) && next.accepted == q.accepted && next.state == q.state;
      ClosedToCallers(next, acts[1..], to);
    }
  }

  predicate Entering<X>(q: Queue<X>, p: nat) {
    p < |q.producers| && !q.producers[p].Ready? && !q.producers[p].Leaving?
  }

  predicate KeepsState<X>(acts: seq<Action<X>>) {
    forall i :: 0 <= i < |acts| ==> !acts[i].SetState?
  }

  /** A caller that has passed the checks can always get its item, or that of the caller before it in the
      critical section, accepted; no worker that waits is needed for it. */
  lemma AcceptsNext<X>(q: Queue<X>, p: nat) returns (acts: seq<Action<X>>, to: Queue<X>)
    requires Inv(q) && Entering(q, p)
    ensures Reaches(q, acts, to) && KeepsState(acts) && |to.accepted| > |q.accepted| && to.sem > 0
    ensures |to.workers| == |q.workers| && forall w :: 0 <= w < |q.workers| && q.workers[w].Waiting? ==>
            to.workers[w].Waiting?
  {
    assert ProducerOk(q, p);
    match q.lock
    case HeldByProducer(h) =>
      assert ProducerOk(q, h);
      if q.producers[h].Leaving? {
        var free := Do(q, ByProducer(h, Release));
        acts, to := EntersFree(free, p);
        acts := Before(q, ByProducer(h, Release), acts, to);
      } else {
        acts, to := FinishesEntry(q, h);
      }
    case HeldByWorker(h) =>
      assert WorkerOk(q, h);
      var before, free := LeavesLock(q, h);
      acts, to := EntersFree(free, p);
      ReachesJoin(q, before, free, acts, to);
      acts := before + acts;
    case Nobody =>
      acts, to := EntersFree(q, p);
  }

  /** One step ahead of a run. */
  lemma Before<X>(q: Queue<X>, a: Action<X>, rest: seq<Action<X>>, to: Queue<X>) returns (acts: seq<Action<X>>)
    requires Enabled(q, a) && Reaches(Do(q, a), rest, to)
    ensures Reaches(q, acts, to) && acts == [a] + rest
  {
    acts := [a] + rest;
    assert acts[1..] == rest;
  }

  lemma FinishesEntry<X>(q: Queue<X>, p: nat) returns (acts: seq<Action<X>>, to: Queue<X>)
    requires p < |q.producers| && (q.producers[p].Locked? || q.producers[p].Appended?)
    ensures Reaches(q, acts, to) && KeepsState(acts) && |to.accepted| > |q.accepted| && to.sem > 0
    ensures to.workers == q.workers
  {
    if q.producers[p].Locked? {
      var next := Do(q, ByProducer(p, Append));
      to := Do(next, ByProducer(p, Post));
      acts := Before(next, ByProducer(p, Post), [], to);
      acts := Before(q, ByProducer(p, Append), acts, to);
    } else {
      to := Do(q, ByProducer(p, Post));
      acts := Before(q, ByProducer(p, Post), [], to);
    }
  }

  lemma EntersFree<X>(q: Queue<X>, p: nat) returns (acts: seq<Action<X>>, to: Queue<X>)
    requires q.lock == Nobody && p < |q.producers| && q.producers[p].Checked?
    ensures Reaches(q, acts, to) && KeepsState(acts) && |to.accepted| > |q.accepted| && to.sem > 0
    ensures to.workers == q.workers
  {
    var next := Do(q, ByProducer(p, Acquire));
    acts, to := FinishesEntry(next, p);
    acts := Before(q, ByProducer(p, Acquire), acts, to);
  }

  /** A worker in the critical section comes out of it. */
  lemma LeavesLock<X>(q: Queue<X>, w: nat) returns (acts: seq<Action<X>>, to: Queue<X>)
    requires w < |q.workers| && (q.workers[w].Inside? || q.workers[w].Took?)
    ensures Reaches(q, acts, to) && KeepsState(acts) && to.lock == Nobody && to.accepted == q.accepted
    ensures to.producers == q.producers && |to.workers| == |q.workers|
    ensures forall v :: 0 <= v < |q.workers| && v != w ==> to.workers[v] == q.workers[v]
  {
    if q.workers[w].Took? {
      to := Do(q, ByWorker(w, Leave));
      acts := Before(q, ByWorker(w, Leave), [], to);
    } else {
      var next := Do(q, ByWorker(w, Dequeue));
      if q.items == [] {
        to := next;
        acts := Before(q, ByWorker(w, Dequeue), [], to);
      } else {
        to := Do(next, ByWorker(w, Leave));
        acts := Before(next, ByWorker(w, Leave), [], to);
        acts := Before(q, ByWorker(w, Dequeue), acts, to);
      }
    }
  }

  lemma NobodyIs<X>(q: Queue<X>)
    requires forall p :: !Entering(q, p)
    ensures NobodyEntering(q)
  {
    forall p | 0 <= p < |q.producers|
      ensures q.producers[p].Ready? || q.producers[p].Leaving?
    {
      assert !Entering(q, p);
    }
  }

  ghost predicate Accepts<X>(q: Queue<X>, acts: seq<Action<X>>, to: Queue<X>) {
    Reaches(q, acts, to) && KeepsState(acts) && to.accepted != q.accepted
  }

  /** A queue that is not started still accepts an item, while its state stays as it is, if and only if
      some caller has passed the checks and not yet posted: the state is read before the lock is taken. */
  lemma AcceptsExactly<X(!new)>(start: Queue<X>, before: seq<Action<X>>, q: Queue<X>)
    requires Init(start) && Reaches(start, before, q) && q.state != Started
    ensures (exists acts, to :: Accepts(q, acts, to)) <==> exists p :: Entering(q, p)
  {
    if p :| Entering(q, p) {
      Reachable(start, before, q);
      var acts, to := AcceptsNext(q, p);
      assert Accepts(q, acts, to);
    } else {
      forall acts, to
        ensures !Accepts(q, acts, to)
      {
        if Reaches(q, acts, to) && KeepsState(acts) {
          NobodyIs(q);
          ClosedToCallers(q, acts, to);
        }
      }
    }
  }

  lemma {:induction false} Sleeps<X>(q: Queue<X>, acts: seq<Action<X>>, to: Queue<X>, w: nat)
    requires q.state != Started && NobodyEntering(q) && q.sem == 0 && w < |q.workers| && q.workers[w].Waiting?
    requires Reaches(q, acts, to) && KeepsState(acts)
    ensures w < |to.workers| && to.workers[w].Waiting?
    decreases |acts|
  {
    if acts != [] {
      var next := Do(q, acts[0]);
      assert NobodyEntering(next) && next.sem == 0 && next.state == q.state && next.workers[w].Waiting?;
      Sleeps(next, acts[1..], to, w);
    }
  }

  ghost predicate Wakes<X>(q: Queue<X>, w: nat, acts: seq<Action<X>>, to: Queue<X>) {
    Reaches(q, acts, to) && KeepsState(acts) && w < |to.workers| && !to.workers[w].Waiting?
  }

  /** A worker that waits in a queue that has been stopped, or only paused, can come out of its wait if and
      only if the semaphore has been posted or some caller is about to: stopping wakes nobody. */
  lemma WakesExactly<X(!new)>(start: Queue<X>, before: seq<Action<X>>, q: Queue<X>, w: nat)
    requires Init(start) && Reaches(start, before, q) && q.state != Started
    requires w < |q.workers| && q.workers[w].Waiting?
    ensures (exists acts, to :: Wakes(q, w, acts, to)) <==> q.sem > 0 || exists p :: Entering(q, p)
  {
    if q.sem > 0 {
      var to := Do(q, ByWorker(w, Wait));
      var acts := Before(q, ByWorker(w, Wait), [], to);
      assert Wakes(q, w, acts, to);
    } else if p :| Entering(q, p) {
      Reachable(start, before, q);
      var acts, mid := AcceptsNext(q, p);
      var more, to := Then(q, acts, mid, ByWorker(w, Wait));
      assert Wakes(q, w, more, to);
    } else {
      NobodyIs(q);
      forall acts, to
        ensures !Wakes(q, w, acts, to)
      {
        if Reaches(q, acts, to) && KeepsState(acts) {
          Sleeps(q, acts, to, w);
        }
      }
    }
  }

  /** A run that ends so. A caller that has passed the check is accepted after the queue has been paused
      and has been found drained. */
  lemma AcceptedAfterDrain<X>(start: Queue<X>, x: X)
    returns (before: seq<Action<X>>, q: Queue<X>, after: seq<Action<X>>, to: Queue<X>)
    requires Init(start) && start.state == Started && start.producers == [Ready]
    ensures Reaches(start, before, q) && q.state == Paused && q.lock == Nobody && q.sem == 0 && q.items == []
    ensures Reaches(q, after, to) && KeepsState(after)
    ensures to.state == Paused && to.accepted == [x]
  {
    before := [ByProducer(0, Offer(x)), SetState(Paused)];
    var q1 := Do(start, before[0]);
    q := Do(q1, before[1]);
    assert Reaches(q1, before[1..], q);
    after := [ByProducer(0, Acquire), ByProducer(0, Append), ByProducer(0, Post)];
    var t1 := Do(q, after[0]);
    var t2 := Do(t1, after[1]);
    to := Do(t2, after[2]);
    assert after[1..][1..] == [after[2]];
    assert Reaches(t2, after[1..][1..], to);
    assert Reaches(t1, after[1..], to);
  }

  // ---------------------------------------------------------------------------------------------
  // Workers keep working

  /** The queue is not stopped on the way. */
  predicate NeverStopped<X>(acts: seq<Action<X>>) {
    forall i :: 0 <= i < |acts| ==> acts[i] != SetState(Stopped)
  }

  /** A worker ends in one way only: back at the top it finds the queue stopped, and then it does end. */
  lemma EndsExactly<X>(q: Queue<X>, a: Action<X>, w: nat)
    requires Enabled(q, a) && w < |q.workers| && !q.workers[w].Gone?
    ensures w < |Do(q, a).workers|
    ensures Do(q, a).workers[w].Gone? <==> q.state == Stopped && a == ByWorker(w, Look)
  {
  }

  /** Until the queue is stopped no worker is lost. */
  lemma {:induction false} NoneLost<X>(q: Queue<X>, acts: seq<Action<X>>, to: Queue<X>, w: nat)
    requires q.state != Stopped && Reaches(q, acts, to) && NeverStopped(acts) && w < |q.workers|
    ensures w < |to.workers| && (to.workers[w].Gone? <==> q.workers[w].Gone?) && to.state != Stopped
    decreases |acts|
  {
    if acts != [] {
      var next := Do(q, acts[0]);
      OnlyItself(q, acts[0], w);
      hide DoWorker, DoProducer, WorkerMay, ProducerMay;
      assert next.state != Stopped;
      assert NeverStopped(acts[1..]);
      NoneLost(next, acts[1..], to, w);
    }
  }

  lemma OnlyItself<X>(q: Queue<X>, a: Action<X>, w: nat)
    requires Enabled(q, a) && q.state != Stopped && w < |q.workers|
    ensures w < |Do(q, a).workers| && (Do(q, a).workers[w].Gone? <==> q.workers[w].Gone?)
    ensures !a.SetState? ==> Do(q, a).state == q.state
  {
  }

  /** And a worker that is back at the top of a stopped queue takes nothing any more. */
  lemma {:induction false} TakesNoMore<X>(q: Queue<X>, acts: seq<Action<X>>, to: Queue<X>, w: nat)
    requires q.state == Stopped && Reaches(q, acts, to) && KeepsState(acts)
    requires w < |q.workers| && (q.workers[w].Top? || q.workers[w].Gone?)
    ensures w < |to.workers| && (to.workers[w].Top? || to.workers[w].Gone?)
    decreases |acts|
  {
    if acts != [] {
      var next := Do(q, acts[0]);
      assert next.state == Stopped && w < |next.workers| && (next.workers[w].Top? || next.workers[w].Gone?);
      hide DoWorker, DoProducer, WorkerMay, ProducerMay;
      assert KeepsState(acts[1..]);
      TakesNoMore(next, acts[1..], to, w);
    }
  }

  /** A caller is told of success in the step in which its item is accepted, and in no other: nothing is accepted
      whose caller hears of a failure. */
  lemma ToldTheTruth<X>(q: Queue<X>, a: Action<X>, p: nat)
    requires Enabled(q, a) && p < |q.producers| && !q.producers[p].Leaving?
    ensures p < |Do(q, a).producers|
    ensures Do(q, a).producers[p] == Leaving(Success) <==>
            && a.ByProducer? && a.p == p && q.producers[p].Appended?
            && Do(q, a).accepted == q.accepted + [q.producers[p].x]
  {
    NotTheSame(q.accepted);
  }

  lemma NotTheSame<X>(s: seq<X>)
    ensures forall x :: s + [x] != s
  {
    forall x
      ensures s + [x] != s
    {
      assert |s + [x]| != |s|;
    }
  }

  /** The steps that a worker has still to take until it waits. */
  function WorkerRank<X>(w: Worker<X>): nat {
    match w
    case Top => 3
    case Waiting => 2
    case Past => 1
    case Inside => 0
    case Took(_) => 5
    case Processing(_) => 4
    case Gone => 0
  }

  /** The steps that a caller has still to take, and those of a worker on its item. */
  function ProducerRank<X>(p: Producer<X>): nat {
    match p
    case Ready => 0
    case Checked(_) => 10
    case Locked(_) => 9
    case Appended(_) => 2
    case Leaving(_) => 1
  }

  function Rank<X>(q: Queue<X>): nat {
    6 * |q.items| + Total(q.workers, WorkerRank) + Total(q.producers, ProducerRank)
  }

  predicate IsNew<X>(a: Action<X>) {
    a.SetState? || (a.ByProducer? && a.ps.Offer?)
  }

  predicate NothingNew<X>(acts: seq<Action<X>>) {
    forall i :: 0 <= i < |acts| ==> !IsNew(acts[i])
  }

  /** Every step but a new offer or a change of state brings the end of all work nearer. */
  lemma RankFalls<X>(q: Queue<X>, a: Action<X>)
    requires Inv(q) && Enabled(q, a) && !IsNew(a)
    ensures Rank(Do(q, a)) < Rank(q)
  {
    match a
    case ByWorker(w, k) =>
      TotalUpdate(q.workers, WorkerRank, w, DoWorker(q, w, k).workers[w]);
      if k.Dequeue? {
        InsideFinds(q, w);
      }
    case ByProducer(p, k) =>
      TotalUpdate(q.producers, ProducerRank, p, DoProducer(q, p, k).producers[p]);
      if k.PostFails? {
        PostFailsUndoes(q, p);
      }
    case SetState(_) =>
  }

  lemma InsideFinds<X>(q: Queue<X>, w: nat)
    requires Inv(q) && w < |q.workers| && q.workers[w].Inside?
    ensures q.items != []
  {
    if Count(q.workers, HasPassed) == 0 {
      CountZero(q.workers, HasPassed, w);
    }
  }

  lemma {:induction false} RunsEnd<X>(q: Queue<X>, acts: seq<Action<X>>, to: Queue<X>)
    requires Inv(q) && Reaches(q, acts, to) && NothingNew(acts)
    ensures |acts| + Rank(to) <= Rank(q)
    decreases |acts|
  {
    hide Inv, Enabled, Do, Rank;
    if acts != [] {
      RankFalls(q, acts[0]);
      StepKeeps(q, acts[0]);
      assert NothingNew(acts[1..]);
      RunsEnd(Do(q, acts[0]), acts[1..], to);
    }
  }

  /** Some worker has not ended. */
  predicate Manned<X>(q: Queue<X>) {
    exists w :: 0 <= w < |q.workers| && !q.workers[w].Gone?
  }

  predicate Drained<X(==)>(q: Queue<X>) {
    && q.items == [] && q.taken == q.accepted
    && (forall w :: 0 <= w < |q.workers| ==> q.workers[w].Waiting? || q.workers[w].Gone?)
    && (forall p :: 0 <= p < |q.producers| ==> q.producers[p].Ready?)
  }

  lemma OwnerMoves<X>(q: Queue<X>) returns (a: Action<X>)
    requires Inv(q) && q.lock != Nobody
    ensures Enabled(q, a) && !IsNew(a)
  {
    match q.lock
    case HeldByWorker(w) =>
      assert WorkerOk(q, w);
      a := ByWorker(w, if q.workers[w].Inside? then Dequeue else Leave);
    case HeldByProducer(p) =>
      assert ProducerOk(q, p);
      a := ByProducer(p, if q.producers[p].Locked? then Append else if q.producers[p].Appended? then Post else Release);
  }

  /** While a worker is left, some thread can always move until all that was accepted has been taken. */
  lemma SomeStep<X>(q: Queue<X>) returns (a: Action<X>)
    requires Inv(q) && Manned(q) && !Drained(q)
    ensures Enabled(q, a) && !IsNew(a)
  {
    if q.lock != Nobody {
      a := OwnerMoves(q);
    } else if p :| 0 <= p < |q.producers| && !q.producers[p].Ready? {
      assert ProducerOk(q, p);
      a := ByProducer(p, Acquire);
    } else if w :| 0 <= w < |q.workers| && !q.workers[w].Waiting? && !q.workers[w].Gone? {
      assert WorkerOk(q, w);
      a := ByWorker(w, if q.workers[w].Top? then Look else if q.workers[w].Past? then Enter else Process);
    } else {
      CountNone(q.workers, HasPassed);
      assert q.accepted + Uncounted(q) == q.accepted;
      assert q.items == [] ==> q.taken + q.items == q.taken;
      var w :| 0 <= w < |q.workers| && !q.workers[w].Gone?;
      a := ByWorker(w, Wait);
    }
  }

  /** Nothing that was accepted stays on the list: from every reachable state of a queue that is not stopped
      and has a worker left, the threads can take all of it, and whatever they do without a new offer they
      come to take it, since such a run cannot go on for ever and can only stop there. */
  lemma TakesAll<X(!new)>(start: Queue<X>, before: seq<Action<X>>, q: Queue<X>)
    returns (acts: seq<Action<X>>, to: Queue<X>)
    requires Init(start) && Reaches(start, before, q) && q.state != Stopped && Manned(q)
    ensures Reaches(q, acts, to) && NothingNew(acts) && to.items == [] && to.taken == to.accepted
    ensures multiset(Processed(start, before + acts)) == multiset(to.accepted)
    ensures forall more, end :: Reaches(q, more, end) && NothingNew(more) ==> |more| <= Rank(q)
    ensures forall more, end :: Reaches(q, more, end) && NothingNew(more) && Stuck(end) ==>
              && end.items == [] && end.taken == end.accepted
              && multiset(Processed(start, before + more)) == multiset(end.accepted)
  {
    Reachable(start, before, q);
    hide Inv, Enabled, Do, Rank, Init, Stuck;
    acts, to := FinishAll(q);
    ReachesJoin(start, before, q, acts, to);
    AllProcessed(start, before + acts, to);
    forall more, end | Reaches(q, more, end) && NothingNew(more)
      ensures |more| <= Rank(q)
      ensures Stuck(end) ==>
                && end.items == [] && end.taken == end.accepted
                && multiset(Processed(start, before + more)) == multiset(end.accepted)
    {
      RunsEnd(q, more, end);
      StuckIsDrained(q, more, end);
      ReachesJoin(start, before, q, more, end);
      if Stuck(end) {
        AllProcessed(start, before + more, end);
      }
    }
  }

  /** Only a new offer or a change of state can come next. */
  ghost predicate Stuck<X(!new)>(q: Queue<X>) {
    forall a :: Enabled(q, a) ==> IsNew(a)
  }

  lemma StuckIsDrained<X(!new)>(q: Queue<X>, acts: seq<Action<X>>, to: Queue<X>)
    requires Inv(q) && q.state != Stopped && Manned(q) && Reaches(q, acts, to) && NothingNew(acts)
    ensures Stuck(to) ==> Drained(to)
  {
    AlwaysInv(q, acts, to);
    StaysManned(q, acts, to);
    if !Drained(to) {
      var a := SomeStep(to);
    }
  }

  lemma StaysManned<X>(q: Queue<X>, acts: seq<Action<X>>, to: Queue<X>)
    requires q.state != Stopped && Manned(q) && Reaches(q, acts, to) && NothingNew(acts)
    ensures Manned(to) && to.state != Stopped
  {
    hide Reaches;
    var w :| 0 <= w < |q.workers| && !q.workers[w].Gone?;
    forall i | 0 <= i < |acts|
      ensures acts[i] != SetState(Stopped)
    {
      assert !IsNew(acts[i]);
    }
    NoneLost(q, acts, to, w);
  }

  lemma {:induction false} FinishAll<X>(q: Queue<X>) returns (acts: seq<Action<X>>, to: Queue<X>)
    requires Inv(q) && q.state != Stopped && Manned(q)
    ensures Reaches(q, acts, to) && NothingNew(acts) && Drained(to)
    decreases Rank(q)
  {
    hide Inv, Enabled, Do, Rank, Manned, Drained, IsNew;
    if Drained(q) {
      acts, to := [], q;
    } else {
      var a := SomeStep(q);
      RankFalls(q, a);
      StepKeeps(q, a);
      var next := Do(q, a);
      assert Reaches(next, [], next) && [a][1..] == [];
      assert Reaches(q, [a], next);
      StaysManned(q, [a], next);
      var rest;
      rest, to := FinishAll(next);
      acts := Before(q, a, rest, to);
    }
  }

  // ---------------------------------------------------------------------------------------------
  // What becomes of the items

  function DoneBy<X>(q: Queue<X>, a: Action<X>): seq<X> {
    if a.ByWorker? && a.ws.Process? && a.w < |q.workers| && q.workers[a.w].Processing? then [q.workers[a.w].x] else []
  }

  /** The items whose processing has ended in a run, in that order. */
  function Processed<X(==)>(q: Queue<X>, acts: seq<Action<X>>): seq<X>
    decreases |acts|
  {
    if acts == [] || !Enabled(q, acts[0]) then [] else DoneBy(q, acts[0]) + Processed(Do(q, acts[0]), acts[1..])
  }

  function Carried<X>(w: Worker<X>): seq<X> {
    match w
    case Took(x) => [x]
    case Processing(x) => [x]
    case _ => []
  }

  /** The items that the workers have in hand. */
  function InWork<X>(ws: seq<Worker<X>>): multiset<X> {
    if ws == [] then multiset{} else InWork(ws[..|ws| - 1]) + multiset(Carried(ws[|ws| - 1]))
  }

  lemma {:induction false} InWorkUpdate<X>(ws: seq<Worker<X>>, i: nat, w: Worker<X>, x: X)
    requires i < |ws|
    ensures InWork(ws[i := w])[x] + multiset(Carried(ws[i]))[x] == InWork(ws)[x] + multiset(Carried(w))[x]
  {
    var n := |ws| - 1;
    if i < n {
      assert ws[i := w][..n] == ws[..n][i := w];
      InWorkUpdate(ws[..n], i, w, x);
    } else {
      assert ws[i := w][..n] == ws[..n];
    }
  }

  lemma {:induction false} NoneInWork<X>(ws: seq<Worker<X>>)
    requires forall w :: 0 <= w < |ws| ==> Carried(ws[w]) == []
    ensures InWork(ws) == multiset{}
  {
    if ws != [] {
      NoneInWork(ws[..|ws| - 1]);
    }
  }

  /** A step takes an item up, or puts it away, or neither. */
  lemma StepCarries<X>(q: Queue<X>, a: Action<X>)
    requires Enabled(q, a)
    ensures !a.ByWorker? ==> Do(q, a).workers == q.workers && Do(q, a).taken == q.taken
    ensures a.ByWorker? ==>
              && |Do(q, a).workers| == |q.workers| && Do(q, a).workers == q.workers[a.w := Do(q, a).workers[a.w]]
              && var (was, now) := (Carried(q.workers[a.w]), Carried(Do(q, a).workers[a.w]));
                 if a.ws.Process? then now == [] && was == DoneBy(q, a) && Do(q, a).taken == q.taken
                 else DoneBy(q, a) == [] && Do(q, a).taken == q.taken + if was == [] then now else []
    ensures a.ByWorker? && !a.ws.Process? && Carried(q.workers[a.w]) != [] ==>
              Carried(Do(q, a).workers[a.w]) == Carried(q.workers[a.w])
  {
  }

  lemma StepProcesses<X>(q: Queue<X>, a: Action<X>, x: X)
    requires Enabled(q, a)
    ensures multiset(Do(q, a).taken)[x] + InWork(q.workers)[x] ==
            multiset(q.taken)[x] + multiset(DoneBy(q, a))[x] + InWork(Do(q, a).workers)[x]
  {
    StepCarries(q, a);
    hide InWork, Do, DoWorker, Carried, DoneBy;
    if a.ByWorker? {
      InWorkUpdate(q.workers, a.w, Do(q, a).workers[a.w], x);
    }
  }

  lemma {:induction false} RunProcesses<X>(q: Queue<X>, acts: seq<Action<X>>, to: Queue<X>, x: X)
    requires Reaches(q, acts, to)
    ensures multiset(to.taken)[x] + InWork(q.workers)[x] ==
            multiset(q.taken)[x] + multiset(Processed(q, acts))[x] + InWork(to.workers)[x]
    decreases |acts|
  {
    hide Enabled, Do, DoneBy, InWork;
    if acts != [] {
      StepProcesses(q, acts[0], x);
      RunProcesses(Do(q, acts[0]), acts[1..], to, x);
    }
  }

  lemma SameMultiset<X>(a: multiset<X>, b: multiset<X>)
    requires forall x :: a[x] == b[x]
    ensures a == b
  {
  }

  /** Each item that a worker has taken is in the hands of one worker, or has been processed, once. */
  lemma ProcessedOnce<X>(start: Queue<X>, acts: seq<Action<X>>, q: Queue<X>)
    requires Init(start) && Reaches(start, acts, q)
    ensures multiset(q.taken) == multiset(Processed(start, acts)) + InWork(q.workers)
  {
    hide Reaches, Processed;
    NoneInWork(start.workers);
    var (done, inWork) := (multiset(Processed(start, acts)), InWork(q.workers));
    forall x
      ensures multiset(q.taken)[x] == (done + inWork)[x]
    {
      RunProcesses(start, acts, q, x);
      assert multiset(start.taken)[x] == 0;
    }
    SameMultiset(multiset(q.taken), done + inWork);
  }

  lemma AllProcessed<X>(start: Queue<X>, acts: seq<Action<X>>, q: Queue<X>)
    requires Init(start) && Reaches(start, acts, q) && Drained(q)
    ensures multiset(Processed(start, acts)) == multiset(q.accepted)
  {
    ProcessedOnce(start, acts, q);
    NoneInWork(q.workers);
  }

  lemma {:induction false} ProcessedThen<X>(q: Queue<X>, acts: seq<Action<X>>, mid: Queue<X>, a: Action<X>)
    requires Reaches(q, acts, mid) && Enabled(mid, a)
    ensures Processed(q, acts + [a]) == Processed(q, acts) + DoneBy(mid, a)
    decreases |acts|
  {
    hide Enabled, Do, DoneBy;
    if acts == [] {
      assert Processed(Do(q, a), [a][1..]) == [];
    } else {
      assert (acts + [a])[1..] == acts[1..] + [a];
      ProcessedThen(Do(q, acts[0]), acts[1..], mid, a);
    }
  }

  /** What one round of a worker does while the lock is free and something is posted: it takes the first item,
      processes it, and is back where it was. */
  lemma RoundInFull<X>(q: Queue<X>, w: nat) returns (acts: seq<Action<X>>, to: Queue<X>)
    requires Inv(q) && q.lock == Nobody && q.state != Stopped && q.sem > 0 && w < |q.workers| && q.workers[w].Top?
    ensures Reaches(q, acts, to) && KeepsState(acts) && q.items != []
    ensures to == q.(items := q.items[1..], sem := q.sem - 1, taken := q.taken + [q.items[0]])
    ensures Processed(q, acts) == [q.items[0]]
  {
    hide Reaches, DoProducer, ProducerMay, Processed;
    acts, to := UpToTheDequeue(q, w);
    hide Inv;
    acts, to := WorkerGoes(q, acts, to, w, Leave);
    acts, to := WorkerGoes(q, acts, to, w, Process);
    assert to.workers == q.workers;
  }

  lemma UpToTheDequeue<X>(q: Queue<X>, w: nat) returns (acts: seq<Action<X>>, to: Queue<X>)
    requires Inv(q) && q.lock == Nobody && q.state != Stopped && q.sem > 0 && w < |q.workers| && q.workers[w].Top?
    ensures Reaches(q, acts, to) && KeepsState(acts) && Processed(q, acts) == [] && q.items != []
    ensures to == q.(items := q.items[1..], sem := q.sem - 1, taken := q.taken + [q.items[0]],
                     lock := HeldByWorker(w), workers := q.workers[w := Took(q.items[0])])
  {
    assert Reaches(q, [], q) && Processed(q, []) == [];
    assert q.items != [];
    hide Inv, Reaches, DoProducer, ProducerMay, Processed;
    acts, to := WorkerGoes(q, [], q, w, Look);
    acts, to := WorkerGoes(q, acts, to, w, Wait);
    acts, to := WorkerGoes(q, acts, to, w, Enter);
    acts, to := WorkerGoes(q, acts, to, w, Dequeue);
  }

  lemma WorkerGoes<X>(q: Queue<X>, acts: seq<Action<X>>, mid: Queue<X>, w: nat, k: WorkerStep)
    returns (more: seq<Action<X>>, to: Queue<X>)
    requires Reaches(q, acts, mid) && WorkerMay(mid, w, k)
    ensures to == DoWorker(mid, w, k) && Reaches(q, more, to) && more == acts + [ByWorker(w, k)]
    ensures Processed(q, more) == Processed(q, acts) + DoneBy(mid, ByWorker(w, k))
  {
    more, to := Then(q, acts, mid, ByWorker(w, k));
    ProcessedThen(q, acts, mid, ByWorker(w, k));
  }
}
