/** The life of a request on the client, and the replacement of all server connections under it, as
    an interleaving of atomic steps: outbound workers, the inbound reader and the configuration
    updater (hercules_client_outbound.c, hercules_client_inbound.c, hercules_client.c). */
module Lifecycle {
  import opened Counting

  const HFS_OUTBOUND_THREAD_NR: nat := 16
  const WAIT_RETRIES: nat := 4

  /** One dispatch of a queue item to connection `idx`. */
  datatype Req = Req(id: nat, idx: nat)

  /** A connection of one generation of connections. */
  datatype Slot = Slot(gen: nat, idx: nat)

  datatype Owner = Nobody | OwnedByWorker(w: nat) | OwnedByReader

  /** `PendingCommands`, the pending list and its mutex. */
  datatype Conn = Conn(count: int, list: seq<Req>, owner: Owner)

  /** An outbound worker. `Inside` onwards it holds a token of the critical-section semaphore; the slot
      is the connection that it captured when it took the mutex. */
  datatype Worker =
    | Waiting
    | Holding(r: Req)
    | Inside(r: Req)
    | Locked(r: Req, slot: Slot)
    | Registered(r: Req, slot: Slot)
    | Removed(r: Req, slot: Slot)
    | Handled(slot: Slot)
    | Leaving

  /** A notification is longer than one `recv`, so its bytes come in two parts. */
  datatype Part = Head | Tail

  /** The reader: bytes of a complete reply received from a descriptor, then the context of the
      connection looked up, then the completion under its mutex. Or one part of a notification, then
      the context looked up to store it in. */
  datatype Reader =
    | Polling
    | Noticed(from: Slot, part: Part)
    | Received(r: Req, from: Slot)
    | Pumping(r: Req, slot: Slot)
    | LockedList(r: Req, slot: Slot)
    | Decremented(r: Req, slot: Slot)
    | Unlinked(r: Req, slot: Slot)
    | Unlocked(r: Req, slot: Slot)

  datatype Updater =
    | Resting
    | Acquiring(spare: nat, held: nat)
    | Scanning(spare: nat, tries: nat, j: nat)
    | GivenUp(spare: nat)
    | Releasing(close: nat, held: nat)
    | Closing(close: nat)

  /** History: where a request is. */
  datatype Phase =
    | Unborn
    | Queued
    | WithWorker(w: nat)
    | Listed(slot: Slot, stage: Stage)
    | OffList(stage: Stage)
    | Signalled

  datatype Stage = BySender(w: nat) | OnWire | ByReader

  /** `halfway`: connections that have stored the head of a notification whose tail is still to come.
      `crossed`: connections that have been given bytes of another one, and so read out of step from then
      on. `due`: notifications whose update has not started yet. */
  datatype State = State(
    servers: nat,
    tokens: nat,
    workers: seq<Worker>,
    reader: Reader,
    updater: Updater,
    gen: nat,
    nextGen: nat,
    closed: set<nat>,
    halfway: set<Slot>,
    crossed: set<Slot>,
    due: nat,
    conns: map<Slot, Conn>,
    wire: set<Req>,
    queue: seq<Req>,
    nextReq: nat,
    signals: map<Req, nat>,
    sentOn: map<Req, Slot>,
    completedOn: map<Req, Slot>,
    phase: map<Req, Phase>)

  /** The steps of one worker (hercules_client_outbound.c), each atomic. `Register` increments the
      counter and appends in one step, and `SendFail` undoes both in one: the connection's mutex is
      held, and who reads the counter without it holds all tokens. */
  datatype WorkerStep = Take | Enter | Lock | Register | SendOk | SendFail | FailSignal | Unlock | Leave

  /** The steps of the inbound reader (hercules_client_inbound.c). */
  datatype ReaderStep =
    | Notify(idx: nat, part: Part)
    | PumpNotice
    | Receive(r: Req)
    | Pump
    | LockList
    | Decrement
    | Unlink
    | UnlockList
    | Signal

  /** The steps of the configuration updater (hercules_client.c), which a notification starts. `Connect` is
      taken with the update mutex held, so there is one updater; `Scan` looks at one counter. */
  datatype UpdaterStep = Connect | Acquire | Scan | GiveUp | Swap | Abandon | Release | Close

  datatype Action =
    | Dispatch(idx: nat)
    | ByWorker(w: nat, ws: WorkerStep)
    | ByInbound(rs: ReaderStep)
    | ByUpdater(us: UpdaterStep)

  function ConnAt(conns: map<Slot, Conn>, slot: Slot): Conn {
    if slot in conns then conns[slot] else Conn(0, [], Nobody)
  }

  function PutConn(conns: map<Slot, Conn>, slot: Slot, c: Conn): (r: map<Slot, Conn>)
    ensures forall x :: ConnAt(r, x) == if x == slot then c else ConnAt(conns, x)
  {
    conns[slot := c]
  }

  function PhaseAt(phase: map<Req, Phase>, r: Req): Phase {
    if r in phase then phase[r] else Unborn
  }

  function PutPhase(phase: map<Req, Phase>, r: Req, p: Phase): (q: map<Req, Phase>)
    ensures forall x :: PhaseAt(q, x) == if x == r then p else PhaseAt(phase, x)
  {
    phase[r := p]
  }

  function SignalsAt(signals: map<Req, nat>, r: Req): nat {
    if r in signals then signals[r] else 0
  }

  predicate InCriticalSection(w: Worker) {
    !w.Waiting? && !w.Holding?
  }

  function CountInside(ws: seq<Worker>): nat {
    Count(ws, InCriticalSection)
  }

  /** Tokens that the updater has taken and not yet given back. */
  function Held(u: Updater): nat {
    match u
    case Resting => 0
    case Acquiring(_, held) => held
    case Scanning(_, _, _) => HFS_OUTBOUND_THREAD_NR
    case GivenUp(_) => HFS_OUTBOUND_THREAD_NR
    case Releasing(_, held) => held
    case Closing(_) => 0
  }

  function RemoveReq(list: seq<Req>, r: Req): (l: seq<Req>)
    ensures forall x :: x in l ==> x in list
  {
    if list == [] then []
    else if list[0] == r then list[1..]
    else [list[0]] + RemoveReq(list[1..], r)
  }

  predicate WorkerMay(s: State, w: nat, k: WorkerStep) {
    && w < |s.workers|
    && var me := s.workers[w];
    match k
    case Take => me.Waiting? && s.queue != []
    case Enter => me.Holding? && s.tokens > 0
    case Lock => me.Inside? && ConnAt(s.conns, Slot(s.gen, me.r.idx)).owner == Nobody
    case Register => me.Locked?
    case SendOk => me.Registered?
    case SendFail => me.Registered?
    case FailSignal => me.Removed?
    case Unlock => me.Handled?
    case Leave => me.Leaving?
  }

  /** The bytes that come next on a connection are those of a reply, or of a new notification. */
  predicate InStep(s: State, slot: Slot) {
    slot !in s.crossed && slot !in s.halfway
  }

  /** The reader polls the descriptors of the installed generation. What it makes of the bytes of a
      connection that is out of step is not modelled: no step reads from one. */
  predicate ReaderMay(s: State, k: ReaderStep) {
    match k
    case Notify(idx, part) =>
      && s.reader.Polling? && idx < s.servers && Slot(s.gen, idx) !in s.crossed
      && (part.Tail? <==> Slot(s.gen, idx) in s.halfway)
    case PumpNotice => s.reader.Noticed?
    case Receive(r) =>
      s.reader.Polling? && r in s.wire && r in s.sentOn && s.sentOn[r].gen == s.gen && InStep(s, s.sentOn[r])
    case Pump => s.reader.Received?
    case LockList => s.reader.Pumping? && ConnAt(s.conns, s.reader.slot).owner == Nobody
    case Decrement => s.reader.LockedList?
    case Unlink => s.reader.Decremented?
    case UnlockList => s.reader.Unlinked?
    case Signal => s.reader.Unlocked?
  }

  predicate UpdaterMay(s: State, k: UpdaterStep) {
    var u := s.updater;
    match k
    case Connect => u.Resting? && s.due > 0
    case Acquire => u.Acquiring? && s.tokens > 0
    case Scan => u.Scanning? && u.j < s.servers && u.tries < WAIT_RETRIES
    case GiveUp => u.Scanning? && u.tries == WAIT_RETRIES
    case Swap => u.Scanning? && u.j == s.servers && u.tries < WAIT_RETRIES
    case Abandon => u.GivenUp?
    case Release => u.Releasing? && u.held > 0
    case Close => u.Closing?
  }

  predicate Enabled(s: State, a: Action) {
    match a
    case Dispatch(idx) => idx < s.servers
    case ByWorker(w, k) => WorkerMay(s, w, k)
    case ByInbound(k) => ReaderMay(s, k)
    case ByUpdater(k) => UpdaterMay(s, k)
  }

  /** The connection that a worker works on; any will do while it has none. */
  function WorkerSlot(s: State, w: nat): Slot
    requires w < |s.workers|
  {
    match s.workers[w]
    case Locked(_, slot) => slot
    case Registered(_, slot) => slot
    case Removed(_, slot) => slot
    case Handled(slot) => slot
    case Inside(r) => Slot(s.gen, r.idx)
    case _ => Slot(s.gen, 0)
  }

  /** The request that a worker works on, or is about to take. */
  function WorkerReq(s: State, w: nat): Req
    requires w < |s.workers|
  {
    match s.workers[w]
    case Holding(r) => r
    case Inside(r) => r
    case Locked(r, _) => r
    case Registered(r, _) => r
    case Removed(r, _) => r
    case _ => if s.queue != [] then s.queue[0] else Req(0, 0)
  }

  function DoWorker(s: State, w: nat, k: WorkerStep): State
    requires WorkerMay(s, w, k)
  {
    var (r, slot) := (WorkerReq(s, w), WorkerSlot(s, w));
    var c := ConnAt(s.conns, slot);
    match k
    case Take => s.(queue := s.queue[1..], workers := s.workers[w := Holding(r)],
                    phase := PutPhase(s.phase, r, WithWorker(w)))
    case Enter => s.(tokens := s.tokens - 1, workers := s.workers[w := Inside(r)])
    case Lock =>
      s.(workers := s.workers[w := Locked(r, slot)], conns := PutConn(s.conns, slot, c.(owner := OwnedByWorker(w))))
    case Register =>
      s.(workers := s.workers[w := Registered(r, slot)],
         conns := PutConn(s.conns, slot, c.(count := c.count + 1, list := c.list + [r])),
         sentOn := s.sentOn[r := slot], phase := PutPhase(s.phase, r, Listed(slot, BySender(w))))
    case SendOk =>
      s.(workers := s.workers[w := Handled(slot)],
         wire := s.wire + {r}, phase := PutPhase(s.phase, r, Listed(slot, OnWire)))
    case SendFail =>
      s.(workers := s.workers[w := Removed(r, slot)],
         conns := PutConn(s.conns, slot, c.(count := c.count - 1, list := RemoveReq(c.list, r))),
         phase := PutPhase(s.phase, r, OffList(BySender(w))))
    case FailSignal => SignalItem(s.(workers := s.workers[w := Handled(slot)]), r, slot)
    case Unlock => s.(workers := s.workers[w := Leaving], conns := PutConn(s.conns, slot, c.(owner := Nobody)))
    case Leave => s.(tokens := s.tokens + 1, workers := s.workers[w := Waiting])
  }

  function ReaderSlot(s: State): Slot {
    match s.reader
    case Polling => Slot(s.gen, 0)
    case Noticed(from, _) => from
    case Received(_, from) => from
    case Pumping(_, slot) => slot
    case LockedList(_, slot) => slot
    case Decremented(_, slot) => slot
    case Unlinked(_, slot) => slot
    case Unlocked(_, slot) => slot
  }

  function ReaderReq(s: State, k: ReaderStep): Req
    requires ReaderMay(s, k)
  {
    match k
    case Notify(_, _) => Req(0, 0)
    case PumpNotice => Req(0, 0)
    case Receive(r) => r
    case _ => s.reader.r
  }

  /** The connection that the reader finds for the bytes it holds: it looks it up anew, by its index, in
      what is installed now. */
  function PumpedInto(s: State): Slot {
    Slot(s.gen, ReaderSlot(s).idx)
  }

  /** A part of a notification stored; the last part of one in step is an update to start. */
  function DoPumpNotice(s: State): State
    requires s.reader.Noticed?
  {
    var from := s.reader.from;
    if PumpedInto(s) != from then s.(reader := Polling, crossed := s.crossed + {PumpedInto(s)})
    else if s.reader.part.Head? then s.(reader := Polling, halfway := s.halfway + {from})
    else s.(reader := Polling, due := s.due + 1)
  }

  function DoNotify(s: State, idx: nat, part: Part): State {
    s.(reader := Noticed(Slot(s.gen, idx), part),
       halfway := if part.Tail? then s.halfway - {Slot(s.gen, idx)} else s.halfway)
  }

  function DoReader(s: State, k: ReaderStep): State
    requires ReaderMay(s, k)
  {
    match k
    case Notify(idx, part) => DoNotify(s, idx, part)
    case PumpNotice => DoPumpNotice(s)
    case _ => DoReply(s, k)
  }

  predicate IsNotice(k: ReaderStep) {
    k.Notify? || k.PumpNotice?
  }

  function DoReply(s: State, k: ReaderStep): State
    requires ReaderMay(s, k) && !IsNotice(k)
  {
    var (r, slot) := (ReaderReq(s, k), ReaderSlot(s));
    var c := ConnAt(s.conns, slot);
    match k
    case Receive(_) =>
      s.(reader := Received(r, s.sentOn[r]), wire := s.wire - {r},
         phase := PutPhase(s.phase, r, Listed(s.sentOn[r], ByReader)))
    case Pump => s.(reader := Pumping(r, PumpedInto(s)))
    case LockList => s.(reader := LockedList(r, slot), conns := PutConn(s.conns, slot, c.(owner := OwnedByReader)))
    case Decrement => s.(reader := Decremented(r, slot), conns := PutConn(s.conns, slot, c.(count := c.count - 1)))
    case Unlink =>
      s.(reader := Unlinked(r, slot), conns := PutConn(s.conns, slot, c.(list := RemoveReq(c.list, r))),
         phase := PutPhase(s.phase, r, OffList(ByReader)))
    case UnlockList => s.(reader := Unlocked(r, slot), conns := PutConn(s.conns, slot, c.(owner := Nobody)))
    case Signal => SignalItem(s.(reader := Polling), r, slot)
  }

  function DoUpdater(s: State, k: UpdaterStep): State
    requires UpdaterMay(s, k)
  {
    var u := s.updater;
    match k
    case Connect => s.(updater := Acquiring(s.nextGen, 0), nextGen := s.nextGen + 1, due := s.due - 1)
    case Acquire =>
      s.(tokens := s.tokens - 1,
         updater := if u.held + 1 == HFS_OUTBOUND_THREAD_NR then Scanning(u.spare, 0, 0)
                    else Acquiring(u.spare, u.held + 1))
    case Scan =>
      s.(updater := if ConnAt(s.conns, Slot(s.gen, u.j)).count == 0 then Scanning(u.spare, u.tries, u.j + 1)
                    else Scanning(u.spare, u.tries + 1, 0))
    case GiveUp => s.(updater := GivenUp(u.spare))
    case Swap => s.(gen := u.spare, updater := Releasing(s.gen, HFS_OUTBOUND_THREAD_NR))
    case Abandon => s.(updater := Releasing(u.spare, HFS_OUTBOUND_THREAD_NR))
    case Release =>
      s.(tokens := s.tokens + 1, updater := if u.held == 1 then Closing(u.close) else Releasing(u.close, u.held - 1))
    case Close => s.(closed := s.closed + {u.close}, updater := Resting)
  }

  function SignalItem(s: State, r: Req, slot: Slot): State {
    s.(phase := PutPhase(s.phase, r, Signalled), signals := s.signals[r := SignalsAt(s.signals, r) + 1],
       completedOn := s.completedOn[r := slot])
  }

  function DoDispatch(s: State, idx: nat): State {
    var r := Req(s.nextReq, idx);
    s.(queue := s.queue + [r], nextReq := s.nextReq + 1, phase := PutPhase(s.phase, r, Queued))
  }

  function Do(s: State, a: Action): State
    requires Enabled(s, a)
  {
    match a
    case Dispatch(idx) => DoDispatch(s, idx)
    case ByWorker(w, k) => DoWorker(s, w, k)
    case ByInbound(k) => DoReader(s, k)
    case ByUpdater(k) => DoUpdater(s, k)
  }

  predicate Init(s: State) {
    && s.tokens == HFS_OUTBOUND_THREAD_NR
    && (forall w :: 0 <= w < |s.workers| ==> s.workers[w] == Waiting)
    && s.reader == Polling && s.updater == Resting
    && s.gen < s.nextGen && s.closed == {} && s.halfway == {} && s.crossed == {} && s.due == 0
    && s.conns == map[] && s.wire == {} && s.queue == [] && s.nextReq == 0
    && s.signals == map[] && s.sentOn == map[] && s.completedOn == map[] && s.phase == map[]
  }

  // ---------------------------------------------------------------------------------------------
  // The invariant

  /** No token is lost: free ones, workers inside and those the updater holds are always sixteen. */
  predicate TokensOk(s: State) {
    s.tokens + CountInside(s.workers) + Held(s.updater) == HFS_OUTBOUND_THREAD_NR
  }

  /** The reader has decremented the counter of this connection but not yet unlinked the item. */
  predicate MidRemoval(s: State, slot: Slot) {
    s.reader.Decremented? && s.reader.slot == slot
  }

  /** The counter is the length of the list, except in the middle of the reader's removal. */
  predicate CountOk(s: State, slot: Slot) {
    && NoDuplicates(ConnAt(s.conns, slot).list)
    && ConnAt(s.conns, slot).count == |ConnAt(s.conns, slot).list| - if MidRemoval(s, slot) then 1 else 0
  }

  /** A request is on the pending list of the connection that its phase names, and on no other. */
  predicate ListOk(s: State, slot: Slot, r: Req) {
    r in ConnAt(s.conns, slot).list <==> PhaseAt(s.phase, r).Listed? && PhaseAt(s.phase, r).slot == slot
  }

  /** Requests are pending on connections of the installed generation only. */
  predicate GenOk(s: State, slot: Slot) {
    ConnAt(s.conns, slot).list != [] ==>
      slot.idx < s.servers && (slot.gen == s.gen || (MidRemoval(s, slot) && |ConnAt(s.conns, slot).list| == 1))
  }

  predicate WorkerOk(s: State, w: nat)
    requires w < |s.workers|
  {
    match s.workers[w]
    case Waiting => true
    case Holding(r) => PhaseAt(s.phase, r) == WithWorker(w) && r.idx < s.servers
    case Inside(r) => PhaseAt(s.phase, r) == WithWorker(w) && r.idx < s.servers
    case Locked(r, slot) => PhaseAt(s.phase, r) == WithWorker(w) && OwnsSlot(s, w, slot) && slot.idx == r.idx &&
      r.idx < s.servers
    case Registered(r, slot) => PhaseAt(s.phase, r) == Listed(slot, BySender(w)) && OwnsSlot(s, w, slot)
    case Removed(r, slot) => PhaseAt(s.phase, r) == OffList(BySender(w)) && OwnsSlot(s, w, slot) && SentOver(s, r, slot)
    case Handled(slot) => OwnsSlot(s, w, slot)
    case Leaving => true
  }

  predicate OwnsSlot(s: State, w: nat, slot: Slot) {
    slot.gen == s.gen && ConnAt(s.conns, slot).owner == OwnedByWorker(w)
  }

  predicate SentOver(s: State, r: Req, slot: Slot) {
    r in s.sentOn && s.sentOn[r] == slot
  }

  predicate ReaderOk(s: State) {
    match s.reader
    case Polling => true
    case Noticed(from, part) => from.idx < s.servers
    case Received(r, from) => PhaseAt(s.phase, r) == Listed(from, ByReader) && InStep(s, from)
    case Pumping(r, slot) => PhaseAt(s.phase, r) == Listed(slot, ByReader)
    case LockedList(r, slot) => PhaseAt(s.phase, r) == Listed(slot, ByReader) &&
      ConnAt(s.conns, slot).owner == OwnedByReader
    case Decremented(r, slot) => PhaseAt(s.phase, r) == Listed(slot, ByReader) &&
      ConnAt(s.conns, slot).owner == OwnedByReader
    case Unlinked(r, slot) => PhaseAt(s.phase, r) == OffList(ByReader) &&
      ConnAt(s.conns, slot).owner == OwnedByReader && SentOver(s, r, slot)
    case Unlocked(r, slot) => PhaseAt(s.phase, r) == OffList(ByReader) && SentOver(s, r, slot)
  }

  /** The generation in the updater's hands is never the installed one, nor closed. */
  predicate UpdaterOk(s: State) {
    && s.gen < s.nextGen && s.gen !in s.closed && (forall g :: g in s.closed ==> g < s.nextGen)
    && match s.updater
       case Resting => true
       case Acquiring(spare, held) => Spare(s, spare) && held < HFS_OUTBOUND_THREAD_NR
       case Scanning(spare, tries, j) =>
         Spare(s, spare) && j <= s.servers && tries <= WAIT_RETRIES &&
         forall i: nat :: i < j ==> ConnAt(s.conns, Slot(s.gen, i)).count == 0
       case GivenUp(spare) => Spare(s, spare)
       case Releasing(close, held) => Spare(s, close) && 0 < held
       case Closing(close) => Spare(s, close)
  }

  predicate Spare(s: State, g: nat) {
    g != s.gen && g !in s.closed && g < s.nextGen
  }

  /** A request is signalled exactly when it has reached its last phase, and then once, on the
      connection over which it was sent. */
  predicate SignalOk(s: State, r: Req) {
    && SignalsAt(s.signals, r) == (if PhaseAt(s.phase, r) == Signalled then 1 else 0)
    && (r in s.completedOn <==> PhaseAt(s.phase, r) == Signalled)
    && (r in s.completedOn ==> SentOver(s, r, s.completedOn[r]))
    && (PhaseAt(s.phase, r).Listed? ==> SentOver(s, r, PhaseAt(s.phase, r).slot))
    && (r in s.sentOn ==> PhaseAt(s.phase, r).Listed? || PhaseAt(s.phase, r).OffList? || PhaseAt(s.phase, r).Signalled?)
    && (r.id >= s.nextReq ==> PhaseAt(s.phase, r) == Unborn)
    && (PhaseAt(s.phase, r).Listed? && PhaseAt(s.phase, r).stage == OnWire <==> r in s.wire)
  }

  predicate QueueOk(s: State) {
    NoDuplicates(s.queue) && forall r :: r in s.queue ==> PhaseAt(s.phase, r) == Queued && r.idx < s.servers
  }

  /** Whoever a request's phase names has the request in hand: no request is lost. */
  predicate HolderOk(s: State, r: Req) {
    match PhaseAt(s.phase, r)
    case Unborn => true
    case Queued => r in s.queue
    case WithWorker(w) =>
      w < |s.workers| && match s.workers[w] { case Holding(q) => q == r case Inside(q) => q == r
                                              case Locked(q, _) => q == r case _ => false }
    case Listed(slot, BySender(w)) => w < |s.workers| && s.workers[w] == Registered(r, slot)
    case Listed(slot, OnWire) => true
    case Listed(slot, ByReader) =>
      s.reader == Received(r, slot) || s.reader == Pumping(r, slot) || s.reader == LockedList(r, slot) ||
      s.reader == Decremented(r, slot)
    case OffList(BySender(w)) => w < |s.workers| && s.workers[w].Removed? && s.workers[w].r == r
    case OffList(OnWire) => false
    case OffList(ByReader) => (s.reader.Unlinked? || s.reader.Unlocked?) && s.reader.r == r
    case Signalled => true
  }

  /** A mutex is held only by a thread that is between its lock and its unlock. */
  predicate OwnerOk(s: State, slot: Slot) {
    match ConnAt(s.conns, slot).owner
    case Nobody => true
    case OwnedByWorker(w) =>
      w < |s.workers| && match s.workers[w] { case Locked(_, t) => t == slot case Registered(_, t) => t == slot
                                              case Removed(_, t) => t == slot case Handled(t) => t == slot
                                              case _ => false }
    case OwnedByReader => (s.reader.LockedList? || s.reader.Decremented? || s.reader.Unlinked?) && s.reader.slot == slot
  }

  /** What holds of every connection, every request and every worker. */
  predicate At(s: State, slot: Slot, r: Req, w: nat) {
    && CountOk(s, slot) && GenOk(s, slot) && OwnerOk(s, slot)
    && ListOk(s, slot, r)
    && SignalOk(s, r) && HolderOk(s, r)
    && (w < |s.workers| ==> WorkerOk(s, w))
  }

  predicate Global(s: State) {
    TokensOk(s) && QueueOk(s) && ReaderOk(s) && UpdaterOk(s)
  }

  ghost predicate Inv(s: State) {
    Global(s) && forall slot, r, w :: At(s, slot, r, w)
  }

  // ---------------------------------------------------------------------------------------------
  // Lists and tokens

  lemma {:induction false} RemoveOne(list: seq<Req>, r: Req)
    requires NoDuplicates(list) && r in list
    ensures |RemoveReq(list, r)| == |list| - 1
    ensures NoDuplicates(RemoveReq(list, r))
    ensures forall x :: x in RemoveReq(list, r) <==> x in list && x != r
  {
    if list[0] != r {
      var rest := list[1..];
      RemoveOne(rest, r);
      var l := RemoveReq(list, r);
      assert l[0] == list[0] && l[1..] == RemoveReq(rest, r) && l[0] !in l[1..];
      assert forall x :: x in list <==> x == list[0] || x in rest;
    } else {
      assert forall x :: x in list <==> x == list[0] || x in list[1..];
    }
  }

  lemma InitHolds(s: State)
    requires Init(s)
    ensures Inv(s)
  {
    CountNone(s.workers, InCriticalSection);
  }

  /** What is known before a worker's step, of its request and connection and of any others. */
  predicate BeforeWorker(s: State, v: nat, k: WorkerStep, slot: Slot, r: Req, w: nat) {
    && WorkerMay(s, v, k)
    && At(s, slot, r, w) && At(s, WorkerSlot(s, v), WorkerReq(s, v), v)
    && ListOk(s, WorkerSlot(s, v), r) && ListOk(s, slot, WorkerReq(s, v))
  }

  predicate BeforeReader(s: State, k: ReaderStep, slot: Slot, r: Req, w: nat) {
    && ReaderMay(s, k) && ReaderOk(s)
    && At(s, slot, r, w) && At(s, ReaderSlot(s), ReaderReq(s, k), w)
    && ListOk(s, ReaderSlot(s), r) && ListOk(s, slot, ReaderReq(s, k))
  }

  lemma TakeAt(s: State, v: nat, slot: Slot, r: Req, w: nat)
    requires QueueOk(s) && BeforeWorker(s, v, Take, slot, r, w)
    ensures At(DoWorker(s, v, Take), slot, r, w)
  {
  }

  lemma EnterAt(s: State, v: nat, slot: Slot, r: Req, w: nat)
    requires BeforeWorker(s, v, Enter, slot, r, w)
    ensures At(DoWorker(s, v, Enter), slot, r, w)
  {
  }

  lemma LockAt(s: State, v: nat, slot: Slot, r: Req, w: nat)
    requires BeforeWorker(s, v, Lock, slot, r, w)
    ensures At(DoWorker(s, v, Lock), slot, r, w)
  {
  }

  lemma RegisterAt(s: State, v: nat, slot: Slot, r: Req, w: nat)
    requires BeforeWorker(s, v, Register, slot, r, w)
    ensures At(DoWorker(s, v, Register), slot, r, w)
  {
  }

  lemma SendOkAt(s: State, v: nat, slot: Slot, r: Req, w: nat)
    requires BeforeWorker(s, v, SendOk, slot, r, w)
    ensures At(DoWorker(s, v, SendOk), slot, r, w)
  {
  }

  lemma SendFailAt(s: State, v: nat, slot: Slot, r: Req, w: nat)
    requires BeforeWorker(s, v, SendFail, slot, r, w)
    ensures At(DoWorker(s, v, SendFail), slot, r, w)
  {
    RemoveOne(ConnAt(s.conns, WorkerSlot(s, v)).list, WorkerReq(s, v));
  }

  lemma FailSignalAt(s: State, v: nat, slot: Slot, r: Req, w: nat)
    requires BeforeWorker(s, v, FailSignal, slot, r, w)
    ensures At(DoWorker(s, v, FailSignal), slot, r, w)
  {
  }

  lemma UnlockAt(s: State, v: nat, slot: Slot, r: Req, w: nat)
    requires BeforeWorker(s, v, Unlock, slot, r, w)
    ensures At(DoWorker(s, v, Unlock), slot, r, w)
  {
  }

  lemma LeaveAt(s: State, v: nat, slot: Slot, r: Req, w: nat)
    requires BeforeWorker(s, v, Leave, slot, r, w)
    ensures At(DoWorker(s, v, Leave), slot, r, w)
  {
  }

  /** A notification concerns the reader alone, which holds no request meanwhile. */
  predicate OnlyNoticed(s: State, t: State) {
    && (s.reader.Polling? || s.reader.Noticed?) && (t.reader.Polling? || t.reader.Noticed?)
    && t == s.(reader := t.reader, halfway := t.halfway, crossed := t.crossed, due := t.due)
  }

  lemma NoticesOnly(s: State, k: ReaderStep)
    requires ReaderMay(s, k) && IsNotice(k)
    ensures OnlyNoticed(s, DoReader(s, k))
  {
    if k.Notify? {
      hide DoPumpNotice, DoReply;
    } else {
      hide DoNotify, DoReply;
    }
  }

  lemma NoticeKeepsReader(s: State, k: ReaderStep)
    requires ReaderMay(s, k) && IsNotice(k) && ReaderOk(s)
    ensures ReaderOk(DoReader(s, k))
  {
    hide DoReply;
  }

  lemma NoticeAt(s: State, t: State, slot: Slot, r: Req, w: nat)
    requires OnlyNoticed(s, t) && At(s, slot, r, w)
    ensures At(t, slot, r, w)
  {
  }

  lemma NoticeKeeps(s: State, k: ReaderStep)
    requires Inv(s) && ReaderMay(s, k) && IsNotice(k)
    ensures Inv(DoReader(s, k))
  {
    NoticesOnly(s, k);
    NoticeKeepsReader(s, k);
    hide DoReader, At;
    var t := DoReader(s, k);
    forall slot, r, w ensures At(t, slot, r, w) {
      assert At(s, slot, r, w);
      NoticeAt(s, t, slot, r, w);
    }
  }

  lemma ReceiveAt(s: State, q: Req, slot: Slot, r: Req, w: nat)
    requires BeforeReader(s, Receive(q), slot, r, w)
    ensures At(DoReader(s, Receive(q)), slot, r, w)
  {
  }

  lemma PumpAt(s: State, slot: Slot, r: Req, w: nat)
    requires BeforeReader(s, Pump, slot, r, w)
    ensures At(DoReader(s, Pump), slot, r, w)
  {
  }

  lemma LockListAt(s: State, slot: Slot, r: Req, w: nat)
    requires BeforeReader(s, LockList, slot, r, w)
    ensures At(DoReader(s, LockList), slot, r, w)
  {
  }

  lemma DecrementAt(s: State, slot: Slot, r: Req, w: nat)
    requires BeforeReader(s, Decrement, slot, r, w)
    ensures At(DoReader(s, Decrement), slot, r, w)
  {
  }

  lemma UnlinkAt(s: State, slot: Slot, r: Req, w: nat)
    requires BeforeReader(s, Unlink, slot, r, w)
    ensures At(DoReader(s, Unlink), slot, r, w)
  {
    RemoveOne(ConnAt(s.conns, ReaderSlot(s)).list, ReaderReq(s, Unlink));
  }

  lemma UnlockListAt(s: State, slot: Slot, r: Req, w: nat)
    requires BeforeReader(s, UnlockList, slot, r, w)
    ensures At(DoReader(s, UnlockList), slot, r, w)
  {
  }

  lemma SignalAt(s: State, slot: Slot, r: Req, w: nat)
    requires BeforeReader(s, Signal, slot, r, w)
    ensures At(DoReader(s, Signal), slot, r, w)
  {
  }

  lemma DispatchAt(s: State, idx: nat, slot: Slot, r: Req, w: nat)
    requires idx < s.servers && Global(s) && At(s, slot, r, w)
    requires SignalOk(s, Req(s.nextReq, idx)) && ListOk(s, slot, Req(s.nextReq, idx))
    ensures At(DoDispatch(s, idx), slot, r, w)
  {
  }

  lemma SwapAt(s: State, slot: Slot, r: Req, w: nat)
    requires UpdaterMay(s, Swap) && Global(s) && At(s, slot, r, w)
    ensures At(DoUpdater(s, Swap), slot, r, w)
  {
    if w < |s.workers| {
      CountZero(s.workers, InCriticalSection, w);
    }
  }

  lemma UpdaterAt(s: State, k: UpdaterStep, slot: Slot, r: Req, w: nat)
    requires UpdaterMay(s, k) && !k.Swap? && At(s, slot, r, w)
    ensures At(DoUpdater(s, k), slot, r, w)
  {
  }

  lemma WorkerKeepsTokens(s: State, v: nat, k: WorkerStep)
    requires TokensOk(s) && UpdaterOk(s) && WorkerMay(s, v, k)
    ensures TokensOk(DoWorker(s, v, k)) && UpdaterOk(DoWorker(s, v, k))
  {
    CountUpdate(s.workers, InCriticalSection, v, DoWorker(s, v, k).workers[v]);
    if CountInside(s.workers) == 0 {
      CountZero(s.workers, InCriticalSection, v);
    }
  }

  lemma WorkerKeepsQueue(s: State, v: nat, k: WorkerStep)
    requires QueueOk(s) && WorkerMay(s, v, k) && WorkerOk(s, v)
    ensures QueueOk(DoWorker(s, v, k))
  {
  }

  lemma WorkerKeepsReader(s: State, v: nat, k: WorkerStep)
    requires QueueOk(s) && ReaderOk(s) && WorkerMay(s, v, k) && WorkerOk(s, v)
    ensures ReaderOk(DoWorker(s, v, k))
  {
  }

  lemma ReaderKeepsReader(s: State, k: ReaderStep)
    requires Global(s) && ReaderMay(s, k) && !IsNotice(k) && At(s, ReaderSlot(s), ReaderReq(s, k), 0)
    ensures ReaderOk(DoReply(s, k))
  {
    hide QueueOk, UpdaterOk, HolderOk, OwnerOk;
    if k.Unlink? {
      RemoveOne(ConnAt(s.conns, ReaderSlot(s)).list, ReaderReq(s, k));
    }
  }

  lemma ReaderKeepsOthers(s: State, k: ReaderStep)
    requires Global(s) && ReaderMay(s, k) && !IsNotice(k) && At(s, ReaderSlot(s), ReaderReq(s, k), 0)
    ensures var t := DoReply(s, k); TokensOk(t) && QueueOk(t) && UpdaterOk(t)
  {
    hide HolderOk, OwnerOk;
    if k.Unlink? {
      RemoveOne(ConnAt(s.conns, ReaderSlot(s)).list, ReaderReq(s, k));
    }
  }

  lemma ReaderKeepsGlobal(s: State, k: ReaderStep)
    requires Global(s) && ReaderMay(s, k) && !IsNotice(k) && At(s, ReaderSlot(s), ReaderReq(s, k), 0)
    ensures Global(DoReader(s, k))
  {
    ReaderKeepsReader(s, k);
    ReaderKeepsOthers(s, k);
    hide DoReply, DoNotify, DoPumpNotice, At, ReaderMay, ReaderReq;
  }

  lemma DispatchKeepsGlobal(s: State, idx: nat)
    requires Global(s) && idx < s.servers && SignalOk(s, Req(s.nextReq, idx))
    ensures Global(DoDispatch(s, idx))
  {
    AppendOne(s.queue, Req(s.nextReq, idx));
  }

  lemma UpdaterKeepsGlobal(s: State, k: UpdaterStep)
    requires Global(s) && UpdaterMay(s, k)
    ensures Global(DoUpdater(s, k))
  {
  }

  lemma WorkerKeeps(s: State, v: nat, k: WorkerStep)
    requires Inv(s) && WorkerMay(s, v, k)
    ensures Inv(DoWorker(s, v, k))
  {
    var (x, q) := (WorkerSlot(s, v), WorkerReq(s, v));
    assert At(s, x, q, v);
    WorkerKeepsTokens(s, v, k);
    WorkerKeepsQueue(s, v, k);
    WorkerKeepsReader(s, v, k);
    hide DoWorker, TokensOk, UpdaterOk, QueueOk, ReaderOk, WorkerMay, WorkerSlot, WorkerReq,
         CountOk, GenOk, OwnerOk, ListOk, SignalOk, HolderOk, WorkerOk;
    forall slot, r, w ensures At(DoWorker(s, v, k), slot, r, w) {
      assert At(s, slot, r, w) && At(s, x, r, w) && At(s, slot, q, w);
      match k
      case Take => TakeAt(s, v, slot, r, w);
      case Enter => EnterAt(s, v, slot, r, w);
      case Lock => LockAt(s, v, slot, r, w);
      case Register => RegisterAt(s, v, slot, r, w);
      case SendOk => SendOkAt(s, v, slot, r, w);
      case SendFail => SendFailAt(s, v, slot, r, w);
      case FailSignal => FailSignalAt(s, v, slot, r, w);
      case Unlock => UnlockAt(s, v, slot, r, w);
      case Leave => LeaveAt(s, v, slot, r, w);
    }
  }

  lemma ReplyKeeps(s: State, k: ReaderStep)
    requires Inv(s) && ReaderMay(s, k) && !IsNotice(k)
    ensures Inv(DoReader(s, k))
  {
    var (x, q) := (ReaderSlot(s), ReaderReq(s, k));
    assert At(s, x, q, 0);
    ReaderKeepsGlobal(s, k);
    hide DoReader, TokensOk, UpdaterOk, QueueOk, ReaderOk, ReaderMay, ReaderSlot, ReaderReq,
         CountOk, GenOk, OwnerOk, ListOk, SignalOk, HolderOk, WorkerOk;
    forall slot, r, w ensures At(DoReader(s, k), slot, r, w) {
      assert At(s, slot, r, w) && At(s, x, r, w) && At(s, slot, q, w) && At(s, x, q, w);
      match k
      case Receive(_) => ReceiveAt(s, q, slot, r, w);
      case Pump => PumpAt(s, slot, r, w);
      case LockList => LockListAt(s, slot, r, w);
      case Decrement => DecrementAt(s, slot, r, w);
      case Unlink => UnlinkAt(s, slot, r, w);
      case UnlockList => UnlockListAt(s, slot, r, w);
      case Signal => SignalAt(s, slot, r, w);
    }
  }

  lemma ReaderKeeps(s: State, k: ReaderStep)
    requires Inv(s) && ReaderMay(s, k)
    ensures Inv(DoReader(s, k))
  {
    hide Inv, DoReader;
    if IsNotice(k) {
      NoticeKeeps(s, k);
    } else {
      ReplyKeeps(s, k);
    }
  }

  lemma UpdaterKeeps(s: State, k: UpdaterStep)
    requires Inv(s) && UpdaterMay(s, k)
    ensures Inv(DoUpdater(s, k))
  {
    UpdaterKeepsGlobal(s, k);
    hide DoUpdater, UpdaterMay, TokensOk, UpdaterOk, QueueOk, ReaderOk,
         CountOk, GenOk, OwnerOk, ListOk, SignalOk, HolderOk, WorkerOk;
    forall slot, r, w ensures At(DoUpdater(s, k), slot, r, w) {
      assert At(s, slot, r, w);
      if k.Swap? {
        SwapAt(s, slot, r, w);
      } else {
        UpdaterAt(s, k, slot, r, w);
      }
    }
  }

  lemma DispatchKeeps(s: State, idx: nat)
    requires Inv(s) && idx < s.servers
    ensures Inv(DoDispatch(s, idx))
  {
    assert At(s, Slot(0, 0), Req(s.nextReq, idx), 0);
    DispatchKeepsGlobal(s, idx);
    hide DoDispatch, TokensOk, UpdaterOk, QueueOk, ReaderOk, CountOk, GenOk, OwnerOk, ListOk, SignalOk, HolderOk,
         WorkerOk;
    forall slot, r, w ensures At(DoDispatch(s, idx), slot, r, w) {
      assert At(s, slot, r, w) && At(s, slot, Req(s.nextReq, idx), w);
      DispatchAt(s, idx, slot, r, w);
    }
  }

  /** Every step of every thread keeps the invariant. */
  lemma StepKeeps(s: State, a: Action)
    requires Inv(s) && Enabled(s, a)
    ensures Inv(Do(s, a))
  {
    hide Inv;
    match a
    case Dispatch(idx) => DispatchKeeps(s, idx);
    case ByWorker(w, k) => WorkerKeeps(s, w, k);
    case ByInbound(k) => ReaderKeeps(s, k);
    case ByUpdater(k) => UpdaterKeeps(s, k);
  }

  // ---------------------------------------------------------------------------------------------
  // Every interleaving

  predicate Reaches(from: State, acts: seq<Action>, to: State)
    decreases |acts|
  {
    if acts == [] then from == to
    else Enabled(from, acts[0]) && Reaches(Do(from, acts[0]), acts[1..], to)
  }

  /** The invariant holds after every interleaving of the steps of all threads. */
  lemma {:induction false} AlwaysInv(from: State, acts: seq<Action>, to: State)
    requires Inv(from) && Reaches(from, acts, to)
    ensures Inv(to)
    decreases |acts|
  {
    hide Inv, Enabled, Do;
    if acts != [] {
      StepKeeps(from, acts[0]);
      AlwaysInv(Do(from, acts[0]), acts[1..], to);
    }
  }

  lemma Reachable(start: State, acts: seq<Action>, s: State)
    requires Init(start) && Reaches(start, acts, s)
    ensures Inv(s)
  {
    InitHolds(start);
    AlwaysInv(start, acts, s);
  }

  /** A request on its way to or from a server is on the pending list of the connection over which it
      was sent, and that connection is of the installed generation. */
  lemma WireIsPending(s: State, r: Req)
    requires Inv(s) && r in s.wire
    ensures r in s.sentOn && s.sentOn[r].gen == s.gen && s.gen !in s.closed
    ensures r in ConnAt(s.conns, s.sentOn[r]).list
  {
    assert At(s, Slot(0, 0), r, 0);
    assert At(s, s.sentOn[r], r, 0);
    if s.reader.Decremented? {
      assert At(s, s.reader.slot, s.reader.r, 0) && At(s, s.reader.slot, r, 0);
    }
  }

  lemma SwapLeaves(s: State, slot: Slot)
    requires Inv(s) && UpdaterMay(s, Swap)
    ensures ConnAt(s.conns, slot).count == 0
    ensures ConnAt(s.conns, slot).list == if MidRemoval(s, slot) then [s.reader.r] else []
  {
    assert At(s, slot, Req(0, 0), 0);
    if MidRemoval(s, slot) {
      assert At(s, slot, s.reader.r, 0);
    }
  }

  lemma NothingOnWire(s: State, r: Req)
    requires Inv(s) && UpdaterMay(s, Swap)
    ensures r !in s.wire
  {
    assert At(s, Slot(0, 0), r, 0);
    if r in s.wire {
      WireIsPending(s, r);
      SwapLeaves(s, s.sentOn[r]);
    }
  }

  /** The reader has a reply in hand whose request is still counted. */
  predicate HoldsReply(s: State) {
    s.reader.Received? || s.reader.Pumping? || s.reader.LockedList?
  }

  lemma HeldIsCounted(s: State)
    requires Inv(s) && HoldsReply(s)
    ensures ConnAt(s.conns, ReaderSlot(s)).count > 0
  {
    assert At(s, ReaderSlot(s), s.reader.r, 0);
  }

  lemma SwapFindsReader(s: State)
    requires Inv(s) && UpdaterMay(s, Swap)
    ensures !HoldsReply(s)
  {
    SwapLeaves(s, ReaderSlot(s));
    hide Inv, UpdaterMay, ReaderSlot;
    if HoldsReply(s) {
      HeldIsCounted(s);
    }
  }

  /** Safe reconfiguration. When the connections are replaced, no worker is between taking and giving
      back its token, every counter of the old generation is zero, no request is on the wire, and
      nothing is on a pending list except possibly the one item that the reader has already
      uncounted and is about to unlink. The reader may also hold a part of a notification, but no reply
      that it has still to store. */
  lemma SwapIsSafe(start: State, acts: seq<Action>, s: State)
    requires Init(start) && Reaches(start, acts, s) && UpdaterMay(s, Swap)
    ensures s.tokens == 0 && forall w :: 0 <= w < |s.workers| ==> !InCriticalSection(s.workers[w])
    ensures forall slot :: ConnAt(s.conns, slot).count == 0
    ensures forall slot :: ConnAt(s.conns, slot).list == if MidRemoval(s, slot) then [s.reader.r] else []
    ensures s.wire == {}
    ensures !HoldsReply(s)
  {
    Reachable(start, acts, s);
    SwapFindsReader(s);
    forall w | 0 <= w < |s.workers| ensures !InCriticalSection(s.workers[w]) {
      CountZero(s.workers, InCriticalSection, w);
    }
    forall slot
      ensures ConnAt(s.conns, slot).count == 0
      ensures ConnAt(s.conns, slot).list == if MidRemoval(s, slot) then [s.reader.r] else []
    {
      SwapLeaves(s, slot);
    }
    forall r | r in s.wire ensures false {
      NothingOnWire(s, r);
    }
    assert s.wire == {};
  }

  /** The drain scan is sound. While the updater holds every token no counter rises, so counters that
      were seen at zero one after the other are at zero together. */
  lemma CountsOnlyFall(s: State, a: Action, slot: Slot)
    requires Inv(s) && Enabled(s, a) && Held(s.updater) == HFS_OUTBOUND_THREAD_NR
    ensures ConnAt(Do(s, a).conns, slot).count <= ConnAt(s.conns, slot).count
  {
    match a
    case Dispatch(_) =>
    case ByWorker(w, k) =>
      CountZero(s.workers, InCriticalSection, w);
      OutsideKeepsConns(s, w, k);
    case ByInbound(k) => ReaderCountsFall(s, k, slot);
    case ByUpdater(_) =>
  }

  lemma OutsideKeepsConns(s: State, w: nat, k: WorkerStep)
    requires WorkerMay(s, w, k) && !InCriticalSection(s.workers[w])
    ensures DoWorker(s, w, k).conns == s.conns
  {
  }

  lemma ReaderCountsFall(s: State, k: ReaderStep, slot: Slot)
    requires Inv(s) && ReaderMay(s, k)
    ensures ConnAt(DoReader(s, k).conns, slot).count <= ConnAt(s.conns, slot).count
  {
    assert At(s, ReaderSlot(s), ReaderReq(s, k), 0);
  }

  /** No step gives a token back to the workers. */
  predicate KeepsFrozen(acts: seq<Action>) {
    forall i :: 0 <= i < |acts| ==> acts[i] != ByUpdater(Release)
  }

  /** Once all tokens are held they stay held until the updater releases one, and through any run in
      between no counter of any connection rises. */
  lemma {:induction false} FrozenCountsFall(s: State, acts: seq<Action>, t: State, slot: Slot)
    requires Inv(s) && Reaches(s, acts, t) && KeepsFrozen(acts) && Held(s.updater) == HFS_OUTBOUND_THREAD_NR
    ensures Held(t.updater) == HFS_OUTBOUND_THREAD_NR
    ensures ConnAt(t.conns, slot).count <= ConnAt(s.conns, slot).count
    decreases |acts|
  {
    if acts != [] {
      var next := Do(s, acts[0]);
      StepKeeps(s, acts[0]);
      CountsOnlyFall(s, acts[0], slot);
      StaysFrozen(s, acts[0]);
      hide Inv, Enabled, Do, Held;
      assert KeepsFrozen(acts[1..]);
      FrozenCountsFall(next, acts[1..], t, slot);
    }
  }

  lemma StaysFrozen(s: State, a: Action)
    requires Inv(s) && Enabled(s, a) && Held(s.updater) == HFS_OUTBOUND_THREAD_NR && a != ByUpdater(Release)
    ensures Held(Do(s, a).updater) == HFS_OUTBOUND_THREAD_NR
  {
    match a
    case Dispatch(_) =>
    case ByWorker(w, k) => WorkerLeavesUpdater(s, w, k);
    case ByInbound(k) => ReaderLeavesUpdater(s, k);
    case ByUpdater(_) =>
  }

  lemma WorkerLeavesUpdater(s: State, w: nat, k: WorkerStep)
    requires WorkerMay(s, w, k)
    ensures DoWorker(s, w, k).updater == s.updater && |DoWorker(s, w, k).workers| == |s.workers|
  {
  }

  lemma ReaderLeavesUpdater(s: State, k: ReaderStep)
    requires ReaderMay(s, k)
    ensures DoReader(s, k).updater == s.updater && DoReader(s, k).workers == s.workers
  {
    if IsNotice(k) {
      NoticesOnly(s, k);
    } else {
      ReplyLeavesUpdater(s, k);
    }
    hide DoReply, DoNotify, DoPumpNotice;
  }

  lemma ReplyLeavesUpdater(s: State, k: ReaderStep)
    requires ReaderMay(s, k) && !IsNotice(k)
    ensures DoReply(s, k).updater == s.updater && DoReply(s, k).workers == s.workers
  {
  }

  /** Tokens are conserved: free ones, workers inside and those that the updater holds are always sixteen. */
  lemma TokensConserved(start: State, acts: seq<Action>, s: State)
    requires Init(start) && Reaches(start, acts, s)
    ensures s.tokens + CountInside(s.workers) + Held(s.updater) == 16
  {
    Reachable(start, acts, s);
  }

  lemma SeenAtZero(s: State, slot: Slot)
    requires UpdaterOk(s) && s.updater.Scanning? && slot.gen == s.gen && slot.idx < s.updater.j
    ensures ConnAt(s.conns, slot).count == 0
  {
    assert slot == Slot(s.gen, slot.idx);
  }

  lemma SeenStaysZero(s: State, acts: seq<Action>, t: State, slot: Slot)
    requires Inv(s) && Reaches(s, acts, t) && KeepsFrozen(acts)
    requires s.updater.Scanning? && slot.gen == s.gen && slot.idx < s.updater.j
    ensures ConnAt(t.conns, slot).count == 0
  {
    SeenAtZero(s, slot);
    FrozenCountsFall(s, acts, t, slot);
    AlwaysInv(s, acts, t);
    NotNegative(t, slot);
  }

  /** No counter is ever negative. */
  lemma NotNegative(s: State, slot: Slot)
    requires Inv(s)
    ensures ConnAt(s.conns, slot).count >= 0
  {
    assert At(s, slot, Req(0, 0), 0);
    if MidRemoval(s, slot) {
      assert At(s, slot, s.reader.r, 0);
    }
  }

  /** The drain scan is sound though it looks at one counter at a time. Every counter that a pass has seen
      at zero is at zero in every later state of the same freeze, however long the pass takes and whatever
      the reader and the workers do meanwhile; so a pass that ends has all of them at zero together. */
  lemma ScanIsSound(start: State, before: seq<Action>, s: State, acts: seq<Action>, t: State)
    requires Init(start) && Reaches(start, before, s) && s.updater.Scanning?
    requires Reaches(s, acts, t) && KeepsFrozen(acts)
    ensures s.tokens + CountInside(s.workers) == t.tokens + CountInside(t.workers) == 0
    ensures forall slot: Slot :: slot.gen == s.gen && slot.idx < s.updater.j ==> ConnAt(t.conns, slot).count == 0
  {
    Reachable(start, before, s);
    AlwaysInv(s, acts, t);
    forall slot: Slot | slot.gen == s.gen && slot.idx < s.updater.j
      ensures ConnAt(t.conns, slot).count == 0
    {
      SeenStaysZero(s, acts, t, slot);
    }
    assert Held(t.updater) == HFS_OUTBOUND_THREAD_NR by {
      FrozenCountsFall(s, acts, t, Slot(0, 0));
    }
  }

  /** A request is signalled at most once, and then on the connection over which it was sent. */
  lemma SignalledOnce(start: State, acts: seq<Action>, s: State, r: Req)
    requires Init(start) && Reaches(start, acts, s)
    ensures SignalsAt(s.signals, r) <= 1
    ensures SignalsAt(s.signals, r) == 1 <==> r in s.completedOn
    ensures r in s.completedOn ==> r in s.sentOn && s.completedOn[r] == s.sentOn[r]
    ensures r in s.completedOn ==> r in Dispatched(acts) && s.completedOn[r].idx == r.idx
  {
    Reachable(start, acts, s);
    assert At(s, Slot(0, 0), r, 0);
    AllDispatched(start, acts, s);
  }

  /** `PendingCommands` is the length of the pending list whenever the mutex is free, and an item is
      on one list at most, be it that of a connection or the outbound queue. */
  lemma PendingIsLength(start: State, acts: seq<Action>, s: State, slot: Slot)
    requires Init(start) && Reaches(start, acts, s)
    ensures ConnAt(s.conns, slot).owner == Nobody ==> ConnAt(s.conns, slot).count == |ConnAt(s.conns, slot).list|
    ensures ConnAt(s.conns, slot).count >= 0 && NoDuplicates(ConnAt(s.conns, slot).list)
    ensures forall r, other :: r in ConnAt(s.conns, slot).list && r in ConnAt(s.conns, other).list ==> other == slot
    ensures NoDuplicates(s.queue) && forall r :: r in ConnAt(s.conns, slot).list ==> r !in s.queue
  {
    Reachable(start, acts, s);
    NotNegative(s, slot);
    assert At(s, slot, Req(0, 0), 0);
    forall r, other | r in ConnAt(s.conns, slot).list && r in ConnAt(s.conns, other).list ensures other == slot {
      assert At(s, slot, r, 0) && At(s, other, r, 0);
    }
    forall r | r in ConnAt(s.conns, slot).list ensures r !in s.queue {
      assert At(s, slot, r, 0);
    }
  }

  /** No thread is at work and nothing is under way. */
  predicate Idle(s: State) {
    && (forall w :: 0 <= w < |s.workers| ==> s.workers[w] == Waiting)
    && s.queue == [] && s.wire == {} && s.reader == Polling
  }

  lemma NothingListed(s: State, slot: Slot, q: Req)
    requires Inv(s) && Idle(s)
    ensures q !in ConnAt(s.conns, slot).list
  {
    assert At(s, slot, q, 0);
  }

  /** No request is lost: when all is quiet, every request that was dispatched has been signalled,
      exactly once, every list is empty, and every counter is zero. */
  lemma NothingLost(start: State, acts: seq<Action>, s: State, r: Req, slot: Slot)
    requires Init(start) && Reaches(start, acts, s) && Idle(s)
    ensures SignalsAt(s.signals, r) == if r in Dispatched(acts) then 1 else 0
    ensures ConnAt(s.conns, slot) == Conn(0, [], Nobody)
  {
    Reachable(start, acts, s);
    AllDispatched(start, acts, s);
    assert At(s, slot, r, 0);
    var list := ConnAt(s.conns, slot).list;
    assert list == [] || list[0] in list;
    forall q | q in list ensures false {
      NothingListed(s, slot, q);
    }
  }

  /** At rest likewise, but for requests whose replies come over a connection that is out of step. */
  lemma OnlyStrayedLost(start: State, acts: seq<Action>, s: State, r: Req)
    requires Init(start) && Reaches(start, acts, s) && AtRest(s)
    ensures r in Dispatched(acts) && SignalsAt(s.signals, r) != 1 ==>
              r in s.wire && r in s.sentOn && s.sentOn[r].gen == s.gen && s.sentOn[r] in s.crossed
    ensures s.crossed == {} ==> Idle(s)
  {
    Reachable(start, acts, s);
    AllDispatched(start, acts, s);
    assert At(s, Slot(0, 0), r, 0);
    if r in s.wire {
      WireIsPending(s, r);
    }
  }

  /** Every exit path of an update that obtained connections closes a generation that is not the
      installed one, and closes it once. */
  lemma ClosesTheOther(start: State, acts: seq<Action>, s: State)
    requires Init(start) && Reaches(start, acts, s)
    ensures s.gen !in s.closed
    ensures UpdaterMay(s, Close) ==> s.updater.close != s.gen && s.updater.close !in s.closed
  {
    Reachable(start, acts, s);
  }

  /** A worker that has taken a connection's mutex sees one generation until it lets go, and no two
      threads hold the same mutex. */
  lemma OneGeneration(start: State, acts: seq<Action>, s: State, w: nat)
    requires Init(start) && Reaches(start, acts, s) && w < |s.workers|
    requires s.workers[w].Locked? || s.workers[w].Registered? || s.workers[w].Removed? || s.workers[w].Handled?
    ensures s.workers[w].slot.gen == s.gen && !UpdaterMay(s, Swap)
    ensures forall v: nat :: v < |s.workers| && v != w &&
              (s.workers[v].Locked? || s.workers[v].Registered? || s.workers[v].Removed? || s.workers[v].Handled?)
              ==> s.workers[v].slot != s.workers[w].slot
  {
    Reachable(start, acts, s);
    assert At(s, Slot(0, 0), Req(0, 0), w);
    if CountInside(s.workers) == 0 {
      CountZero(s.workers, InCriticalSection, w);
    }
    forall v: nat | v < |s.workers| && v != w &&
              (s.workers[v].Locked? || s.workers[v].Registered? || s.workers[v].Removed? || s.workers[v].Handled?)
      ensures s.workers[v].slot != s.workers[w].slot
    {
      assert At(s, Slot(0, 0), Req(0, 0), v);
    }
  }

  /** The reader completes a reply on the connection that it read it from, whose stream is in step, though
      it looks the connection up by index after it has read the bytes. */
  lemma PumpFindsConnection(start: State, acts: seq<Action>, s: State)
    requires Init(start) && Reaches(start, acts, s) && ReaderMay(s, Pump)
    ensures DoReader(s, Pump).reader == Pumping(s.reader.r, s.reader.from) && InStep(s, s.reader.from)
  {
    Reachable(start, acts, s);
    assert At(s, s.reader.from, s.reader.r, 0);
  }

  /** A completed request stays completed: no later step signals it again. */
  lemma SignalledStays(s: State, a: Action, r: Req)
    requires Inv(s) && Enabled(s, a) && SignalsAt(s.signals, r) == 1
    ensures SignalsAt(Do(s, a).signals, r) == 1
  {
    assert At(s, Slot(0, 0), r, 0);
    match a
    case Dispatch(_) =>
    case ByWorker(w, k) =>
      assert At(s, Slot(0, 0), r, w);
      WorkerSignalsOthers(s, w, k, r);
    case ByInbound(k) => ReaderSignalsOthers(s, k, r);
    case ByUpdater(_) =>
  }

  lemma WorkerSignalsOthers(s: State, w: nat, k: WorkerStep, r: Req)
    requires WorkerMay(s, w, k) && WorkerOk(s, w) && PhaseAt(s.phase, r) == Signalled
    ensures SignalsAt(DoWorker(s, w, k).signals, r) == SignalsAt(s.signals, r)
  {
  }

  lemma ReaderSignalsOthers(s: State, k: ReaderStep, r: Req)
    requires ReaderMay(s, k) && ReaderOk(s) && PhaseAt(s.phase, r) == Signalled
    ensures SignalsAt(DoReader(s, k).signals, r) == SignalsAt(s.signals, r)
  {
  }

  /** What a worker inside the critical section does next, if it is not waiting for a mutex. */
  function NextOf(w: Worker): WorkerStep {
    match w
    case Waiting => Take
    case Holding(_) => Enter
    case Inside(_) => Lock
    case Locked(_, _) => Register
    case Registered(_, _) => SendOk
    case Removed(_, _) => FailSignal
    case Handled(_) => Unlock
    case Leaving => Leave
  }

  lemma OwnerMoves(s: State, slot: Slot) returns (a: Action)
    requires Inv(s) && ConnAt(s.conns, slot).owner != Nobody
    ensures Enabled(s, a) && (a.ByWorker? || a.ByInbound?) && !IsNew(a)
  {
    assert At(s, slot, Req(0, 0), 0);
    match ConnAt(s.conns, slot).owner
    case OwnedByWorker(w) => a := ByWorker(w, NextOf(s.workers[w]));
    case OwnedByReader =>
      a := ByInbound(if s.reader.LockedList? then Decrement else if s.reader.Decremented? then Unlink else UnlockList);
  }

  lemma InsideMoves(s: State) returns (a: Action)
    requires Inv(s) && CountInside(s.workers) > 0
    ensures Enabled(s, a) && (a.ByWorker? || a.ByInbound?) && !IsNew(a)
  {
    var w := CountSome(s.workers, InCriticalSection);
    var slot := WorkerSlot(s, w);
    if s.workers[w].Inside? && ConnAt(s.conns, slot).owner != Nobody {
      a := OwnerMoves(s, slot);
    } else {
      a := ByWorker(w, NextOf(s.workers[w]));
    }
  }

  lemma ReaderMoves(s: State) returns (a: Action)
    requires Inv(s) && !s.reader.Polling?
    ensures Enabled(s, a) && (a.ByWorker? || a.ByInbound?) && !IsNew(a)
  {
    var slot := ReaderSlot(s);
    if s.reader.Pumping? && ConnAt(s.conns, slot).owner != Nobody {
      a := OwnerMoves(s, slot);
    } else {
      a := ByInbound(match s.reader { case Noticed(_, _) => PumpNotice
                                      case Received(_, _) => Pump
                                      case Pumping(_, _) => LockList
                                      case LockedList(_, _) => Decrement
                                      case Decremented(_, _) => Unlink
                                      case Unlinked(_, _) => UnlockList
                                      case _ => Signal });
    }
  }

  lemma UpdaterMoves(s: State) returns (a: Action)
    requires Inv(s) && CountInside(s.workers) == 0 && !s.updater.Resting?
    ensures Enabled(s, a) && a.ByUpdater?
  {
    var u := s.updater;
    a := ByUpdater(match u { case Acquiring(_, _) => Acquire case GivenUp(_) => Abandon case Releasing(_, _) => Release
                             case Closing(_) => Close case Resting => Connect
                             case Scanning(_, tries, j) =>
                               if tries == WAIT_RETRIES then GiveUp else if j == s.servers then Swap else Scan });
  }

  // ---------------------------------------------------------------------------------------------
  // Every run comes to an end

  /** The steps that a worker and its request have still to take. */
  function WorkerRank(w: Worker): nat {
    match w
    case Waiting => 0
    case Holding(_) => 13
    case Inside(_) => 12
    case Locked(_, _) => 11
    case Registered(_, _) => 10
    case Removed(_, _) => 3
    case Handled(_) => 2
    case Leaving => 1
  }

  function ReaderRank(r: Reader, servers: nat): int {
    match r
    case Polling => 0
    case Noticed(_, Head) => UpdateRank(servers) + 3
    case Noticed(_, Tail) => UpdateRank(servers) + 1
    case Received(_, _) => 6
    case Pumping(_, _) => 5
    case LockedList(_, _) => 4
    case Decremented(_, _) => 3
    case Unlinked(_, _) => 2
    case Unlocked(_, _) => 1
  }

  function UpdaterRank(u: Updater, servers: nat): int {
    match u
    case Resting => 0
    case Closing(_) => 1
    case Releasing(_, held) => 1 + held
    case GivenUp(_) => 18
    case Scanning(_, tries, j) => 19 + ScanRank(WAIT_RETRIES - tries, servers) + servers - j
    case Acquiring(_, held) => 20 + ScanRank(WAIT_RETRIES, servers) + servers + HFS_OUTBOUND_THREAD_NR - held
  }

  /** Counters that the scans of `rounds` more rounds look at, and their ends. */
  function ScanRank(rounds: int, servers: nat): int {
    rounds * (servers + 1)
  }

  /** The steps of a whole update. */
  function UpdateRank(servers: nat): int {
    UpdaterRank(Acquiring(0, 0), servers) + 1
  }

  function Times(n: nat, cost: int): int {
    n * cost
  }

  lemma OneTime(n: nat, cost: int)
    ensures Times(n + 1, cost) == Times(n, cost) + cost
  {
  }

  /** Updates that are due, and tails of notifications still to come. */
  function NoticeRank(s: State): int {
    Times(s.due, UpdateRank(s.servers)) + Times(|s.halfway|, UpdateRank(s.servers) + 2)
  }

  /** All steps that remain, apart from new requests and new notifications. */
  function Rank(s: State): int {
    14 * |s.queue| + Total(s.workers, WorkerRank) + 7 * |s.wire| + ReaderRank(s.reader, s.servers) +
    UpdaterRank(s.updater, s.servers) + NoticeRank(s)
  }

  /** The steps by which new work arrives: a request, or the head of a notification. */
  predicate IsNew(a: Action) {
    a.Dispatch? || (a.ByInbound? && a.rs.Notify? && a.rs.part.Head?)
  }

  lemma WorkerRankFalls(s: State, w: nat, k: WorkerStep)
    requires WorkerMay(s, w, k)
    ensures Rank(DoWorker(s, w, k)) < Rank(s)
  {
    TotalUpdate(s.workers, WorkerRank, w, DoWorker(s, w, k).workers[w]);
    hide UpdaterRank, ReaderRank, NoticeRank, Total;
    assert NoticeRank(DoWorker(s, w, k)) == NoticeRank(s) by {
      SameNotices(s, DoWorker(s, w, k));
    }
    if k.SendOk? {
      OneMore(s.wire, WorkerReq(s, w));
    }
  }

  lemma OneMore(wire: set<Req>, r: Req)
    ensures |wire + {r}| <= |wire| + 1
  {
    assert wire + {r} == if r in wire then wire else wire + {r};
  }

  lemma SameNotices(s: State, t: State)
    requires t.due == s.due && t.halfway == s.halfway && t.servers == s.servers
    ensures NoticeRank(t) == NoticeRank(s)
  {
  }

  lemma NotifyRankFalls(s: State, k: ReaderStep)
    requires ReaderMay(s, k) && (k.PumpNotice? || (k.Notify? && k.part.Tail?))
    ensures ReaderRank(DoReader(s, k).reader, s.servers) + NoticeRank(DoReader(s, k)) <
            ReaderRank(s.reader, s.servers) + NoticeRank(s)
  {
    hide UpdaterRank, Times;
    var cost := UpdateRank(s.servers);
    assert cost > 0 by {
      UpdatesCost(s.servers);
    }
    if k.Notify? {
      var rest := s.halfway - {Slot(s.gen, k.idx)};
      assert s.halfway == rest + {Slot(s.gen, k.idx)};
      OneTime(|rest|, cost + 2);
    } else if PumpedInto(s) == s.reader.from {
      if s.reader.part.Head? {
        OneTime(|s.halfway|, cost + 2);
        assert s.reader.from in s.halfway || |s.halfway + {s.reader.from}| == |s.halfway| + 1;
      } else {
        OneTime(s.due, cost);
      }
    }
  }

  lemma UpdatesCost(servers: nat)
    ensures UpdateRank(servers) > 0
  {
  }

  lemma ReaderRankFalls(s: State, k: ReaderStep)
    requires ReaderMay(s, k) && !IsNew(ByInbound(k))
    ensures Rank(DoReader(s, k)) < Rank(s)
  {
    hide UpdaterRank, UpdateRank, NoticeRank, WorkerRank, Total;
    if k.PumpNotice? || k.Notify? {
      NotifyRankFalls(s, k);
    } else {
      SameNotices(s, DoReader(s, k));
    }
  }

  lemma UpdaterRankFalls(s: State, k: UpdaterStep)
    requires UpdaterOk(s) && UpdaterMay(s, k)
    ensures Rank(DoUpdater(s, k)) < Rank(s)
  {
    hide ReaderRank, WorkerRank, Total, Times;
    if k.Connect? {
      OneTime(s.due - 1, UpdateRank(s.servers));
    }
  }

  /** Every step except those by which new work arrives brings the end of all work nearer. */
  lemma RankFalls(s: State, a: Action)
    requires Inv(s) && Enabled(s, a) && !IsNew(a)
    ensures Rank(Do(s, a)) < Rank(s)
  {
    hide Rank;
    match a
    case ByWorker(w, k) => WorkerRankFalls(s, w, k);
    case ByInbound(k) => ReaderRankFalls(s, k);
    case ByUpdater(k) => UpdaterRankFalls(s, k);
    case Dispatch(_) =>
  }

  lemma RankNotNegative(s: State)
    requires Inv(s)
    ensures Rank(s) >= 0
  {
    UpdatesCost(s.servers);
    hide Total;
  }

  predicate NothingNew(acts: seq<Action>) {
    forall i :: 0 <= i < |acts| ==> !IsNew(acts[i])
  }

  /** So without new work no run is longer than the rank of the state it starts in. */
  lemma {:induction false} RunsEnd(s: State, acts: seq<Action>, t: State)
    requires Inv(s) && Reaches(s, acts, t) && NothingNew(acts)
    ensures |acts| + Rank(t) <= Rank(s)
    decreases |acts|
  {
    if acts != [] {
      RankFalls(s, acts[0]);
      StepKeeps(s, acts[0]);
      hide Inv, Enabled, Do, Rank;
      assert NothingNew(acts[1..]);
      RunsEnd(Do(s, acts[0]), acts[1..], t);
    }
  }

  /** Nothing is left to do but to read from connections that are out of step. */
  predicate AtRest(s: State) {
    && (forall w :: 0 <= w < |s.workers| ==> s.workers[w] == Waiting)
    && s.queue == [] && s.reader == Polling && s.updater.Resting? && s.due == 0
    && (forall i: nat :: i < s.servers && Slot(s.gen, i) in s.halfway ==> Slot(s.gen, i) in s.crossed)
    && (forall r :: r in s.wire ==> r in s.sentOn && s.sentOn[r] in s.crossed)
  }

  lemma SomeStep(s: State) returns (a: Action)
    requires Inv(s) && |s.workers| > 0 && !AtRest(s)
    ensures Enabled(s, a) && !IsNew(a)
  {
    if !s.reader.Polling? {
      a := ReaderMoves(s);
    } else if CountInside(s.workers) > 0 {
      a := InsideMoves(s);
    } else if !s.updater.Resting? {
      a := UpdaterMoves(s);
    } else if s.due > 0 {
      a := ByUpdater(Connect);
    } else if w: nat :| w < |s.workers| && s.workers[w] != Waiting {
      CountZero(s.workers, InCriticalSection, w);
      a := ByWorker(w, Enter);
    } else if s.queue != [] {
      a := ByWorker(0, Take);
    } else if i: nat :| i < s.servers && Slot(s.gen, i) in s.halfway && Slot(s.gen, i) !in s.crossed {
      a := ByInbound(Notify(i, Tail));
    } else {
      var r :| r in s.wire && !(r in s.sentOn && s.sentOn[r] in s.crossed);
      WireMoves(s, r);
      a := ByInbound(Receive(r));
    }
  }

  lemma WireMoves(s: State, r: Req)
    requires Inv(s) && s.reader.Polling? && r in s.wire && (r in s.sentOn ==> s.sentOn[r] !in s.crossed)
    requires forall i: nat :: i < s.servers && Slot(s.gen, i) in s.halfway ==> Slot(s.gen, i) in s.crossed
    ensures ReaderMay(s, Receive(r))
  {
    WireIsPending(s, r);
    var slot := s.sentOn[r];
    assert At(s, slot, r, 0);
    assert slot == Slot(s.gen, slot.idx) && slot.idx < s.servers;
  }

  /** No deadlock: unless all is at rest, some thread can take a step that brings the end of all work
      nearer. */
  lemma NoDeadlock(start: State, acts: seq<Action>, s: State) returns (a: Action)
    requires Init(start) && Reaches(start, acts, s) && |s.workers| > 0 && !AtRest(s)
    ensures Enabled(s, a) && !IsNew(a) && Rank(Do(s, a)) < Rank(s)
  {
    Reachable(start, acts, s);
    hide Inv, Enabled, Do, Rank, AtRest;
    a := SomeStep(s);
    RankFalls(s, a);
  }

  /** From every reachable state the threads can finish all work, and whatever they do without new work
      they finish it: a run that can go no further has everything at rest. */
  lemma {:induction false} WorkFinishes(start: State, before: seq<Action>, s: State)
    returns (acts: seq<Action>, t: State)
    requires Init(start) && Reaches(start, before, s) && |s.workers| > 0
    ensures Reaches(s, acts, t) && NothingNew(acts) && |acts| <= Rank(s) && AtRest(t)
    ensures (forall a :: Enabled(s, a) ==> IsNew(a)) ==> AtRest(s)
    decreases Rank(s)
  {
    Reachable(start, before, s);
    RankNotNegative(s);
    if AtRest(s) {
      acts, t := [], s;
    } else {
      var a := NoDeadlock(start, before, s);
      var sofar, next := Then(start, before, s, a);
      StepKeeps(s, a);
      KeepsThreads(s, a);
      hide Inv, Enabled, Do, Rank, AtRest;
      var rest;
      rest, t := WorkFinishes(start, sofar, next);
      acts := [a] + rest;
      assert acts[1..] == rest;
    }
  }

  lemma KeepsThreads(s: State, a: Action)
    requires Enabled(s, a)
    ensures |Do(s, a).workers| == |s.workers|
  {
    match a
    case Dispatch(_) =>
    case ByWorker(w, k) => WorkerLeavesUpdater(s, w, k);
    case ByInbound(k) => ReaderLeavesUpdater(s, k);
    case ByUpdater(k) => UpdaterLeavesWorkers(s, k);
  }

  lemma UpdaterLeavesWorkers(s: State, k: UpdaterStep)
    requires UpdaterMay(s, k)
    ensures DoUpdater(s, k).workers == s.workers
  {
  }

  lemma {:induction false} ReachesJoin(from: State, first: seq<Action>, mid: State, second: seq<Action>, to: State)
    requires Reaches(from, first, mid) && Reaches(mid, second, to)
    ensures Reaches(from, first + second, to)
    decreases |first|
  {
    hide Enabled, Do;
    if first == [] {
      assert first + second == second;
    } else {
      assert (first + second)[1..] == first[1..] + second;
      ReachesJoin(Do(from, first[0]), first[1..], mid, second, to);
    }
  }

  lemma {:induction false} AcquireAll(s: State) returns (acts: seq<Action>, t: State)
    requires s.updater.Acquiring? && s.updater.held < HFS_OUTBOUND_THREAD_NR
    requires s.tokens + s.updater.held >= HFS_OUTBOUND_THREAD_NR
    ensures Reaches(s, acts, t)
    ensures t == s.(tokens := s.tokens + s.updater.held - HFS_OUTBOUND_THREAD_NR,
                    updater := Scanning(s.updater.spare, 0, 0))
    decreases HFS_OUTBOUND_THREAD_NR - s.updater.held
  {
    var step := ByUpdater(Acquire);
    var next := Do(s, step);
    if next.updater.Scanning? {
      acts, t := [step], next;
    } else {
      var rest;
      rest, t := AcquireAll(next);
      acts := [step] + rest;
    }
  }

  /** One more step at the end of a run. */
  lemma Then(from: State, acts: seq<Action>, mid: State, a: Action) returns (more: seq<Action>, to: State)
    requires Reaches(from, acts, mid) && Enabled(mid, a)
    ensures to == Do(mid, a) && Reaches(from, more, to) && more == acts + [a]
  {
    to := Do(mid, a);
    assert Reaches(mid, [a], to);
    ReachesJoin(from, acts, mid, [a], to);
    more := acts + [a];
  }

  /** A whole notification, both parts stored where they came from: an update is due. */
  lemma NotifyOne(start: State, before: seq<Action>, s: State) returns (acts: seq<Action>, t: State)
    requires Reaches(start, before, s) && s.reader == Polling && s.servers > 0 && s.halfway == {} && s.crossed == {}
    ensures Reaches(start, acts, t) && t == s.(due := s.due + 1)
  {
    hide Reaches, DoWorker, DoUpdater, DoReply, WorkerMay, UpdaterMay;
    var slot := Slot(s.gen, 0);
    acts, t := Then(start, before, s, ByInbound(Notify(0, Head)));
    acts, t := Then(start, acts, t, ByInbound(PumpNotice));
    assert t.halfway == {slot} && t.reader == Polling;
    acts, t := Then(start, acts, t, ByInbound(Notify(0, Tail)));
    assert t.halfway == {} && t.reader == Noticed(slot, Tail);
    acts, t := Then(start, acts, t, ByInbound(PumpNotice));
  }

  /** The rest of this section runs one request of one worker up to the reader's removal of it, while an
      update is due. */
  lemma TakeOne(s: State) returns (acts: seq<Action>, t: State)
    requires Init(s) && s.servers == 1 && s.workers == [Waiting] && s.gen == 0
    ensures Reaches(s, acts, t)
    ensures t.(phase := s.phase) == s.(workers := [Inside(Req(0, 0))], tokens := s.tokens - 1, nextReq := 1, due := 1)
  {
    assert Reaches(s, [], s);
    acts, t := NotifyOne(s, [], s);
    acts, t := EnterOne(s, acts, t);
  }

  lemma EnterOne(start: State, before: seq<Action>, s: State) returns (acts: seq<Action>, t: State)
    requires Reaches(start, before, s) && s.servers == 1 && s.workers == [Waiting] && s.queue == [] && s.nextReq == 0
    requires s.tokens > 0
    ensures Reaches(start, acts, t)
    ensures t.(phase := s.phase) == s.(workers := [Inside(Req(0, 0))], tokens := s.tokens - 1, nextReq := 1)
  {
    hide Reaches, DoReader, DoUpdater, ReaderMay, UpdaterMay;
    acts, t := Then(start, before, s, Dispatch(0));
    assert t.queue == [Req(0, 0)];
    acts, t := Then(start, acts, t, ByWorker(0, Take));
    assert t.queue == [] && t.workers == [Holding(Req(0, 0))];
    acts, t := Then(start, acts, t, ByWorker(0, Enter));
    assert t.workers == [Inside(Req(0, 0))];
  }

  lemma RegisterOne(start: State, before: seq<Action>, s: State, r: Req) returns (acts: seq<Action>, t: State)
    requires Reaches(start, before, s) && s.workers == [Inside(r)] && s.conns == map[]
    ensures Reaches(start, acts, t)
    ensures var slot := Slot(s.gen, r.idx);
      t.(phase := s.phase) == s.(workers := [Registered(r, slot)], conns := map[slot := Conn(1, [r], OwnedByWorker(0))],
                                 sentOn := s.sentOn[r := slot])
  {
    hide Reaches, DoReader, DoUpdater, ReaderMay, UpdaterMay;
    var slot := Slot(s.gen, r.idx);
    acts, t := Then(start, before, s, ByWorker(0, Lock));
    assert t.workers == [Locked(r, slot)] && t.conns == map[slot := Conn(0, [], OwnedByWorker(0))];
    acts, t := Then(start, acts, t, ByWorker(0, Register));
    assert ConnAt(t.conns, slot).list == [r];
    assert t.workers == [Registered(r, slot)] && t.conns == map[slot := Conn(1, [r], OwnedByWorker(0))];
  }

  lemma SendOne(start: State, before: seq<Action>, s: State, r: Req, slot: Slot) returns (acts: seq<Action>, t: State)
    requires Reaches(start, before, s) && s.workers == [Registered(r, slot)] && s.wire == {}
    requires s.conns == map[slot := Conn(1, [r], OwnedByWorker(0))]
    ensures Reaches(start, acts, t)
    ensures t.(phase := s.phase) ==
      s.(workers := [Waiting], tokens := s.tokens + 1, conns := map[slot := Conn(1, [r], Nobody)], wire := {r})
  {
    hide Reaches, DoReader, DoUpdater, ReaderMay, UpdaterMay;
    acts, t := Then(start, before, s, ByWorker(0, SendOk));
    assert t.workers == [Handled(slot)] && t.wire == {r};
    acts, t := LeaveOne(start, acts, t, slot, Conn(1, [r], OwnedByWorker(0)));
  }

  lemma LeaveOne(start: State, before: seq<Action>, s: State, slot: Slot, c: Conn)
    returns (acts: seq<Action>, t: State)
    requires Reaches(start, before, s) && s.workers == [Handled(slot)] && s.conns == map[slot := c]
    ensures Reaches(start, acts, t)
    ensures t == s.(workers := [Waiting], tokens := s.tokens + 1, conns := map[slot := c.(owner := Nobody)])
  {
    hide Reaches, DoReader, DoUpdater, ReaderMay, UpdaterMay;
    acts, t := Then(start, before, s, ByWorker(0, Unlock));
    assert t.workers == [Leaving] && t.conns == map[slot := c.(owner := Nobody)];
    acts, t := Then(start, acts, t, ByWorker(0, Leave));
    assert t.workers == [Waiting];
  }

  lemma ReceiveOne(start: State, before: seq<Action>, s: State, r: Req, slot: Slot)
    returns (acts: seq<Action>, t: State)
    requires Reaches(start, before, s) && s.wire == {r} && s.reader == Polling && slot.gen == s.gen
    requires s.conns == map[slot := Conn(1, [r], Nobody)] && s.sentOn == map[r := slot] && InStep(s, slot)
    ensures Reaches(start, acts, t)
    ensures t.(phase := s.phase) == s.(reader := Pumping(r, slot), wire := {})
  {
    hide Reaches, DoWorker, DoUpdater, WorkerMay, UpdaterMay;
    acts, t := Then(start, before, s, ByInbound(Receive(r)));
    assert t.wire == {} && t.reader == Received(r, slot);
    acts, t := Then(start, acts, t, ByInbound(Pump));
    assert t.reader == Pumping(r, slot);
  }

  lemma UncountOne(start: State, before: seq<Action>, s: State, r: Req, slot: Slot)
    returns (acts: seq<Action>, t: State)
    requires Reaches(start, before, s) && s.reader == Pumping(r, slot) && s.conns == map[slot := Conn(1, [r], Nobody)]
    ensures Reaches(start, acts, t)
    ensures t == s.(reader := Decremented(r, slot), conns := map[slot := Conn(0, [r], OwnedByReader)])
  {
    hide Reaches, DoWorker, DoUpdater, WorkerMay, UpdaterMay;
    acts, t := Then(start, before, s, ByInbound(LockList));
    assert t.conns == map[slot := Conn(1, [r], OwnedByReader)];
    acts, t := Then(start, acts, t, ByInbound(Decrement));
    assert t.conns == map[slot := Conn(0, [r], OwnedByReader)];
  }

  lemma FreezeAndScan(start: State, before: seq<Action>, s: State) returns (acts: seq<Action>, t: State)
    requires Reaches(start, before, s) && s.updater.Resting? && s.tokens == HFS_OUTBOUND_THREAD_NR
    requires s.due > 0 && s.servers == 1 && ConnAt(s.conns, Slot(s.gen, 0)).count == 0
    ensures Reaches(start, acts, t) && UpdaterMay(t, Swap)
    ensures t.conns == s.conns && t.gen == s.gen && t.reader == s.reader
  {
    hide Reaches, DoWorker, DoReader, WorkerMay, ReaderMay;
    var joined, mid := Then(start, before, s, ByUpdater(Connect));
    acts, t := AcquireAll(mid);
    ReachesJoin(start, joined, mid, acts, t);
    acts, t := Then(start, joined + acts, t, ByUpdater(Scan));
  }

  /** The exception in `SwapIsSafe` is needed: a run in which the connections are replaced while the
      reader still has an item on a pending list of the old generation, since the scan reads the
      counters without their mutexes. */
  lemma SwapDuringRemoval(start: State) returns (acts: seq<Action>, s: State)
    requires Init(start) && start.servers == 1 && start.workers == [Waiting] && start.gen == 0
    ensures Reaches(start, acts, s) && UpdaterMay(s, Swap)
    ensures ConnAt(s.conns, Slot(s.gen, 0)).list != []
  {
    var r, slot := Req(0, 0), Slot(0, 0);
    acts, s := TakeOne(start);
    acts, s := RegisterOne(start, acts, s, r);
    acts, s := SendOne(start, acts, s, r, slot);
    acts, s := ReceiveOne(start, acts, s, r, slot);
    acts, s := UncountOne(start, acts, s, r, slot);
    acts, s := FreezeAndScan(start, acts, s);
  }

  // ---------------------------------------------------------------------------------------------
  // A notification in the reader's hands

  predicate NoInbound(acts: seq<Action>) {
    forall i :: 0 <= i < |acts| ==> !acts[i].ByInbound?
  }

  /** Nothing is on the wire, and an update is under way that may still replace the connections, or is
      due. */
  predicate SwapAhead(s: State) {
    && s.wire == {}
    && (s.due > 0 || s.updater.Acquiring? || (s.updater.Scanning? && s.updater.tries < WAIT_RETRIES))
  }

  /** While the reader takes no step, this run makes it store the bytes it holds in a connection that they
      did not come from. */
  predicate Strays(s: State, acts: seq<Action>, t: State) {
    Reaches(s, acts, t) && NoInbound(acts) && t.reader == s.reader && s.reader.Noticed? &&
    PumpedInto(t) != s.reader.from
  }

  /** Without a step of the reader no update comes in sight. */
  lemma NoneAhead(s: State, a: Action)
    requires Inv(s) && Enabled(s, a) && !a.ByInbound? && !SwapAhead(s)
    ensures !SwapAhead(Do(s, a)) && Do(s, a).gen == s.gen && Do(s, a).reader == s.reader
  {
    match a
    case Dispatch(_) =>
    case ByWorker(w, k) => WorkerOnlySends(s, w, k);
    case ByUpdater(k) => UpdaterNoneAhead(s, k);
    case ByInbound(_) =>
  }

  lemma WorkerOnlySends(s: State, w: nat, k: WorkerStep)
    requires WorkerMay(s, w, k)
    ensures var t := DoWorker(s, w, k);
            s.wire <= t.wire && t.gen == s.gen && t.reader == s.reader && t.updater == s.updater && t.due == s.due
    ensures !k.SendOk? ==> DoWorker(s, w, k).wire == s.wire
  {
  }

  lemma UpdaterNoneAhead(s: State, k: UpdaterStep)
    requires Inv(s) && UpdaterMay(s, k) && !SwapAhead(s)
    ensures var t := DoUpdater(s, k); !SwapAhead(t) && t.gen == s.gen && t.reader == s.reader
  {
    if k.Swap? && s.wire != {} {
      var r :| r in s.wire;
      NothingOnWire(s, r);
    }
    hide At;
  }

  lemma {:induction false} NoneAheadRun(s: State, acts: seq<Action>, t: State)
    requires Inv(s) && Reaches(s, acts, t) && NoInbound(acts) && !SwapAhead(s)
    ensures t.gen == s.gen && t.reader == s.reader
    decreases |acts|
  {
    if acts != [] {
      NoneAhead(s, acts[0]);
      StepKeeps(s, acts[0]);
      hide Inv, Enabled, Do, SwapAhead;
      assert NoInbound(acts[1..]);
      NoneAheadRun(Do(s, acts[0]), acts[1..], t);
    }
  }

  /** A worker's next step on the way out of the critical section, with a send that fails. */
  function NextOut(w: Worker): WorkerStep {
    if w.Registered? then SendFail else NextOf(w)
  }

  lemma WorkerOut(s: State) returns (w: nat)
    requires Inv(s) && s.reader.Noticed? && CountInside(s.workers) > 0
    ensures w < |s.workers| && WorkerMay(s, w, NextOut(s.workers[w]))
  {
    w := CountSome(s.workers, InCriticalSection);
    var slot := WorkerSlot(s, w);
    if s.workers[w].Inside? && ConnAt(s.conns, slot).owner != Nobody {
      assert At(s, slot, Req(0, 0), 0);
      w := ConnAt(s.conns, slot).owner.w;
    }
  }

  lemma OutKeepsAhead(s: State, w: nat)
    requires w < |s.workers| && WorkerMay(s, w, NextOut(s.workers[w])) && SwapAhead(s)
    ensures SwapAhead(DoWorker(s, w, NextOut(s.workers[w])))
    ensures DoWorker(s, w, NextOut(s.workers[w])).gen == s.gen &&
            DoWorker(s, w, NextOut(s.workers[w])).reader == s.reader
  {
    WorkerOnlySends(s, w, NextOut(s.workers[w]));
    hide DoWorker;
  }

  /** With nothing on the wire, no worker inside and no reply in hand, no request is counted anywhere. */
  lemma NothingCounted(s: State, slot: Slot)
    requires Inv(s) && s.reader.Noticed? && s.wire == {} && CountInside(s.workers) == 0
    ensures ConnAt(s.conns, slot).count == 0
  {
    var list := ConnAt(s.conns, slot).list;
    assert At(s, slot, Req(0, 0), 0);
    if list != [] {
      var r := list[0];
      assert At(s, slot, r, 0) && r in list;
      var stage := PhaseAt(s.phase, r).stage;
      if stage.BySender? && stage.w < |s.workers| {
        CountZero(s.workers, InCriticalSection, stage.w);
      }
    }
  }

  /** What the updater does next on its way to the swap. */
  function NextSwap(s: State): UpdaterStep {
    match s.updater
    case Resting => Connect
    case Acquiring(_, _) => Acquire
    case Scanning(_, tries, j) => if tries == WAIT_RETRIES then GiveUp else if j == s.servers then Swap else Scan
    case GivenUp(_) => Abandon
    case Releasing(_, _) => Release
    case Closing(_) => Close
  }

  lemma UpdaterAhead(s: State)
    requires Inv(s) && s.reader.Noticed? && SwapAhead(s) && CountInside(s.workers) == 0
    ensures UpdaterMay(s, NextSwap(s))
    ensures DoUpdater(s, NextSwap(s)).reader == s.reader
    ensures if NextSwap(s).Swap? then DoUpdater(s, NextSwap(s)).gen != s.gen
            else DoUpdater(s, NextSwap(s)).gen == s.gen && SwapAhead(DoUpdater(s, NextSwap(s)))
  {
    if NextSwap(s).Scan? {
      NothingCounted(s, Slot(s.gen, s.updater.j));
    }
    hide At;
  }

  lemma StepAhead(s: State) returns (a: Action)
    requires Inv(s) && s.reader.Noticed? && SwapAhead(s)
    ensures Enabled(s, a) && !a.ByInbound? && !IsNew(a) && Do(s, a).reader == s.reader
    ensures Do(s, a).gen != s.gen || SwapAhead(Do(s, a))
  {
    hide Inv, SwapAhead, DoWorker, DoUpdater, WorkerMay, UpdaterMay, NextOut, NextSwap;
    if CountInside(s.workers) > 0 {
      var w := WorkerOut(s);
      OutKeepsAhead(s, w);
      a := ByWorker(w, NextOut(s.workers[w]));
    } else {
      UpdaterAhead(s);
      a := ByUpdater(NextSwap(s));
    }
  }

  /** From such a state the workers inside can come out, with sends that fail, an update that is under way
      can end, and this one or the next replaces the connections. */
  lemma {:induction false} ToTheSwap(s: State) returns (acts: seq<Action>, t: State)
    requires Inv(s) && s.reader.Noticed? && SwapAhead(s)
    ensures Reaches(s, acts, t) && NoInbound(acts) && t.reader == s.reader && t.gen != s.gen
    decreases Rank(s)
  {
    var a := StepAhead(s);
    RankFalls(s, a);
    RankNotNegative(s);
    StepKeeps(s, a);
    hide Inv, Enabled, Do, Rank, SwapAhead;
    var next := Do(s, a);
    if next.gen != s.gen {
      acts, t := [a], next;
      assert acts[1..] == [];
    } else {
      var rest;
      rest, t := ToTheSwap(next);
      acts := [a] + rest;
      assert acts[1..] == rest;
    }
  }

  /** A part of a notification can go to a connection it did not come from exactly when the connections
      have been replaced since it was received, or still can be before the reader's next step: when
      nothing is on the wire and an update is due or on its way to the swap. */
  lemma StraysExactly(start: State, before: seq<Action>, s: State)
    requires Init(start) && Reaches(start, before, s) && s.reader.Noticed?
    ensures (exists acts, t :: Strays(s, acts, t)) <==> s.reader.from.gen != s.gen || SwapAhead(s)
  {
    Reachable(start, before, s);
    hide Inv;
    if s.reader.from.gen != s.gen {
      assert Strays(s, [], s);
    } else if SwapAhead(s) {
      var acts, t := ToTheSwap(s);
      hide Reaches, SwapAhead, NoInbound;
      assert Strays(s, acts, t);
    } else {
      forall acts, t | Strays(s, acts, t) ensures false {
        NoneAheadRun(s, acts, t);
      }
    }
  }

  /** A concrete run: a second notification is received while the update that the first has started runs,
      and is stored, after the swap, in a connection of the new generation. */
  lemma NotificationStrays(start: State) returns (acts: seq<Action>, s: State)
    requires Init(start) && start.servers == 1
    ensures Reaches(start, acts, s) && s.reader == Noticed(Slot(start.gen, 0), Head)
    ensures PumpedInto(s) == Slot(s.gen, 0) != s.reader.from
    ensures ReaderMay(s, PumpNotice) && Slot(s.gen, 0) in DoReader(s, PumpNotice).crossed
  {
    acts, s := NoticeInHand(start);
    hide Init, Reaches, DoWorker, DoReader, WorkerMay, ReaderMay;
    acts, s := FreezeAndScan(start, acts, s);
    Reachable(start, acts, s);
    SwapInstalls(s);
    hide Inv, DoUpdater, UpdaterMay;
    acts, s := Then(start, acts, s, ByUpdater(Swap));
    StoredAstray(s);
  }

  lemma NoticeInHand(start: State) returns (acts: seq<Action>, s: State)
    requires Init(start) && start.servers == 1
    ensures Reaches(start, acts, s) && s == start.(due := 1, reader := Noticed(Slot(start.gen, 0), Head))
  {
    assert Reaches(start, [], start);
    acts, s := NotifyOne(start, [], start);
    hide Reaches, DoWorker, DoUpdater, DoReply, WorkerMay, UpdaterMay;
    acts, s := Then(start, acts, s, ByInbound(Notify(0, Head)));
  }

  lemma StoredAstray(s: State)
    requires s.reader.Noticed? && PumpedInto(s) != s.reader.from
    ensures ReaderMay(s, PumpNotice) && PumpedInto(s) in DoReader(s, PumpNotice).crossed
  {
    hide DoReply;
  }

  lemma SwapInstalls(s: State)
    requires Inv(s) && UpdaterMay(s, Swap)
    ensures DoUpdater(s, Swap).gen != s.gen && DoUpdater(s, Swap).reader == s.reader
  {
  }

  // ---------------------------------------------------------------------------------------------
  // How often the updater looks

  /** One look of the drain scan: at which counter, and whether it was zero. */
  datatype Look = Look(j: nat, zero: bool)

  function LookOf(s: State, a: Action): seq<Look> {
    if a == ByUpdater(Scan) && s.updater.Scanning? then
      [Look(s.updater.j, ConnAt(s.conns, Slot(s.gen, s.updater.j)).count == 0)]
    else []
  }

  /** All looks of a run. */
  function Looks(s: State, acts: seq<Action>): seq<Look>
    decreases |acts|
  {
    if acts == [] || !Enabled(s, acts[0]) then [] else LookOf(s, acts[0]) + Looks(Do(s, acts[0]), acts[1..])
  }

  /** Passes that ended at a counter that was not zero. */
  function FailedPasses(looks: seq<Look>): nat {
    if looks == [] then 0
    else FailedPasses(looks[..|looks| - 1]) + if looks[|looks| - 1].zero then 0 else 1
  }

  /** The counter to look at next: the following one, or the first again after a pass that failed. */
  function NextLook(looks: seq<Look>): nat {
    if looks == [] || !looks[|looks| - 1].zero then 0 else looks[|looks| - 1].j + 1
  }

  /** Every pass begins at the first counter and leaves none out. */
  predicate InOrder(looks: seq<Look>) {
    forall k :: 0 <= k < |looks| ==> looks[k].j == NextLook(looks[..k])
  }

  lemma {:induction false} ReachesLast(from: State, acts: seq<Action>, to: State) returns (mid: State)
    requires acts != [] && Reaches(from, acts, to)
    ensures var m := |acts| - 1; Reaches(from, acts[..m], mid) && Enabled(mid, acts[m]) && to == Do(mid, acts[m])
    ensures Looks(from, acts) == Looks(from, acts[..|acts| - 1]) + LookOf(mid, acts[|acts| - 1])
    decreases |acts|
  {
    hide Enabled, Do, LookOf;
    var m := |acts| - 1;
    if m == 0 {
      mid := from;
      assert acts[1..] == [] && acts[..0] == [];
    } else {
      var rest := acts[1..];
      mid := ReachesLast(Do(from, acts[0]), rest, to);
      assert rest[..m - 1] == acts[..m][1..] && rest[m - 1] == acts[m];
    }
  }

  /** The reader stores the last part of a notification in the connection that it came from. */
  predicate StoresNotice(s: State, a: Action) {
    a == ByInbound(PumpNotice) && s.reader.Noticed? && s.reader.part.Tail? && s.reader.from.gen == s.gen
  }

  /** The notifications that a run stores as they were sent. */
  function NoticesStored(s: State, acts: seq<Action>): nat
    decreases |acts|
  {
    if acts == [] || !Enabled(s, acts[0]) then 0
    else (if StoresNotice(s, acts[0]) then 1 else 0) + NoticesStored(Do(s, acts[0]), acts[1..])
  }

  /** The updates that a run starts. */
  function UpdatesStarted(acts: seq<Action>): nat {
    if acts == [] then 0 else (if acts[0] == ByUpdater(Connect) then 1 else 0) + UpdatesStarted(acts[1..])
  }

  lemma StepCountsUpdates(s: State, a: Action)
    requires Enabled(s, a)
    ensures var t := Do(s, a);
            && t.due + (if a == ByUpdater(Connect) then 1 else 0) == s.due + (if StoresNotice(s, a) then 1 else 0)
            && t.nextGen == s.nextGen + if a == ByUpdater(Connect) then 1 else 0
  {
    hide DoWorker, DoReader, WorkerMay, DoPumpNotice;
    match a
    case Dispatch(_) =>
    case ByWorker(w, k) => WorkerAccounts(s, w, k);
    case ByInbound(k) => ReaderCountsNotices(s, k);
    case ByUpdater(_) =>
  }

  lemma ReaderCountsNotices(s: State, k: ReaderStep)
    requires ReaderMay(s, k)
    ensures var t := DoReader(s, k);
            t.due == s.due + (if StoresNotice(s, ByInbound(k)) then 1 else 0) && t.nextGen == s.nextGen
  {
    hide InStep, DoReply;
    if !IsNotice(k) {
      ReplyAccounts(s, k);
      hide DoNotify, DoPumpNotice;
    }
  }

  lemma {:induction false} RunCountsUpdates(s: State, acts: seq<Action>, t: State)
    requires Reaches(s, acts, t)
    ensures UpdatesStarted(acts) + t.due == s.due + NoticesStored(s, acts)
    ensures t.nextGen == s.nextGen + UpdatesStarted(acts)
    decreases |acts|
  {
    hide Enabled, Do, StoresNotice;
    if acts != [] {
      StepCountsUpdates(s, acts[0]);
      RunCountsUpdates(Do(s, acts[0]), acts[1..], t);
    }
  }

  /** Every notification that arrives whole leads to one update, which makes one generation of connections, and
      nothing else does; at rest all of them have run. */
  lemma OneUpdateEach(start: State, acts: seq<Action>, s: State)
    requires Init(start) && Reaches(start, acts, s)
    ensures s.nextGen == start.nextGen + UpdatesStarted(acts)
    ensures UpdatesStarted(acts) <= NoticesStored(start, acts)
    ensures AtRest(s) ==> UpdatesStarted(acts) == NoticesStored(start, acts)
  {
    RunCountsUpdates(start, acts, s);
  }

  /** The requests that a run dispatches, in order. */
  function Dispatched(acts: seq<Action>): seq<Req> {
    if acts == [] then []
    else
      var m := |acts| - 1;
      var before := Dispatched(acts[..m]);
      if acts[m].Dispatch? then before + [Req(|before|, acts[m].idx)] else before
  }

  /** The queue holds the last of these requests, in order, and each of them is sent to its own server. */
  ghost predicate Accords(s: State, all: seq<Req>) {
    && |s.queue| <= |all| == s.nextReq && s.queue == all[|all| - |s.queue|..]
    && (forall r :: r in all <==> PhaseAt(s.phase, r) != Unborn)
    && forall r :: r in s.sentOn ==> r in all && s.sentOn[r].idx == r.idx
  }

  lemma StepAccords(s: State, a: Action, all: seq<Req>)
    requires Inv(s) && Enabled(s, a) && Accords(s, all)
    ensures Accords(Do(s, a), if a.Dispatch? then all + [Req(|all|, a.idx)] else all)
  {
    StepDispatches(s, a);
    hide Inv, Enabled, Do;
  }

  /** The requests of a run are those that it dispatches. */
  lemma {:induction false} AllDispatched(start: State, acts: seq<Action>, s: State)
    requires Init(start) && Reaches(start, acts, s)
    ensures Accords(s, Dispatched(acts))
    decreases |acts|
  {
    if acts != [] {
      hide Inv, Init, Reaches, Enabled, Do, Looks, Accords;
      var m := |acts| - 1;
      var mid := ReachesLast(start, acts, s);
      Reachable(start, acts[..m], mid);
      AllDispatched(start, acts[..m], mid);
      StepAccords(mid, acts[m], Dispatched(acts[..m]));
    }
  }

  /** A request can be dispatched at any time, to any server, and when all old work is done it has been signalled,
      once, unless its connection was given bytes of another one. */
  lemma EachIsServed(start: State, before: seq<Action>, s: State, idx: nat) returns (acts: seq<Action>, t: State)
    requires Init(start) && Reaches(start, before, s) && |s.workers| > 0 && idx < s.servers
    ensures Reaches(s, [Dispatch(idx)] + acts, t) && NothingNew(acts) && AtRest(t)
    ensures var r := Req(s.nextReq, idx);
            SignalsAt(s.signals, r) == 0 && (t.crossed == {} ==> SignalsAt(t.signals, r) == 1 && r in t.completedOn)
  {
    var (a, r) := (Dispatch(idx), Req(s.nextReq, idx));
    var mid := Do(s, a);
    var first, _ := Then(start, before, s, a);
    Reachable(start, before, s);
    assert At(s, Slot(0, 0), r, 0);
    assert PhaseAt(mid.phase, r) == Queued && |mid.workers| > 0;
    hide Inv, Init, Enabled, Do, AtRest, Idle;
    AllDispatched(start, first, mid);
    acts, t := WorkFinishes(start, first, mid);
    ReachesJoin(start, first, mid, acts, t);
    KeepsDispatched(first, acts, r);
    assert Reaches(mid, acts, t) && Reaches(s, [a] + acts, t) by {
      assert ([a] + acts)[1..] == acts;
    }
    hide Reaches;
    if t.crossed == {} {
      OnlyStrayedLost(start, first + acts, t, r);
      NothingLost(start, first + acts, t, r, Slot(0, 0));
      SignalledOnce(start, first + acts, t, r);
    }
  }

  lemma {:induction false} KeepsDispatched(first: seq<Action>, acts: seq<Action>, r: Req)
    requires r in Dispatched(first)
    ensures r in Dispatched(first + acts)
    decreases |acts|
  {
    if acts == [] {
      assert first + acts == first;
    } else {
      var m := |acts| - 1;
      assert (first + acts)[..|first + acts| - 1] == first + acts[..m];
      KeepsDispatched(first, acts[..m], r);
    }
  }

  /** A step dispatches a request, or takes the first of the queue, and touches no request that is not there. */
  lemma StepDispatches(s: State, a: Action)
    requires Inv(s) && Enabled(s, a)
    ensures if a.Dispatch?
            then Do(s, a).nextReq == s.nextReq + 1 && Do(s, a).queue == s.queue + [Req(s.nextReq, a.idx)]
            else && Do(s, a).nextReq == s.nextReq
                 && (Do(s, a).queue == s.queue || (s.queue != [] && Do(s, a).queue == s.queue[1..]))
    ensures forall r :: PhaseAt(Do(s, a).phase, r) != Unborn <==>
              PhaseAt(s.phase, r) != Unborn || (a.Dispatch? && r == Req(s.nextReq, a.idx))
    ensures forall r :: r in Do(s, a).sentOn ==>
              || (r in s.sentOn && Do(s, a).sentOn[r] == s.sentOn[r])
              || (PhaseAt(s.phase, r) != Unborn && Do(s, a).sentOn[r].idx == r.idx)
  {
    hide Inv, DoWorker, DoReader, WorkerMay, ReaderMay, UpdaterMay;
    match a
    case Dispatch(_) =>
    case ByWorker(w, k) => WorkerDispatches(s, w, k);
    case ByInbound(k) => ReaderDispatches(s, k);
    case ByUpdater(_) =>
  }

  lemma WorkerDispatches(s: State, w: nat, k: WorkerStep)
    requires Inv(s) && WorkerMay(s, w, k)
    ensures var t := DoWorker(s, w, k);
            && t.nextReq == s.nextReq && (t.queue == s.queue || (s.queue != [] && t.queue == s.queue[1..]))
            && (forall r :: PhaseAt(t.phase, r) != Unborn <==> PhaseAt(s.phase, r) != Unborn)
            && forall r :: r in t.sentOn ==>
                 || (r in s.sentOn && t.sentOn[r] == s.sentOn[r])
                 || (PhaseAt(s.phase, r) != Unborn && t.sentOn[r].idx == r.idx)
  {
    assert At(s, WorkerSlot(s, w), WorkerReq(s, w), w);
    hide Inv, TokensOk, UpdaterOk, ReaderOk, CountOk, GenOk, OwnerOk, ListOk, SignalOk, HolderOk;
  }

  lemma ReaderDispatches(s: State, k: ReaderStep)
    requires Inv(s) && ReaderMay(s, k)
    ensures var t := DoReader(s, k);
            && t.nextReq == s.nextReq && t.queue == s.queue && t.sentOn == s.sentOn
            && forall r :: PhaseAt(t.phase, r) != Unborn <==> PhaseAt(s.phase, r) != Unborn
  {
    hide Inv, InStep, PumpedInto;
    if IsNotice(k) {
      hide DoReply;
    } else {
      hide DoNotify, DoPumpNotice, PutConn, ConnAt, RemoveReq;
      ReadsKnown(s, k);
    }
  }

  /** The reader completes requests that were dispatched. */
  lemma ReadsKnown(s: State, k: ReaderStep)
    requires Inv(s) && ReaderMay(s, k) && !IsNotice(k)
    ensures PhaseAt(s.phase, ReaderReq(s, k)) != Unborn
  {
    assert At(s, Slot(0, 0), ReaderReq(s, k), 0);
    hide Inv, TokensOk, UpdaterOk, QueueOk, CountOk, GenOk, OwnerOk, ListOk, HolderOk, WorkerOk;
  }

  /** The updater holds this generation, to install it or to close it. */
  predicate InItsHands(u: Updater, g: nat) {
    match u
    case Resting => false
    case Acquiring(spare, _) => g == spare
    case Scanning(spare, _, _) => g == spare
    case GivenUp(spare) => g == spare
    case Releasing(close, _) => g == close
    case Closing(close) => g == close
  }

  predicate Accounted(s: State, g: nat) {
    g in s.closed || g == s.gen || InItsHands(s.updater, g)
  }

  /** No connections leak: of all generations that there have been, each is installed, in the hands of the
      updater, or closed. */
  lemma {:induction false} NoneLeaks(start: State, acts: seq<Action>, s: State, g: nat)
    requires Init(start) && Reaches(start, acts, s) && (g == start.gen || start.nextGen <= g < s.nextGen)
    ensures Accounted(s, g) && start.nextGen <= s.nextGen
    ensures s.updater.Resting? ==> (g in s.closed <==> g != s.gen)
    decreases |acts|
  {
    if acts != [] {
      var m := |acts| - 1;
      var mid := ReachesLast(start, acts, s);
      StepAccounts(mid, acts[m], g);
      if g == start.gen || g < mid.nextGen {
        NoneLeaks(start, acts[..m], mid, g);
      } else {
        NoneLeaks(start, acts[..m], mid, start.gen);
      }
    }
    Reachable(start, acts, s);
  }

  lemma StepAccounts(s: State, a: Action, g: nat)
    requires Enabled(s, a)
    ensures s.nextGen <= Do(s, a).nextGen
    ensures Accounted(s, g) || s.nextGen <= g < Do(s, a).nextGen ==> Accounted(Do(s, a), g)
  {
    hide DoWorker, DoReader, DoUpdater, WorkerMay, ReaderMay, UpdaterMay;
    match a
    case Dispatch(_) =>
    case ByWorker(w, k) => WorkerAccounts(s, w, k);
    case ByInbound(k) => ReaderAccounts(s, k);
    case ByUpdater(k) => UpdaterAccounts(s, k, g);
  }

  lemma UpdaterAccounts(s: State, k: UpdaterStep, g: nat)
    requires UpdaterMay(s, k)
    ensures s.nextGen <= DoUpdater(s, k).nextGen
    ensures Accounted(s, g) || s.nextGen <= g < DoUpdater(s, k).nextGen ==> Accounted(DoUpdater(s, k), g)
  {
  }

  lemma WorkerAccounts(s: State, w: nat, k: WorkerStep)
    requires WorkerMay(s, w, k)
    ensures var t := DoWorker(s, w, k);
            t.updater == s.updater && t.closed == s.closed && t.gen == s.gen && t.nextGen == s.nextGen && t.due == s.due
  {
  }

  lemma ReaderAccounts(s: State, k: ReaderStep)
    requires ReaderMay(s, k)
    ensures var t := DoReader(s, k);
            t.updater == s.updater && t.closed == s.closed && t.gen == s.gen && t.nextGen == s.nextGen
  {
    hide DoReply, DoNotify, DoPumpNotice, OnlyNoticed;
    if IsNotice(k) {
      NoticesOnly(s, k);
      NoticeAccounts(s, DoReader(s, k));
    } else {
      ReplyAccounts(s, k);
    }
  }

  lemma NoticeAccounts(s: State, t: State)
    requires OnlyNoticed(s, t)
    ensures t.updater == s.updater && t.closed == s.closed && t.gen == s.gen && t.nextGen == s.nextGen
  {
  }

  lemma ReplyAccounts(s: State, k: ReaderStep)
    requires ReaderMay(s, k) && !IsNotice(k)
    ensures var t := DoReply(s, k);
            && t.updater == s.updater && t.closed == s.closed && t.gen == s.gen && t.nextGen == s.nextGen
            && t.due == s.due
  {
  }

  /** The state of the updater, told by its looks since it took its last token. */
  predicate ToldByLooks(s: State, looks: seq<Look>, t: State)
    requires s.updater.Scanning?
  {
    && InOrder(looks)
    && match t.updater
       case Scanning(spare, tries, j) =>
         && spare == s.updater.spare && t.gen == s.gen && j == NextLook(looks) && tries == FailedPasses(looks)
       case GivenUp(spare) => spare == s.updater.spare && t.gen == s.gen && FailedPasses(looks) == 4
       case Releasing(close, held) =>
         && held == HFS_OUTBOUND_THREAD_NR
         && if t.gen == s.gen then close == s.updater.spare && FailedPasses(looks) == 4
            else t.gen == s.updater.spare && close == s.gen && FailedPasses(looks) <= 3 && NextLook(looks) == s.servers
       case _ => false
  }

  lemma {:induction false} Told(s: State, acts: seq<Action>, t: State)
    requires Inv(s) && s.updater.Scanning? && s.updater.tries == 0 && s.updater.j == 0
    requires Reaches(s, acts, t) && KeepsFrozen(acts)
    ensures ToldByLooks(s, Looks(s, acts), t) && t.servers == s.servers
    decreases |acts|
  {
    hide Inv, Enabled, Do, LookOf, InOrder;
    if acts == [] {
      assert InOrder([]) by {
        NoLooks();
      }
    } else {
      var m := |acts| - 1;
      var mid := ReachesLast(s, acts, t);
      Told(s, acts[..m], mid);
      AlwaysInv(s, acts[..m], mid);
      ToldStep(s, Looks(s, acts[..m]), mid, acts[m]);
    }
  }

  lemma NoLooks()
    ensures InOrder([])
  {
  }

  lemma ToldStep(s: State, looks: seq<Look>, mid: State, a: Action)
    requires s.updater.Scanning? && Inv(mid) && ToldByLooks(s, looks, mid) && mid.servers == s.servers
    requires Enabled(mid, a) && a != ByUpdater(Release)
    ensures ToldByLooks(s, looks + LookOf(mid, a), Do(mid, a)) && Do(mid, a).servers == s.servers
  {
    match a
    case Dispatch(_) => assert looks + LookOf(mid, a) == looks;
    case ByWorker(w, k) =>
      WorkerOnlySends(mid, w, k);
      WorkerKeepsServers(mid, w, k);
      assert looks + LookOf(mid, a) == looks;
    case ByInbound(k) =>
      ReaderLeavesUpdater(mid, k);
      ReaderKeepsServers(mid, k);
      assert looks + LookOf(mid, a) == looks;
    case ByUpdater(k) => ToldUpdater(s, looks, mid, k);
  }

  lemma WorkerKeepsServers(s: State, w: nat, k: WorkerStep)
    requires WorkerMay(s, w, k)
    ensures DoWorker(s, w, k).servers == s.servers
  {
  }

  lemma ReaderKeepsServers(s: State, k: ReaderStep)
    requires ReaderMay(s, k)
    ensures DoReader(s, k).servers == s.servers && DoReader(s, k).gen == s.gen
  {
    if IsNotice(k) {
      NoticesOnly(s, k);
    } else {
      ReplyKeepsServers(s, k);
    }
    hide DoReply, DoNotify, DoPumpNotice;
  }

  lemma ReplyKeepsServers(s: State, k: ReaderStep)
    requires ReaderMay(s, k) && !IsNotice(k)
    ensures DoReply(s, k).servers == s.servers && DoReply(s, k).gen == s.gen
  {
  }

  lemma ToldUpdater(s: State, looks: seq<Look>, mid: State, k: UpdaterStep)
    requires s.updater.Scanning? && UpdaterOk(mid) && ToldByLooks(s, looks, mid) && mid.servers == s.servers
    requires UpdaterMay(mid, k) && !k.Release?
    ensures ToldByLooks(s, looks + LookOf(mid, ByUpdater(k)), DoUpdater(mid, k))
    ensures DoUpdater(mid, k).servers == s.servers
  {
    hide InOrder;
    if k.Scan? {
      var look := LookOf(mid, ByUpdater(k))[0];
      OneMoreLook(looks, look);
    } else {
      assert looks + LookOf(mid, ByUpdater(k)) == looks;
    }
  }

  lemma OneMoreLook(looks: seq<Look>, look: Look)
    requires InOrder(looks) && look.j == NextLook(looks)
    ensures InOrder(looks + [look])
    ensures NextLook(looks + [look]) == if look.zero then look.j + 1 else 0
    ensures FailedPasses(looks + [look]) == FailedPasses(looks) + if look.zero then 0 else 1
  {
    var more := looks + [look];
    assert more[..|looks|] == looks;
    forall k | 0 <= k < |more|
      ensures more[k].j == NextLook(more[..k])
    {
      assert more[..k] == if k < |looks| then looks[..k] else looks;
    }
  }

  /** Where the updater took its last token. */
  lemma {:induction false} LastToken(start: State, acts: seq<Action>, s: State) returns (n: nat, mid: State)
    requires Init(start) && Reaches(start, acts, s) && (s.updater.Scanning? || s.updater.GivenUp?)
    ensures 0 < n <= |acts| && acts[n - 1] == ByUpdater(Acquire) && KeepsFrozen(acts[n..])
    ensures forall i :: n <= i < |acts| ==> acts[i] != ByUpdater(Acquire)
    ensures Reaches(start, acts[..n], mid) && Reaches(mid, acts[n..], s)
    ensures mid.updater.Scanning? && mid.updater.tries == 0 && mid.updater.j == 0
    decreases |acts|
  {
    hide Init, Reaches, Enabled, Do;
    NotAtStart(start, acts, s);
    var m := |acts| - 1;
    var p := ReachesLast(start, acts, s);
    UpdaterCameFrom(p, acts[m]);
    if p.updater.Acquiring? {
      n, mid := |acts|, s;
      NoSteps(s);
      assert acts[..n] == acts && acts[n..] == [];
    } else {
      n, mid := LastToken(start, acts[..m], p);
      assert acts[..m][..n] == acts[..n];
      assert acts[n..] == acts[..m][n..] + [acts[m]];
      var more, to := Then(mid, acts[..m][n..], p, acts[m]);
    }
  }

  lemma NotAtStart(start: State, acts: seq<Action>, s: State)
    requires Init(start) && Reaches(start, acts, s) && !s.updater.Resting?
    ensures acts != []
  {
  }

  lemma NoSteps(s: State)
    ensures Reaches(s, [], s)
  {
  }

  lemma UpdaterCameFrom(p: State, a: Action)
    requires Enabled(p, a)
    ensures var s := Do(p, a);
            s.updater.Scanning? || s.updater.GivenUp? ==>
              if p.updater.Acquiring? then a == ByUpdater(Acquire) && s.updater.Scanning? && s.updater.tries == 0 &&
                 s.updater.j == 0
              else (p.updater.Scanning? || p.updater.GivenUp?) && a != ByUpdater(Acquire) && a != ByUpdater(Release)
  {
    match a
    case Dispatch(_) =>
    case ByWorker(w, k) => WorkerLeavesUpdater(p, w, k);
    case ByInbound(k) => ReaderLeavesUpdater(p, k);
    case ByUpdater(_) =>
  }

  /** An update gives up only after four passes since it took its last token, each of which began at the first
      counter and ended at one that was not zero. */
  lemma GivesUpAfterFour(start: State, acts: seq<Action>, s: State) returns (n: nat, mid: State)
    requires Init(start) && Reaches(start, acts, s) && s.updater.GivenUp?
    ensures 0 < n <= |acts| && acts[n - 1] == ByUpdater(Acquire)
    ensures forall i :: n <= i < |acts| ==> acts[i] != ByUpdater(Acquire)
    ensures Reaches(start, acts[..n], mid) && Reaches(mid, acts[n..], s) && mid.tokens == 0
    ensures InOrder(Looks(mid, acts[n..])) && FailedPasses(Looks(mid, acts[n..])) == 4
  {
    n, mid := LastToken(start, acts, s);
    Reachable(start, acts[..n], mid);
    Told(mid, acts[n..], s);
  }

  /** The looks since the last token decide what the updater does next. */
  lemma NextOfScan(start: State, acts: seq<Action>, s: State) returns (n: nat, mid: State)
    requires Init(start) && Reaches(start, acts, s) && s.updater.Scanning?
    ensures 0 < n <= |acts| && acts[n - 1] == ByUpdater(Acquire)
    ensures forall i :: n <= i < |acts| ==> acts[i] != ByUpdater(Acquire)
    ensures Reaches(start, acts[..n], mid) && Reaches(mid, acts[n..], s)
    ensures var looks := Looks(mid, acts[n..]);
            && InOrder(looks)
            && (UpdaterMay(s, GiveUp) <==> FailedPasses(looks) == 4)
            && (UpdaterMay(s, Swap) <==> FailedPasses(looks) <= 3 && NextLook(looks) == s.servers)
            && (UpdaterMay(s, Scan) <==> FailedPasses(looks) <= 3 && NextLook(looks) < s.servers)
  {
    n, mid := LastToken(start, acts, s);
    Reachable(start, acts[..n], mid);
    Reachable(start, acts, s);
    Told(mid, acts[n..], s);
    hide Reaches, Looks;
  }

  predicate OnlyReads(acts: seq<Action>) {
    forall i :: 0 <= i < |acts| ==> acts[i].ByInbound?
  }

  lemma {:induction false} ReadsLeaveUpdater(s: State, acts: seq<Action>, t: State)
    requires Reaches(s, acts, t) && OnlyReads(acts)
    ensures t.updater == s.updater && t.gen == s.gen && t.servers == s.servers
    decreases |acts|
  {
    if acts != [] {
      ReaderLeavesUpdater(s, acts[0].rs);
      ReaderKeepsServers(s, acts[0].rs);
      hide ReaderMay, DoReader;
      ReadsLeaveUpdater(Do(s, acts[0]), acts[1..], t);
    }
  }

  /** The same update still succeeds if, after at most three failed passes, the reader completes what is
      counted: it looks at the counters that are left, and replaces the connections by those it has made. */
  lemma StillSwaps(start: State, acts: seq<Action>, n: nat, mid: State, s: State, replies: seq<Action>, t: State)
    returns (scans: seq<Action>, u: State)
    requires Init(start) && Reaches(start, acts, s) && s.updater.Scanning?
    requires 0 < n <= |acts| && acts[n - 1] == ByUpdater(Acquire)
    requires forall i :: n <= i < |acts| ==> acts[i] != ByUpdater(Acquire)
    requires Reaches(start, acts[..n], mid) && Reaches(mid, acts[n..], s)
    requires FailedPasses(Looks(mid, acts[n..])) <= 3
    requires Reaches(s, replies, t) && OnlyReads(replies)
    requires forall i: nat :: i < t.servers ==> ConnAt(t.conns, Slot(t.gen, i)).count == 0
    ensures Reaches(t, scans, u) && |scans| <= t.servers && forall i :: 0 <= i < |scans| ==> scans[i] == ByUpdater(Scan)
    ensures Enabled(u, ByUpdater(Swap)) && Do(u, ByUpdater(Swap)).gen == s.updater.spare
  {
    hide Init, Inv, Reaches, Looks, Enabled, Do, UpdaterMay, InOrder, OnlyReads;
    var n', mid' := NextOfScan(start, acts, s);
    SameStart(start, acts, n, mid, n', mid');
    Reachable(start, acts, s);
    ReadsLeaveUpdater(s, replies, t);
    AlwaysInv(s, replies, t);
    FewFailures(s, t);
    scans, u := ScanOn(t);
  }

  lemma FewFailures(s: State, t: State)
    requires s.updater.Scanning? && !UpdaterMay(s, GiveUp) && Inv(s) && t.updater == s.updater && Inv(t)
    ensures t.updater.Scanning? && t.updater.tries <= 3 && UpdaterOk(t)
  {
  }

  lemma SameStart(start: State, acts: seq<Action>, n: nat, mid: State, n': nat, mid': State)
    requires 0 < n <= |acts| && acts[n - 1] == ByUpdater(Acquire)
    requires forall i :: n <= i < |acts| ==> acts[i] != ByUpdater(Acquire)
    requires 0 < n' <= |acts| && acts[n' - 1] == ByUpdater(Acquire)
    requires forall i :: n' <= i < |acts| ==> acts[i] != ByUpdater(Acquire)
    requires Reaches(start, acts[..n], mid) && Reaches(start, acts[..n'], mid')
    ensures n == n' && mid == mid'
  {
    hide Reaches;
    assert n == n';
    OneEnd(start, acts[..n], mid, mid');
  }

  lemma {:induction false} OneEnd(from: State, acts: seq<Action>, t: State, t': State)
    requires Reaches(from, acts, t) && Reaches(from, acts, t')
    ensures t == t'
    decreases |acts|
  {
    hide Enabled, Do;
    if acts != [] {
      OneEnd(Do(from, acts[0]), acts[1..], t, t');
    }
  }

  lemma {:induction false} ScanOn(t: State) returns (scans: seq<Action>, u: State)
    requires UpdaterOk(t) && t.updater.Scanning? && t.updater.tries <= 3
    requires forall i: nat :: i < t.servers ==> ConnAt(t.conns, Slot(t.gen, i)).count == 0
    ensures Reaches(t, scans, u) && |scans| == t.servers - t.updater.j
    ensures forall i :: 0 <= i < |scans| ==> scans[i] == ByUpdater(Scan)
    ensures Enabled(u, ByUpdater(Swap)) && Do(u, ByUpdater(Swap)).gen == t.updater.spare
    decreases t.servers - t.updater.j
  {
    if t.updater.j == t.servers {
      scans, u := [], t;
    } else {
      var next := Do(t, ByUpdater(Scan));
      var rest;
      rest, u := ScanOn(next);
      scans := [ByUpdater(Scan)] + rest;
      assert scans[1..] == rest;
    }
  }
}
