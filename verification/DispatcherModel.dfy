/** The in-process task dispatcher (dispatcher.c) as a state machine: one function per region
    that runs under the dispatcher's lock, and a record of what has happened so far. */
module DispatcherModel {

  /** A request context of the rep socket. */
  type Ctx = nat

  datatype DaemonState = DaemonInit | DaemonIdle | DaemonBusy

  /** A sender object: made for one pipe, kept by its slot, then retired, then freed. */
  datatype Sender = Sender(id: nat, pipe: int)

  datatype Slot = Slot(pipe: int, state: DaemonState, msgid: int, syncGen: int, ctx: Ctx, ds: Sender)

  /** A queued request: the node in its message header, and the message length. */
  datatype Task = Task(ctx: Ctx, msgid: int, isSync: bool, len: nat)

  /** One assignment: the pipe and context, whether the task was a sync task, the sync
      generation at that moment, and whether the assignment closed it. */
  datatype Assignment = Assignment(pipe: int, ctx: Ctx, isSync: bool, gen: int, closing: bool)

  /** A context taken off a disconnected slot, with the value of `stopped` read under the lock. */
  datatype InHand = InHand(ctx: Ctx, stopped: bool)

  datatype Reply = Reply(pipe: int, ctx: Ctx)

  /** What has happened so far. */
  datatype History = History(
    pipes: set<int>,             // every pipe that ever connected
    accepted: seq<Ctx>,          // requests in order of arrival
    asked: map<Ctx, Task>,       // what each accepted request asked for
    given: seq<Assignment>,      // assignments in order
    cancelled: set<Ctx>,         // requests cancelled while queued
    closed: seq<Ctx>,            // contexts closed
    inHand: seq<InHand>,         // contexts between the two regions of a disconnect
    late: set<Ctx>,              // contexts taken in hand after the stop
    sent: seq<Ctx>,              // contexts to which a reply or a connection reset was sent
    signalled: seq<int>,         // pipes to which a signal was sent, in order
    replies: seq<Reply>,         // daemon replies forwarded
    senders: seq<Sender>,        // senders made
    freed: seq<Sender>)          // senders freed

  /** The dispatcher's fields, with its history. */
  datatype State = State(
    slots: seq<Slot>, capacity: nat,
    inq: seq<Task>, inqCount: int, queuedBytes: int, peakBytes: int,
    outqCount: int, connections: int, count: int, executing: int,
    stopped: bool, hostCtx: Ctx,
    retired: seq<Sender>, sending: set<Sender>,
    active: seq<Ctx>, free: nat,
    sigActive: bool, sigQueue: seq<int>,
    syncing: bool, gen: int,
    h: History)

  const INITIAL_SIZE := 16
  const REPLY_POOL := 4

  function Init(hostCtx: Ctx): State {
    State([], INITIAL_SIZE, [], 0, 0, 0, 0, 0, 0, 0, false, hostCtx, [], {}, [], REPLY_POOL, false, [], false, 0,
          History({}, [], map[], [], {}, [], [], {}, [], [], [], [], []))
  }

  // ----- slots

  predicate Eligible(slot: Slot, syncing: bool, gen: int) {
    slot.state == DaemonIdle && !(syncing && slot.syncGen == gen)
  }

  /** Index of the first eligible slot, or the number of slots. */
  function FindIdle(slots: seq<Slot>, syncing: bool, gen: int): (i: nat)
    ensures i <= |slots|
    ensures i < |slots| ==> Eligible(slots[i], syncing, gen)
    ensures forall k :: 0 <= k < i ==> !Eligible(slots[k], syncing, gen)
  {
    if slots == [] || Eligible(slots[0], syncing, gen) then 0 else 1 + FindIdle(slots[1..], syncing, gen)
  }

  /** Index of the slot of a pipe, or the number of slots. */
  function FindDaemon(slots: seq<Slot>, pipe: int): (i: nat)
    ensures i <= |slots|
    ensures i < |slots| ==> slots[i].pipe == pipe
    ensures forall k :: 0 <= k < i ==> slots[k].pipe != pipe
  {
    if slots == [] || slots[0].pipe == pipe then 0 else 1 + FindDaemon(slots[1..], pipe)
  }

  /** Index of the first busy slot working on msgid, or the number of slots. */
  function FindBusy(slots: seq<Slot>, msgid: int): (i: nat)
    ensures i <= |slots|
    ensures i < |slots| ==> slots[i].state == DaemonBusy && slots[i].msgid == msgid
    ensures forall k :: 0 <= k < i ==> !(slots[k].state == DaemonBusy && slots[k].msgid == msgid)
  {
    if slots == [] || (slots[0].state == DaemonBusy && slots[0].msgid == msgid) then 0
    else 1 + FindBusy(slots[1..], msgid)
  }

  /** Index of the first queued task with that msgid, or the queue length. */
  function FindTask(inq: seq<Task>, msgid: int): (i: nat)
    ensures i <= |inq|
    ensures i < |inq| ==> inq[i].msgid == msgid
    ensures forall k :: 0 <= k < i ==> inq[k].msgid != msgid
  {
    if inq == [] || inq[0].msgid == msgid then 0 else 1 + FindTask(inq[1..], msgid)
  }

  /** The last slot takes the place of slot i. */
  function PopSwap(slots: seq<Slot>, i: nat): (r: seq<Slot>)
    requires i < |slots|
    ensures |r| == |slots| - 1
    ensures forall k :: 0 <= k < |r| ==> r[k] == if k == i then slots[|slots| - 1] else slots[k]
  {
    slots[i := slots[|slots| - 1]][..|slots| - 1]
  }

  function InsertDaemon(s: State, pipe: int, ds: Sender): State {
    s.(capacity := if |s.slots| >= s.capacity then s.capacity * 2 else s.capacity,
       slots := s.slots + [Slot(pipe, DaemonInit, 0, s.gen - 1, 0, ds)])
  }

  function RemoveDaemon(s: State, i: nat): State
    requires i < |s.slots|
  {
    s.(retired := [s.slots[i].ds] + s.retired,
       outqCount := if s.slots[i].state != DaemonInit then s.outqCount - 1 else s.outqCount,
       slots := PopSwap(s.slots, i))
  }

  /** The slot of a daemon that is leaving is taken away; a busy one stops executing. */
  function TakeSlot(s: State, i: nat): State
    requires i < |s.slots|
  {
    RemoveDaemon(s, i).(executing := if s.slots[i].state == DaemonBusy then s.executing - 1 else s.executing)
  }

  /** A daemon has finished initialization. */
  function ReadySlot(s: State, i: nat): State
    requires i < |s.slots|
  {
    s.(slots := s.slots[i := s.slots[i].(state := DaemonIdle)],
       connections := s.connections + 1, outqCount := s.outqCount + 1)
  }

  /** A daemon has finished its task. */
  function FinishSlot(s: State, i: nat): State
    requires i < |s.slots|
  {
    s.(slots := s.slots[i := s.slots[i].(state := DaemonIdle, msgid := 0)], executing := s.executing - 1)
  }

  // ----- tasks

  function Enqueue(s: State, t: Task): State {
    s.(inq := s.inq + [t], inqCount := s.inqCount + 1, queuedBytes := s.queuedBytes + t.len,
       peakBytes := if s.queuedBytes + t.len > s.peakBytes then s.queuedBytes + t.len else s.peakBytes)
  }

  function AssignTask(s: State, i: nat, t: Task): State
    requires i < |s.slots|
  {
    s.(slots := s.slots[i := s.slots[i].(ctx := t.ctx, msgid := t.msgid, state := DaemonBusy,
                                         syncGen := if t.isSync then s.gen else s.slots[i].syncGen)],
       executing := s.executing + 1,
       syncing := t.isSync,
       gen := if !t.isSync && s.syncing then s.gen + 1 else s.gen,
       h := s.h.(given := s.h.given
                 + [Assignment(s.slots[i].pipe, t.ctx, t.isSync, s.gen, !t.isSync && s.syncing)]))
  }

  function Dequeue(s: State): State
    requires s.inq != []
  {
    s.(inq := s.inq[1..], inqCount := s.inqCount - 1, queuedBytes := s.queuedBytes - s.inq[0].len)
  }

  /** Hand queued tasks to eligible daemons, oldest first, until one or the other runs out. */
  function Drain(s: State): State
    decreases |s.inq|
  {
    if s.inq == [] then s else
    var i := FindIdle(s.slots, s.syncing, s.gen);
    if i == |s.slots| then s else Drain(AssignTask(Dequeue(s), i, s.inq[0]))
  }

  // ----- replies, signals, senders

  /** The holders whose sends are done, and those that are still busy, in list order. */
  function Select(active: seq<Ctx>, busy: set<Ctx>, keepBusy: bool): seq<Ctx> {
    if active == [] then []
    else (if (active[0] in busy) == keepBusy then [active[0]] else []) + Select(active[1..], busy, keepBusy)
  }

  function Close(s: State, ctxs: seq<Ctx>): State {
    s.(h := s.h.(closed := s.h.closed + ctxs))
  }

  /** Close the contexts of finished holders, then hold the new one. `busy` are the contexts
      whose sends have not finished. */
  function ReplySend(s: State, ctx: Ctx, busy: set<Ctx>): State {
    var done := Select(s.active, busy, false);
    var free := s.free + |done|;
    Close(s.(active := [ctx] + Select(s.active, busy, true), free := if free > 0 then free - 1 else 0,
             h := s.h.(sent := s.h.sent + [ctx])), done)
  }

  function NoteReply(s: State, pipe: int, ctx: Ctx): State {
    s.(h := s.h.(replies := s.h.replies + [Reply(pipe, ctx)]))
  }

  function TakeInHand(s: State, ctx: Ctx, stopped: bool): State {
    s.(h := s.h.(inHand := s.h.inHand + [InHand(ctx, stopped)],
                 late := if s.stopped then s.h.late + {ctx} else s.h.late))
  }

  function LetGo(s: State, at: nat): State
    requires at < |s.h.inHand|
  {
    s.(h := s.h.(inHand := s.h.inHand[..at] + s.h.inHand[at + 1..]))
  }

  /** Take task i out of the queue. */
  function Unqueue(s: State, i: nat): State
    requires i < |s.inq|
  {
    s.(inq := s.inq[..i] + s.inq[i + 1..], inqCount := s.inqCount - 1, queuedBytes := s.queuedBytes - s.inq[i].len,
       h := s.h.(cancelled := s.h.cancelled + {s.inq[i].ctx}))
  }

  function SendSignal(s: State, pipe: int): State {
    s.(sigActive := true, h := s.h.(signalled := s.h.signalled + [pipe]))
  }

  function QueueSignal(s: State, pipe: int): State {
    if s.stopped then s
    else if !s.sigActive then SendSignal(s, pipe)
    else s.(sigQueue := s.sigQueue + [pipe])
  }

  /** May this retired sender be freed? `busy` are the senders with a task send in flight. */
  predicate Reapable(ds: Sender, sending: set<Sender>, busy: set<Sender>) {
    ds !in sending && ds !in busy
  }

  function SelectSenders(retired: seq<Sender>, sending: set<Sender>, busy: set<Sender>, reap: bool): seq<Sender> {
    if retired == [] then []
    else (if Reapable(retired[0], sending, busy) == reap then [retired[0]] else [])
         + SelectSenders(retired[1..], sending, busy, reap)
  }

  function ReapRetired(s: State, busy: set<Sender>): State {
    s.(retired := SelectSenders(s.retired, s.sending, busy, false),
       h := s.h.(freed := s.h.freed + SelectSenders(s.retired, s.sending, busy, true)))
  }

  // ----- events

  datatype Event =
    | Connect(pipe: int, id: nat)
    | InitDone(ds: Sender, ok: bool)
    | HostRecv(msgid: int, isSync: bool, len: nat, nextCtx: Ctx)
    | DaemonRecv(pipe: int, marker: bool, busy: set<Ctx>)
    | DisconnectTake(pipe: int)
    | DisconnectReply(at: nat, busy: set<Ctx>)
    | Reap(busySenders: set<Sender>)
    | Cancel(msgid: int)
    | SignalDone
    | Stop

  /** What the environment promises: pipes connect once, contexts and senders are new, and
      callbacks come for operations that were started. */
  predicate Enabled(s: State, e: Event) {
    match e
    case Connect(pipe, id) => pipe !in s.h.pipes && forall x :: x in s.h.senders ==> x.id != id
    case InitDone(ds, ok) => ds in s.sending
    case HostRecv(_, _, _, nextCtx) => nextCtx !in s.h.accepted && nextCtx != s.hostCtx
    case DisconnectReply(at, _) => at < |s.h.inHand|
    case SignalDone => s.sigActive
    case _ => true
  }

  /** A sender and a slot for a new pipe; nothing once the dispatcher has stopped. */
  function HandleConnect(s: State, pipe: int, id: nat): State {
    var ds := Sender(id, pipe);
    var s := s.(h := s.h.(pipes := s.h.pipes + {pipe}, senders := s.h.senders + [ds]));
    if s.stopped then s.(h := s.h.(freed := s.h.freed + [ds]))
    else InsertDaemon(s, pipe, ds).(sending := s.sending + {ds})
  }

  function HandleInit(s: State, ds: Sender, ok: bool): State {
    var s := s.(sending := s.sending - {ds});
    var i := FindDaemon(s.slots, ds.pipe);
    if ok && i < |s.slots| && s.slots[i].ds == ds && s.slots[i].state == DaemonInit then
      if s.stopped then ReadySlot(s, i) else Drain(ReadySlot(s, i))
    else s
  }

  function HandleHostRecv(s: State, msgid: int, isSync: bool, len: nat, nextCtx: Ctx): State {
    if s.stopped then s else
    var t := Task(s.hostCtx, msgid, isSync, len);
    var s := s.(count := s.count + 1, hostCtx := nextCtx,
                h := s.h.(accepted := s.h.accepted + [s.hostCtx], asked := s.h.asked[s.hostCtx := t]));
    var i := FindIdle(s.slots, s.syncing, s.gen);
    if i < |s.slots| then AssignTask(s, i, t) else Enqueue(s, t)
  }

  function HandleDaemonRecv(s: State, pipe: int, marker: bool, busy: set<Ctx>): State {
    var i := FindDaemon(s.slots, pipe);
    if !s.stopped && i < |s.slots| && s.slots[i].state == DaemonBusy then
      var ctx := s.slots[i].ctx;
      var s := NoteReply(s, pipe, ctx);
      var s := if marker then QueueSignal(TakeSlot(s, i), pipe) else Drain(FinishSlot(s, i));
      ReplySend(s, ctx, busy)
    else s
  }

  /** First region of a disconnect: the slot goes, and a busy slot's context is taken in hand. */
  function HandleDisconnectTake(s: State, pipe: int): State {
    var i := FindDaemon(s.slots, pipe);
    if i == |s.slots| then s
    else if s.slots[i].state == DaemonBusy then TakeInHand(TakeSlot(s, i), s.slots[i].ctx, s.stopped)
    else TakeSlot(s, i)
  }

  /** Second region: the context is closed if the dispatcher had stopped, or answered with
      the connection-reset reply. */
  function HandleDisconnectReply(s: State, at: nat, busy: set<Ctx>): State
    requires at < |s.h.inHand|
  {
    var x := s.h.inHand[at];
    if x.stopped then Close(LetGo(s, at), [x.ctx]) else ReplySend(LetGo(s, at), x.ctx, busy)
  }

  /** Signal the daemon that works on msgid, or else take the task off the queue. */
  function HandleCancel(s: State, msgid: int): State {
    var i := FindBusy(s.slots, msgid);
    if i < |s.slots| then QueueSignal(s, s.slots[i].pipe) else CancelQueued(s, msgid)
  }

  function CancelQueued(s: State, msgid: int): State {
    var i := FindTask(s.inq, msgid);
    if i == |s.inq| then s else Close(Unqueue(s, i), [s.inq[i].ctx])
  }

  function HandleSignalDone(s: State): State {
    if !s.stopped && s.sigQueue != [] then SendSignal(s.(sigQueue := s.sigQueue[1..]), s.sigQueue[0])
    else s.(sigActive := false)
  }

  function Apply(s: State, e: Event): State
    requires Enabled(s, e)
  {
    match e
    case Connect(pipe, id) => HandleConnect(s, pipe, id)
    case InitDone(ds, ok) => HandleInit(s, ds, ok)
    case HostRecv(msgid, isSync, len, nextCtx) => HandleHostRecv(s, msgid, isSync, len, nextCtx)
    case DaemonRecv(pipe, marker, busy) => HandleDaemonRecv(s, pipe, marker, busy)
    case DisconnectTake(pipe) => HandleDisconnectTake(s, pipe)
    case DisconnectReply(at, busy) => HandleDisconnectReply(s, at, busy)
    case Reap(busy) => ReapRetired(s, busy)
    case Cancel(msgid) => HandleCancel(s, msgid)
    case SignalDone => HandleSignalDone(s)
    case Stop => s.(stopped := true)
  }

  /** A run: events that the environment may bring about one after the other. */
  predicate Legal(s: State, run: seq<Event>)
    decreases run
  {
    run == [] || (Enabled(s, run[0]) && Legal(Apply(s, run[0]), run[1..]))
  }

  function After(s: State, run: seq<Event>): State
    requires Legal(s, run)
    decreases run
  {
    if run == [] then s else After(Apply(s, run[0]), run[1..])
  }
}
