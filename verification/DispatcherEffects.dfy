/** What the events do to the slots, the signals and the requests, told by what can be seen
    of the dispatcher before and after them. */
module DispatcherEffects {
  import opened DispatcherModel
  import opened DispatcherInvariants
  import opened DispatcherProofs
  import opened DispatcherTheorems

  // ----- daemons come and go

  ghost predicate HasSlot(s: State, pipe: int) {
    exists i :: 0 <= i < |s.slots| && s.slots[i].pipe == pipe
  }

  ghost predicate Works(s: State, pipe: int) {
    exists i :: 0 <= i < |s.slots| && s.slots[i].pipe == pipe && s.slots[i].state == DaemonBusy
  }

  /** A pipe gets a slot when it connects to a running dispatcher. */
  predicate Joins(s: State, e: Event, pipe: int) {
    match e
    case Connect(p, _) => p == pipe && !s.stopped
    case _ => false
  }

  /** It loses it when it disconnects, or when its daemon marks a reply as the last one. */
  ghost predicate Leaves(s: State, e: Event, pipe: int) {
    match e
    case DisconnectTake(p) => p == pipe
    case DaemonRecv(p, marker, _) => p == pipe && marker && !s.stopped && Works(s, pipe)
    case _ => false
  }

  /** The same pipes in the same places, and what is not idle is as it was. */
  ghost predicate SamePipes(p: seq<Slot>, q: seq<Slot>) {
    && |q| == |p| && (forall i :: 0 <= i < |p| ==> q[i].pipe == p[i].pipe && q[i].ds == p[i].ds)
    && (forall i :: 0 <= i < |p| && p[i].state != DaemonIdle ==> q[i] == p[i])
  }

  lemma {:induction false} DrainSlots(s: State)
    ensures SamePipes(s.slots, Drain(s).slots)
    decreases |s.inq|
  {
    if s.inq != [] {
      var i := FindIdle(s.slots, s.syncing, s.gen);
      if i < |s.slots| {
        DrainSlots(Give(s, i));
      }
    }
  }

  lemma {:induction false} SameHave(s: State, t: State, pipe: int)
    requires |t.slots| == |s.slots| && forall i :: 0 <= i < |s.slots| ==> t.slots[i].pipe == s.slots[i].pipe
    ensures HasSlot(t, pipe) <==> HasSlot(s, pipe)
  {
    if i :| 0 <= i < |s.slots| && s.slots[i].pipe == pipe { assert t.slots[i].pipe == pipe; }
    if i :| 0 <= i < |t.slots| && t.slots[i].pipe == pipe { assert s.slots[i].pipe == pipe; }
  }

  /** Taking slot i away leaves exactly the slots of the other pipes. */
  lemma {:induction false} TakenGone(s: State, i: nat)
    requires SlotsOk(s) && i < |s.slots|
    ensures forall x :: x in TakeSlot(s, i).slots <==> x in s.slots && x.pipe != s.slots[i].pipe
  {
    var t := TakeSlot(s, i);
    forall x | x in s.slots && x.pipe != s.slots[i].pipe ensures x in t.slots {
      var k :| 0 <= k < |s.slots| && s.slots[k] == x;
      assert if k == |s.slots| - 1 then t.slots[i] == x else t.slots[k] == x;
    }
    forall x | x in t.slots ensures x in s.slots && x.pipe != s.slots[i].pipe {
      var k :| 0 <= k < |t.slots| && t.slots[k] == x;
      assert x == if k == i then s.slots[|s.slots| - 1] else s.slots[k];
    }
  }

  lemma {:induction false} TakenHave(s: State, t: State, i: nat, pipe: int)
    requires SlotsOk(s) && i < |s.slots| && t.slots == TakeSlot(s, i).slots
    ensures HasSlot(t, pipe) <==> HasSlot(s, pipe) && pipe != s.slots[i].pipe
  {
    TakenGone(s, i);
    if k :| 0 <= k < |s.slots| && s.slots[k].pipe == pipe && pipe != s.slots[i].pipe {
      assert s.slots[k] in t.slots;
    }
    if k :| 0 <= k < |t.slots| && t.slots[k].pipe == pipe { assert t.slots[k] in s.slots; }
  }

  lemma {:induction false} SlotIndex(s: State, pipe: int)
    requires SlotsOk(s)
    ensures HasSlot(s, pipe) <==> FindDaemon(s.slots, pipe) < |s.slots|
    ensures Works(s, pipe) <==> FindDaemon(s.slots, pipe) < |s.slots|
                                && s.slots[FindDaemon(s.slots, pipe)].state == DaemonBusy
  {
    var i := FindDaemon(s.slots, pipe);
    if k :| 0 <= k < |s.slots| && s.slots[k].pipe == pipe {
      OneSlotPerPipe(s, i, k);
    }
  }

  lemma {:induction false} ConnectSlots(s: State, p: int, id: nat, pipe: int)
    ensures HasSlot(HandleConnect(s, p, id), pipe) <==> HasSlot(s, pipe) || (p == pipe && !s.stopped)
  {
    var t := HandleConnect(s, p, id);
    if !s.stopped {
      assert t.slots[|s.slots|].pipe == p;
      if i :| 0 <= i < |s.slots| && s.slots[i].pipe == pipe { assert t.slots[i].pipe == pipe; }
    }
  }

  lemma {:induction false} InitSlots(s: State, ds: Sender, ok: bool, pipe: int)
    ensures HasSlot(HandleInit(s, ds, ok), pipe) <==> HasSlot(s, pipe)
  {
    var i := FindDaemon(s.slots, ds.pipe);
    if i < |s.slots| { DrainSlots(ReadySlot(s.(sending := s.sending - {ds}), i)); }
    SameHave(s, HandleInit(s, ds, ok), pipe);
  }

  lemma {:induction false} RecvSlots(s: State, p: int, marker: bool, busy: set<Ctx>, pipe: int)
    requires SlotsOk(s)
    ensures HasSlot(HandleDaemonRecv(s, p, marker, busy), pipe)
       <==> HasSlot(s, pipe) && !(p == pipe && marker && !s.stopped && Works(s, pipe))
  {
    hide SlotsOk;
    SlotIndex(s, p);
    var i := FindDaemon(s.slots, p);
    var t := HandleDaemonRecv(s, p, marker, busy);
    if !s.stopped && Works(s, p) {
      var n := NoteReply(s, p, s.slots[i].ctx);
      if marker {
        TakenHave(s, t, i, pipe);
      } else {
        DrainSlots(FinishSlot(n, i));
        SameHave(s, t, pipe);
      }
    }
  }

  lemma {:induction false} DisconnectSlots(s: State, p: int, pipe: int)
    requires SlotsOk(s)
    ensures HasSlot(HandleDisconnectTake(s, p), pipe) <==> HasSlot(s, pipe) && p != pipe
  {
    hide SlotsOk;
    SlotIndex(s, p);
    var i := FindDaemon(s.slots, p);
    if i < |s.slots| { TakenHave(s, HandleDisconnectTake(s, p), i, pipe); }
  }

  lemma {:induction false} OtherSlots(s: State, e: Event, pipe: int)
    requires Enabled(s, e) && (e.HostRecv? || e.DisconnectReply? || e.Reap? || e.Cancel? || e.SignalDone? || e.Stop?)
    ensures HasSlot(Apply(s, e), pipe) <==> HasSlot(s, pipe)
  {
    hide HasSlot;
    SameHave(s, Apply(s, e), pipe);
  }

  lemma {:induction false} InvSlots(s: State)
    requires Inv(s)
    ensures SlotsOk(s) && SignalsOk(s)
  {
  }

  /** Which pipes have a slot after an event. */
  lemma {:induction false} SlotsComeAndGo(s: State, e: Event, pipe: int)
    requires Inv(s) && Enabled(s, e)
    ensures HasSlot(Apply(s, e), pipe) <==> (HasSlot(s, pipe) || Joins(s, e, pipe)) && !Leaves(s, e, pipe)
  {
    hide Inv, SlotsOk, SignalsOk, HasSlot, Works, HandleConnect, HandleInit, HandleHostRecv, HandleDaemonRecv,
      HandleDisconnectTake, HandleDisconnectReply, HandleCancel, HandleSignalDone, ReapRetired;
    InvSlots(s);
    match e
    case Connect(p, id) => ConnectSlots(s, p, id, pipe);
    case InitDone(ds, ok) => InitSlots(s, ds, ok, pipe);
    case DaemonRecv(p, marker, busy) => RecvSlots(s, p, marker, busy, pipe);
    case DisconnectTake(p) => DisconnectSlots(s, p, pipe);
    case _ => OtherSlots(s, e, pipe);
  }

  lemma {:induction false} LeavesTaken(s: State, e: Event, pipe: int)
    requires SlotsOk(s) && Enabled(s, e) && Leaves(s, e, pipe)
    ensures Apply(s, e).slots
         == if HasSlot(s, pipe) then TakeSlot(s, FindDaemon(s.slots, pipe)).slots else s.slots
  {
    hide SlotsOk, Drain;
    SlotIndex(s, pipe);
  }

  /** When a pipe leaves, every other daemon goes on as it was. */
  lemma {:induction false} OthersStay(s: State, e: Event, pipe: int, x: Slot)
    requires Inv(s) && Enabled(s, e) && Leaves(s, e, pipe) && x in s.slots && x.pipe != pipe
    ensures x in Apply(s, e).slots
  {
    hide Inv, HasSlot, TakeSlot;
    InvSlots(s);
    SlotIndex(s, pipe);
    LeavesTaken(s, e, pipe);
    if HasSlot(s, pipe) {
      TakenGone(s, FindDaemon(s.slots, pipe));
    }
  }

  /** A daemon whose initialization succeeds is past it; whether it stays idle is up to the
      queue. */
  lemma {:induction false} InitMakesLive(s: State, ds: Sender, k: nat)
    requires Inv(s) && ds in s.sending && k < |s.slots| && s.slots[k].ds == ds && s.slots[k].state == DaemonInit
    ensures var t := Apply(s, InitDone(ds, true));
      && k < |t.slots| && t.slots[k].pipe == ds.pipe && t.slots[k].state != DaemonInit
      && t.connections == s.connections + 1 && ds !in t.sending
  {
    assert SlotsOk(s);
    var u := s.(sending := s.sending - {ds});
    OneSlotPerPipe(s, FindDaemon(s.slots, ds.pipe), k);
    DrainSlots(ReadySlot(u, k));
    DrainLive(ReadySlot(u, k));
  }

  lemma {:induction false} DrainLive(s: State)
    ensures |Drain(s).slots| == |s.slots| && Drain(s).connections == s.connections && Drain(s).sending == s.sending
    ensures forall i :: 0 <= i < |s.slots| && s.slots[i].state != DaemonInit ==> Drain(s).slots[i].state != DaemonInit
    decreases |s.inq|
  {
    if s.inq != [] {
      var i := FindIdle(s.slots, s.syncing, s.gen);
      if i < |s.slots| {
        DrainLive(Give(s, i));
      }
    }
  }

  /** A disconnect takes the context of a busy daemon in hand, with what it saw of the stop. */
  lemma {:induction false} DisconnectTakesContext(s: State, k: nat)
    requires Inv(s) && k < |s.slots|
    ensures var t := Apply(s, DisconnectTake(s.slots[k].pipe));
      t.h.inHand == s.h.inHand
                    + if s.slots[k].state == DaemonBusy then [InHand(s.slots[k].ctx, s.stopped)] else []
  {
    hide Core;
    InvSlots(s);
    OneSlotPerPipe(s, FindDaemon(s.slots, s.slots[k].pipe), k);
  }

  // ----- senders

  lemma {:induction false} SelectSendersMembers(retired: seq<Sender>, sending: set<Sender>, busy: set<Sender>,
                                                reap: bool)
    ensures forall x :: x in SelectSenders(retired, sending, busy, reap)
                        <==> x in retired && (reap <==> x !in sending && x !in busy)
  {
    if retired != [] {
      SelectSendersMembers(retired[1..], sending, busy, reap);
    }
  }

  /** A pass over the retired senders frees exactly those with no send in flight. */
  lemma {:induction false} ReapFreesFinished(s: State, busy: set<Sender>, x: Sender)
    requires Inv(s) && x in s.retired
    ensures var t := Apply(s, Reap(busy));
      if x in s.sending || x in busy then x in t.retired && x !in t.h.freed else x !in t.retired && x in t.h.freed
  {
    hide Inv, SelectSenders;
    SelectSendersMembers(s.retired, s.sending, busy, true);
    SelectSendersMembers(s.retired, s.sending, busy, false);
    RetiredNotFreed(s, x);
  }

  lemma {:induction false} RetiredNotFreed(s: State, x: Sender)
    requires Inv(s) && x in s.retired
    ensures x !in s.h.freed
  {
    assert multiset(s.retired)[x] + multiset(s.h.freed)[x] <= 1;
  }

  lemma {:induction false} DrainFrees(s: State)
    ensures Drain(s).h.freed == s.h.freed && Drain(s).retired == s.retired
    decreases |s.inq|
  {
    if s.inq != [] {
      var i := FindIdle(s.slots, s.syncing, s.gen);
      if i < |s.slots| {
        DrainFrees(Give(s, i));
      }
    }
  }

  /** Apart from that pass and a connection after the stop, nothing frees a sender. */
  lemma {:induction false} OnlyReapFrees(s: State, e: Event)
    requires Enabled(s, e) && !e.Reap? && !(e.Connect? && s.stopped)
    ensures Apply(s, e).h.freed == s.h.freed
  {
    hide Drain, FindDaemon, Select, PopSwap, FindIdle;
    match e
    case InitDone(ds, ok) =>
      var u := s.(sending := s.sending - {ds});
      var i := FindDaemon(u.slots, ds.pipe);
      if i < |u.slots| { DrainFrees(ReadySlot(u, i)); }
    case DaemonRecv(pipe, marker, busy) =>
      var i := FindDaemon(s.slots, pipe);
      if i < |s.slots| { DrainFrees(FinishSlot(NoteReply(s, pipe, s.slots[i].ctx), i)); }
    case _ =>
  }

  // ----- signals

  /** Signals sent and signals waiting, in order. */
  function Signals(s: State): seq<int> {
    s.h.signalled + s.sigQueue
  }

  lemma {:induction false} QueueAppends(s: State, pipe: int)
    requires SignalsOk(s)
    ensures Signals(QueueSignal(s, pipe)) == Signals(s) + if s.stopped then [] else [pipe]
  {
    assert s.h.signalled + (s.sigQueue + [pipe]) == Signals(s) + [pipe];
    assert Signals(s) + [] == Signals(s);
  }

  /** Cancelling a request that a daemon works on signals that daemon, if the dispatcher still
      runs, and does nothing else. */
  lemma {:induction false} CancelSignals(s: State, msgid: int, k: nat)
    requires Inv(s)
    requires k < |s.slots| && s.slots[k].state == DaemonBusy && s.slots[k].msgid == msgid
    requires forall j :: 0 <= j < k ==> !(s.slots[j].state == DaemonBusy && s.slots[j].msgid == msgid)
    ensures var t := Apply(s, Event.Cancel(msgid));
      && Signals(t) == Signals(s) + (if s.stopped then [] else [s.slots[k].pipe])
      && t.slots == s.slots && t.inq == s.inq && t.active == s.active && t.h.closed == s.h.closed
      && t.h.cancelled == s.h.cancelled
  {
    hide Core;
    InvSlots(s);
    QueueAppends(s, s.slots[k].pipe);
  }

  /** A request that no daemon works on is taken from the queue, the oldest one with that id;
      nothing is signalled. */
  lemma {:induction false} CancelTakesOldest(s: State, msgid: int, k: nat)
    requires forall j :: 0 <= j < |s.slots| ==> !(s.slots[j].state == DaemonBusy && s.slots[j].msgid == msgid)
    requires k < |s.inq| && s.inq[k].msgid == msgid && forall j :: 0 <= j < k ==> s.inq[j].msgid != msgid
    ensures var t := Apply(s, Event.Cancel(msgid));
      && t.inq == s.inq[..k] + s.inq[k + 1..] && t.h.closed == s.h.closed + [s.inq[k].ctx]
      && t.h.cancelled == s.h.cancelled + {s.inq[k].ctx} && Signals(t) == Signals(s) && t.slots == s.slots
  {
    assert FindTask(s.inq, msgid) == k && FindBusy(s.slots, msgid) == |s.slots|;
  }

  /** With no request of that id anywhere, nothing happens. */
  lemma {:induction false} CancelFindsNone(s: State, msgid: int)
    requires forall j :: 0 <= j < |s.slots| ==> !(s.slots[j].state == DaemonBusy && s.slots[j].msgid == msgid)
    requires forall j :: 0 <= j < |s.inq| ==> s.inq[j].msgid != msgid
    ensures Apply(s, Event.Cancel(msgid)) == s
  {
  }

  lemma {:induction false} DrainSignals(s: State)
    ensures Signals(Drain(s)) == Signals(s) && Drain(s).sigActive == s.sigActive
    decreases |s.inq|
  {
    if s.inq != [] {
      var i := FindIdle(s.slots, s.syncing, s.gen);
      if i < |s.slots| {
        DrainSignals(Give(s, i));
      }
    }
  }

  /** The daemon of a last reply is signalled; any other reply signals nobody. */
  lemma {:induction false} LastReplySignals(s: State, pipe: int, marker: bool, busy: set<Ctx>)
    requires Inv(s)
    ensures var t := Apply(s, DaemonRecv(pipe, marker, busy));
      Signals(t) == Signals(s) + if marker && !s.stopped && Works(s, pipe) then [pipe] else []
  {
    hide SlotsOk, Works;
    SlotIndex(s, pipe);
    var i := FindDaemon(s.slots, pipe);
    assert Signals(s) + [] == Signals(s);
    if !s.stopped && Works(s, pipe) {
      var n := NoteReply(s, pipe, s.slots[i].ctx);
      QueueAppends(TakeSlot(n, i), pipe);
      DrainSignals(FinishSlot(n, i));
    }
  }

  /** When a signal has been sent, the next waiting one is; the order stays. */
  lemma {:induction false} SignalDoneSendsNext(s: State)
    requires s.sigActive
    ensures var t := Apply(s, SignalDone);
      && Signals(t) == Signals(s)
      && if !s.stopped && s.sigQueue != [] then t.h.signalled == s.h.signalled + [s.sigQueue[0]] && t.sigActive
         else !t.sigActive
  {
    if s.sigQueue != [] {
      assert s.h.signalled + [s.sigQueue[0]] + s.sigQueue[1..] == Signals(s) by {
        assert s.sigQueue == [s.sigQueue[0]] + s.sigQueue[1..];
      }
    }
  }

  lemma {:induction false} InitSignals(s: State, ds: Sender, ok: bool)
    ensures Signals(HandleInit(s, ds, ok)) == Signals(s)
  {
    var u := s.(sending := s.sending - {ds});
    var i := FindDaemon(u.slots, ds.pipe);
    if i < |u.slots| { DrainSignals(ReadySlot(u, i)); }
  }

  /** No other event signals a daemon. */
  lemma {:induction false} OthersSignalNobody(s: State, e: Event)
    requires Enabled(s, e) && !e.Cancel? && !e.DaemonRecv? && !e.SignalDone?
    ensures Signals(Apply(s, e)) == Signals(s)
  {
    hide Drain, FindDaemon, Select, SelectSenders, PopSwap, FindIdle;
    if e.InitDone? { InitSignals(s, e.ds, e.ok); }
  }

  // ----- requests are handed on as they came

  ghost predicate RequestsKept(inq: seq<Task>, slots: seq<Slot>, h: History) {
    && (forall c :: c in h.asked <==> c in h.accepted)
    && (forall c :: c in h.asked ==> h.asked[c].ctx == c)
    && (forall i :: 0 <= i < |inq| ==> inq[i].ctx in h.asked && h.asked[inq[i].ctx] == inq[i])
    && (forall i :: 0 <= i < |slots| && slots[i].state == DaemonBusy ==>
          slots[i].ctx in h.asked && h.asked[slots[i].ctx].msgid == slots[i].msgid)
    && (forall k :: 0 <= k < |h.given| ==>
          h.given[k].ctx in h.asked && h.asked[h.given[k].ctx].isSync == h.given[k].isSync)
  }

  ghost predicate Requests(s: State) {
    RequestsKept(s.inq, s.slots, s.h)
  }

  lemma {:induction false} GiveRequests(s: State, i: nat)
    requires Requests(s) && s.inq != [] && i < |s.slots|
    ensures Requests(Give(s, i))
  {
    var t := Give(s, i);
    assert s.inq[0].ctx in s.h.asked;
    forall k | 0 <= k < |t.inq| ensures t.inq[k] == s.inq[k + 1] {
    }
  }

  lemma {:induction false} DrainRequests(s: State)
    requires Requests(s)
    ensures Requests(Drain(s))
    decreases |s.inq|
  {
    hide RequestsKept;
    if s.inq != [] {
      var i := FindIdle(s.slots, s.syncing, s.gen);
      if i < |s.slots| {
        GiveRequests(s, i);
        DrainRequests(Give(s, i));
      }
    }
  }

  lemma {:induction false} AcceptRequests(s: State, t: Task, next: Ctx)
    requires Requests(s) && s.hostCtx !in s.h.accepted && t.ctx == s.hostCtx
    ensures Requests(Enqueue(Accept(s, t, next), t))
  {
  }

  lemma {:induction false} InvHost(s: State)
    requires Inv(s)
    ensures s.hostCtx !in s.h.accepted
  {
  }

  lemma {:induction false} HostRecvRequests(s: State, msgid: int, isSync: bool, len: nat, next: Ctx)
    requires Inv(s) && Requests(s)
    ensures Requests(HandleHostRecv(s, msgid, isSync, len, next))
  {
    hide RequestsKept, Core;
    if !s.stopped {
      var t := Task(s.hostCtx, msgid, isSync, len);
      InvHost(s);
      AcceptRequests(s, t, next);
      var i := FindIdle(s.slots, s.syncing, s.gen);
      if i < |s.slots| {
        assert s.inq == [];
        DirectAssign(Accept(s, t, next), t, i);
        GiveRequests(Enqueue(Accept(s, t, next), t), i);
      }
    }
  }

  /** Fewer tasks and fewer or idler slots. */
  lemma {:induction false} FewerRequests(s: State, t: State)
    requires Requests(s) && t.h.asked == s.h.asked && t.h.accepted == s.h.accepted && t.h.given == s.h.given
    requires forall i :: 0 <= i < |t.inq| ==> t.inq[i] in s.inq
    requires forall i :: 0 <= i < |t.slots| && t.slots[i].state == DaemonBusy ==> t.slots[i] in s.slots
    ensures Requests(t)
  {
    forall i | 0 <= i < |t.inq| ensures t.inq[i].ctx in t.h.asked && t.h.asked[t.inq[i].ctx] == t.inq[i] {
      var k :| 0 <= k < |s.inq| && s.inq[k] == t.inq[i];
    }
    forall i | 0 <= i < |t.slots| && t.slots[i].state == DaemonBusy
      ensures t.slots[i].ctx in t.h.asked && t.h.asked[t.slots[i].ctx].msgid == t.slots[i].msgid
    {
      var k :| 0 <= k < |s.slots| && s.slots[k] == t.slots[i];
    }
  }

  lemma {:induction false} RecvRequests(s: State, pipe: int, marker: bool, busy: set<Ctx>)
    requires Requests(s)
    ensures Requests(HandleDaemonRecv(s, pipe, marker, busy))
  {
    hide RequestsKept;
    var i := FindDaemon(s.slots, pipe);
    if !s.stopped && i < |s.slots| && s.slots[i].state == DaemonBusy {
      var n := NoteReply(s, pipe, s.slots[i].ctx);
      if marker {
        FewerRequests(s, HandleDaemonRecv(s, pipe, marker, busy));
      } else {
        FewerRequests(s, FinishSlot(n, i));
        DrainRequests(FinishSlot(n, i));
        FewerRequests(Drain(FinishSlot(n, i)), HandleDaemonRecv(s, pipe, marker, busy));
      }
    }
  }

  lemma {:induction false} InitRequests(s: State, ds: Sender, ok: bool)
    requires Requests(s)
    ensures Requests(HandleInit(s, ds, ok))
  {
    hide RequestsKept;
    var u := s.(sending := s.sending - {ds});
    var i := FindDaemon(u.slots, ds.pipe);
    FewerRequests(s, u);
    if i < |u.slots| && u.slots[i].state == DaemonInit {
      FewerRequests(u, ReadySlot(u, i));
      DrainRequests(ReadySlot(u, i));
    }
  }

  lemma {:induction false} LeaveRequests(s: State, pipe: int)
    requires Requests(s)
    ensures Requests(HandleDisconnectTake(s, pipe))
  {
    hide RequestsKept;
    var i := FindDaemon(s.slots, pipe);
    if i < |s.slots| {
      FewerRequests(s, TakeSlot(s, i));
      FewerRequests(TakeSlot(s, i), HandleDisconnectTake(s, pipe));
    }
  }

  lemma {:induction false} CancelRequests(s: State, msgid: int)
    requires Requests(s)
    ensures Requests(HandleCancel(s, msgid))
  {
    hide RequestsKept;
    FewerRequests(s, HandleCancel(s, msgid));
  }

  lemma {:induction false} ConnectRequests(s: State, pipe: int, id: nat)
    requires Requests(s)
    ensures Requests(HandleConnect(s, pipe, id))
  {
    hide RequestsKept;
    FewerRequests(s, HandleConnect(s, pipe, id));
  }

  lemma {:induction false} OtherRequests(s: State, e: Event)
    requires Requests(s) && Enabled(s, e) && (e.DisconnectReply? || e.Reap? || e.SignalDone? || e.Stop?)
    ensures Requests(Apply(s, e))
  {
    hide RequestsKept, Drain, Select, SelectSenders, FindDaemon, FindIdle;
    FewerRequests(s, Apply(s, e));
  }

  lemma {:induction false} ApplyRequests(s: State, e: Event)
    requires Inv(s) && Requests(s) && Enabled(s, e)
    ensures Requests(Apply(s, e))
  {
    hide Inv, Requests, HandleConnect, HandleInit, HandleHostRecv, HandleDaemonRecv, HandleDisconnectTake,
      HandleDisconnectReply, HandleCancel, HandleSignalDone, ReapRetired;
    match e
    case InitDone(ds, ok) => InitRequests(s, ds, ok);
    case HostRecv(msgid, isSync, len, next) => HostRecvRequests(s, msgid, isSync, len, next);
    case DaemonRecv(pipe, marker, busy) => RecvRequests(s, pipe, marker, busy);
    case Connect(pipe, id) => ConnectRequests(s, pipe, id);
    case DisconnectTake(pipe) => LeaveRequests(s, pipe);
    case Cancel(msgid) => CancelRequests(s, msgid);
    case _ => OtherRequests(s, e);
  }

  lemma {:induction false} RunRequests(s: State, run: seq<Event>)
    requires Inv(s) && Requests(s) && Legal(s, run)
    ensures Inv(After(s, run)) && Requests(After(s, run))
    decreases run
  {
    hide Inv, Requests;
    if run != [] {
      ApplyKeeps(s, run[0]);
      ApplyRequests(s, run[0]);
      RunRequests(Apply(s, run[0]), run[1..]);
    }
  }

  /** In every run, a busy daemon works on a request with the id that the host gave it, and
      every task was assigned as the sync or ordinary task that it came as. */
  lemma {:induction false} HandedOnAsAsked(host: Ctx, run: seq<Event>)
    requires Legal(Init(host), run)
    ensures var s := After(Init(host), run);
      && (forall i :: 0 <= i < |s.slots| && s.slots[i].state == DaemonBusy ==>
            s.slots[i].ctx in s.h.asked && s.h.asked[s.slots[i].ctx].msgid == s.slots[i].msgid)
      && (forall k :: 0 <= k < |s.h.given| ==>
            s.h.given[k].ctx in s.h.asked && s.h.asked[s.h.given[k].ctx].isSync == s.h.given[k].isSync)
      && (forall i :: 0 <= i < |s.inq| ==> s.inq[i].ctx in s.h.asked && s.h.asked[s.inq[i].ctx] == s.inq[i])
  {
    hide Inv;
    InitHolds(host);
    RunRequests(Init(host), run);
  }

  /** A running dispatcher accepts every request under the context that was waiting for it,
      and a new context waits for the next. */
  lemma {:induction false} RequestAccepted(s: State, msgid: int, isSync: bool, len: nat, next: Ctx)
    requires !s.stopped && Enabled(s, HostRecv(msgid, isSync, len, next))
    ensures var t := Apply(s, HostRecv(msgid, isSync, len, next));
      && t.h.accepted == s.h.accepted + [s.hostCtx] && t.hostCtx == next
      && s.hostCtx in t.h.asked && t.h.asked[s.hostCtx] == Task(s.hostCtx, msgid, isSync, len)
  {
  }

  lemma {:induction false} DrainPeak(s: State)
    ensures Drain(s).peakBytes == s.peakBytes
    decreases |s.inq|
  {
    if s.inq != [] {
      var i := FindIdle(s.slots, s.syncing, s.gen);
      if i < |s.slots| {
        DrainPeak(Give(s, i));
      }
    }
  }

  lemma {:induction false} SamePeak(s: State, e: Event)
    requires Enabled(s, e) && !e.HostRecv?
    ensures Apply(s, e).peakBytes == s.peakBytes
  {
    hide Drain, FindDaemon, Select, SelectSenders, PopSwap, FindIdle;
    match e
    case InitDone(ds, ok) =>
      var u := s.(sending := s.sending - {ds});
      var i := FindDaemon(u.slots, ds.pipe);
      if i < |u.slots| { DrainPeak(ReadySlot(u, i)); }
    case DaemonRecv(pipe, marker, busy) =>
      var i := FindDaemon(s.slots, pipe);
      if i < |s.slots| { DrainPeak(FinishSlot(NoteReply(s, pipe, s.slots[i].ctx), i)); }
    case _ =>
  }

  lemma {:induction false} HostRecvPeak(s: State, e: Event)
    requires Enabled(s, e) && e.HostRecv? && s.queuedBytes <= s.peakBytes
    ensures var t := Apply(s, e);
      t.peakBytes == if t.queuedBytes > s.peakBytes then t.queuedBytes else s.peakBytes
  {
  }

  lemma {:induction false} InvPeak(s: State)
    requires Inv(s)
    ensures s.queuedBytes <= s.peakBytes
  {
  }

  /** The peak is the largest number of queued bytes that any event has left behind. */
  lemma {:induction false} PeakIsLargest(s: State, e: Event)
    requires Inv(s) && Enabled(s, e)
    ensures var t := Apply(s, e);
      t.peakBytes == if t.queuedBytes > s.peakBytes then t.queuedBytes else s.peakBytes
  {
    hide Core, Apply;
    ApplyKeeps(s, e);
    InvPeak(s);
    InvPeak(Apply(s, e));
    if e.HostRecv? { HostRecvPeak(s, e); } else { SamePeak(s, e); }
  }
}
