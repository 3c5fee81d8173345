/** What every run of the dispatcher guarantees, and what its shutdown leaves behind. */
module DispatcherTheorems {
  import opened DispatcherModel
  import opened DispatcherInvariants
  import opened DispatcherProofs

  // ----- order and work conservation

  lemma {:induction false} Reached(host: Ctx, run: seq<Event>)
    requires Legal(Init(host), run)
    ensures Inv(After(Init(host), run))
  {
    InitHolds(host);
    RunKeeps(Init(host), run);
  }

  /** Requests that were not cancelled are assigned in the order in which they arrived: when
      the later of two has been assigned, the earlier one was assigned before it. */
  lemma {:induction false} AssignedInArrivalOrder(host: Ctx, run: seq<Event>, i: nat, j: nat, n: nat)
    returns (m: nat)
    requires Legal(Init(host), run)
    requires var h := After(Init(host), run).h;
      && i < j < |h.accepted| && h.accepted[i] !in h.cancelled
      && n < |h.given| && h.given[n].ctx == h.accepted[j]
    ensures m < n && After(Init(host), run).h.given[m].ctx == After(Init(host), run).h.accepted[i]
  {
    Reached(host, run);
    var s := After(Init(host), run);
    var h := s.h;
    GivenIsCtx(h.given, n);
    assert (GivenCtxs(h.given) + Ctxs(s.inq))[n] == h.accepted[j];
    m := LiveOrder(h.accepted, h.cancelled, i, j, n);
    GivenIsCtx(h.given, m);
    assert (GivenCtxs(h.given) + Ctxs(s.inq))[m] == h.accepted[i];
  }

  /** The live requests keep the order of the accepted ones. */
  lemma {:induction false} LiveOrder(accepted: seq<Ctx>, cancelled: set<Ctx>, i: nat, j: nat, n: nat) returns (m: nat)
    requires NoDup(accepted) && i < j < |accepted| && accepted[i] !in cancelled
    requires n < |Live(accepted, cancelled)| && Live(accepted, cancelled)[n] == accepted[j]
    ensures m < n && Live(accepted, cancelled)[m] == accepted[i]
  {
    var k := |accepted| - 1;
    var before := Live(accepted[..k], cancelled);
    LiveSub(accepted[..k], cancelled);
    if j < k {
      assert n < |before|;
      m := LiveOrder(accepted[..k], cancelled, i, j, n);
    } else {
      assert forall l :: 0 <= l < |before| ==> before[l] in before && before[l] in accepted[..k];
      assert n == |before|;
      m := LiveHas(accepted[..k], cancelled, i);
    }
  }

  lemma {:induction false} LiveHas(accepted: seq<Ctx>, cancelled: set<Ctx>, i: nat) returns (m: nat)
    requires i < |accepted| && accepted[i] !in cancelled
    ensures m < |Live(accepted, cancelled)| && Live(accepted, cancelled)[m] == accepted[i]
  {
    var k := |accepted| - 1;
    if i < k { m := LiveHas(accepted[..k], cancelled, i); } else { m := |Live(accepted[..k], cancelled)|; }
  }

  /** While tasks wait, every daemon is initializing, or working, or idle behind the sync barrier. */
  lemma {:induction false} WaitingMeansNoneEligible(host: Ctx, run: seq<Event>, i: nat)
    requires Legal(Init(host), run)
    requires var s := After(Init(host), run); !s.stopped && s.inq != [] && i < |s.slots|
    ensures var s := After(Init(host), run);
      s.slots[i].state == DaemonIdle ==> s.syncing && s.slots[i].syncGen == s.gen
  {
    Reached(host, run);
    var s := After(Init(host), run);
    assert !Eligible(s.slots[i], s.syncing, s.gen);
  }

  lemma {:induction false} LoneServed() returns (s: State)
    ensures Legal(Init(0), [Connect(7, 1), InitDone(Sender(1, 7), true), HostRecv(5, true, 20, 1)])
    ensures s == After(Init(0), [Connect(7, 1), InitDone(Sender(1, 7), true), HostRecv(5, true, 20, 1)])
    ensures s.slots == [Slot(7, DaemonBusy, 5, 0, 0, Sender(1, 7))] && s.inq == [] && s.syncing && s.gen == 0
    ensures !s.stopped
    ensures s.hostCtx == 1 && s.h.accepted == [0] && s.executing == 1
  {
    var ds := Sender(1, 7);
    var e0, e1, e2 := Connect(7, 1), InitDone(ds, true), HostRecv(5, true, 20, 1);
    var s1 := Apply(Init(0), e0);
    assert s1.slots == [Slot(7, DaemonInit, 0, -1, 0, ds)] && s1.sending == {ds} && s1.inq == [] && !s1.stopped;
    var s2 := Apply(s1, e1);
    assert s2.slots == [Slot(7, DaemonIdle, 0, -1, 0, ds)] && s2.inq == [] && !s2.stopped;
    s := Apply(s2, e2);
    Step(Init(0), [e0, e1, e2]);
    Step(s1, [e1, e2]);
    Step(s2, [e2]);
    assert [e0, e1, e2][1..] == [e1, e2] && [e1, e2][1..] == [e2] && [e2][1..] == [];
  }

  lemma {:induction false} LegalAppend(s: State, run: seq<Event>, e: Event)
    requires Legal(s, run) && Enabled(After(s, run), e)
    ensures Legal(s, run + [e]) && After(s, run + [e]) == Apply(After(s, run), e)
    decreases run
  {
    if run == [] {
      Step(s, [e]);
      assert [] + [e] == [e] && [e][1..] == [];
    } else {
      assert (run + [e])[1..] == run[1..] + [e] && (run + [e])[0] == run[0];
      Step(s, run);
      LegalAppend(Apply(s, run[0]), run[1..], e);
      Step(s, run + [e]);
    }
  }

  /** The daemon replies to its sync task and stays idle behind the barrier. */
  lemma {:induction false} LoneReplies(s: State)
    requires s.slots == [Slot(7, DaemonBusy, 5, 0, 0, Sender(1, 7))] && s.inq == [] && s.syncing && s.gen == 0
    requires !s.stopped && s.executing == 1
    ensures var t := Apply(s, DaemonRecv(7, false, {}));
      && t.slots == [Slot(7, DaemonIdle, 0, 0, 0, Sender(1, 7))] && t.syncing && t.gen == 0 && t.inq == []
      && !t.stopped && t.executing == 0 && t.hostCtx == s.hostCtx && t.h.accepted == s.h.accepted
  {
    hide Select;
  }

  /** Work conservation is about eligible daemons, not idle ones: a single daemon that has
      served a sync task stays idle while an ordinary task waits. */
  lemma {:induction false} IdleBehindBarrier() returns (run: seq<Event>)
    ensures Legal(Init(0), run)
    ensures var s := After(Init(0), run);
      !s.stopped && |s.inq| == 1 && !s.inq[0].isSync && s.executing == 0 && |s.slots| == 1
      && s.slots[0].state == DaemonIdle
  {
    hide Legal, After, Init, HandleDaemonRecv;
    var s := LoneServed();
    run := [Connect(7, 1), InitDone(Sender(1, 7), true), HostRecv(5, true, 20, 1)];
    var e3, e4 := DaemonRecv(7, false, {}), HostRecv(6, false, 20, 2);
    LegalAppend(Init(0), run, e3);
    LoneReplies(s);
    LegalAppend(Init(0), run + [e3], e4);
    run := run + [e3] + [e4];
  }

  lemma {:induction false} Step(s: State, run: seq<Event>)
    requires run != []
    ensures Legal(s, run) <==> Enabled(s, run[0]) && Legal(Apply(s, run[0]), run[1..])
    ensures Legal(s, run) ==> After(s, run) == After(Apply(s, run[0]), run[1..])
  {
  }

  /** A request cancelled in the queue is never assigned. */
  lemma {:induction false} CancelledNeverAssigned(host: Ctx, run: seq<Event>, k: nat)
    requires Legal(Init(host), run) && k < |After(Init(host), run).h.given|
    ensures After(Init(host), run).h.given[k].ctx !in After(Init(host), run).h.cancelled
  {
    Reached(host, run);
    var s := After(Init(host), run);
    LiveSub(s.h.accepted, s.h.cancelled);
    GivenIsCtx(s.h.given, k);
    assert (GivenCtxs(s.h.given) + Ctxs(s.inq))[k] == s.h.given[k].ctx;
    assert s.h.given[k].ctx in Live(s.h.accepted, s.h.cancelled);
  }

  // ----- conservation

  /** Every accepted context is in exactly one of: the queue, a busy slot, a reply holder, the
      closed contexts, or in hand between the two regions of a disconnect. */
  lemma {:induction false} EveryContextInOnePlace(host: Ctx, run: seq<Event>, c: Ctx)
    requires Legal(Init(host), run)
    ensures Places(After(Init(host), run), c) == if c in After(Init(host), run).h.accepted then 1 else 0
  {
    Reached(host, run);
  }

  lemma {:induction false} NoContextClosedTwice(host: Ctx, run: seq<Event>)
    requires Legal(Init(host), run)
    ensures NoDup(After(Init(host), run).h.closed)
  {
    Reached(host, run);
    var s := After(Init(host), run);
    forall c ensures multiset(s.h.closed)[c] <= 1 { assert Places(s, c) <= 1; }
    OnceNoDup(s.h.closed);
  }

  lemma {:induction false} OnceNoDup(s: seq<Ctx>)
    requires forall c: Ctx :: multiset(s)[c] <= 1
    ensures NoDup(s)
  {
    forall i, j | 0 <= i < j < |s| ensures s[i] != s[j] {
      if s[i] == s[j] { Twice(s, i, j); }
    }
  }

  lemma {:induction false} Twice<T>(s: seq<T>, i: nat, j: nat)
    requires i < j < |s| && s[i] == s[j]
    ensures multiset(s)[s[i]] >= 2
  {
    assert s == s[..j] + s[j..];
    assert s[i] in s[..j] && s[j] in s[j..];
  }

  /** The counters agree with what they count. */
  lemma {:induction false} CountersAgree(host: Ctx, run: seq<Event>)
    requires Legal(Init(host), run)
    ensures var s := After(Init(host), run);
      s.inqCount == |s.inq| && s.queuedBytes == Bytes(s.inq) && s.executing == BusyCount(s.slots)
      && s.outqCount == LiveCount(s.slots)
  {
    Reached(host, run);
  }

  /** A reply goes to the context of the pipe's last assignment before the reply, although
      draining may already have put a new context into the slot. */
  lemma {:induction false} ReplyReachesItsRequest(s: State, pipe: int, marker: bool, busy: set<Ctx>)
    requires Inv(s) && !s.stopped
    requires exists k :: 0 <= k < |s.slots| && s.slots[k].pipe == pipe && s.slots[k].state == DaemonBusy
    ensures var t := HandleDaemonRecv(s, pipe, marker, busy);
      && t.active != [] && IsLast(s.h.given, pipe, t.active[0])
      && t.h.replies == s.h.replies + [Reply(pipe, t.active[0])]
      && t.active[0] !in t.h.closed
  {
    var k :| 0 <= k < |s.slots| && s.slots[k].pipe == pipe && s.slots[k].state == DaemonBusy;
    var i := FindDaemon(s.slots, pipe);
    OneSlotPerPipe(s, i, k);
    ReplyShape(s, i, pipe, marker, busy);
    DaemonRecvKeeps(s, pipe, marker, busy);
    HeldNotClosed(HandleDaemonRecv(s, pipe, marker, busy));
  }

  lemma {:induction false} ReplyShape(s: State, i: nat, pipe: int, marker: bool, busy: set<Ctx>)
    requires !s.stopped && i < |s.slots| && s.slots[i].state == DaemonBusy && i == FindDaemon(s.slots, pipe)
    ensures var t := HandleDaemonRecv(s, pipe, marker, busy);
      t.active != [] && t.active[0] == s.slots[i].ctx && t.h.replies == s.h.replies + [Reply(pipe, t.active[0])]
  {
    DrainLeaves(FinishSlot(NoteReply(s, pipe, s.slots[i].ctx), i));
  }

  lemma {:induction false} HeldNotClosed(s: State)
    requires Conserved(s, {}) && s.active != []
    ensures s.active[0] !in s.h.closed
  {
    var c := s.active[0];
    assert multiset(s.active)[c] >= 1;
    assert Places(s, c) <= 1;
  }

  lemma {:induction false} DrainLeaves(s: State)
    ensures Drain(s).active == s.active && Drain(s).h.replies == s.h.replies && Drain(s).stopped == s.stopped
    decreases |s.inq|
  {
    if s.inq != [] {
      var i := FindIdle(s.slots, s.syncing, s.gen);
      if i < |s.slots| { DrainLeaves(Give(s, i)); }
    }
  }

  /** Once stopped, the dispatcher stays stopped and assigns nothing. */
  lemma {:induction false} StoppedAssignsNothing(s: State, run: seq<Event>)
    requires s.stopped && Legal(s, run)
    ensures After(s, run).stopped && After(s, run).h.given == s.h.given && After(s, run).h.accepted == s.h.accepted
    decreases run
  {
    if run != [] {
      StoppedStep(s, run[0]);
      StoppedAssignsNothing(Apply(s, run[0]), run[1..]);
    }
  }

  lemma {:induction false} StoppedSlots(s: State, e: Event)
    requires s.stopped && Enabled(s, e) && (e.InitDone? || e.DaemonRecv? || e.DisconnectTake? || e.Connect?)
    ensures Apply(s, e).stopped && Apply(s, e).h.given == s.h.given && Apply(s, e).h.accepted == s.h.accepted
  {
    hide Drain, FindDaemon, PopSwap;
  }

  lemma {:induction false} StoppedStep(s: State, e: Event)
    requires s.stopped && Enabled(s, e)
    ensures Apply(s, e).stopped && Apply(s, e).h.given == s.h.given && Apply(s, e).h.accepted == s.h.accepted
  {
    hide HandleInit, HandleDaemonRecv, HandleDisconnectTake, HandleConnect, Select, SelectSenders, FindBusy, FindTask;
    if e.InitDone? || e.DaemonRecv? || e.DisconnectTake? || e.Connect? { StoppedSlots(s, e); }
  }

  // ----- the sync barrier

  /** Between a sync task for a pipe and the next task for that pipe, an ordinary task for
      another pipe has closed the sync generation. */
  lemma {:induction false} SyncBarrier(host: Ctx, run: seq<Event>, i: nat, j: nat) returns (k: nat)
    requires Legal(Init(host), run)
    requires var given := After(Init(host), run).h.given;
      i < j < |given| && given[i].isSync && given[j].pipe == given[i].pipe
    ensures var given := After(Init(host), run).h.given;
      i < k < j && given[k].closing && !given[k].isSync && given[k].pipe != given[i].pipe
      && given[k].gen == given[i].gen
  {
    Reached(host, run);
    var s := After(Init(host), run);
    assert !s.h.given[i].closing;
    k := FirstClosing(s.h.given, s.gen, i, j);
  }

  /** The first assignment after i that closes the generation of assignment i. */
  lemma {:induction false} FirstClosing(given: seq<Assignment>, gen: int, i: nat, j: nat) returns (k: nat)
    requires Generations(given, gen) && i < j < |given| && given[i].gen < given[j].gen
    ensures i <= k < j && given[k].closing && given[k].gen == given[i].gen
    decreases j - i
  {
    if given[i].closing {
      k := i;
    } else {
      assert given[i + 1].gen == GenAfter(given[i]) == given[i].gen;
      k := FirstClosing(given, gen, i + 1, j);
    }
  }

  /** A slot gets at most one sync task in each generation. */
  lemma {:induction false} OneSyncPerGeneration(host: Ctx, run: seq<Event>, i: nat, j: nat)
    requires Legal(Init(host), run)
    requires var given := After(Init(host), run).h.given;
      i < |given| && j < |given| && given[i].isSync && given[j].isSync && given[i].pipe == given[j].pipe
      && given[i].gen == given[j].gen
    ensures i == j
  {
    Reached(host, run);
  }

  /** With no sync on, every slot was last served a sync task in an earlier generation. */
  lemma {:induction false} NoSyncNoServed(host: Ctx, run: seq<Event>, i: nat)
    requires Legal(Init(host), run)
    requires var s := After(Init(host), run); !s.syncing && i < |s.slots|
    ensures After(Init(host), run).slots[i].syncGen < After(Init(host), run).gen
  {
    Reached(host, run);
  }

  // ----- shutdown

  function SlotSenders(slots: seq<Slot>): seq<Sender> {
    if slots == [] then [] else SlotSenders(slots[..|slots| - 1]) + [slots[|slots| - 1].ds]
  }

  function SlotCtxs(slots: seq<Slot>): seq<Ctx> {
    if slots == [] then []
    else SlotCtxs(slots[..|slots| - 1])
         + (if slots[|slots| - 1].state == DaemonBusy then [slots[|slots| - 1].ctx] else [])
  }

  /** Everything that is still held is given back, in this order: retired senders, senders and
      contexts of the slots, contexts of the reply holders, the host's context, and those in
      the queue. */
  function Shutdown(s: State): State {
    s.(slots := [], active := [], inq := [], retired := [], sending := {},
       h := s.h.(freed := s.h.freed + s.retired + SlotSenders(s.slots),
                 closed := s.h.closed + SlotCtxs(s.slots) + s.active + [s.hostCtx] + Ctxs(s.inq)))
  }

  /** When the rep socket is closed, every context that was ever open has been closed exactly
      once; and every sender that was made has been freed exactly once. */
  lemma {:induction false} ShutdownClosesAll(host: Ctx, run: seq<Event>)
    requires Legal(Init(host), run)
    requires var s := After(Init(host), run); s.stopped && s.h.inHand == []
    ensures var s := After(Init(host), run); var t := Shutdown(s);
      && (forall c: Ctx :: multiset(t.h.closed)[c] == if c in s.h.accepted || c == s.hostCtx then 1 else 0)
      && multiset(t.h.freed) == multiset(s.h.senders)
  {
    Reached(host, run);
    ShutdownCtxs(After(Init(host), run));
    ShutdownSenders(After(Init(host), run));
  }

  lemma {:induction false} ShutdownCtxs(s: State)
    requires Conserved(s, {}) && s.h.inHand == []
    ensures forall c: Ctx :: multiset(Shutdown(s).h.closed)[c] == if c in s.h.accepted || c == s.hostCtx then 1 else 0
  {
    forall c: Ctx ensures multiset(Shutdown(s).h.closed)[c] == if c in s.h.accepted || c == s.hostCtx then 1 else 0 {
      SlotCtxCount(s.slots, c);
      assert Places(s, c) == if c in s.h.accepted then 1 else 0;
    }
  }

  lemma {:induction false} ShutdownSenders(s: State)
    requires SendersOk(s)
    ensures multiset(Shutdown(s).h.freed) == multiset(s.h.senders)
  {
    forall x: Sender ensures multiset(Shutdown(s).h.freed)[x] == multiset(s.h.senders)[x] {
      SlotSenderCount(s.slots, x);
    }
  }

  lemma {:induction false} SlotCtxCount(slots: seq<Slot>, c: Ctx)
    ensures multiset(SlotCtxs(slots))[c] == WorkCount(slots, c)
  {
    if slots != [] { SlotCtxCount(slots[..|slots| - 1], c); }
  }

  lemma {:induction false} SlotSenderCount(slots: seq<Slot>, x: Sender)
    ensures multiset(SlotSenders(slots))[x] == SenderCount(slots, x)
  {
    if slots != [] { SlotSenderCount(slots[..|slots| - 1], x); }
  }
}
