/** Every request gets exactly one answer: a reply or a connection reset, unless it was
    cancelled in the queue or its daemon died after the stop. */
module DispatcherAnswers {
  import opened DispatcherModel
  import opened DispatcherInvariants
  import opened DispatcherProofs
  import opened DispatcherTheorems

  /** What the history of answers says of the held and the closed contexts. */
  ghost predicate AnswersRecorded(active: seq<Ctx>, h: History, stopped: bool) {
    && NoDup(h.sent)
    && (forall c :: c in active ==> c in h.sent)
    && (forall c :: c in h.sent ==> (c in active || c in h.closed) && c !in h.cancelled && c !in h.late)
    && (forall c :: c in h.closed ==> c in h.sent || c in h.cancelled || c in h.late)
    && (forall c :: c in h.cancelled ==> c in h.closed && c !in h.late)
    && (forall c :: c in h.late ==> c in h.closed || c in HandCtxs(h.inHand))
    && (forall x :: x in h.inHand ==> (x.stopped <==> x.ctx in h.late))
    && (h.late != {} ==> stopped)
  }

  ghost predicate Answered(s: State) {
    AnswersRecorded(s.active, s.h, s.stopped)
  }

  /** A context in none of the places that the history speaks of. */
  predicate Apart(s: State, c: Ctx) {
    c !in s.active && c !in s.h.closed && c !in HandCtxs(s.h.inHand)
  }

  /** The history of answers is the same. */
  predicate SameAnswers(s: State, t: State) {
    && t.active == s.active && t.h.closed == s.h.closed && t.h.inHand == s.h.inHand && t.h.sent == s.h.sent
    && t.h.cancelled == s.h.cancelled && t.h.late == s.h.late && t.stopped == s.stopped
  }

  lemma {:induction false} SameStay(s: State, t: State)
    requires SameAnswers(s, t)
    ensures Answered(s) ==> Answered(t)
    ensures forall c :: Apart(s, c) ==> Apart(t, c)
  {
  }

  lemma {:induction false} SelectMembers(active: seq<Ctx>, busy: set<Ctx>, keepBusy: bool)
    ensures forall c :: c in Select(active, busy, keepBusy) <==> c in active && (c in busy) == keepBusy
  {
    if active != [] {
      SelectMembers(active[1..], busy, keepBusy);
    }
  }

  lemma {:induction false} NoDupPush(s: seq<Ctx>, c: Ctx)
    requires NoDup(s) && c !in s
    ensures NoDup(s + [c])
  {
  }

  lemma {:induction false} SendAnswers(s: State, ctx: Ctx, busy: set<Ctx>)
    requires Answered(s) && Apart(s, ctx)
    ensures Answered(ReplySend(s, ctx, busy))
  {
    SelectMembers(s.active, busy, true);
    SelectMembers(s.active, busy, false);
    NoDupPush(s.h.sent, ctx);
  }

  lemma {:induction false} DrainSame(s: State)
    ensures SameAnswers(s, Drain(s))
    decreases |s.inq|
  {
    if s.inq != [] {
      var i := FindIdle(s.slots, s.syncing, s.gen);
      if i < |s.slots| {
        DrainSame(Give(s, i));
      }
    }
  }

  /** The context of a busy slot is in no other place. */
  lemma {:induction false} WorkedOnApart(s: State, i: nat)
    requires Conserved(s, {}) && i < |s.slots| && s.slots[i].state == DaemonBusy
    ensures Apart(s, s.slots[i].ctx)
  {
    var c := s.slots[i].ctx;
    WorkPopSwap(s.slots, i, c);
    assert Places(s, c) <= 1;
  }

  lemma {:induction false} QueuedApart(s: State, i: nat)
    requires Conserved(s, {}) && i < |s.inq|
    ensures Apart(s, s.inq[i].ctx)
  {
    var c := s.inq[i].ctx;
    SplitTask(s.inq, i);
    assert Ctxs(s.inq)[|Ctxs(s.inq[..i])|] == c;
    assert Places(s, c) <= 1;
  }

  lemma {:induction false} HandMember(inHand: seq<InHand>)
    ensures forall x :: x in inHand ==> x.ctx in HandCtxs(inHand)
    ensures forall c :: c in HandCtxs(inHand) ==> exists x :: x in inHand && x.ctx == c
  {
    if inHand != [] {
      HandMember(inHand[1..]);
      forall c | c in HandCtxs(inHand) ensures exists x :: x in inHand && x.ctx == c {
        if c == inHand[0].ctx { assert inHand[0] in inHand; }
      }
    }
  }

  /** A context let go is in no other place. */
  lemma {:induction false} LetGoApart(s: State, at: nat)
    requires Conserved(s, {}) && at < |s.h.inHand|
    ensures Apart(LetGo(s, at), s.h.inHand[at].ctx)
  {
    var c := s.h.inHand[at].ctx;
    SplitHand(s.h.inHand, at);
    assert Places(s, c) <= 1;
  }

  lemma {:induction false} TakeAnswers(s: State, ctx: Ctx)
    requires Answered(s) && Apart(s, ctx)
    ensures Answered(TakeInHand(s, ctx, s.stopped))
  {
    HandAppend(s.h.inHand, [InHand(ctx, s.stopped)]);
    HandMember(s.h.inHand);
    assert HandCtxs([InHand(ctx, s.stopped)]) == [ctx];
  }

  /** What remains in hand when one is let go. */
  lemma {:induction false} LetGoLeaves(inHand: seq<InHand>, at: nat)
    requires at < |inHand|
    ensures var rest := inHand[..at] + inHand[at + 1..];
      (forall y :: y in rest ==> y in inHand)
      && (forall c :: c in HandCtxs(inHand) ==> c in HandCtxs(rest) || c == inHand[at].ctx)
  {
    SplitHand(inHand, at);
    var rest := inHand[..at] + inHand[at + 1..];
    forall c | c in HandCtxs(inHand) ensures c in HandCtxs(rest) || c == inHand[at].ctx {
      assert multiset(HandCtxs(inHand))[c] > 0;
    }
  }

  /** A context that was taken in hand before the stop is let go to be answered. */
  lemma {:induction false} LetGoAnswers(s: State, at: nat)
    requires Answered(s) && at < |s.h.inHand| && !s.h.inHand[at].stopped
    ensures Answered(LetGo(s, at))
  {
    hide NoDup;
    var x := s.h.inHand[at];
    LetGoLeaves(s.h.inHand, at);
    assert x in s.h.inHand;
  }

  /** One that was taken in hand after the stop is let go and closed. */
  lemma {:induction false} LetGoCloses(s: State, at: nat)
    requires Answered(s) && at < |s.h.inHand| && s.h.inHand[at].stopped && Apart(LetGo(s, at), s.h.inHand[at].ctx)
    ensures Answered(Close(LetGo(s, at), [s.h.inHand[at].ctx]))
  {
    hide NoDup;
    var x := s.h.inHand[at];
    var t := Close(LetGo(s, at), [x.ctx]);
    LetGoLeaves(s.h.inHand, at);
    assert x in s.h.inHand;
    assert t.h.closed == s.h.closed + [x.ctx];
  }

  lemma {:induction false} DisconnectReplyAnswers(s: State, at: nat, busy: set<Ctx>)
    requires Conserved(s, {}) && Answered(s) && at < |s.h.inHand|
    ensures Answered(HandleDisconnectReply(s, at, busy))
  {
    hide Conserved, AnswersRecorded;
    LetGoApart(s, at);
    if s.h.inHand[at].stopped {
      LetGoCloses(s, at);
    } else {
      LetGoAnswers(s, at);
      SendAnswers(LetGo(s, at), s.h.inHand[at].ctx, busy);
    }
  }

  lemma {:induction false} CancelAnswers(s: State, msgid: int)
    requires Conserved(s, {}) && Answered(s)
    ensures Answered(HandleCancel(s, msgid))
  {
    hide Conserved;
    if FindBusy(s.slots, msgid) == |s.slots| {
      var i := FindTask(s.inq, msgid);
      if i < |s.inq| {
        QueuedApart(s, i);
      }
    }
  }

  lemma {:induction false} DaemonRecvAnswers(s: State, pipe: int, marker: bool, busy: set<Ctx>)
    requires Conserved(s, {}) && Answered(s)
    ensures Answered(HandleDaemonRecv(s, pipe, marker, busy))
  {
    hide Conserved, AnswersRecorded;
    var i := FindDaemon(s.slots, pipe);
    if !s.stopped && i < |s.slots| && s.slots[i].state == DaemonBusy {
      var ctx := s.slots[i].ctx;
      WorkedOnApart(s, i);
      var n := NoteReply(s, pipe, ctx);
      var t := if marker then QueueSignal(TakeSlot(n, i), pipe) else Drain(FinishSlot(n, i));
      DrainSame(FinishSlot(n, i));
      SameStay(s, t);
      SendAnswers(t, ctx, busy);
    }
  }

  lemma {:induction false} DisconnectTakeAnswers(s: State, pipe: int)
    requires Conserved(s, {}) && Answered(s)
    ensures Answered(HandleDisconnectTake(s, pipe))
  {
    hide Conserved, AnswersRecorded;
    var i := FindDaemon(s.slots, pipe);
    if i < |s.slots| {
      SameStay(s, TakeSlot(s, i));
      if s.slots[i].state == DaemonBusy {
        WorkedOnApart(s, i);
        TakeAnswers(TakeSlot(s, i), s.slots[i].ctx);
      }
    }
  }

  lemma {:induction false} InitAnswers(s: State, ds: Sender, ok: bool)
    requires Answered(s)
    ensures Answered(HandleInit(s, ds, ok))
  {
    hide AnswersRecorded;
    var u := s.(sending := s.sending - {ds});
    var i := FindDaemon(u.slots, ds.pipe);
    if i < |u.slots| {
      DrainSame(ReadySlot(u, i));
      SameStay(s, Drain(ReadySlot(u, i)));
      SameStay(s, ReadySlot(u, i));
    }
    SameStay(s, u);
  }

  lemma {:induction false} StopAnswers(s: State)
    requires Answered(s)
    ensures Answered(s.(stopped := true))
  {
  }

  lemma {:induction false} HostRecvAnswers(s: State, msgid: int, isSync: bool, len: nat, next: Ctx)
    requires Answered(s)
    ensures Answered(HandleHostRecv(s, msgid, isSync, len, next))
  {
    hide AnswersRecorded;
    SameStay(s, HandleHostRecv(s, msgid, isSync, len, next));
  }

  lemma {:induction false} ConnectAnswers(s: State, pipe: int, id: nat)
    requires Answered(s)
    ensures Answered(HandleConnect(s, pipe, id))
  {
    hide AnswersRecorded;
    SameStay(s, HandleConnect(s, pipe, id));
  }

  lemma {:induction false} SignalDoneAnswers(s: State, busy: set<Sender>)
    requires Answered(s)
    ensures Answered(HandleSignalDone(s)) && Answered(ReapRetired(s, busy))
  {
    hide AnswersRecorded;
    SameStay(s, HandleSignalDone(s));
    SameStay(s, ReapRetired(s, busy));
  }

  lemma {:induction false} InvConserved(s: State)
    requires Inv(s)
    ensures Conserved(s, {})
  {
  }

  lemma {:induction false} ApplyAnswers(s: State, e: Event)
    requires Inv(s) && Answered(s) && Enabled(s, e)
    ensures Answered(Apply(s, e))
  {
    hide Inv, Conserved, Answered, HandleConnect, HandleInit, HandleHostRecv, HandleDaemonRecv, HandleDisconnectTake,
      HandleDisconnectReply, HandleCancel, HandleSignalDone, ReapRetired;
    InvConserved(s);
    match e
    case Connect(pipe, id) => ConnectAnswers(s, pipe, id);
    case InitDone(ds, ok) => InitAnswers(s, ds, ok);
    case DaemonRecv(pipe, marker, busy) => DaemonRecvAnswers(s, pipe, marker, busy);
    case DisconnectTake(pipe) => DisconnectTakeAnswers(s, pipe);
    case DisconnectReply(at, busy) => DisconnectReplyAnswers(s, at, busy);
    case Cancel(msgid) => CancelAnswers(s, msgid);
    case HostRecv(msgid, isSync, len, next) => HostRecvAnswers(s, msgid, isSync, len, next);
    case Reap(busy) => SignalDoneAnswers(s, busy);
    case SignalDone => SignalDoneAnswers(s, {});
    case Stop => StopAnswers(s);
  }

  lemma {:induction false} RunAnswers(s: State, run: seq<Event>)
    requires Inv(s) && Answered(s) && Legal(s, run)
    ensures Inv(After(s, run)) && Answered(After(s, run))
    decreases run
  {
    hide Inv, Answered;
    if run != [] {
      ApplyKeeps(s, run[0]);
      ApplyAnswers(s, run[0]);
      RunAnswers(Apply(s, run[0]), run[1..]);
    }
  }

  lemma {:induction false} ReachedAnswered(host: Ctx, run: seq<Event>)
    requires Legal(Init(host), run)
    ensures Inv(After(Init(host), run)) && Answered(After(Init(host), run))
  {
    hide *;
    InitHolds(host);
    InitAnswered(host);
    RunAnswers(Init(host), run);
  }

  lemma {:induction false} InitAnswered(host: Ctx)
    ensures Answered(Init(host))
  {
  }

  /** In every run, a closed context was answered, or cancelled in the queue, or taken in hand
      after the stop, and only one of these. */
  lemma {:induction false} ClosedHadItsAnswer(host: Ctx, run: seq<Event>, c: Ctx)
    requires Legal(Init(host), run)
    requires c in After(Init(host), run).h.closed
    ensures var h := After(Init(host), run).h;
      && (c in h.sent || c in h.cancelled || c in h.late)
      && !(c in h.sent && c in h.cancelled) && !(c in h.sent && c in h.late) && !(c in h.cancelled && c in h.late)
  {
    ReachedAnswered(host, run);
  }

  /** In every run, no context is answered twice; and nothing is taken in hand as late unless
      the dispatcher has stopped. */
  lemma {:induction false} AnsweredOnce(host: Ctx, run: seq<Event>)
    requires Legal(Init(host), run)
    ensures var s := After(Init(host), run); NoDup(s.h.sent) && (!s.stopped ==> s.h.late == {})
  {
    ReachedAnswered(host, run);
  }

  /** While the dispatcher runs, a request is still waiting or worked on, or it was cancelled
      in the queue, or its daemon has died and the reset is about to be sent, or it was
      answered. */
  lemma {:induction false} NoRequestForgotten(host: Ctx, run: seq<Event>, c: Ctx)
    requires Legal(Init(host), run)
    requires var s := After(Init(host), run); !s.stopped && c in s.h.accepted
    ensures var s := After(Init(host), run);
      || c in Ctxs(s.inq) || WorkCount(s.slots, c) > 0 || c in s.h.cancelled || c in s.h.sent
      || exists x :: x in s.h.inHand && x.ctx == c && !x.stopped
  {
    ReachedAnswered(host, run);
    Somewhere(After(Init(host), run), c);
  }

  lemma {:induction false} Somewhere(s: State, c: Ctx)
    requires Conserved(s, {}) && Answered(s) && !s.stopped && c in s.h.accepted
    ensures || c in Ctxs(s.inq) || WorkCount(s.slots, c) > 0 || c in s.h.cancelled || c in s.h.sent
            || exists x :: x in s.h.inHand && x.ctx == c && !x.stopped
  {
    assert Places(s, c) == 1;
    HandMember(s.h.inHand);
    if c in HandCtxs(s.h.inHand) {
      var x :| x in s.h.inHand && x.ctx == c;
      assert !x.stopped;
    }
  }

  /** The second half of a disconnect before the stop: the context is sent the reset, is held
      for it, and is not closed. */
  lemma {:induction false} ResetIsSent(host: Ctx, run: seq<Event>, at: nat, busy: set<Ctx>)
    requires Legal(Init(host), run)
    requires var s := After(Init(host), run); at < |s.h.inHand| && !s.h.inHand[at].stopped
    ensures var s := After(Init(host), run); var c := s.h.inHand[at].ctx;
      var t := Apply(s, DisconnectReply(at, busy));
      c in t.active && c !in t.h.closed && t.h.sent == s.h.sent + [c]
  {
    ReachedAnswered(host, run);
    var s := After(Init(host), run);
    var c := s.h.inHand[at].ctx;
    var t := Apply(s, DisconnectReply(at, busy));
    ApplyKeeps(s, DisconnectReply(at, busy));
    assert t.active[0] == c;
    HeldNotClosed(t);
  }

  /** After the stop the context is closed with nothing sent. */
  lemma {:induction false} LateIsClosed(host: Ctx, run: seq<Event>, at: nat, busy: set<Ctx>)
    requires Legal(Init(host), run)
    requires var s := After(Init(host), run); at < |s.h.inHand| && s.h.inHand[at].stopped
    ensures var s := After(Init(host), run); var c := s.h.inHand[at].ctx;
      var t := Apply(s, DisconnectReply(at, busy));
      c in t.h.closed && c in t.h.late && c !in t.h.sent && t.active == s.active
  {
    ReachedAnswered(host, run);
    var s := After(Init(host), run);
    ApplyKeeps(s, DisconnectReply(at, busy));
    ApplyAnswers(s, DisconnectReply(at, busy));
    var t := Apply(s, DisconnectReply(at, busy));
    assert t.h.closed == s.h.closed + [s.h.inHand[at].ctx];
  }

  /** Sending an answer closes exactly the holders whose sends are done; those that are still
      busy stay held. */
  lemma {:induction false} HarvestSparesBusy(s: State, ctx: Ctx, busy: set<Ctx>, c: Ctx)
    requires Conserved(s, {ctx}) && c in s.active
    ensures var t := ReplySend(s, ctx, busy);
      if c in busy then c in t.active && c !in t.h.closed else c in t.h.closed && c !in t.active
  {
    SelectMembers(s.active, busy, true);
    SelectMembers(s.active, busy, false);
    assert Places(s, c) <= 1 && c != ctx;
  }
}
