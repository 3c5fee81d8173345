/** Every locked region keeps the dispatcher's invariants, and so does every run. */
module DispatcherProofs {
  import opened DispatcherModel
  import opened DispatcherInvariants

  // ----- small facts

  lemma {:induction false} LiveCancel(accepted: seq<Ctx>, cancelled: set<Ctx>, c: Ctx)
    ensures Live(accepted, cancelled + {c}) == Without(Live(accepted, cancelled), c)
  {
    if accepted != [] {
      var n := |accepted| - 1;
      LiveCancel(accepted[..n], cancelled, c);
      WithoutAppend(Live(accepted[..n], cancelled), if accepted[n] in cancelled then [] else [accepted[n]], c);
    }
  }

  /** The sequence with every c left out. */
  function Without(s: seq<Ctx>, c: Ctx): seq<Ctx> {
    if s == [] then [] else (if s[0] == c then [] else [s[0]]) + Without(s[1..], c)
  }

  lemma {:induction false} WithoutAppend(s: seq<Ctx>, t: seq<Ctx>, c: Ctx)
    ensures Without(s + t, c) == Without(s, c) + Without(t, c)
  {
    if s == [] {
      assert s + t == t;
    } else {
      assert (s + t)[1..] == s[1..] + t;
      WithoutAppend(s[1..], t, c);
    }
  }

  lemma {:induction false} WithoutAbsent(s: seq<Ctx>, c: Ctx)
    requires c !in s
    ensures Without(s, c) == s
  {
    if s != [] {
      WithoutAbsent(s[1..], c);
    }
  }

  lemma {:induction false} LiveSub(accepted: seq<Ctx>, cancelled: set<Ctx>)
    requires NoDup(accepted)
    ensures forall c :: c in Live(accepted, cancelled) ==> c in accepted && c !in cancelled
    ensures NoDup(Live(accepted, cancelled))
  {
    if accepted != [] {
      LiveSub(accepted[..|accepted| - 1], cancelled);
    }
  }

  lemma {:induction false} LiveAccept(accepted: seq<Ctx>, cancelled: set<Ctx>, c: Ctx)
    requires c !in cancelled
    ensures Live(accepted + [c], cancelled) == Live(accepted, cancelled) + [c]
  {
    assert (accepted + [c])[..|accepted|] == accepted;
  }

  lemma {:induction false} GivenPush(given: seq<Assignment>, a: Assignment)
    ensures GivenCtxs(given + [a]) == GivenCtxs(given) + [a.ctx]
    ensures forall p, c :: IsLast(given + [a], p, c) <==> if a.pipe == p then a.ctx == c else IsLast(given, p, c)
    ensures forall p, c :: WasGiven(given, p, c) ==> WasGiven(given + [a], p, c)
  {
    assert (given + [a])[..|given|] == given;
    forall p, c | WasGiven(given, p, c) ensures WasGiven(given + [a], p, c) {
      var k :| 0 <= k < |given| && given[k].pipe == p && given[k].ctx == c;
      assert (given + [a])[k] == given[k];
    }
  }

  lemma {:induction false} LastWasGiven(given: seq<Assignment>, pipe: int, ctx: Ctx)
    requires IsLast(given, pipe, ctx)
    ensures WasGiven(given, pipe, ctx)
  {
    var n := |given| - 1;
    if given[n].pipe != pipe {
      LastWasGiven(given[..n], pipe, ctx);
      var k :| 0 <= k < n && given[..n][k].pipe == pipe && given[..n][k].ctx == ctx;
      assert given[k] == given[..n][k];
    }
  }

  lemma {:induction false} GivenIsCtx(given: seq<Assignment>, k: nat)
    requires k < |given|
    ensures |GivenCtxs(given)| == |given| && GivenCtxs(given)[k] == given[k].ctx
  {
    var n := |given| - 1;
    if k < n { GivenIsCtx(given[..n], k); }
    GivenLength(given);
    GivenLength(given[..n]);
  }

  lemma {:induction false} GivenLength(given: seq<Assignment>)
    ensures |GivenCtxs(given)| == |given|
  {
    if given != [] { GivenLength(given[..|given| - 1]); }
  }

  lemma {:induction false} CtxsHead(inq: seq<Task>)
    requires inq != []
    ensures Ctxs(inq) == [inq[0].ctx] + Ctxs(inq[1..]) && Bytes(inq) == inq[0].len + Bytes(inq[1..])
  {
  }

  /** Moving contexts between places and the loose ones keeps each in one place. */
  lemma {:induction false} Reconserve(s: State, t: State, loose: set<Ctx>, loose': set<Ctx>)
    requires Conserved(s, loose) && t.hostCtx == s.hostCtx && t.h.accepted == s.h.accepted
    requires forall c: Ctx ::
               Places(t, c) + (if c in loose' then 1 else 0) == Places(s, c) + if c in loose then 1 else 0
    ensures Conserved(t, loose')
  {
    forall c: Ctx
      ensures PlacesIn(t.inq, t.slots, t.active, t.h.closed, t.h.inHand, c)
           == if c in t.h.accepted && c !in loose' then 1 else 0
    {
      assert Places(t, c) + (if c in loose' then 1 else 0) == Places(s, c) + if c in loose then 1 else 0;
    }
    forall c | c in loose' ensures c in t.h.accepted {
      assert Places(t, c) + 1 == Places(s, c) + if c in loose then 1 else 0;
    }
  }

  // ----- handing the oldest queued task to an eligible daemon

  function Give(s: State, i: nat): State
    requires s.inq != [] && i < |s.slots|
  {
    AssignTask(Dequeue(s), i, s.inq[0])
  }

  lemma {:induction false} GiveCounts(s: State, i: nat)
    requires s.inq != [] && i < |s.slots| && Eligible(s.slots[i], s.syncing, s.gen) && Counters(s) && SendersOk(s)
    ensures Counters(Give(s, i)) && SendersOk(Give(s, i))
  {
    var t := Give(s, i);
    var x := t.slots[i];
    BusyUpdate(s.slots, i, x);
    LiveUpdate(s.slots, i, x);
    CtxsHead(s.inq);
    forall y: Sender ensures SenderCount(t.slots, y) == SenderCount(s.slots, y) {
      SenderUpdate(s.slots, i, x, y);
    }
  }

  lemma {:induction false} GiveConserves(s: State, loose: set<Ctx>, i: nat)
    requires s.inq != [] && i < |s.slots| && Eligible(s.slots[i], s.syncing, s.gen) && Conserved(s, loose)
    ensures Conserved(Give(s, i), loose)
  {
    var t := Give(s, i);
    CtxsHead(s.inq);
    forall c: Ctx ensures Places(t, c) == Places(s, c) {
      WorkUpdate(s.slots, i, t.slots[i], c);
    }
    Reconserve(s, t, loose, loose);
  }

  lemma {:induction false} GiveFifo(s: State, i: nat)
    requires s.inq != [] && i < |s.slots| && Fifo(s)
    ensures Fifo(Give(s, i))
  {
    CtxsHead(s.inq);
    var t := Give(s, i);
    GivenPush(s.h.given, t.h.given[|s.h.given|]);
  }

  lemma {:induction false} GiveBarrier(s: State, i: nat)
    requires s.inq != [] && i < |s.slots| && Eligible(s.slots[i], s.syncing, s.gen) && SlotsOk(s) && Barrier(s)
    ensures SlotsOk(Give(s, i)) && Barrier(Give(s, i))
  {
    var t := Give(s, i);
    var n := |s.h.given|;
    var a := t.h.given[n];
    assert s.slots[i].syncGen < s.gen;
    assert forall k :: 0 <= k < n ==> t.h.given[k] == s.h.given[k];
    assert forall j :: 0 <= j < |t.slots| ==> t.slots[j].pipe == s.slots[j].pipe;
    assert Generations(t.h.given, t.gen);
    GenerationsBound(s.h.given, s.gen);
    forall j, k | 0 <= j < |t.slots| && 0 <= k < |t.h.given| && t.h.given[k].isSync
                  && t.h.given[k].pipe == t.slots[j].pipe
      ensures t.h.given[k].gen <= t.slots[j].syncGen
    {
      if k == n { OneSlotPerPipe(s, i, j); }
    }
  }

  lemma {:induction false} OneSlotPerPipe(s: State, i: nat, j: nat)
    requires SlotsOk(s) && i < |s.slots| && j < |s.slots| && s.slots[i].pipe == s.slots[j].pipe
    ensures i == j
  {
  }

  lemma {:induction false} GenerationsBound(given: seq<Assignment>, gen: int)
    requires Generations(given, gen)
    ensures forall k :: 0 <= k < |given| ==> given[k].gen <= GenAfter(given[k]) <= gen
    decreases |given|
  {
    if given != [] {
      var n := |given| - 1;
      if n > 0 {
        assert given[n - 1 + 1].gen == GenAfter(given[n - 1]);
        GenerationsBound(given[..n], given[n].gen);
        forall k | 0 <= k < n ensures given[k].gen <= GenAfter(given[k]) <= gen {
          assert given[..n][k] == given[k];
        }
      }
    }
  }

  lemma {:induction false} GiveAnswers(s: State, i: nat)
    requires s.inq != [] && i < |s.slots| && SlotsOk(s) && Answers(s)
    ensures Answers(Give(s, i))
  {
    var t := Give(s, i);
    GivenPush(s.h.given, t.h.given[|s.h.given|]);
    forall j | 0 <= j < |t.slots| && t.slots[j].state == DaemonBusy
      ensures IsLast(t.h.given, t.slots[j].pipe, t.slots[j].ctx)
    {
      if j < i { assert s.slots[j].pipe != s.slots[i].pipe; }
      if i < j { assert s.slots[i].pipe != s.slots[j].pipe; }
    }
  }

  lemma {:induction false} GiveKeeps(s: State, loose: set<Ctx>, i: nat)
    requires s.inq != [] && i < |s.slots| && Eligible(s.slots[i], s.syncing, s.gen) && Core(s, loose)
    ensures Core(Give(s, i), loose)
  {
    GiveCounts(s, i);
    GiveConserves(s, loose, i);
    GiveFifo(s, i);
    GiveBarrier(s, i);
    GiveAnswers(s, i);
  }

  /** Draining keeps the invariants and ends with no task waiting for an eligible daemon. */
  lemma {:induction false} DrainKeeps(s: State, loose: set<Ctx>)
    requires Core(s, loose)
    ensures Core(Drain(s), loose) && WorkConserving(Drain(s))
    ensures Drain(s).active == s.active && Drain(s).stopped == s.stopped && Drain(s).h.inHand == s.h.inHand
    decreases |s.inq|
  {
    if s.inq != [] {
      var i := FindIdle(s.slots, s.syncing, s.gen);
      if i < |s.slots| {
        GiveKeeps(s, loose, i);
        DrainKeeps(Give(s, i), loose);
      }
    }
  }

  // ----- accepting a request

  function Accept(s: State, t: Task, next: Ctx): State {
    s.(count := s.count + 1, hostCtx := next,
       h := s.h.(accepted := s.h.accepted + [s.hostCtx], asked := s.h.asked[s.hostCtx := t]))
  }

  lemma {:induction false} AcceptEnqueueCounts(s: State, t: Task, next: Ctx)
    requires Counters(s) && Conserved(s, {}) && t.ctx == s.hostCtx && next !in s.h.accepted && next != s.hostCtx
    ensures Counters(Enqueue(Accept(s, t, next), t)) && Conserved(Enqueue(Accept(s, t, next), t), {})
  {
    var u := Enqueue(Accept(s, t, next), t);
    CtxsAppend(s.inq, [t]);
    assert Ctxs([t]) == [t.ctx];
    forall c: Ctx ensures Places(u, c) == Places(s, c) + if c == t.ctx then 1 else 0 {
    }
  }

  lemma {:induction false} AcceptEnqueueFifo(s: State, t: Task, next: Ctx)
    requires Fifo(s) && t.ctx == s.hostCtx && s.hostCtx !in s.h.accepted
    ensures Fifo(Enqueue(Accept(s, t, next), t))
  {
    CtxsAppend(s.inq, [t]);
    LiveAccept(s.h.accepted, s.h.cancelled, s.hostCtx);
    assert Ctxs([t]) == [t.ctx];
    assert GivenCtxs(s.h.given) + (Ctxs(s.inq) + [t.ctx]) == GivenCtxs(s.h.given) + Ctxs(s.inq) + [t.ctx];
  }

  lemma {:induction false} AcceptEnqueueKeeps(s: State, t: Task, next: Ctx)
    requires Core(s, {}) && t.ctx == s.hostCtx && next !in s.h.accepted && next != s.hostCtx
    ensures Core(Enqueue(Accept(s, t, next), t), {})
  {
    AcceptEnqueueCounts(s, t, next);
    AcceptEnqueueFifo(s, t, next);
  }

  /** With an empty queue, assigning at once differs from queueing and handing out only in
      the recorded peak of queued bytes. */
  lemma {:induction false} DirectAssign(s: State, t: Task, i: nat)
    requires s.inq == [] && i < |s.slots|
    ensures AssignTask(s, i, t) == Give(Enqueue(s, t), i).(peakBytes := s.peakBytes)
  {
    assert Enqueue(s, t).inq == [t] && [t][1..] == [];
  }

  lemma {:induction false} HostRecvKeeps(s: State, msgid: int, isSync: bool, len: nat, next: Ctx)
    requires Inv(s) && next !in s.h.accepted && next != s.hostCtx
    ensures Inv(HandleHostRecv(s, msgid, isSync, len, next))
  {
    if !s.stopped {
      var t := Task(s.hostCtx, msgid, isSync, len);
      var a := Accept(s, t, next);
      var i := FindIdle(s.slots, s.syncing, s.gen);
      AcceptEnqueueKeeps(s, t, next);
      if i < |s.slots| {
        assert s.inq == [];
        DirectAssign(a, t, i);
        GiveKeeps(Enqueue(a, t), {}, i);
        PeakLowered(Give(Enqueue(a, t), i), s.peakBytes);
      }
    }
  }

  lemma {:induction false} PeakLowered(s: State, peak: int)
    requires Core(s, {}) && s.inq == [] && peak >= 0
    ensures Core(s.(peakBytes := peak), {})
  {
    var t := s.(peakBytes := peak);
    forall c: Ctx ensures Places(t, c) == Places(s, c) {
    }
  }

  // ----- slots coming and going

  lemma {:induction false} CountPush(slots: seq<Slot>, x: Slot)
    ensures BusyCount(slots + [x]) == BusyCount(slots) + BusyOf(x)
    ensures LiveCount(slots + [x]) == LiveCount(slots) + LiveOf(x)
    ensures forall c :: WorkCount(slots + [x], c) == WorkCount(slots, c) + WorkOf(x, c)
    ensures forall y :: SenderCount(slots + [x], y) == SenderCount(slots, y) + SenderOf(x, y)
  {
    assert (slots + [x])[..|slots|] == slots;
  }

  lemma {:induction false} ConnectShape(s: State, pipe: int, id: nat)
    ensures var t, ds := HandleConnect(s, pipe, id), Sender(id, pipe);
      && t.retired == s.retired && t.h.senders == s.h.senders + [ds]
      && if s.stopped then t.slots == s.slots && t.h.freed == s.h.freed + [ds] && t.sending == s.sending
         else t.slots == s.slots + [Slot(pipe, DaemonInit, 0, s.gen - 1, 0, ds)] && t.h.freed == s.h.freed
              && t.sending == s.sending + {ds}
  {
  }

  lemma {:induction false} ConnectSenders(s: State, pipe: int, id: nat)
    requires SendersOk(s) && forall x :: x in s.h.senders ==> x.id != id
    ensures SendersOk(HandleConnect(s, pipe, id))
  {
    hide HandleConnect;
    var t := HandleConnect(s, pipe, id);
    var ds := Sender(id, pipe);
    ConnectShape(s, pipe, id);
    FreedAreSenders(s);
    if !s.stopped { CountPush(s.slots, t.slots[|s.slots|]); }
    assert multiset(s.h.senders)[ds] == 0;
    forall x: Sender
      ensures SenderCount(t.slots, x) + multiset(t.retired)[x] + multiset(t.h.freed)[x]
           == multiset(t.h.senders)[x] <= 1
    {
    }
  }

  lemma {:induction false} ConnectCounts(s: State, pipe: int, id: nat)
    requires Counters(s) && Conserved(s, {}) && WorkConserving(s) && Answers(s)
    ensures var t := HandleConnect(s, pipe, id); Counters(t) && Conserved(t, {}) && WorkConserving(t) && Answers(t)
  {
    var t := HandleConnect(s, pipe, id);
    if !s.stopped { CountPush(s.slots, t.slots[|s.slots|]); }
    forall c: Ctx ensures Places(t, c) == Places(s, c) {
    }
  }

  lemma {:induction false} ConnectBarrier(s: State, pipe: int, id: nat)
    requires SlotsOk(s) && Barrier(s) && pipe !in s.h.pipes
    ensures SlotsOk(HandleConnect(s, pipe, id)) && Barrier(HandleConnect(s, pipe, id))
  {
  }

  lemma {:induction false} ConnectKeeps(s: State, pipe: int, id: nat)
    requires Inv(s) && pipe !in s.h.pipes && forall x :: x in s.h.senders ==> x.id != id
    ensures Inv(HandleConnect(s, pipe, id))
  {
    ConnectSenders(s, pipe, id);
    ConnectCounts(s, pipe, id);
    ConnectBarrier(s, pipe, id);
  }

  lemma {:induction false} FreedAreSenders(s: State)
    requires SendersOk(s)
    ensures forall x :: x in s.h.freed ==> x in s.h.senders
  {
    forall x | x in s.h.freed ensures x in s.h.senders {
      assert multiset(s.h.freed)[x] > 0;
      assert multiset(s.h.senders)[x] > 0;
    }
  }

  /** The context that the removal or the idling of a slot sets on its way. */
  function LooseOf(slot: Slot): set<Ctx> { if slot.state == DaemonBusy then {slot.ctx} else {} }

  lemma {:induction false} RemoveKeeps(s: State, i: nat)
    requires Core(s, {}) && i < |s.slots|
    ensures Core(TakeSlot(s, i), LooseOf(s.slots[i]))
  {
    RemoveCounters(s, i);
    RemoveConserves(s, i);
    RemoveSenders(s, i, TakeSlot(s, i));
    RemoveBarrier(s, i);
    RemoveAnswers(s, i);
  }

  /** Taking a slot away makes no daemon eligible. */
  lemma {:induction false} RemoveWorks(s: State, i: nat)
    requires WorkConserving(s) && i < |s.slots|
    ensures WorkConserving(TakeSlot(s, i))
  {
    var t := TakeSlot(s, i);
    if !t.stopped && t.inq != [] {
      forall k | 0 <= k < |t.slots| ensures !Eligible(t.slots[k], t.syncing, t.gen) {
        assert !Eligible(s.slots[k], s.syncing, s.gen);
        assert !Eligible(s.slots[|s.slots| - 1], s.syncing, s.gen);
      }
    }
  }

  lemma {:induction false} SameWork(s: State, t: State)
    requires WorkConserving(s) && t.stopped == s.stopped && t.inq == s.inq
    requires t.slots == s.slots && t.syncing == s.syncing && t.gen == s.gen
    ensures WorkConserving(t)
  {
  }

  lemma {:induction false} RemoveCounters(s: State, i: nat)
    requires Counters(s) && i < |s.slots|
    ensures Counters(TakeSlot(s, i))
  {
    BusyPopSwap(s.slots, i);
    LivePopSwap(s.slots, i);
  }

  lemma {:induction false} RemoveBarrier(s: State, i: nat)
    requires SlotsOk(s) && Barrier(s) && i < |s.slots|
    ensures SlotsOk(TakeSlot(s, i)) && Barrier(TakeSlot(s, i))
  {
  }

  lemma {:induction false} RemoveAnswers(s: State, i: nat)
    requires Answers(s) && i < |s.slots|
    ensures Answers(TakeSlot(s, i))
  {
  }

  lemma {:induction false} RemoveConserves(s: State, i: nat)
    requires Conserved(s, {}) && i < |s.slots|
    ensures Conserved(TakeSlot(s, i), LooseOf(s.slots[i]))
  {
    var t := TakeSlot(s, i);
    forall c: Ctx ensures Places(t, c) + (if c in LooseOf(s.slots[i]) then 1 else 0) == Places(s, c) {
      WorkPopSwap(s.slots, i, c);
    }
    Reconserve(s, t, {}, LooseOf(s.slots[i]));
  }

  lemma {:induction false} RemoveSenders(s: State, i: nat, t: State)
    requires SendersOk(s) && i < |s.slots|
    requires t.slots == PopSwap(s.slots, i) && t.retired == [s.slots[i].ds] + s.retired && t.h == s.h
    requires t.sending == s.sending
    ensures SendersOk(t)
  {
    forall x: Sender
      ensures SenderCount(t.slots, x) + multiset(t.retired)[x] == SenderCount(s.slots, x) + multiset(s.retired)[x]
    {
      SenderPopSwap(s.slots, i, x);
    }
  }

  /** Slot i idle, with its count adjusted: a daemon ready after initialization, or one whose
      task is finished and whose context goes on its way. */
  ghost predicate Idles(s: State, t: State, i: nat) {
    i < |s.slots|
    && (|| (s.slots[i].state == DaemonInit && t == ReadySlot(s, i))
        || (s.slots[i].state == DaemonBusy && t == FinishSlot(s, i)))
  }

  lemma {:induction false} IdleKeeps(s: State, t: State, i: nat)
    requires Core(s, {}) && Idles(s, t, i)
    ensures Core(t, LooseOf(s.slots[i]))
  {
    IdleCounters(s, t, i);
    IdleSenders(s, t, i);
    IdleConserves(s, t, i);
    IdleRest(s, t, i);
  }

  lemma {:induction false} IdleCounters(s: State, t: State, i: nat)
    requires Counters(s) && Idles(s, t, i)
    ensures Counters(t)
  {
    BusyUpdate(s.slots, i, t.slots[i]);
    LiveUpdate(s.slots, i, t.slots[i]);
  }

  lemma {:induction false} IdleSenders(s: State, t: State, i: nat)
    requires SendersOk(s) && Idles(s, t, i)
    ensures SendersOk(t)
  {
    forall y: Sender ensures SenderCount(t.slots, y) == SenderCount(s.slots, y) {
      SenderUpdate(s.slots, i, t.slots[i], y);
    }
  }

  lemma {:induction false} IdleConserves(s: State, t: State, i: nat)
    requires Conserved(s, {}) && Idles(s, t, i)
    ensures Conserved(t, LooseOf(s.slots[i]))
  {
    forall c: Ctx ensures Places(t, c) + (if c in LooseOf(s.slots[i]) then 1 else 0) == Places(s, c) {
      WorkUpdate(s.slots, i, t.slots[i], c);
    }
    Reconserve(s, t, {}, LooseOf(s.slots[i]));
  }

  lemma {:induction false} IdleRest(s: State, t: State, i: nat)
    requires SlotsOk(s) && Barrier(s) && Answers(s) && Idles(s, t, i)
    ensures SlotsOk(t) && Barrier(t) && Answers(t)
  {
  }

  lemma {:induction false} SentKeeps(s: State, ds: Sender)
    requires Inv(s)
    ensures Inv(s.(sending := s.sending - {ds}))
  {
  }

  lemma {:induction false} InitKeeps(s: State, ds: Sender, ok: bool)
    requires Inv(s)
    ensures Inv(HandleInit(s, ds, ok))
  {
    hide Core;
    SentKeeps(s, ds);
    var u := s.(sending := s.sending - {ds});
    var i := FindDaemon(u.slots, ds.pipe);
    if ok && i < |u.slots| && u.slots[i].ds == ds && u.slots[i].state == DaemonInit {
      var t := ReadySlot(u, i);
      IdleKeeps(u, t, i);
      if !s.stopped { DrainKeeps(t, {}); }
    }
  }

  // ----- replies

  /** A context on its way is held for its reply; finished holders are closed. */
  lemma {:induction false} ReplyKeeps(s: State, ctx: Ctx, busy: set<Ctx>)
    requires Core(s, {ctx})
    ensures Core(ReplySend(s, ctx, busy), {})
  {
    var t := ReplySend(s, ctx, busy);
    SelectSplits(s.active, busy);
    forall c: Ctx ensures Places(t, c) == Places(s, c) + if c == ctx then 1 else 0 {
      assert multiset(Select(s.active, busy, true))[c] + multiset(Select(s.active, busy, false))[c]
          == multiset(s.active)[c];
    }
    Reconserve(s, t, {ctx}, {});
  }

  lemma {:induction false} SignalKeeps(s: State, pipe: int, loose: set<Ctx>)
    requires Core(s, loose)
    ensures Core(QueueSignal(s, pipe), loose)
  {
  }

  lemma {:induction false} NoteKeeps(s: State, pipe: int, ctx: Ctx)
    requires Core(s, {}) && WasGiven(s.h.given, pipe, ctx)
    ensures Core(NoteReply(s, pipe, ctx), {})
  {
  }

  lemma {:induction false} NoteInv(s: State, pipe: int, i: nat)
    requires Inv(s) && i < |s.slots| && s.slots[i].state == DaemonBusy && s.slots[i].pipe == pipe
    ensures Inv(NoteReply(s, pipe, s.slots[i].ctx))
  {
    LastWasGiven(s.h.given, pipe, s.slots[i].ctx);
    NoteKeeps(s, pipe, s.slots[i].ctx);
    SameWork(s, NoteReply(s, pipe, s.slots[i].ctx));
  }

  lemma {:induction false} ReplyInv(s: State, ctx: Ctx, busy: set<Ctx>)
    requires Core(s, {ctx}) && WorkConserving(s)
    ensures Inv(ReplySend(s, ctx, busy))
  {
    ReplyKeeps(s, ctx, busy);
    SameWork(s, ReplySend(s, ctx, busy));
  }

  /** A daemon leaves with its last reply. */
  lemma {:induction false} MarkerKeeps(s: State, i: nat, pipe: int, ctx: Ctx, busy: set<Ctx>)
    requires Inv(s) && i < |s.slots| && s.slots[i].state == DaemonBusy && s.slots[i].ctx == ctx
    ensures Inv(ReplySend(QueueSignal(TakeSlot(s, i), pipe), ctx, busy))
  {
    var t := TakeSlot(s, i);
    RemoveKeeps(s, i);
    RemoveWorks(s, i);
    SignalKeeps(t, pipe, {ctx});
    SameWork(t, QueueSignal(t, pipe));
    ReplyInv(QueueSignal(t, pipe), ctx, busy);
  }

  /** A daemon replies and is free for more. */
  lemma {:induction false} FinishKeeps(s: State, i: nat, ctx: Ctx, busy: set<Ctx>)
    requires Inv(s) && i < |s.slots| && s.slots[i].state == DaemonBusy && s.slots[i].ctx == ctx
    ensures Inv(ReplySend(Drain(FinishSlot(s, i)), ctx, busy))
  {
    var t := FinishSlot(s, i);
    IdleKeeps(s, t, i);
    DrainKeeps(t, {ctx});
    ReplyInv(Drain(t), ctx, busy);
  }

  lemma {:induction false} MarkerRecv(s: State, i: nat, pipe: int, busy: set<Ctx>)
    requires Inv(s) && !s.stopped && i < |s.slots| && s.slots[i].state == DaemonBusy && FindDaemon(s.slots, pipe) == i
    ensures Inv(HandleDaemonRecv(s, pipe, true, busy))
  {
    NoteInv(s, pipe, i);
    MarkerKeeps(NoteReply(s, pipe, s.slots[i].ctx), i, pipe, s.slots[i].ctx, busy);
  }

  lemma {:induction false} FinishRecv(s: State, i: nat, pipe: int, busy: set<Ctx>)
    requires Inv(s) && !s.stopped && i < |s.slots| && s.slots[i].state == DaemonBusy && FindDaemon(s.slots, pipe) == i
    ensures Inv(HandleDaemonRecv(s, pipe, false, busy))
  {
    NoteInv(s, pipe, i);
    FinishKeeps(NoteReply(s, pipe, s.slots[i].ctx), i, s.slots[i].ctx, busy);
  }

  lemma {:induction false} DaemonRecvKeeps(s: State, pipe: int, marker: bool, busy: set<Ctx>)
    requires Inv(s)
    ensures Inv(HandleDaemonRecv(s, pipe, marker, busy))
  {
    var i := FindDaemon(s.slots, pipe);
    if !s.stopped && i < |s.slots| && s.slots[i].state == DaemonBusy {
      if marker { MarkerRecv(s, i, pipe, busy); } else { FinishRecv(s, i, pipe, busy); }
    }
  }

  // ----- disconnects

  lemma {:induction false} InHandKeeps(s: State, ctx: Ctx, stopped: bool)
    requires Core(s, {ctx})
    ensures Core(TakeInHand(s, ctx, stopped), {})
  {
    var t := TakeInHand(s, ctx, stopped);
    HandAppend(s.h.inHand, [InHand(ctx, stopped)]);
    assert HandCtxs([InHand(ctx, stopped)]) == [ctx];
    forall c: Ctx ensures Places(t, c) == Places(s, c) + if c == ctx then 1 else 0 {
    }
    Reconserve(s, t, {ctx}, {});
  }

  lemma {:induction false} DisconnectTakeKeeps(s: State, pipe: int)
    requires Inv(s)
    ensures Inv(HandleDisconnectTake(s, pipe))
  {
    hide Core;
    var i := FindDaemon(s.slots, pipe);
    if i < |s.slots| {
      var t := TakeSlot(s, i);
      RemoveKeeps(s, i);
      RemoveWorks(s, i);
      if s.slots[i].state == DaemonBusy {
        InHandKeeps(t, s.slots[i].ctx, s.stopped);
        SameWork(t, TakeInHand(t, s.slots[i].ctx, s.stopped));
      }
    }
  }

  lemma {:induction false} LetGoKeeps(s: State, at: nat)
    requires Core(s, {}) && at < |s.h.inHand|
    ensures Core(LetGo(s, at), {s.h.inHand[at].ctx})
  {
    var x, t := s.h.inHand[at], LetGo(s, at);
    SplitHand(s.h.inHand, at);
    forall c: Ctx ensures Places(t, c) + (if c == x.ctx then 1 else 0) == Places(s, c) {
    }
    Reconserve(s, t, {}, {x.ctx});
  }

  lemma {:induction false} SplitHand(inHand: seq<InHand>, at: nat)
    requires at < |inHand|
    ensures forall c :: multiset(HandCtxs(inHand[..at] + inHand[at + 1..]))[c] + (if c == inHand[at].ctx then 1 else 0)
                     == multiset(HandCtxs(inHand))[c]
  {
    var p, q := inHand[..at], inHand[at + 1..];
    HandAppend(p, q);
    HandAppend(p, [inHand[at]]);
    HandAppend(p + [inHand[at]], q);
    assert inHand == p + [inHand[at]] + q;
    assert HandCtxs([inHand[at]]) == [inHand[at].ctx];
  }

  lemma {:induction false} CloseKeeps(s: State, ctx: Ctx)
    requires Core(s, {ctx})
    ensures Core(Close(s, [ctx]), {})
  {
    forall c: Ctx ensures Places(Close(s, [ctx]), c) == Places(s, c) + if c == ctx then 1 else 0 {
    }
    Reconserve(s, Close(s, [ctx]), {ctx}, {});
  }

  lemma {:induction false} DisconnectReplyKeeps(s: State, at: nat, busy: set<Ctx>)
    requires Inv(s) && at < |s.h.inHand|
    ensures Inv(HandleDisconnectReply(s, at, busy))
  {
    var x := s.h.inHand[at];
    LetGoKeeps(s, at);
    if x.stopped { CloseKeeps(LetGo(s, at), x.ctx); } else { ReplyKeeps(LetGo(s, at), x.ctx, busy); }
  }

  // ----- the rest

  lemma {:induction false} ReapKeeps(s: State, busy: set<Sender>)
    requires Inv(s)
    ensures Inv(ReapRetired(s, busy))
  {
    var t := ReapRetired(s, busy);
    SelectSendersSplits(s.retired, s.sending, busy);
    forall x: Sender ensures
      SenderCount(t.slots, x) + multiset(t.retired)[x] + multiset(t.h.freed)[x] == multiset(t.h.senders)[x] <= 1 {
      assert multiset(s.retired)[x] == multiset(SelectSenders(s.retired, s.sending, busy, true))[x]
                                     + multiset(SelectSenders(s.retired, s.sending, busy, false))[x];
    }
  }

  lemma {:induction false} SplitTask(inq: seq<Task>, i: nat)
    requires i < |inq|
    ensures Ctxs(inq) == Ctxs(inq[..i]) + [inq[i].ctx] + Ctxs(inq[i + 1..])
    ensures Ctxs(inq[..i] + inq[i + 1..]) == Ctxs(inq[..i]) + Ctxs(inq[i + 1..])
    ensures Bytes(inq) == Bytes(inq[..i] + inq[i + 1..]) + inq[i].len
  {
    var p, q := inq[..i], inq[i + 1..];
    CtxsAppend(p, q);
    CtxsAppend(p, [inq[i]]);
    CtxsAppend(p + [inq[i]], q);
    assert inq == p + [inq[i]] + q;
    assert Ctxs([inq[i]]) == [inq[i].ctx] && Bytes([inq[i]]) == inq[i].len;
  }

  lemma {:induction false} UnqueueKeeps(s: State, i: nat)
    requires Core(s, {}) && i < |s.inq|
    ensures Core(Unqueue(s, i), {s.inq[i].ctx})
  {
    UnqueueConserves(s, i);
    UnqueueFifo(s, i);
  }

  lemma {:induction false} UnqueueConserves(s: State, i: nat)
    requires Counters(s) && Conserved(s, {}) && i < |s.inq|
    ensures Counters(Unqueue(s, i)) && Conserved(Unqueue(s, i), {s.inq[i].ctx})
  {
    var t := Unqueue(s, i);
    SplitTask(s.inq, i);
    forall c: Ctx ensures Places(t, c) + (if c == s.inq[i].ctx then 1 else 0) == Places(s, c) {
    }
    Reconserve(s, t, {}, {s.inq[i].ctx});
  }

  /** A task cancelled in the queue drops out of the order of the live requests. */
  lemma {:induction false} UnqueueFifo(s: State, i: nat)
    requires Fifo(s) && NoDup(s.h.accepted) && i < |s.inq|
    ensures Fifo(Unqueue(s, i))
  {
    var c := s.inq[i].ctx;
    var all := Live(s.h.accepted, s.h.cancelled);
    SplitTask(s.inq, i);
    LiveSub(s.h.accepted, s.h.cancelled);
    DropOne(all, GivenCtxs(s.h.given), Ctxs(s.inq[..i]), c, Ctxs(s.inq[i + 1..]));
    LiveCancel(s.h.accepted, s.h.cancelled, c);
  }

  lemma {:induction false} DropOne(all: seq<Ctx>, g: seq<Ctx>, a: seq<Ctx>, c: Ctx, b: seq<Ctx>)
    requires all == g + (a + [c] + b) && NoDup(all)
    ensures Without(all, c) == g + (a + b) && c in all
  {
    assert all == (g + a) + [c] + b;
    assert all[|g + a|] == c;
    WithoutOne(g + a, c, b);
    assert (g + a) + b == g + (a + b);
  }

  lemma {:induction false} OnlyOnce(p: seq<Ctx>, c: Ctx, q: seq<Ctx>)
    requires NoDup(p + [c] + q)
    ensures c !in p && c !in q
  {
    var all := p + [c] + q;
    assert all[|p|] == c;
    forall k | 0 <= k < |p| ensures p[k] != c { assert all[k] == p[k]; }
    forall k | 0 <= k < |q| ensures q[k] != c { assert all[|p| + 1 + k] == q[k]; }
  }

  lemma {:induction false} WithoutOne(p: seq<Ctx>, c: Ctx, q: seq<Ctx>)
    requires NoDup(p + [c] + q)
    ensures Without(p + [c] + q, c) == p + q
  {
    hide NoDup;
    OnlyOnce(p, c, q);
    WithoutAppend(p + [c], q, c);
    WithoutAppend(p, [c], c);
    WithoutAbsent(p, c);
    WithoutAbsent(q, c);
    assert Without([c], c) == [] && p + [] == p;
  }

  lemma {:induction false} CancelKeeps(s: State, msgid: int)
    requires Inv(s)
    ensures Inv(HandleCancel(s, msgid))
  {
    var i, j := FindBusy(s.slots, msgid), FindTask(s.inq, msgid);
    if i < |s.slots| {
      SignalKeeps(s, s.slots[i].pipe, {});
    } else if j < |s.inq| {
      UnqueueKeeps(s, j);
      CloseKeeps(Unqueue(s, j), s.inq[j].ctx);
    }
  }

  lemma {:induction false} SignalDoneKeeps(s: State)
    requires Inv(s) && s.sigActive
    ensures Inv(HandleSignalDone(s))
  {
  }

  lemma {:induction false} StopKeeps(s: State)
    requires Inv(s)
    ensures Inv(s.(stopped := true))
  {
  }

  /** Every event keeps the invariants. */
  lemma {:induction false} ApplyKeeps(s: State, e: Event)
    requires Inv(s) && Enabled(s, e)
    ensures Inv(Apply(s, e))
  {
    match e
    case Connect(pipe, id) => ConnectKeeps(s, pipe, id);
    case InitDone(ds, ok) => InitKeeps(s, ds, ok);
    case HostRecv(msgid, isSync, len, next) => HostRecvKeeps(s, msgid, isSync, len, next);
    case DaemonRecv(pipe, marker, busy) => DaemonRecvKeeps(s, pipe, marker, busy);
    case DisconnectTake(pipe) => DisconnectTakeKeeps(s, pipe);
    case DisconnectReply(at, busy) => DisconnectReplyKeeps(s, at, busy);
    case Reap(busy) => ReapKeeps(s, busy);
    case Cancel(msgid) => CancelKeeps(s, msgid);
    case SignalDone => SignalDoneKeeps(s);
    case Stop => StopKeeps(s);
  }

  lemma {:induction false} InitConserved(host: Ctx)
    ensures Conserved(Init(host), {})
  {
    forall c: Ctx ensures Places(Init(host), c) == 0 {
    }
  }

  lemma {:induction false} InitSenders(host: Ctx)
    ensures SendersOk(Init(host))
  {
  }

  lemma {:induction false} InitHistory(host: Ctx)
    ensures Barrier(Init(host)) && Answers(Init(host)) && Fifo(Init(host)) && Counters(Init(host))
  {
  }

  lemma {:induction false} InitHolds(host: Ctx)
    ensures Inv(Init(host))
  {
    hide Conserved, SendersOk, Barrier, Answers, Fifo, Counters;
    InitConserved(host);
    InitSenders(host);
    InitHistory(host);
  }

  /** Every state of every run satisfies the invariants. */
  lemma {:induction false} RunKeeps(s: State, run: seq<Event>)
    requires Inv(s) && Legal(s, run)
    ensures Inv(After(s, run))
    decreases run
  {
    if run != [] {
      ApplyKeeps(s, run[0]);
      RunKeeps(Apply(s, run[0]), run[1..]);
    }
  }
}
