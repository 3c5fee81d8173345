/** What every locked region of the dispatcher keeps. */
module DispatcherInvariants {
  import opened DispatcherModel

  // ----- counts over the slots

  function BusyOf(slot: Slot): nat { if slot.state == DaemonBusy then 1 else 0 }

  function LiveOf(slot: Slot): nat { if slot.state != DaemonInit then 1 else 0 }

  function WorkOf(slot: Slot, c: Ctx): nat { if slot.state == DaemonBusy && slot.ctx == c then 1 else 0 }

  function SenderOf(slot: Slot, x: Sender): nat { if slot.ds == x then 1 else 0 }

  /** Busy slots. */
  function BusyCount(slots: seq<Slot>): nat {
    if slots == [] then 0 else BusyCount(slots[..|slots| - 1]) + BusyOf(slots[|slots| - 1])
  }

  /** Slots past initialization. */
  function LiveCount(slots: seq<Slot>): nat {
    if slots == [] then 0 else LiveCount(slots[..|slots| - 1]) + LiveOf(slots[|slots| - 1])
  }

  /** Busy slots that work on context c. */
  function WorkCount(slots: seq<Slot>, c: Ctx): nat {
    if slots == [] then 0 else WorkCount(slots[..|slots| - 1], c) + WorkOf(slots[|slots| - 1], c)
  }

  /** Slots whose sender is x. */
  function SenderCount(slots: seq<Slot>, x: Sender): nat {
    if slots == [] then 0 else SenderCount(slots[..|slots| - 1], x) + SenderOf(slots[|slots| - 1], x)
  }

  function Ctxs(inq: seq<Task>): seq<Ctx> {
    if inq == [] then [] else [inq[0].ctx] + Ctxs(inq[1..])
  }

  function Bytes(inq: seq<Task>): nat {
    if inq == [] then 0 else inq[0].len + Bytes(inq[1..])
  }

  function HandCtxs(inHand: seq<InHand>): seq<Ctx> {
    if inHand == [] then [] else [inHand[0].ctx] + HandCtxs(inHand[1..])
  }

  function GivenCtxs(given: seq<Assignment>): seq<Ctx> {
    if given == [] then [] else GivenCtxs(given[..|given| - 1]) + [given[|given| - 1].ctx]
  }

  // Replacing a slot exchanges its part of a count; pop-swapping it takes its part out.

  lemma {:induction false} BusyUpdate(slots: seq<Slot>, i: nat, x: Slot)
    requires i < |slots|
    ensures BusyCount(slots[i := x]) + BusyOf(slots[i]) == BusyCount(slots) + BusyOf(x)
  {
    var n := |slots| - 1;
    if i == n {
      assert slots[i := x][..n] == slots[..n];
    } else {
      BusyUpdate(slots[..n], i, x);
      assert slots[i := x][..n] == slots[..n][i := x];
    }
  }

  lemma {:induction false} BusyPopSwap(slots: seq<Slot>, i: nat)
    requires i < |slots|
    ensures BusyCount(PopSwap(slots, i)) + BusyOf(slots[i]) == BusyCount(slots)
  {
    var n := |slots| - 1;
    if i == n {
      assert PopSwap(slots, i) == slots[..n];
    } else {
      BusyUpdate(slots[..n], i, slots[n]);
      assert PopSwap(slots, i) == slots[..n][i := slots[n]];
    }
  }

  lemma {:induction false} LiveUpdate(slots: seq<Slot>, i: nat, x: Slot)
    requires i < |slots|
    ensures LiveCount(slots[i := x]) + LiveOf(slots[i]) == LiveCount(slots) + LiveOf(x)
  {
    var n := |slots| - 1;
    if i == n {
      assert slots[i := x][..n] == slots[..n];
    } else {
      LiveUpdate(slots[..n], i, x);
      assert slots[i := x][..n] == slots[..n][i := x];
    }
  }

  lemma {:induction false} LivePopSwap(slots: seq<Slot>, i: nat)
    requires i < |slots|
    ensures LiveCount(PopSwap(slots, i)) + LiveOf(slots[i]) == LiveCount(slots)
  {
    var n := |slots| - 1;
    if i == n {
      assert PopSwap(slots, i) == slots[..n];
    } else {
      LiveUpdate(slots[..n], i, slots[n]);
      assert PopSwap(slots, i) == slots[..n][i := slots[n]];
    }
  }

  lemma {:induction false} WorkUpdate(slots: seq<Slot>, i: nat, x: Slot, c: Ctx)
    requires i < |slots|
    ensures WorkCount(slots[i := x], c) + WorkOf(slots[i], c) == WorkCount(slots, c) + WorkOf(x, c)
  {
    var n := |slots| - 1;
    if i == n {
      assert slots[i := x][..n] == slots[..n];
    } else {
      WorkUpdate(slots[..n], i, x, c);
      assert slots[i := x][..n] == slots[..n][i := x];
    }
  }

  lemma {:induction false} WorkPopSwap(slots: seq<Slot>, i: nat, c: Ctx)
    requires i < |slots|
    ensures WorkCount(PopSwap(slots, i), c) + WorkOf(slots[i], c) == WorkCount(slots, c)
  {
    var n := |slots| - 1;
    if i == n {
      assert PopSwap(slots, i) == slots[..n];
    } else {
      WorkUpdate(slots[..n], i, slots[n], c);
      assert PopSwap(slots, i) == slots[..n][i := slots[n]];
    }
  }

  lemma {:induction false} SenderUpdate(slots: seq<Slot>, i: nat, x: Slot, y: Sender)
    requires i < |slots|
    ensures SenderCount(slots[i := x], y) + SenderOf(slots[i], y) == SenderCount(slots, y) + SenderOf(x, y)
  {
    var n := |slots| - 1;
    if i == n {
      assert slots[i := x][..n] == slots[..n];
    } else {
      SenderUpdate(slots[..n], i, x, y);
      assert slots[i := x][..n] == slots[..n][i := x];
    }
  }

  lemma {:induction false} SenderPopSwap(slots: seq<Slot>, i: nat, y: Sender)
    requires i < |slots|
    ensures SenderCount(PopSwap(slots, i), y) + SenderOf(slots[i], y) == SenderCount(slots, y)
  {
    var n := |slots| - 1;
    if i == n {
      assert PopSwap(slots, i) == slots[..n];
    } else {
      SenderUpdate(slots[..n], i, slots[n], y);
      assert PopSwap(slots, i) == slots[..n][i := slots[n]];
    }
  }

  lemma {:induction false} CtxsAppend(p: seq<Task>, q: seq<Task>)
    ensures Ctxs(p + q) == Ctxs(p) + Ctxs(q) && |Ctxs(p)| == |p| && Bytes(p + q) == Bytes(p) + Bytes(q)
  {
    if p == [] {
      assert p + q == q;
    } else {
      assert (p + q)[1..] == p[1..] + q;
      CtxsAppend(p[1..], q);
    }
  }

  lemma {:induction false} HandAppend(p: seq<InHand>, q: seq<InHand>)
    ensures HandCtxs(p + q) == HandCtxs(p) + HandCtxs(q)
  {
    if p == [] {
      assert p + q == q;
    } else {
      assert (p + q)[1..] == p[1..] + q;
      HandAppend(p[1..], q);
    }
  }

  lemma {:induction false} SelectSplits(active: seq<Ctx>, busy: set<Ctx>)
    ensures multiset(Select(active, busy, true)) + multiset(Select(active, busy, false)) == multiset(active)
    ensures |Select(active, busy, true)| + |Select(active, busy, false)| == |active|
  {
    if active != [] {
      SelectSplits(active[1..], busy);
      assert active == [active[0]] + active[1..];
    }
  }

  lemma {:induction false} SelectSendersSplits(retired: seq<Sender>, sending: set<Sender>, busy: set<Sender>)
    ensures multiset(SelectSenders(retired, sending, busy, true))
            + multiset(SelectSenders(retired, sending, busy, false))
         == multiset(retired)
    ensures forall x :: x in SelectSenders(retired, sending, busy, true) ==> x !in sending
  {
    if retired != [] {
      SelectSendersSplits(retired[1..], sending, busy);
      assert retired == [retired[0]] + retired[1..];
    }
  }

  // ----- the invariants

  ghost predicate NoDup<T>(s: seq<T>) {
    forall i, j :: 0 <= i < j < |s| ==> s[i] != s[j]
  }

  /** The counters count what they say. */
  ghost predicate Counters(s: State) {
    && s.inqCount == |s.inq| && s.queuedBytes == Bytes(s.inq) <= s.peakBytes
    && s.executing == BusyCount(s.slots) && s.outqCount == LiveCount(s.slots) <= s.connections
    && s.count == |s.h.accepted| && |s.slots| <= s.capacity && s.capacity > 0
    && |s.active| + s.free >= REPLY_POOL
  }

  /** In how many places a request context is: queued, being worked on, held for a reply,
      closed, or in hand. */
  function PlacesIn(inq: seq<Task>, slots: seq<Slot>, active: seq<Ctx>, closed: seq<Ctx>, inHand: seq<InHand>,
                    c: Ctx): nat {
    multiset(Ctxs(inq))[c] + WorkCount(slots, c) + multiset(active)[c] + multiset(closed)[c]
    + multiset(HandCtxs(inHand))[c]
  }

  function Places(s: State, c: Ctx): nat {
    PlacesIn(s.inq, s.slots, s.active, s.h.closed, s.h.inHand, c)
  }

  ghost predicate EachInOnePlace(inq: seq<Task>, slots: seq<Slot>, active: seq<Ctx>, closed: seq<Ctx>,
                                 inHand: seq<InHand>,
      accepted: seq<Ctx>, loose: set<Ctx>)
  {
    && (forall c :: c in loose ==> c in accepted)
    && (forall c: Ctx ::
          PlacesIn(inq, slots, active, closed, inHand, c) == if c in accepted && c !in loose then 1 else 0)
  }

  /** Every accepted context is in exactly one place and no other context is in any; `loose`
      are on their way between two places within one region. */
  ghost predicate Conserved(s: State, loose: set<Ctx>) {
    && EachInOnePlace(s.inq, s.slots, s.active, s.h.closed, s.h.inHand, s.h.accepted, loose)
    && s.hostCtx !in s.h.accepted && NoDup(s.h.accepted)
  }

  /** Requests that were not cancelled, in order of arrival. */
  function Live(accepted: seq<Ctx>, cancelled: set<Ctx>): seq<Ctx> {
    if accepted == [] then []
    else Live(accepted[..|accepted| - 1], cancelled)
         + (if accepted[|accepted| - 1] in cancelled then [] else [accepted[|accepted| - 1]])
  }

  /** The assigned requests and then the queued ones are the live requests in order of arrival. */
  ghost predicate InOrder(given: seq<Assignment>, inq: seq<Task>, accepted: seq<Ctx>, cancelled: set<Ctx>) {
    && GivenCtxs(given) + Ctxs(inq) == Live(accepted, cancelled)
    && forall c :: c in cancelled ==> c in accepted
  }

  ghost predicate Fifo(s: State) {
    InOrder(s.h.given, s.inq, s.h.accepted, s.h.cancelled)
  }

  /** Slots belong to distinct pipes that have connected, each with the sender made for it. */
  ghost predicate PipesOk(slots: seq<Slot>, pipes: set<int>, given: seq<Assignment>) {
    && (forall i, j :: 0 <= i < j < |slots| ==> slots[i].pipe != slots[j].pipe)
    && (forall i :: 0 <= i < |slots| ==> slots[i].pipe in pipes && slots[i].ds.pipe == slots[i].pipe)
    && (forall k :: 0 <= k < |given| ==> given[k].pipe in pipes)
  }

  ghost predicate SlotsOk(s: State) {
    PipesOk(s.slots, s.h.pipes, s.h.given)
  }

  function GenAfter(a: Assignment): int { if a.closing then a.gen + 1 else a.gen }

  /** Generations in the history follow one another up to the present one. */
  ghost predicate Generations(given: seq<Assignment>, gen: int) {
    && (forall k :: 0 <= k < |given| - 1 ==> given[k + 1].gen == GenAfter(given[k]))
    && gen == (if given == [] then 0 else GenAfter(given[|given| - 1]))
    && (forall k :: 0 <= k < |given| ==> given[k].closing ==> !given[k].isSync)
  }

  /** After a sync task in some generation, a pipe gets nothing more until the generation is over. */
  ghost predicate OncePerGeneration(given: seq<Assignment>) {
    forall i, j :: 0 <= i < j < |given| && given[i].isSync && given[j].pipe == given[i].pipe ==>
      given[i].gen < given[j].gen
  }

  /** Slots have been served no later than in the present generation, in it only while a sync
      is on, and no earlier than their pipe's sync tasks say. */
  ghost predicate SlotGenerations(slots: seq<Slot>, given: seq<Assignment>, gen: int, syncing: bool) {
    && (forall i :: 0 <= i < |slots| ==> slots[i].syncGen <= gen && (!syncing ==> slots[i].syncGen < gen))
    && (forall i, k :: 0 <= i < |slots| && 0 <= k < |given| && given[k].isSync && given[k].pipe == slots[i].pipe
          ==> given[k].gen <= slots[i].syncGen)
  }

  ghost predicate Barrier(s: State) {
    Generations(s.h.given, s.gen) && OncePerGeneration(s.h.given)
    && SlotGenerations(s.slots, s.h.given, s.gen, s.syncing)
  }

  /** ctx is the context of the last assignment to the pipe. */
  predicate IsLast(given: seq<Assignment>, pipe: int, ctx: Ctx) {
    given != [] && var a := given[|given| - 1];
    if a.pipe == pipe then a.ctx == ctx else IsLast(given[..|given| - 1], pipe, ctx)
  }

  predicate WasGiven(given: seq<Assignment>, pipe: int, ctx: Ctx) {
    exists k :: 0 <= k < |given| && given[k].pipe == pipe && given[k].ctx == ctx
  }

  /** Busy daemons work on their latest assignment, and replies went to contexts that had
      been assigned to the replying pipe. */
  ghost predicate Matched(slots: seq<Slot>, given: seq<Assignment>, replies: seq<Reply>) {
    && (forall i :: 0 <= i < |slots| && slots[i].state == DaemonBusy ==> IsLast(given, slots[i].pipe, slots[i].ctx))
    && (forall k :: 0 <= k < |replies| ==> WasGiven(given, replies[k].pipe, replies[k].ctx))
  }

  ghost predicate Answers(s: State) {
    Matched(s.slots, s.h.given, s.h.replies)
  }

  /** Every sender is with a slot, retired or freed, once; none is freed while its init send
      is in flight. */
  ghost predicate SendersOnce(slots: seq<Slot>, retired: seq<Sender>, freed: seq<Sender>, senders: seq<Sender>,
                              sending: set<Sender>) {
    && (forall x: Sender ::
          SenderCount(slots, x) + multiset(retired)[x] + multiset(freed)[x] == multiset(senders)[x] <= 1)
    && (forall x :: x in sending ==> x in senders && x !in freed)
  }

  ghost predicate SendersOk(s: State) {
    SendersOnce(s.slots, s.retired, s.h.freed, s.h.senders, s.sending)
  }

  /** No signal waits while the signal sender is idle. */
  ghost predicate SignalsOk(s: State) {
    !s.stopped && !s.sigActive ==> s.sigQueue == []
  }

  ghost predicate NoneEligible(slots: seq<Slot>, syncing: bool, gen: int) {
    forall i :: 0 <= i < |slots| ==> !Eligible(slots[i], syncing, gen)
  }

  /** While tasks wait no daemon is eligible. */
  ghost predicate WorkConserving(s: State) {
    !s.stopped && s.inq != [] ==> NoneEligible(s.slots, s.syncing, s.gen)
  }

  /** The invariants that hold even in the middle of a region. */
  ghost predicate Core(s: State, loose: set<Ctx>) {
    Counters(s) && Conserved(s, loose) && Fifo(s) && SlotsOk(s) && Barrier(s) && Answers(s) && SendersOk(s)
    && SignalsOk(s)
  }

  ghost predicate Inv(s: State) {
    Core(s, {}) && WorkConserving(s)
  }
}
