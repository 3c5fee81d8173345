/** The dispatcher's fields and the code of its locked regions (dispatcher.c), each region
    proved to take the step that the state machine gives it. */
module Dispatcher {
  import opened DispatcherModel
  import M = DispatcherModel
  import opened TaskQueue
  import opened DispatcherInvariants
  import opened DispatcherTheorems

  lemma {:induction false} CancelFound(s: State, msgid: int)
    requires FindTask(s.inq, msgid) < |s.inq|
    ensures var i := FindTask(s.inq, msgid); var t := s.inq[i]; var u := s.(inq := s.inq[..i] + s.inq[i + 1..]);
      M.CancelQueued(s, msgid) == u.(inqCount := u.inqCount - 1, queuedBytes := u.queuedBytes - t.len,
                    h := u.h.(cancelled := u.h.cancelled + {t.ctx}, closed := u.h.closed + [t.ctx]))
  {
  }

  class NanoDispatcher {
    var daemons: array<Slot>
    var nslots: nat
    const inq: Inq
    var inqCount: int
    var queuedBytes: int
    var peakBytes: int
    var outqCount: int
    var connections: int
    var count: int
    var executing: int
    var stopped: bool
    var hostCtx: Ctx
    var retired: seq<Sender>
    var sending: set<Sender>
    var active: seq<Ctx>
    var free: nat
    var sigActive: bool
    var sigQueue: seq<int>
    var syncing: bool
    var gen: int
    ghost var h: History

    ghost predicate Valid()
      reads this, daemons, inq, inq.msgs
    {
      nslots <= daemons.Length && daemons.Length > 0 && inq.Valid()
    }

    ghost function Slots(): seq<Slot>
      reads this, daemons
      requires nslots <= daemons.Length
    {
      daemons[..nslots]
    }

    ghost function Abs(): State
      reads this, daemons, inq, inq.msgs
      requires Valid()
    {
      State(Slots(), daemons.Length, inq.Tasks(), inqCount, queuedBytes, peakBytes, outqCount, connections, count,
            executing, stopped, hostCtx, retired, sending, active, free, sigActive, sigQueue, syncing, gen, h)
    }

    ghost function Foot(): set<object>
      reads this, inq
    {
      {this, daemons, inq} + set m: Msg | m in inq.msgs :: m
    }

    constructor (hostCtx: Ctx)
      ensures Valid() && fresh(Foot()) && Abs() == M.Init(hostCtx)
    {
      daemons := new Slot[INITIAL_SIZE];
      nslots := 0;
      inq := new Inq();
      inqCount, queuedBytes, peakBytes := 0, 0, 0;
      outqCount, connections, count, executing := 0, 0, 0, 0;
      stopped, this.hostCtx := false, hostCtx;
      retired, sending, active, free := [], {}, [], REPLY_POOL;
      sigActive, sigQueue, syncing, gen := false, [], false, 0;
      h := History({}, [], map[], [], {}, [], [], {}, [], [], [], [], []);
    }

    // ----- searches over the slots

    method FindDaemon(pipe: int) returns (i: nat)
      requires Valid()
      ensures i == M.FindDaemon(Slots(), pipe)
    {
      i := 0;
      while i < nslots
        invariant i <= nslots && forall k :: 0 <= k < i ==> daemons[k].pipe != pipe
      {
        if daemons[i].pipe == pipe { return; }
        i := i + 1;
      }
    }

    method FindIdle() returns (i: nat)
      requires Valid()
      ensures i == M.FindIdle(Slots(), syncing, gen)
    {
      i := 0;
      while i < nslots
        invariant i <= nslots && forall k :: 0 <= k < i ==> !Eligible(daemons[k], syncing, gen)
      {
        if daemons[i].state == DaemonIdle && !(syncing && daemons[i].syncGen == gen) { return; }
        i := i + 1;
      }
    }

    // ----- slots

    method Grow()
      requires Valid()
      modifies this`daemons
      ensures Valid() && fresh(daemons) && daemons.Length == 2 * old(daemons.Length) && Slots() == old(Slots())
    {
      var bigger := new Slot[daemons.Length * 2];
      var i := 0;
      while i < nslots
        invariant i <= nslots && bigger[..i] == daemons[..i]
        invariant daemons == old(daemons) && daemons[..nslots] == old(Slots())
        modifies bigger
      {
        bigger[i] := daemons[i];
        i := i + 1;
      }
      daemons := bigger;
    }

    /** A new slot at the end of the array. */
    method AddSlot(pipe: int, ds: Sender)
      requires Valid()
      modifies `daemons, `nslots, daemons
      ensures Valid() && (daemons == old(daemons) || fresh(daemons))
      ensures Slots() == old(Slots()) + [Slot(pipe, DaemonInit, 0, gen - 1, 0, ds)]
      ensures daemons.Length
           == if old(nslots) >= old(daemons.Length) then old(daemons.Length) * 2 else old(daemons.Length)
    {
      if nslots >= daemons.Length {
        Grow();
      }
      daemons[nslots] := Slot(pipe, DaemonInit, 0, gen - 1, 0, ds);
      nslots := nslots + 1;
    }

    method InsertDaemon(pipe: int, ds: Sender)
      requires Valid()
      modifies `daemons, `nslots, daemons
      ensures Valid() && (daemons == old(daemons) || fresh(daemons)) && Abs() == M.InsertDaemon(old(Abs()), pipe, ds)
    {
      AddSlot(pipe, ds);
    }

    /** The slot's sender is retired and the last slot takes its place. */
    method RemoveDaemon(i: nat)
      requires Valid() && i < nslots
      modifies `retired, `outqCount, `nslots, daemons
      ensures Valid() && Slots() == PopSwap(old(Slots()), i) && retired == [old(Slots())[i].ds] + old(retired)
      ensures outqCount == if old(Slots())[i].state != DaemonInit then old(outqCount) - 1 else old(outqCount)
    {
      retired := [daemons[i].ds] + retired;
      if daemons[i].state != DaemonInit {
        outqCount := outqCount - 1;
      }
      nslots := nslots - 1;
      daemons[i] := daemons[nslots];
    }

    method StopAndRemove(i: nat)
      requires Valid() && i < nslots
      modifies `retired, `outqCount, `nslots, `executing, daemons
      ensures Valid() && Slots() == PopSwap(old(Slots()), i) && retired == [old(Slots())[i].ds] + old(retired)
      ensures outqCount == if old(Slots())[i].state != DaemonInit then old(outqCount) - 1 else old(outqCount)
      ensures executing == if old(Slots())[i].state == DaemonBusy then old(executing) - 1 else old(executing)
    {
      if daemons[i].state == DaemonBusy {
        executing := executing - 1;
      }
      RemoveDaemon(i);
    }

    /** A slot goes away with its daemon. */
    method TakeSlot(i: nat)
      requires Valid() && i < |Abs().slots|
      modifies `retired, `outqCount, `nslots, `executing, daemons
      ensures Valid() && Abs() == M.TakeSlot(old(Abs()), i)
    {
      StopAndRemove(i);
    }

    method ReadySlot(i: nat)
      requires Valid() && i < |Abs().slots|
      modifies `connections, `outqCount, daemons
      ensures Valid() && Abs() == M.ReadySlot(old(Abs()), i)
    {
      daemons[i] := daemons[i].(state := DaemonIdle);
      connections := connections + 1;
      outqCount := outqCount + 1;
    }

    method FinishSlot(i: nat)
      requires Valid() && i < |Abs().slots|
      modifies `executing, daemons
      ensures Valid() && Abs() == M.FinishSlot(old(Abs()), i)
    {
      executing := executing - 1;
      daemons[i] := daemons[i].(state := DaemonIdle, msgid := 0);
    }

    // ----- tasks

    method Append(t: Task)
      requires Valid()
      modifies `inqCount, `queuedBytes, `peakBytes, inq, inq.msgs
      ensures Valid() && inq.Tasks() == old(inq.Tasks()) + [t]
      ensures inqCount == old(inqCount) + 1 && queuedBytes == old(queuedBytes) + t.len
      ensures peakBytes
           == if old(queuedBytes) + t.len > old(peakBytes) then old(queuedBytes) + t.len else old(peakBytes)
      ensures forall m :: m in inq.msgs ==> m in old(inq.msgs) || fresh(m)
    {
      inq.Enqueue(t);
      inqCount := inqCount + 1;
      queuedBytes := queuedBytes + t.len;
      if queuedBytes > peakBytes {
        peakBytes := queuedBytes;
      }
    }

    method Enqueue(t: Task)
      requires Valid()
      modifies `inqCount, `queuedBytes, `peakBytes, inq, inq.msgs
      ensures Valid() && Abs() == M.Enqueue(old(Abs()), t)
      ensures forall m :: m in inq.msgs ==> m in old(inq.msgs) || fresh(m)
    {
      Append(t);
    }

    /** The slot starts on the task; the sync state follows. */
    method SetBusy(i: nat, t: Task)
      requires Valid() && i < nslots
      modifies `h, `executing, `syncing, `gen, daemons
      ensures Valid() && executing == old(executing) + 1 && syncing == t.isSync
      ensures gen == if !t.isSync && old(syncing) then old(gen) + 1 else old(gen)
      ensures Slots()
           == old(Slots())[i := old(Slots())[i].(ctx := t.ctx, msgid := t.msgid, state := DaemonBusy,
                                                 syncGen := if t.isSync then old(gen) else old(Slots())[i].syncGen)]
      ensures h == old(h).(given := old(h).given
                + [Assignment(old(Slots())[i].pipe, t.ctx, t.isSync, old(gen), !t.isSync && old(syncing))])
    {
      h := h.(given := h.given + [Assignment(daemons[i].pipe, t.ctx, t.isSync, gen, !t.isSync && syncing)]);
      daemons[i] := daemons[i].(ctx := t.ctx, msgid := t.msgid, state := DaemonBusy);
      executing := executing + 1;
      if t.isSync {
        daemons[i] := daemons[i].(syncGen := gen);
        syncing := true;
      } else if syncing {
        syncing := false;
        gen := gen + 1;
      }
    }

    method AssignTask(i: nat, t: Task)
      requires Valid() && i < |Abs().slots|
      modifies `h, `executing, `syncing, `gen, daemons
      ensures Valid() && Abs() == M.AssignTask(old(Abs()), i, t)
    {
      SetBusy(i, t);
    }

    method PopTask() returns (t: Task)
      requires Valid() && inq.head != null
      modifies `inqCount, `queuedBytes, inq
      ensures Valid() && inqCount == old(inqCount) - 1 && queuedBytes == old(queuedBytes) - t.len
      ensures old(inq.Tasks()) != [] && t == old(inq.Tasks())[0] && inq.Tasks() == old(inq.Tasks())[1..]
      ensures forall m :: m in inq.msgs ==> m in old(inq.msgs)
    {
      t := inq.Pop();
      assert old(inq.Tasks())[1..] == inq.Tasks();
      inqCount := inqCount - 1;
      queuedBytes := queuedBytes - t.len;
    }

    method Dequeue() returns (t: Task)
      requires Valid() && inq.head != null
      modifies `inqCount, `queuedBytes, inq
      ensures Valid() && old(Abs()).inq != [] && t == old(Abs()).inq[0] && Abs() == M.Dequeue(old(Abs()))
      ensures forall m :: m in inq.msgs ==> m in old(inq.msgs)
    {
      t := PopTask();
    }

    /** Hand tasks to eligible daemons until there are no more of the one or the other. */
    method Drain()
      requires Valid()
      modifies `h, `executing, `syncing, `gen, `inqCount, `queuedBytes, daemons, inq
      ensures Valid() && Abs() == M.Drain(old(Abs()))
      ensures forall m :: m in inq.msgs ==> m in old(inq.msgs)
    {
      while inq.head != null
        invariant Valid() && M.Drain(Abs()) == M.Drain(old(Abs()))
        invariant forall m :: m in inq.msgs ==> m in old(inq.msgs)
        decreases |Abs().inq|
      {
        var i := FindIdle();
        if i == nslots { break; }
        var t := Dequeue();
        AssignTask(i, t);
      }
    }

    // ----- replies and signals

    /** Close the contexts of the holders whose sends are done and return the holders to the pool. */
    method Harvest(busy: set<Ctx>)
      modifies `h, `active, `free
      ensures active == Select(old(active), busy, true) && free == old(free) + |Select(old(active), busy, false)|
      ensures h == old(h).(closed := old(h).closed + Select(old(active), busy, false))
    {
      var pp := 0;
      while pp < |active|
        invariant pp <= |active|
        invariant active[..pp] + Select(active[pp..], busy, true) == Select(old(active), busy, true)
        invariant h.closed + Select(active[pp..], busy, false) == old(h).closed + Select(old(active), busy, false)
        invariant free + |Select(active[pp..], busy, false)| == old(free) + |Select(old(active), busy, false)|
        invariant h == old(h).(closed := h.closed)
        decreases |active| - pp
      {
        ghost var kept, rest := active[..pp], active[pp..];
        assert rest[0] == active[pp] && rest[1..] == active[pp + 1..];
        if active[pp] in busy {
          assert active[..pp + 1] == kept + [active[pp]];
          pp := pp + 1;
        } else {
          h := h.(closed := h.closed + [active[pp]]);
          active := active[..pp] + active[pp + 1..];
          free := free + 1;
          assert active[..pp] == kept && active[pp..] == rest[1..];
        }
      }
    }

    /** Harvest the finished holders, then hold the new context. */
    method ReplySend(ctx: Ctx, busy: set<Ctx>)
      requires Valid()
      modifies `h, `active, `free
      ensures Valid() && Abs() == M.ReplySend(old(Abs()), ctx, busy)
    {
      hide Inq.Valid;
      Harvest(busy);
      if free > 0 {
        free := free - 1;
      }
      active := [ctx] + active;
      h := h.(sent := h.sent + [ctx]);
    }

    method SendSignal(pipe: int)
      requires Valid()
      modifies `h, `sigActive
      ensures Valid() && Abs() == M.SendSignal(old(Abs()), pipe)
    {
      sigActive := true;
      h := h.(signalled := h.signalled + [pipe]);
    }

    method QueueSignal(pipe: int)
      requires Valid()
      modifies `h, `sigActive, `sigQueue
      ensures Valid() && Abs() == M.QueueSignal(old(Abs()), pipe)
    {
      if stopped {
        return;
      }
      if !sigActive {
        SendSignal(pipe);
        return;
      }
      sigQueue := sigQueue + [pipe];
    }

    method SignalDone()
      requires Valid()
      modifies `h, `sigActive, `sigQueue
      ensures Valid() && Abs() == HandleSignalDone(old(Abs()))
    {
      if !stopped && sigQueue != [] {
        var pipe := sigQueue[0];
        sigQueue := sigQueue[1..];
        SendSignal(pipe);
      } else {
        sigActive := false;
      }
    }

    // ----- event handlers

    /** A sender for a pipe that has just connected. */
    method MakeSender(pipe: int, id: nat) returns (ds: Sender)
      requires Valid()
      modifies `h
      ensures Valid() && ds == Sender(id, pipe)
      ensures Abs() == old(Abs()).(h := old(h).(pipes := old(h).pipes + {pipe}, senders := old(h).senders + [ds]))
    {
      ds := Sender(id, pipe);
      h := h.(pipes := h.pipes + {pipe}, senders := h.senders + [ds]);
    }

    method FreeSender(ds: Sender)
      requires Valid()
      modifies `h
      ensures Valid() && Abs() == old(Abs()).(h := old(Abs()).h.(freed := old(Abs()).h.freed + [ds]))
    {
      h := h.(freed := h.freed + [ds]);
    }

    method SetSending(ds: Sender, on: bool)
      requires Valid()
      modifies `sending
      ensures Valid()
      ensures Abs() == old(Abs()).(sending := if on then old(Abs()).sending + {ds} else old(Abs()).sending - {ds})
    {
      sending := if on then sending + {ds} else sending - {ds};
    }

    method HandleConnect(pipe: int, id: nat)
      requires Valid()
      modifies `h, `sending, `daemons, `nslots, daemons
      ensures Valid() && Abs() == M.HandleConnect(old(Abs()), pipe, id)
      ensures daemons == old(daemons) || fresh(daemons)
    {
      var ds := MakeSender(pipe, id);
      if stopped {
        FreeSender(ds);
      } else {
        InsertDaemon(pipe, ds);
        SetSending(ds, true);
      }
    }

    method HandleInit(ds: Sender, ok: bool)
      requires Valid()
      modifies this, daemons, inq
      ensures Valid() && Abs() == M.HandleInit(old(Abs()), ds, ok) && daemons == old(daemons)
      ensures forall m :: m in inq.msgs ==> m in old(inq.msgs)
    {
      hide Inq.Tasks;
      SetSending(ds, false);
      var i := FindDaemon(ds.pipe);
      if ok && i < nslots && daemons[i].ds == ds && daemons[i].state == DaemonInit {
        ReadySlot(i);
        if !stopped {
          Drain();
        }
      }
    }

    /** The host's request is counted and a new context takes its place. */
    method AcceptRequest(msgid: int, isSync: bool, len: nat, nextCtx: Ctx) returns (t: Task)
      requires Valid()
      modifies `h, `count, `hostCtx
      ensures Valid() && t == Task(old(Abs()).hostCtx, msgid, isSync, len)
      ensures Abs()
           == old(Abs()).(count := old(Abs()).count + 1, hostCtx := nextCtx,
                             h := old(Abs()).h.(accepted := old(Abs()).h.accepted + [t.ctx],
                                                asked := old(Abs()).h.asked[t.ctx := t]))
    {
      t := Task(hostCtx, msgid, isSync, len);
      count := count + 1;
      h := h.(accepted := h.accepted + [hostCtx], asked := h.asked[hostCtx := t]);
      hostCtx := nextCtx;
    }

    method HandleHostRecv(msgid: int, isSync: bool, len: nat, nextCtx: Ctx)
      requires Valid()
      modifies this, daemons, inq, inq.msgs
      ensures Valid() && Abs() == M.HandleHostRecv(old(Abs()), msgid, isSync, len, nextCtx) && daemons == old(daemons)
      ensures forall m :: m in inq.msgs ==> m in old(inq.msgs) || fresh(m)
    {
      hide NanoDispatcher.Valid;
      if stopped {
        return;
      }
      var t := AcceptRequest(msgid, isSync, len, nextCtx);
      var i := FindIdle();
      if i < nslots {
        AssignTask(i, t);
      } else {
        Enqueue(t);
      }
    }

    method NoteReply(pipe: int, ctx: Ctx)
      requires Valid()
      modifies `h
      ensures Valid() && Abs() == M.NoteReply(old(Abs()), pipe, ctx)
    {
      h := h.(replies := h.replies + [Reply(pipe, ctx)]);
    }

    /** The daemon leaves with its reply. */
    method AnswerLast(i: nat, pipe: int, ctx: Ctx, busy: set<Ctx>)
      requires Valid() && i < |Abs().slots|
      modifies this, daemons
      ensures Valid()
      ensures Abs() == M.ReplySend(M.QueueSignal(M.TakeSlot(M.NoteReply(old(Abs()), pipe, ctx), i), pipe), ctx, busy)
      ensures daemons == old(daemons) && inq.msgs == old(inq.msgs)
    {
      NoteReply(pipe, ctx);
      TakeSlot(i);
      QueueSignal(pipe);
      ReplySend(ctx, busy);
    }

    /** The daemon replies and is free for more. */
    method Answer(i: nat, pipe: int, ctx: Ctx, busy: set<Ctx>)
      requires Valid() && i < |Abs().slots|
      modifies this, daemons, inq
      ensures Valid() && Abs() == M.ReplySend(M.Drain(M.FinishSlot(M.NoteReply(old(Abs()), pipe, ctx), i)), ctx, busy)
      ensures daemons == old(daemons) && forall m :: m in inq.msgs ==> m in old(inq.msgs)
    {
      NoteReply(pipe, ctx);
      FinishSlot(i);
      Drain();
      ReplySend(ctx, busy);
    }

    method HandleDaemonRecv(pipe: int, marker: bool, busy: set<Ctx>)
      requires Valid()
      modifies this, daemons, inq
      ensures Valid() && Abs() == M.HandleDaemonRecv(old(Abs()), pipe, marker, busy) && daemons == old(daemons)
      ensures forall m :: m in inq.msgs ==> m in old(inq.msgs)
    {
      var i := FindDaemon(pipe);
      if !stopped && i < nslots && daemons[i].state == DaemonBusy {
        if marker {
          AnswerLast(i, pipe, daemons[i].ctx, busy);
        } else {
          Answer(i, pipe, daemons[i].ctx, busy);
        }
      }
    }

    method TakeInHand(ctx: Ctx, wasStopped: bool)
      requires Valid()
      modifies `h
      ensures Valid() && Abs() == M.TakeInHand(old(Abs()), ctx, wasStopped)
    {
      h := h.(inHand := h.inHand + [InHand(ctx, wasStopped)], late := if stopped then h.late + {ctx} else h.late);
    }

    /** First region of a disconnect; the caller keeps the context of a busy slot and the
        value of `stopped`. */
    method HandleDisconnectTake(pipe: int) returns (taken: bool, ctx: Ctx, wasStopped: bool)
      requires Valid()
      modifies this, daemons
      ensures Valid() && Abs() == M.HandleDisconnectTake(old(Abs()), pipe) && daemons == old(daemons)
      ensures Abs().h.inHand == old(Abs()).h.inHand + if taken then [InHand(ctx, wasStopped)] else []
    {
      var i := FindDaemon(pipe);
      taken, ctx, wasStopped := false, 0, stopped;
      if i < nslots {
        taken, ctx := daemons[i].state == DaemonBusy, daemons[i].ctx;
        TakeSlot(i);
        if taken {
          TakeInHand(ctx, wasStopped);
        }
      }
    }

    method CloseInHand(ctx: Ctx, ghost at: nat, close: bool)
      requires Valid() && at < |Abs().h.inHand|
      modifies `h
      ensures Valid() && Abs() == if close then M.Close(M.LetGo(old(Abs()), at), [ctx]) else M.LetGo(old(Abs()), at)
    {
      h := h.(inHand := h.inHand[..at] + h.inHand[at + 1..], closed := if close then h.closed + [ctx] else h.closed);
    }

    /** Second region of a disconnect that took a context. */
    method HandleDisconnectReply(ctx: Ctx, wasStopped: bool, ghost at: nat, busy: set<Ctx>)
      requires Valid() && at < |Abs().h.inHand| && Abs().h.inHand[at] == InHand(ctx, wasStopped)
      modifies `h, `active, `free
      ensures Valid() && Abs() == M.HandleDisconnectReply(old(Abs()), at, busy)
    {
      CloseInHand(ctx, at, wasStopped);
      if !wasStopped {
        ReplySend(ctx, busy);
      }
    }

    /** Of the retired senders, `kept` stay and `rest` are still to be looked at. */
    static ghost predicate Reaping(all: seq<Sender>, freed0: seq<Sender>, sending: set<Sender>, busy: set<Sender>,
                                   kept: seq<Sender>, rest: seq<Sender>, freed: seq<Sender>)
    {
      && kept + SelectSenders(rest, sending, busy, false) == SelectSenders(all, sending, busy, false)
      && freed + SelectSenders(rest, sending, busy, true) == freed0 + SelectSenders(all, sending, busy, true)
    }

    static lemma {:induction false} ReapStep(all: seq<Sender>, freed0: seq<Sender>, sending: set<Sender>,
                                            busy: set<Sender>,
                                             kept: seq<Sender>, rest: seq<Sender>, freed: seq<Sender>)
      requires rest != [] && Reaping(all, freed0, sending, busy, kept, rest, freed)
      ensures if rest[0] !in sending && rest[0] !in busy
              then Reaping(all, freed0, sending, busy, kept, rest[1..], freed + [rest[0]])
              else Reaping(all, freed0, sending, busy, kept + [rest[0]], rest[1..], freed)
    {
      var stay, go := SelectSenders(rest[1..], sending, busy, false), SelectSenders(rest[1..], sending, busy, true);
      assert kept + ([rest[0]] + stay) == kept + [rest[0]] + stay && freed + ([rest[0]] + go) == freed + [rest[0]] + go;
      assert [] + stay == stay && [] + go == go;
    }

    /** Unlink the retired senders that are done; they are freed after the region. */
    method UnlinkRetired(busy: set<Sender>)
      modifies `h, `retired
      ensures retired == SelectSenders(old(retired), sending, busy, false)
      ensures h == old(h).(freed := old(h).freed + SelectSenders(old(retired), sending, busy, true))
    {
      hide Reaping;
      var pp := 0;
      ReapStart(retired, h.freed, sending, busy);
      assert retired[..0] == [] && retired[0..] == retired;
      while pp < |retired|
        invariant pp <= |retired| && h == old(h).(freed := h.freed)
        invariant Reaping(old(retired), old(h).freed, sending, busy, retired[..pp], retired[pp..], h.freed)
        decreases |retired| - pp
      {
        ghost var kept, rest := retired[..pp], retired[pp..];
        ReapStep(old(retired), old(h).freed, sending, busy, kept, rest, h.freed);
        assert rest[0] == retired[pp] && rest[1..] == retired[pp + 1..];
        if retired[pp] !in sending && retired[pp] !in busy {
          h := h.(freed := h.freed + [retired[pp]]);
          retired := retired[..pp] + retired[pp + 1..];
          assert retired[..pp] == kept && retired[pp..] == rest[1..];
        } else {
          assert retired[..pp + 1] == kept + [retired[pp]];
          pp := pp + 1;
        }
      }
      assert retired[..pp] == retired && retired[pp..] == [];
      ReapEnd(old(retired), old(h).freed, sending, busy, retired, h.freed);
    }

    static lemma {:induction false} ReapStart(all: seq<Sender>, freed: seq<Sender>, sending: set<Sender>,
                                            busy: set<Sender>)
      ensures Reaping(all, freed, sending, busy, [], all, freed)
    {
    }

    static lemma {:induction false} ReapEnd(all: seq<Sender>, freed0: seq<Sender>, sending: set<Sender>,
                                            busy: set<Sender>,
                                            kept: seq<Sender>, freed: seq<Sender>)
      requires Reaping(all, freed0, sending, busy, kept, [], freed)
      ensures kept == SelectSenders(all, sending, busy, false)
      ensures freed == freed0 + SelectSenders(all, sending, busy, true)
    {
      assert kept + [] == kept && freed + [] == freed;
    }

    method ReapRetired(busy: set<Sender>)
      requires Valid()
      modifies `h, `retired
      ensures Valid() && Abs() == M.ReapRetired(old(Abs()), busy)
    {
      UnlinkRetired(busy);
    }

    method FindBusy(msgid: int) returns (i: nat)
      requires Valid()
      ensures i == M.FindBusy(Slots(), msgid)
    {
      i := 0;
      while i < nslots
        invariant i <= nslots && forall k :: 0 <= k < i ==>
                    !(daemons[k].state == DaemonBusy && daemons[k].msgid == msgid)
      {
        if daemons[i].state == DaemonBusy && daemons[i].msgid == msgid { return; }
        i := i + 1;
      }
    }

    method UnlinkTask(msgid: int) returns (found: bool, t: Task)
      requires Valid()
      modifies inq, inq.msgs
      ensures Valid() && found == (FindTask(old(Abs()).inq, msgid) < |old(Abs()).inq|)
      ensures var s := old(Abs()); var i := FindTask(s.inq, msgid);
        if found then t == s.inq[i] && Abs() == s.(inq := s.inq[..i] + s.inq[i + 1..]) else Abs() == s
      ensures forall m :: m in inq.msgs ==> m in old(inq.msgs)
    {
      found, t := inq.Cancel(msgid);
    }

    /** A task that has left the queue is no longer counted and its context is closed. */
    method Discount(t: Task)
      requires Valid()
      modifies `h, `inqCount, `queuedBytes
      ensures Valid()
      ensures var s := old(Abs());
        Abs() == s.(inqCount := s.inqCount - 1, queuedBytes := s.queuedBytes - t.len,
                    h := s.h.(cancelled := s.h.cancelled + {t.ctx}, closed := s.h.closed + [t.ctx]))
    {
      inqCount := inqCount - 1;
      queuedBytes := queuedBytes - t.len;
      h := h.(cancelled := h.cancelled + {t.ctx}, closed := h.closed + [t.ctx]);
    }

    method CancelQueued(msgid: int) returns (found: bool)
      requires Valid()
      modifies `h, `inqCount, `queuedBytes, inq, inq.msgs
      ensures Valid() && Abs() == M.CancelQueued(old(Abs()), msgid)
      ensures found == (FindTask(old(Abs()).inq, msgid) < |old(Abs()).inq|)
      ensures forall m :: m in inq.msgs ==> m in old(inq.msgs)
    {
      hide NanoDispatcher.Abs, FindTask;
      ghost var s := Abs();
      var t;
      found, t := UnlinkTask(msgid);
      if found {
        Discount(t);
        CancelFound(s, msgid);
      }
    }

    /** Signal the daemon that works on msgid, or else drop the task from the queue. */
    method Cancel(msgid: int) returns (found: bool)
      requires Valid()
      modifies this, inq, inq.msgs
      ensures Valid() && Abs() == M.HandleCancel(old(Abs()), msgid) && daemons == old(daemons)
      ensures found
           <==> M.FindBusy(old(Abs()).slots, msgid) < |old(Abs()).slots|
                || FindTask(old(Abs()).inq, msgid) < |old(Abs()).inq|
      ensures forall m :: m in inq.msgs ==> m in old(inq.msgs)
    {
      var i := FindBusy(msgid);
      if i < nslots {
        QueueSignal(daemons[i].pipe);
        found := true;
      } else {
        found := CancelQueued(msgid);
      }
    }

    method Stop()
      requires Valid()
      modifies `stopped
      ensures Valid() && Abs() == M.Apply(old(Abs()), Event.Stop)
    {
      stopped := true;
    }

    // ----- shutdown

    method FreeRetired()
      modifies `h, `retired
      ensures retired == [] && h == old(h).(freed := old(h).freed + old(retired))
    {
      while retired != []
        invariant h.freed + retired == old(h).freed + old(retired) && h == old(h).(freed := h.freed)
        decreases |retired|
      {
        h := h.(freed := h.freed + [retired[0]]);
        retired := retired[1..];
      }
    }

    /** Free the senders of the slots and close the contexts of the busy ones. */
    method FreeSlots()
      requires Valid()
      modifies `h, `nslots
      ensures Valid() && Slots() == []
      ensures h
           == old(h).(freed := old(h).freed + SlotSenders(old(Slots())),
                         closed := old(h).closed + SlotCtxs(old(Slots())))
    {
      var i := 0;
      while i < nslots
        invariant i <= nslots == old(nslots) && Valid() && Slots() == old(Slots())
        invariant h
               == old(h).(freed := old(h).freed + SlotSenders(old(Slots())[..i]),
                             closed := old(h).closed + SlotCtxs(old(Slots())[..i]))
      {
        assert old(Slots())[..i + 1][..i] == old(Slots())[..i];
        h := h.(freed := h.freed + [daemons[i].ds]);
        if daemons[i].state == DaemonBusy {
          h := h.(closed := h.closed + [daemons[i].ctx]);
        }
        i := i + 1;
      }
      assert old(Slots())[..i] == old(Slots());
      nslots := 0;
    }

    method CloseHolders()
      modifies `h, `active
      ensures active == [] && h == old(h).(closed := old(h).closed + old(active))
    {
      while active != []
        invariant h.closed + active == old(h).closed + old(active) && h == old(h).(closed := h.closed)
        decreases |active|
      {
        h := h.(closed := h.closed + [active[0]]);
        active := active[1..];
      }
    }

    method CloseQueue()
      requires Valid()
      modifies `h, inq
      ensures Valid() && inq.Tasks() == [] && h == old(h).(closed := old(h).closed + Ctxs(old(inq.Tasks())))
      ensures forall m :: m in inq.msgs ==> m in old(inq.msgs)
    {
      hide TasksOf;
      while inq.head != null
        invariant Valid() && h.closed + Ctxs(inq.Tasks()) == old(h).closed + Ctxs(old(inq.Tasks()))
        invariant h == old(h).(closed := h.closed)
        invariant forall m :: m in inq.msgs ==> m in old(inq.msgs)
        decreases |inq.Tasks()|
      {
        ghost var tasks := inq.Tasks();
        var t := inq.Pop();
        assert tasks[1..] == inq.Tasks();
        h := h.(closed := h.closed + [t.ctx]);
      }
    }

    /** Everything the shutdown does to the contexts and the senders. */
    method ReleaseAll()
      requires Valid()
      modifies `h, `retired, `nslots, `active, `sending, inq
      ensures Valid() && Slots() == [] && retired == [] && active == [] && sending == {} && inq.Tasks() == []
      ensures h == old(h).(freed := old(h).freed + old(retired) + SlotSenders(old(Slots())),
                           closed := old(h).closed + SlotCtxs(old(Slots())) + old(active) + [hostCtx]
                                     + Ctxs(old(inq.Tasks())))
    {
      FreeRetired();
      FreeSlots();
      CloseHolders();
      h := h.(closed := h.closed + [hostCtx]);
      CloseQueue();
      sending := {};
    }

    /** Called once the dispatcher has stopped and the pipe callbacks have finished; after it
        the rep socket is closed. */
    method Shutdown()
      requires Valid() && stopped && h.inHand == []
      modifies `h, `retired, `nslots, `active, `sending, inq
      ensures Valid() && Abs() == DispatcherTheorems.Shutdown(old(Abs()))
    {
      ReleaseAll();
    }
  }
}
