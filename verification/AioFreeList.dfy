/** The handshake by which send aios are freed (aio.c): whichever of the completion callback and
    the R finalizer comes second disposes of the aio, but a completion callback must not free
    its own aio, so it only puts it on a free list that a later finalizer or the shutdown empties. */
module AioFreeList {
  type Id = nat

  /** `list` is the free list, its head first; `mode` are the aios whose mode flag is set. */
  datatype State = State(started: set<Id>, mode: set<Id>, list: seq<Id>,
                         completed: set<Id>, finalized: set<Id>, freed: seq<Id>)

  datatype Event = Start(a: Id) | Complete(a: Id) | Finalize(a: Id) | Shutdown

  const INIT := State({}, {}, [], {}, {}, [])

  /** An aio is started once, and after that its callback and its finalizer each come once. */
  predicate Enabled(s: State, e: Event) {
    match e
    case Start(a) => a !in s.started
    case Complete(a) => a in s.started && a !in s.completed
    case Finalize(a) => a in s.started && a !in s.finalized
    case Shutdown => true
  }

  function FreeAll(s: State): State {
    s.(list := [], freed := s.freed + s.list)
  }

  function Apply(s: State, e: Event): State {
    match e
    case Start(a) => s.(started := s.started + {a})
    case Complete(a) =>
      var s := s.(completed := s.completed + {a});
      if a in s.mode then s.(list := [a] + s.list) else s.(mode := s.mode + {a})
    case Finalize(a) =>
      var s := FreeAll(s.(finalized := s.finalized + {a}));
      if a in s.mode then s.(freed := s.freed + [a]) else s.(mode := s.mode + {a})
    case Shutdown => FreeAll(s)
  }

  predicate Legal(s: State, run: seq<Event>)
    decreases run
  {
    run == [] || (Enabled(s, run[0]) && Legal(Apply(s, run[0]), run[1..]))
  }

  function After(s: State, run: seq<Event>): State
    decreases run
  {
    if run == [] then s else After(Apply(s, run[0]), run[1..])
  }

  /** The aios that are both completed and finalized are on the list or freed, once. */
  ghost predicate Inv(s: State) {
    && s.mode == s.completed + s.finalized && s.mode <= s.started
    && forall a: Id ::
         multiset(s.list)[a] + multiset(s.freed)[a] == if a in s.completed && a in s.finalized then 1 else 0
  }

  function Sum(s: State, a: Id): nat { multiset(s.list)[a] + multiset(s.freed)[a] }

  lemma {:induction false} CompleteKeeps(s: State, a: Id)
    requires Inv(s) && Enabled(s, Complete(a))
    ensures Inv(Apply(s, Complete(a)))
  {
    var t := Apply(s, Complete(a));
    forall b: Id ensures Sum(t, b) == Sum(s, b) + if b == a && a in s.mode then 1 else 0 {
    }
    forall b: Id
      ensures multiset(t.list)[b] + multiset(t.freed)[b] == if b in t.completed && b in t.finalized then 1 else 0
    {
      assert Sum(t, b) == Sum(s, b) + if b == a && a in s.mode then 1 else 0;
    }
  }

  lemma {:induction false} FreeAllKeeps(s: State)
    requires Inv(s)
    ensures Inv(FreeAll(s))
  {
    forall b: Id ensures Sum(FreeAll(s), b) == Sum(s, b) {
    }
  }

  lemma {:induction false} FinalizeKeeps(s: State, a: Id)
    requires Inv(s) && Enabled(s, Finalize(a))
    ensures Inv(Apply(s, Finalize(a)))
  {
    var t := Apply(s, Finalize(a));
    forall b: Id ensures Sum(t, b) == Sum(s, b) + if b == a && a in s.mode then 1 else 0 {
    }
    forall b: Id
      ensures multiset(t.list)[b] + multiset(t.freed)[b] == if b in t.completed && b in t.finalized then 1 else 0
    {
      assert Sum(t, b) == Sum(s, b) + if b == a && a in s.mode then 1 else 0;
    }
  }

  lemma {:induction false} ApplyKeeps(s: State, e: Event)
    requires Inv(s) && Enabled(s, e)
    ensures Inv(Apply(s, e))
  {
    match e
    case Start(a) =>
    case Complete(a) => CompleteKeeps(s, a);
    case Finalize(a) => FinalizeKeeps(s, a);
    case Shutdown => FreeAllKeeps(s);
  }

  lemma {:induction false} RunKeeps(s: State, run: seq<Event>)
    requires Inv(s) && Legal(s, run)
    ensures Inv(After(s, run))
    decreases run
  {
    if run != [] {
      ApplyKeeps(s, run[0]);
      RunKeeps(Apply(s, run[0]), run[1..]);
    }
  }

  // ----- what every run guarantees

  /** An aio is freed at most once, and only after both its completion and its finalizer. */
  lemma {:induction false} FreedOnceAfterBoth(run: seq<Event>, a: Id)
    requires Legal(INIT, run)
    ensures multiset(After(INIT, run).freed)[a] <= 1
    ensures a in After(INIT, run).freed ==> a in After(INIT, run).completed && a in After(INIT, run).finalized
  {
    RunKeeps(INIT, run);
    var s := After(INIT, run);
    assert a in s.freed ==> multiset(s.freed)[a] > 0;
    assert multiset(s.list)[a] + multiset(s.freed)[a] == if a in s.completed && a in s.finalized then 1 else 0;
  }

  /** No aio is freed inside a completion. */
  lemma {:induction false} CompletionFreesNothing(run: seq<Event>, a: Id)
    requires Legal(INIT, run + [Complete(a)])
    ensures After(INIT, run + [Complete(a)]).freed == After(INIT, run).freed
  {
    AfterAppend(INIT, run, Complete(a));
  }

  lemma {:induction false} AfterAppend(s: State, run: seq<Event>, e: Event)
    requires Legal(s, run + [e])
    ensures Legal(s, run) && Enabled(After(s, run), e) && After(s, run + [e]) == Apply(After(s, run), e)
    decreases run
  {
    if run == [] {
      assert [] + [e] == [e];
      assert After(Apply(s, e), []) == Apply(s, e);
    } else {
      assert (run + [e])[1..] == run[1..] + [e] && (run + [e])[0] == run[0];
      AfterAppend(Apply(s, run[0]), run[1..], e);
    }
  }

  /** A shutdown leaves every completed and finalized aio freed exactly once, and no other. */
  lemma {:induction false} ShutdownFreesAll(run: seq<Event>, a: Id)
    requires Legal(INIT, run + [Shutdown])
    ensures var s := After(INIT, run + [Shutdown]);
      multiset(s.freed)[a] == if a in s.completed && a in s.finalized then 1 else 0
  {
    AfterAppend(INIT, run, Shutdown);
    RunKeeps(INIT, run + [Shutdown]);
  }

  /** Without a shutdown an aio waits on the list only until the next finalizer. */
  lemma {:induction false} FinalizerEmptiesList(run: seq<Event>, a: Id, b: Id)
    requires Legal(INIT, run + [Finalize(a)])
    requires b in After(INIT, run).completed && b in After(INIT, run).finalized
    ensures b in After(INIT, run + [Finalize(a)]).freed
  {
    AfterAppend(INIT, run, Finalize(a));
    RunKeeps(INIT, run + [Finalize(a)]);
    var s := After(INIT, run + [Finalize(a)]);
    assert multiset(s.list)[b] + multiset(s.freed)[b] == 1;
  }

  lemma {:induction false} FreedStarted(s: State)
    requires Inv(s)
    ensures forall a :: a in s.freed || a in s.list ==> a in s.started && a in s.mode
  {
    forall a | a in s.freed || a in s.list ensures a in s.completed {
      assert multiset(s.list)[a] + multiset(s.freed)[a] == if a in s.completed && a in s.finalized then 1 else 0;
      assert a in s.freed ==> multiset(s.freed)[a] > 0;
      assert a in s.list ==> multiset(s.list)[a] > 0;
    }
  }

  // ----- the code

  class Saio {
    const id: Id
    var mode: int
    var next: Saio?

    constructor (id: Id)
      ensures this.id == id && mode == 0 && next == null
    {
      this.id := id;
      mode, next := 0, null;
    }
  }

  function Ids(aios: seq<Saio>): (r: seq<Id>)
    ensures |r| == |aios| && forall i :: 0 <= i < |aios| ==> r[i] == aios[i].id
  {
    seq(|aios|, i requires 0 <= i < |aios| => aios[i].id)
  }

  class FreeList {
    var head: Saio?
    ghost var aios: seq<Saio>     // on the list
    ghost var live: set<Saio>     // started and not yet freed
    ghost var s: State

    ghost predicate Chain()
      reads this, aios
    {
      && head == (if aios == [] then null else aios[0])
      && (forall i :: 0 <= i < |aios| - 1 ==> aios[i].next == aios[i + 1])
      && (aios != [] ==> aios[|aios| - 1].next == null)
      && s.list == Ids(aios)
    }

    /** The flags agree with the state, for every aio that is still there. */
    ghost predicate Known()
      reads this, live
    {
      && (forall x :: x in aios ==> x in live)
      && (forall x :: x in live ==> x.id in s.started && x.id !in s.freed && (x.mode == 1 <==> x.id in s.mode))
      && (forall x, y :: x in live && y in live && x.id == y.id ==> x == y)
    }

    ghost predicate Valid()
      reads this, aios, live
    {
      Chain() && Known() && Inv(s)
    }

    constructor ()
      ensures Valid() && s == INIT && live == {}
    {
      head, aios, live, s := null, [], {}, INIT;
    }

    method Create(id: Id) returns (saio: Saio)
      requires Chain() && Known() && id !in s.started && s.mode <= s.started && forall a :: a in s.freed ==>
                 a in s.started
      modifies this
      ensures Chain() && Known() && s == Apply(old(s), Event.Start(id)) && saio.id == id
      ensures live == old(live) + {saio} && fresh(saio)
    {
      saio := new Saio(id);
      live := live + {saio};
      s := Apply(s, Event.Start(id));
      assert forall x :: x in live && x != saio ==> x.id in old(s).started;
    }

    /** Allocate the aio and start its operation. */
    method Start(id: Id) returns (saio: Saio)
      requires Valid() && id !in s.started
      modifies this
      ensures Valid() && s == Apply(old(s), Event.Start(id)) && saio.id == id && live == old(live) + {saio}
      ensures fresh(saio)
    {
      FreedStarted(s);
      ApplyKeeps(s, Event.Start(id));
      saio := Create(id);
    }

    method Unlink()
      requires Chain()
      modifies this
      ensures Chain() && aios == [] && live == old(live) && s == FreeAll(old(s))
    {
      while head != null
        invariant Chain() && s.freed + s.list == old(s).freed + old(s).list
        invariant s == old(s).(list := s.list, freed := s.freed) && live == old(live)
        decreases |aios|
      {
        ghost var was := s.list;
        head := head.next;
        aios := aios[1..];
        s := s.(list := was[1..], freed := s.freed + [was[0]]);
        assert Ids(aios) == was[1..];
      }
      assert s.list == [] && s.freed == old(s).freed + old(s).list;
    }

    /** Entered under the lock: free everything on the list. */
    method Free()
      requires Valid()
      modifies this
      ensures Valid() && s == FreeAll(old(s)) && aios == [] && live == old(live) - set x | x in old(aios)
    {
      FreeAllKeeps(s);
      Unlink();
      live := live - set x | x in old(aios);
      forall x | x in live ensures x.id !in old(s).list {
        forall i | 0 <= i < |old(aios)| ensures old(s).list[i] != x.id {
          assert old(aios)[i] in old(aios) && old(aios)[i] in old(live);
        }
      }
    }

    lemma {:induction false} NotOnList(saio: Saio)
      requires Chain() && Inv(s) && (saio.id !in s.completed || saio.id !in s.finalized)
      ensures saio !in aios
    {
      assert multiset(s.list)[saio.id] == 0;
      forall i | 0 <= i < |aios| ensures aios[i] != saio {
        assert s.list[i] in multiset(s.list);
      }
    }

    method Push(saio: Saio, ghost t: State)
      requires Chain() && Known() && saio in live && saio !in aios
      requires t.list == [saio.id] + s.list && t.started == s.started && t.freed == s.freed && t.mode == s.mode
      modifies `head, `aios, `s, saio`next
      ensures Chain() && Known() && s == t
    {
      saio.next := head;
      head := saio;
      aios := [saio] + aios;
      s := t;
      assert s.list == Ids(aios);
    }

    method SetFlag(saio: Saio, ghost t: State)
      requires Chain() && Known() && saio in live
      requires t.list == s.list && t.started == s.started && t.freed == s.freed && t.mode == s.mode + {saio.id}
      modifies `s, saio`mode
      ensures Chain() && Known() && s == t
    {
      saio.mode := 1;
      s := t;
    }

    /** Called by the completion callback: it frees nothing. */
    method Complete(saio: Saio)
      requires Valid() && saio in live && Enabled(s, Event.Complete(saio.id))
      modifies this, saio
      ensures Valid() && s == Apply(old(s), Event.Complete(saio.id)) && live == old(live)
    {
      ghost var t := Apply(s, Event.Complete(saio.id));
      ApplyKeeps(s, Event.Complete(saio.id));
      NotOnList(saio);
      if saio.mode == 1 {
        Push(saio, t);
      } else {
        SetFlag(saio, t);
      }
    }

    /** Empties the free list; then frees the aio if it has completed, or else leaves that to
        its completion. */
    method Finalize(saio: Saio)
      requires Valid() && saio in live && Enabled(s, Event.Finalize(saio.id))
      modifies this, saio
      ensures Valid() && s == Apply(old(s), Event.Finalize(saio.id))
    {
      ApplyKeeps(s, Event.Finalize(saio.id));
      NotOnList(saio);
      Free();
      if saio.mode == 1 {
        live := live - {saio};
        s := s.(finalized := s.finalized + {saio.id}, freed := s.freed + [saio.id]);
      } else {
        SetFlag(saio, Apply(old(s), Event.Finalize(saio.id)));
      }
    }

    method Shutdown()
      requires Valid()
      modifies this
      ensures Valid() && s == Apply(old(s), Event.Shutdown)
    {
      Free();
    }
  }
}
