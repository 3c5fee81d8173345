/** The queue of waiting tasks (dispatcher.c): a FIFO linked through the messages' own headers. */
module TaskQueue {
  import opened DispatcherModel

  /** A queued message; its header holds the link and the task. */
  class Msg {
    var next: Msg?
    const task: Task

    constructor (task: Task)
      ensures this.task == task && next == null
    {
      this.task := task;
      next := null;
    }
  }

  function TasksOf(msgs: seq<Msg>): (r: seq<Task>)
    ensures |r| == |msgs| && forall i :: 0 <= i < |msgs| ==> r[i] == msgs[i].task
  {
    seq(|msgs|, i requires 0 <= i < |msgs| => msgs[i].task)
  }

  class Inq {
    var head: Msg?
    var tail: Msg?
    ghost var msgs: seq<Msg>

    ghost predicate Valid()
      reads this, msgs
    {
      && (msgs == [] ==> head == null && tail == null)
      && (msgs != [] ==> head == msgs[0] && tail == msgs[|msgs| - 1] && msgs[|msgs| - 1].next == null)
      && (forall i :: 0 <= i < |msgs| - 1 ==> msgs[i].next == msgs[i + 1])
      && (forall i, j :: 0 <= i < j < |msgs| ==> msgs[i] != msgs[j])
    }

    ghost function Tasks(): seq<Task>
      reads this
    {
      TasksOf(msgs)
    }

    constructor ()
      ensures Valid() && Tasks() == [] && msgs == []
    {
      head, tail := null, null;
      msgs := [];
    }

    method Enqueue(task: Task)
      requires Valid()
      modifies this, msgs
      ensures Valid() && Tasks() == old(Tasks()) + [task]
      ensures forall m :: m in msgs ==> m in old(msgs) || fresh(m)
    {
      var m := new Msg(task);
      if tail != null {
        tail.next := m;
      } else {
        head := m;
      }
      tail := m;
      msgs := msgs + [m];
    }

    method Pop() returns (task: Task)
      requires Valid() && head != null
      modifies this
      ensures Valid() && old(Tasks()) == [task] + Tasks()
      ensures forall m :: m in msgs ==> m in old(msgs)
    {
      task := head.task;
      head := head.next;
      if head == null {
        tail := null;
      }
      msgs := msgs[1..];
    }

    /** Unlink the first task with that msgid, if there is one. */
    method Cancel(id: int) returns (found: bool, task: Task)
      requires Valid()
      modifies this, msgs
      ensures Valid()
      ensures var i := FindTask(old(Tasks()), id);
        if i < |old(Tasks())|
        then found && task == old(Tasks())[i] && Tasks() == old(Tasks())[..i] + old(Tasks())[i + 1..]
        else !found && Tasks() == old(Tasks())
      ensures forall m :: m in msgs ==> m in old(msgs)
    {
      var prev: Msg? := null;
      var m := head;
      ghost var i := 0;
      while m != null
        invariant 0 <= i <= |msgs|
        invariant m == if i < |msgs| then msgs[i] else null
        invariant prev == if i > 0 then msgs[i - 1] else null
        invariant forall k :: 0 <= k < i ==> msgs[k].task.msgid != id
        decreases |msgs| - i
      {
        if m.task.msgid == id {
          Unlink(prev, m, i);
          return true, m.task;
        }
        prev := m;
        m := m.next;
        i := i + 1;
      }
      found, task := false, Task(0, 0, false, 0);
    }

    method Unlink(prev: Msg?, m: Msg, ghost i: nat)
      requires Valid() && i < |msgs| && m == msgs[i] && prev == if i > 0 then msgs[i - 1] else null
      modifies this, msgs
      ensures Valid() && msgs == old(msgs)[..i] + old(msgs)[i + 1..]
    {
      if prev != null {
        prev.next := m.next;
      } else {
        head := m.next;
      }
      if tail == m {
        tail := prev;
      }
      msgs := msgs[..i] + msgs[i + 1..];
    }

  }
}
