/**
  The round-robin scheduler: tasks in a circular list, the current one preempted at every
  advance. `ring` lists the tasks from the current one on, around the circle.
  */
module Scheduler {

  datatype TaskState = Preempt | Running | Sleep | Zombie | NeverRun

  class Task {
    var next: Task?
    var state: TaskState
    /** The registers that the task goes on with when it is scheduled. */
    var saved: nat

    constructor (entry: nat)
      ensures state == NeverRun && saved == entry && next == null
    {
      next, state, saved := null, NeverRun, entry;
    }
  }

  function Rotated(ring: seq<Task>): seq<Task>
    requires ring != []
  {
    ring[1..] + [ring[0]]
  }

  function Inserted(ring: seq<Task>, task: Task): seq<Task>
    requires ring != []
  {
    [ring[0], task] + ring[1..]
  }

  predicate NoRepeats(ring: seq<Task>) {
    forall i, j :: 0 <= i < j < |ring| ==> ring[i] != ring[j]
  }

  function Follower(ring: seq<Task>, i: nat): Task
    requires i < |ring|
  {
    if i + 1 == |ring| then ring[0] else ring[i + 1]
  }

  class RoundRobin {
    var current: Task
    var firstRun: bool
    ghost var ring: seq<Task>
    /** The task whose code the processor runs, null for the code that started the kernel. */
    ghost var onCpu: Task?

    /** The tasks form one cycle through the current one; after the first switch that one has the processor. */
    ghost predicate Valid()
      reads this, ring
    {
      && ring != [] && current == ring[0] && NoRepeats(ring)
      && (forall i :: 0 <= i < |ring| ==> ring[i].next == Follower(ring, i))
      && (if firstRun then onCpu == null else onCpu == current)
    }

    /** `scheduler_init` */
    constructor (first: Task)
      modifies first
      ensures Valid() && ring == [first] && firstRun && onCpu == null
      ensures first.state == old(first.state) && first.saved == old(first.saved)
    {
      current, firstRun := first, true;
      ring, onCpu := [first], null;
      new;
      first.next := first;
    }

    /** `scheduler_add` */
    method Add(task: Task)
      requires Valid() && task !in ring
      modifies this`ring, current`next, task`next
      ensures Valid() && ring == Inserted(old(ring), task)
    {
      task.next := current.next;
      current.next := task;
      ring := Inserted(ring, task);
    }

    /** An advance makes a switch. */
    ghost predicate Switches()
      reads this, ring
      requires Valid()
    {
      |ring| > 1 || ring[0].state == NeverRun
    }

    /**
      `scheduler_advance`: on an interrupt, go on to the next task. `registers` is what the
      interrupt found in the processor.
      */
    method Advance(inInterrupt: bool, registers: nat)
      requires Valid()
      modifies this, ring
      ensures Valid()
      ensures !inInterrupt ==>
        ring == old(ring) && firstRun == old(firstRun) && onCpu == old(onCpu)
        && forall t :: t in ring ==> t.saved == old(t.saved) && t.state == old(t.state)
      ensures inInterrupt ==> ring == Rotated(old(ring))
      ensures inInterrupt && old(Switches()) ==>
        onCpu == current && !firstRun && current.state == Preempt
        && forall t :: t in ring ==>
             t.saved == (if t == old(onCpu) then registers else old(t.saved))
             && (t != current ==> t.state == old(t.state))
      ensures inInterrupt && !old(Switches()) ==>
        onCpu == old(onCpu) && firstRun == old(firstRun)
        && forall t :: t in ring ==> t.saved == old(t.saved) && t.state == old(t.state)
    {
      if !inInterrupt {
        return;
      }
      var previous := current;
      assert ring[0].next == Follower(ring, 0);
      current := current.next;
      TurnedRing(ring);
      assert |ring| > 1 <==> current != previous;
      ring := Rotated(ring);
      if current != previous || current.state == NeverRun {
        current.state := Preempt;
        if !firstRun {
          previous.saved := registers;
        } else {
          firstRun := false;
        }
        onCpu := current;
      }
    }
  }

  /** Turning the ring keeps it a cycle of the same tasks. */
  lemma TurnedRing(ring: seq<Task>)
    requires ring != [] && NoRepeats(ring) && forall i :: 0 <= i < |ring| ==> ring[i].next == Follower(ring, i)
    ensures NoRepeats(Rotated(ring)) && Rotated(ring)[0] == Follower(ring, 0)
    ensures forall i :: 0 <= i < |ring| ==> Rotated(ring)[i].next == Follower(Rotated(ring), i)
    ensures forall t :: t in Rotated(ring) <==> t in ring
  {
  }

  // ---------------------------------------------------------------- turns

  datatype Op = AdvanceOp | AddOp(task: Task)

  function Step(ring: seq<Task>, op: Op): (r: seq<Task>)
    requires ring != []
    ensures r != []
  {
    match op
    case AdvanceOp => Rotated(ring)
    case AddOp(task) => Inserted(ring, task)
  }

  function Run(ring: seq<Task>, ops: seq<Op>): (r: seq<Task>)
    requires ring != []
    ensures r != []
  {
    if ops == [] then ring else Step(Run(ring, ops[..|ops| - 1]), ops[|ops| - 1])
  }

  function Advances(ops: seq<Op>): nat {
    if ops == [] then 0 else Advances(ops[..|ops| - 1]) + if ops[|ops| - 1].AdvanceOp? then 1 else 0
  }

  function Adds(ops: seq<Op>): nat {
    if ops == [] then 0 else Adds(ops[..|ops| - 1]) + if ops[|ops| - 1].AddOp? then 1 else 0
  }

  /** The task's turn has not come before the last step. */
  ghost predicate StillWaiting(distance: nat, ops: seq<Op>) {
    forall k :: 0 <= k < |ops| ==> distance + Adds(ops[..k]) > Advances(ops[..k])
  }

  /**
    A task at some distance from the current one is, as long as its turn has not come, at that
    distance plus the tasks added less the advances made: it runs after exactly `distance`
    advances and one more for each task added meanwhile.
    */
  lemma {:induction false} TurnComes(ring: seq<Task>, distance: nat, ops: seq<Op>)
    requires 0 < distance < |ring| && StillWaiting(distance, ops)
    ensures var place := distance + Adds(ops) - Advances(ops);
            0 <= place < |Run(ring, ops)| && Run(ring, ops)[place] == ring[distance]
  {
    if ops != [] {
      var front := ops[..|ops| - 1];
      forall k | 0 <= k < |front|
        ensures distance + Adds(front[..k]) > Advances(front[..k])
      {
        assert front[..k] == ops[..k];
      }
      TurnComes(ring, distance, front);
      assert distance + Adds(ops[..|front|]) > Advances(ops[..|front|]);
    }
  }

  /** Added tasks that are new keep the ring free of repeats, and no task ever leaves it. */
  lemma {:induction false} RunKeepsTasks(ring: seq<Task>, ops: seq<Op>)
    requires ring != []
    ensures forall t :: t in ring ==> t in Run(ring, ops)
    ensures |Run(ring, ops)| == |ring| + Adds(ops)
  {
    if ops != [] {
      var before := Run(ring, ops[..|ops| - 1]);
      RunKeepsTasks(ring, ops[..|ops| - 1]);
      assert before == [before[0]] + before[1..];
    }
  }
}
