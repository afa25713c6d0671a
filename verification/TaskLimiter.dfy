/**
 The task limiter: permits, the queue of waiting tasks and the hand-off of a permit when a task ends,
 whether it returns or throws. Tasks are numbered in the order they ask to run.
 */
module TaskLimiter {
  import opened Options
  import opened Sequences

  /** `granted` lists the tasks that got a permit in order; `ended` those that gave it back. */
  datatype State = State(active: nat, waiting: seq<nat>, arrived: nat, granted: seq<nat>, ended: set<nat>)

  const START: State := State(0, [], 0, [], {})

  /** A task asks to run, or ends: by returning or by throwing, since it is released in a `finally`. */
  datatype Step = Ask | End(task: nat)

  ghost function Holders(st: State): set<nat> { (set t | t in st.granted) - st.ended }

  /** A new task takes a free permit or joins the queue. */
  function AskStep(st: State, capacity: nat): State {
    if st.active < capacity then
      st.(active := st.active + 1, arrived := st.arrived + 1, granted := st.granted + [st.arrived])
    else
      st.(waiting := st.waiting + [st.arrived], arrived := st.arrived + 1)
  }

  /** An ending task hands its permit to the first waiting task, or returns it. */
  function EndStep(st: State, task: nat): State {
    if st.waiting != [] then
      st.(waiting := st.waiting[1..], granted := st.granted + [st.waiting[0]], ended := st.ended + {task})
    else
      st.(active := if st.active == 0 then 0 else st.active - 1, ended := st.ended + {task})
  }

  /** Only a task that holds a permit can end. */
  ghost function Advance(st: State, capacity: nat, step: Step): State {
    match step
    case Ask => AskStep(st, capacity)
    case End(task) => if task in Holders(st) then EndStep(st, task) else st
  }

  /** Permits are exactly the holders, the queue is non-empty only at capacity, and service is first come first served. */
  ghost predicate Inv(st: State, capacity: nat) {
    && st.active == |Holders(st)| <= capacity
    && (st.waiting != [] ==> st.active == capacity)
    && st.granted + st.waiting == Upto(st.arrived)
    && st.ended <= (set t | t in st.granted)
  }

  lemma GrantedIsPrefix(st: State, capacity: nat)
    requires Inv(st, capacity)
    ensures st.granted == Upto(|st.granted|) && |st.granted| + |st.waiting| == st.arrived
    ensures forall i :: 0 <= i < |st.waiting| ==> st.waiting[i] == |st.granted| + i && st.waiting[i] !in st.granted
  {
    var all := Upto(st.arrived);
    assert all == st.granted + st.waiting;
    assert st.granted == all[..|st.granted|];
    forall i | 0 <= i < |st.waiting| ensures st.waiting[i] == |st.granted| + i { assert all[|st.granted| + i] == st.waiting[i]; }
  }

  lemma AskKeeps(st: State, capacity: nat)
    requires Inv(st, capacity)
    ensures Inv(AskStep(st, capacity), capacity)
  {
    GrantedIsPrefix(st, capacity);
    var after := AskStep(st, capacity);
    assert Upto(st.arrived + 1) == Upto(st.arrived) + [st.arrived];
    if st.active < capacity {
      assert st.arrived !in st.granted;
      assert Holders(after) == Holders(st) + {st.arrived};
    } else {
      assert Holders(after) == Holders(st);
      assert after.granted + after.waiting == st.granted + st.waiting + [st.arrived];
    }
  }

  lemma EndKeeps(st: State, capacity: nat, task: nat)
    requires Inv(st, capacity) && task in Holders(st)
    ensures Inv(EndStep(st, task), capacity)
  {
    hide Upto;
    GrantedIsPrefix(st, capacity);
    var after := EndStep(st, task);
    if st.waiting != [] {
      assert after.granted + after.waiting == st.granted + st.waiting;
      assert Holders(after) == (Holders(st) - {task}) + {st.waiting[0]};
    } else {
      assert Holders(after) == Holders(st) - {task};
    }
  }

  ghost function Run(capacity: nat, steps: seq<Step>): State {
    if steps == [] then START else Advance(Run(capacity, steps[..|steps| - 1]), capacity, steps[|steps| - 1])
  }

  /** Every interleaving of asking and ending keeps the invariant, whether tasks throw or not. */
  lemma {:induction false} RunKeeps(capacity: nat, steps: seq<Step>)
    ensures Inv(Run(capacity, steps), capacity)
  {
    hide Inv;
    if steps == [] {
      StartKeeps(capacity);
    } else {
      var before := Run(capacity, steps[..|steps| - 1]);
      RunKeeps(capacity, steps[..|steps| - 1]);
      var step := steps[|steps| - 1];
      if step.Ask? { AskKeeps(before, capacity); }
      if step.End? && step.task in Holders(before) { EndKeeps(before, capacity, step.task); }
    }
  }

  lemma StartKeeps(capacity: nat)
    ensures Inv(START, capacity)
  {
    assert Holders(START) == {};
  }

  /** At most `capacity` tasks hold a permit, and tasks get theirs in the order they asked. */
  lemma PermitsAreBounded(capacity: nat, steps: seq<Step>)
    ensures var st := Run(capacity, steps);
      && |Holders(st)| == st.active <= capacity
      && (st.waiting != [] ==> |Holders(st)| == capacity)
      && st.granted == Upto(|st.granted|)
  {
    RunKeeps(capacity, steps);
    GrantedIsPrefix(Run(capacity, steps), capacity);
  }

  // ----- progress

  ghost function Endings(st: State, capacity: nat, steps: seq<Step>): nat
    decreases |steps|
  {
    if steps == [] then 0
    else
      (if steps[0].End? && steps[0].task in Holders(st) then 1 else 0)
      + Endings(Advance(st, capacity, steps[0]), capacity, steps[1..])
  }

  ghost function RunFrom(st: State, capacity: nat, steps: seq<Step>): State
    decreases |steps|
  {
    if steps == [] then st else RunFrom(Advance(st, capacity, steps[0]), capacity, steps[1..])
  }

  /** Each ending serves the head of the queue, so position p waits for no more than p + 1 endings. */
  lemma {:induction false} QueueIsServed(st: State, capacity: nat, steps: seq<Step>, position: nat)
    requires Inv(st, capacity) && position < |st.waiting| && Endings(st, capacity, steps) > position
    ensures st.waiting[position] in RunFrom(st, capacity, steps).granted
    decreases |steps|
  {
    hide Inv;
    var step := steps[0];
    var next := Advance(st, capacity, step);
    var task := st.waiting[position];
    if step.Ask? {
      AskKeeps(st, capacity);
      assert next.waiting[position] == task;
      QueueIsServed(next, capacity, steps[1..], position);
    } else if step.task in Holders(st) {
      EndKeeps(st, capacity, step.task);
      if position > 0 {
        assert next.waiting[position - 1] == task;
        QueueIsServed(next, capacity, steps[1..], position - 1);
      } else {
        assert task in next.granted;
        GrantedStays(next, capacity, steps[1..], task);
      }
    } else {
      QueueIsServed(next, capacity, steps[1..], position);
    }
  }

  lemma {:induction false} GrantedStays(st: State, capacity: nat, steps: seq<Step>, task: nat)
    requires task in st.granted
    ensures task in RunFrom(st, capacity, steps).granted
    decreases |steps|
  {
    if steps == [] {
    } else {
      GrantedStays(Advance(st, capacity, steps[0]), capacity, steps[1..], task);
    }
  }

  // ----- the class

  class TaskLimiter {
    const capacity: nat
    var active: nat
    var waiting: seq<nat>
    var arrived: nat
    ghost var granted: seq<nat>
    ghost var ended: set<nat>

    ghost function Value(): State
      reads this
    {
      State(active, waiting, arrived, granted, ended)
    }

    ghost predicate Valid()
      reads this
    {
      Inv(Value(), capacity)
    }

    constructor (concurrency: Option<int>)
      ensures Valid() && capacity == PositiveInteger(concurrency, 1) && Value() == START
    {
      capacity := PositiveInteger(concurrency, 1);
      active, waiting, arrived, granted, ended := 0, [], 0, [], {};
      new;
      StartKeeps(capacity);
    }

    /** `acquire`: whether the task may start at once. */
    method Acquire() returns (task: nat, starts: bool)
      requires Valid()
      modifies this
      ensures Valid() && Value() == AskStep(old(Value()), capacity)
      ensures task == old(arrived) && (starts <==> task in granted)
    {
      hide Inv;
      AskKeeps(Value(), capacity);
      GrantedIsPrefix(Value(), capacity);
      task := arrived;
      arrived := arrived + 1;
      starts := active < capacity;
      if starts {
        active := active + 1;
        granted := granted + [task];
      } else {
        waiting := waiting + [task];
      }
    }

    /** `release`: the task that starts now, if any was waiting. */
    method Release(ghost task: nat) returns (next: Option<nat>)
      requires Valid() && task in Holders(Value())
      modifies this
      ensures Valid() && Value() == EndStep(old(Value()), task)
      ensures next == if old(waiting) == [] then None else Some(old(waiting)[0])
    {
      hide Inv;
      EndKeeps(Value(), capacity, task);
      ended := ended + {task};
      if waiting != [] {
        next := Some(waiting[0]);
        granted := granted + [waiting[0]];
        waiting := waiting[1..];
      } else {
        next := None;
        active := if active == 0 then 0 else active - 1;
      }
    }
  }
}
