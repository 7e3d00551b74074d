/** The kernel's scheduler over its task array, each entry point proved equal
    to its step of the value machine. */
module Scheduling {
  import opened Bits
  import opened Epoch

  const NR_TASKS: nat := 9
  const TASK_RUNNING: nat := 0

  /** The scheduling fields of task_struct. */
  class Task {
    var state: nat
    var counter: nat
    var priority: nat
    var pid: nat

    constructor (state: nat, counter: nat, priority: nat, pid: nat)
      ensures this.state == state && this.counter == counter && this.priority == priority && this.pid == pid
    {
      this.state, this.counter, this.priority, this.pid := state, counter, priority, pid;
    }
  }

  class Scheduler {
    var task: seq<Task>
    var current: Task
    var idle: Task
    ghost var view: Sched  // what the fields mean

    /** Task i is in slot i, and the only one there. */
    ghost predicate TaskIs(i: nat, job: Job)
      requires i < |task|
      reads this, task
    {
      && task[i].state == TASK_RUNNING && task[i].pid == i
      && task[i].counter == job.counter && task[i].priority == job.priority
    }

    ghost predicate Linked()
      reads this, task
    {
      && 2 <= |task| == |view.jobs| <= NR_TASKS
      && idle == task[0]
      && view.cur < |task| && current == task[view.cur]
      && (forall i, j :: 0 <= i < j < |task| ==> task[i] != task[j])
      && (forall i :: 0 <= i < |task| ==> TaskIs(i, view.jobs[i]))
    }

    /** What holds from start_kernel's schedule() call on. */
    ghost predicate Valid()
      reads this, task
    {
      Linked() && Running(view)
    }

    /** task_init: the idle task and one task for every further number drawn
        from rand(), all with an empty counter. */
    constructor (rands: seq<nat>)
      requires 1 <= |rands| < NR_TASKS
      ensures Linked() && fresh(task) && AtBoot(view) && |task| == |rands| + 1
      ensures current == task[0] && forall i :: 0 <= i < |task| ==> task[i].counter == 0 && task[i].pid == i
      ensures forall i :: 1 <= i < |task| ==> task[i].priority == rands[i - 1] % 10 + 1
    {
      var first := new Task(TASK_RUNNING, 0, 0, 0);
      var tasks := [first];
      ghost var jobs := [Job(0, 0)];
      var i := 1;
      while i < |rands| + 1
        invariant 1 <= i == |tasks| == |jobs| <= |rands| + 1 && tasks[0] == first && fresh(tasks)
        invariant forall j, k :: 0 <= j < k < i ==> tasks[j] != tasks[k]
        invariant forall k :: 0 <= k < i ==> tasks[k].state == TASK_RUNNING && tasks[k].pid == k && tasks[k].counter == 0
        invariant forall k :: 0 <= k < i ==> jobs[k] == Job(tasks[k].counter, tasks[k].priority)
        invariant forall k :: 1 <= k < i ==> tasks[k].priority == rands[k - 1] % 10 + 1
      {
        var ptask := new Task(TASK_RUNNING, 0, rands[i - 1] % (PRIORITY_MAX - PRIORITY_MIN + 1) + PRIORITY_MIN, i);
        tasks, jobs := tasks + [ptask], jobs + [Job(ptask.counter, ptask.priority)];
        i := i + 1;
      }
      idle, current, task, view := first, first, tasks, Sched(jobs, 0);
    }

    /** switch_to, the register switch left out */
    method SwitchTo(next: Task, ghost i: nat)
      requires Linked() && i < |task| && next == task[i]
      modifies this`current, this`view
      ensures Linked() && view == old(view).(cur := i)
    {
      if current == next {
        assert view.cur == i;
        return;
      }
      current := next;
      view := view.(cur := i);
    }

    /** The search for the largest counter. */
    method Choose() returns (maxCounter: int, index: int)
      requires Linked() && JobsOk(view.jobs)
      ensures index == Best(view.jobs) && maxCounter == view.jobs[index].counter
    {
      maxCounter, index := -1, -1;
      var i := 1;
      while i < |task|
        invariant 1 <= i <= |task|
        invariant i == 1 ==> maxCounter == -1 && index == -1
        invariant i > 1 ==> index == BestBelow(view.jobs, i) && maxCounter == view.jobs[index].counter
      {
        assert TaskIs(i, view.jobs[i]);
        if task[i].state == TASK_RUNNING && ToInt(task[i].counter) > maxCounter {
          maxCounter := ToInt(task[i].counter);
          index := i;
        }
        i := i + 1;
      }
    }

    /** counter = priority for every task but the idle one */
    method RefillAll()
      requires Linked()
      modifies this`view, task
      ensures Linked() && view == Sched(Refill(old(view.jobs)), old(view.cur))
    {
      ghost var jobs := view.jobs;
      RefillAt(jobs, |task|);
      ghost var full := Refill(jobs);
      var i := 1;
      while i < |task|
        invariant 1 <= i <= |task|
        invariant forall k :: 0 <= k < i ==> TaskIs(k, full[k])
        invariant forall k :: i <= k < |task| ==> TaskIs(k, jobs[k])
        invariant view == old(view)
      {
        assert TaskIs(i, jobs[i]);
        if task[i].state == TASK_RUNNING {
          task[i].counter := task[i].priority;
        }
        i := i + 1;
      }
      view := Sched(full, view.cur);
    }

    method Schedule()
      requires Linked() && JobsOk(view.jobs)
      modifies this`current, this`view, task
      ensures Valid() && view == Pick(old(view))
      decreases view.jobs[Best(view.jobs)].counter == 0
    {
      PickRuns(view);
      var maxCounter, index := Choose();
      if maxCounter == 0 {
        RefillAll();
        PickRuns(view);
        Schedule();
      } else {
        SwitchTo(task[index], index);
      }
    }

    method DoTimer()
      requires Linked() && JobsOk(view.jobs)
      modifies this`current, this`view, task
      ensures Valid() && view == Tick(old(view))
    {
      assert TaskIs(view.cur, view.jobs[view.cur]);
      if current == idle || current.counter == 0 {
        Schedule();
      } else {
        SpendTick();
        if current.counter == 0 {
          Schedule();
        }
      }
    }

    /** current->counter -- */
    method SpendTick()
      requires Linked() && JobsOk(view.jobs) && view.jobs[view.cur].counter > 0
      modifies this`view, current`counter
      ensures Linked() && JobsOk(view.jobs) && view == WithCounter(old(view), old(view.jobs[view.cur].counter) - 1)
      ensures current.counter == view.jobs[view.cur].counter
    {
      ghost var s := view;
      assert TaskIs(s.cur, s.jobs[s.cur]);
      current.counter := current.counter - 1;
      view := WithCounter(s, s.jobs[s.cur].counter - 1);
      forall i | 0 <= i < |task|
        ensures TaskIs(i, view.jobs[i])
      {
        assert old(TaskIs(i, s.jobs[i]));
      }
    }

    /** What do_fork_cow does to the task array. */
    method AddClone() returns (pid: nat)
      requires Valid() && |task| < NR_TASKS
      modifies this`task, this`view
      ensures Valid() && view == Cloned(old(view)) && pid == |old(task)|
      ensures |task| == |old(task)| + 1 && task[..pid] == old(task) && fresh(task[pid]) && current == old(current)
      ensures task[pid].counter == old(current.counter) && task[pid].priority == old(current.priority)
      ensures task[pid].state == old(current.state) && task[pid].pid == pid
      ensures forall i :: 0 <= i < pid ==>
                task[i].counter == old(task[i].counter) && task[i].priority == old(task[i].priority)
                && task[i].state == old(task[i].state) && task[i].pid == old(task[i].pid)
    {
      assert TaskIs(view.cur, view.jobs[view.cur]);
      pid := |task|;
      var ptask := new Task(current.state, current.counter, current.priority, pid);
      ghost var s := view;
      task := task + [ptask];
      view := Cloned(s);
      forall i | 0 <= i < |task|
        ensures TaskIs(i, view.jobs[i])
      {
        if i < pid { assert old(TaskIs(i, s.jobs[i])); }
      }
    }
  }
}
