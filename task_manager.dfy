/** TaskManager of the base library (src/base/TaskManager.cpp): a set of
    tasks, added and deleted by identity, and a sweep that runs the tasks that
    are due and drops those that did not re-arm themselves. The mutex around
    each operation is not modelled; `now` is the clock reading of the sweep. */
module TaskManagers {
  import opened Tasks

  /** What the sweep does to one task that was due (`w0 < now`) or not, given
      its due time `w0` and run count `r0` before the sweep. */
  ghost predicate Swept(t: Task, now: int, w0: int, r0: nat)
    reads t
  {
    if w0 < now then
      && t.runs == r0 + (if t.cb == NoCallback then 0 else 1)
      && t.when == (if t.cb == Rearm then t.interval + now else w0)
    else
      t.when == w0 && t.runs == r0
  }

  class TaskManager {
    var tasks: set<Task>

    constructor ()
      ensures tasks == {}
    {
      tasks := {};
    }

    /** Add: false, and no change, when it is already there. */
    method Add(task: Task) returns (added: bool)
      modifies this
      ensures added <==> task !in old(tasks)
      ensures tasks == old(tasks) + {task}
    {
      if task in tasks {
        return false;
      }
      tasks := tasks + {task};
      return true;
    }

    /** Del: it is gone afterwards; the answer is always true. */
    method Del(task: Task) returns (deleted: bool)
      modifies this
      ensures deleted
      ensures tasks == old(tasks) - {task}
    {
      tasks := tasks - {task};
      return true;
    }

    /** OnWork: every due task (`When() < now`) runs once, and is dropped
        when it is still due after running; the others are left alone. */
    method OnWork(now: int)
      modifies this, tasks
      ensures forall t :: t in old(tasks) ==>
        Swept(t, now, old(t.when), old(t.runs)) && t.interval == old(t.interval)
      ensures tasks == set t | t in old(tasks) && !(old(t.when) < now && t.when < now)
    {
      var rest := tasks;
      ghost var done: set<Task> := {};
      while rest != {}
        invariant done + rest == old(tasks) && done !! rest
        invariant forall t :: t in rest ==> t.when == old(t.when) && t.runs == old(t.runs) && t.interval == old(t.interval)
        invariant forall t :: t in done ==> Swept(t, now, old(t.when), old(t.runs)) && t.interval == old(t.interval)
        invariant tasks == (set t | t in done && !(old(t.when) < now && t.when < now)) + rest
        decreases rest
      {
        var t :| t in rest;
        if t.When() < now {
          t.Run(now);
          if t.When() < now {
            tasks := tasks - {t};
          }
        }
        rest := rest - {t};
        done := done + {t};
      }
    }
  }
}
