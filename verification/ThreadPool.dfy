/** The pool object's own critical sections over its queue and stop flag, each one the step of
    PoolMachine that carries its name. */
module ThreadPool {
  import opened Basics
  import opened PoolMachine

  class ThreadPool {
    var tasks: seq<Task>
    var stop: bool
    ghost var machine: Pool  // these fields together with all threads and the history

    ghost predicate Valid()
      reads this
    {
      machine.tasks == tasks && machine.stop == stop && Inv(machine)
    }

    constructor (threadCount: nat, ghost clients: nat)
      ensures Valid() && machine == Initial(threadCount, clients)
    {
      tasks, stop := [], false;
      machine := Initial(threadCount, clients);
      new;
      InitialInv(threadCount, clients);
    }

    /** submit, between lock and unlock; false stands for the exception. */
    method PushLocked(ghost c: nat, task: Task) returns (accepted: bool)
      requires Valid() && c < |machine.clients| && machine.clients[c] == Holding(task)
      modifies this
      ensures Valid() && machine == Apply(old(machine), Push(c))
      ensures accepted == !old(stop) && stop == old(stop)
      ensures tasks == if accepted then old(tasks) + [task] else old(tasks)
    {
      StepKeepsInv(machine, Push(c));
      machine := Apply(machine, Push(c));
      if stop {
        return false;
      }
      tasks := tasks + [task];
      return true;
    }

    /** The predicate of the wait: true goes on to take, false goes to sleep. */
    method TestLocked(ghost w: nat) returns (ready: bool)
      requires Valid() && WorkerAt(machine, w, Testing)
      modifies this`machine
      ensures Valid() && machine == Apply(old(machine), TestPredicate(w))
      ensures machine.workers[w] == if ready then Taking else Dozing
    {
      ready := stop || tasks != [];
      StepKeepsInv(machine, TestPredicate(w));
      machine := Apply(machine, TestPredicate(w));
    }

    /** worker_loop after the wait: leave, or take the oldest task. */
    method TakeLocked(ghost w: nat) returns (task: Option<Task>)
      requires Valid() && WorkerAt(machine, w, Taking)
      modifies this
      ensures Valid() && machine == Apply(old(machine), Take(w))
      ensures task == None <==> old(stop) && old(tasks) == []
      ensures task.Some? ==> old(tasks) == [task.value] + tasks && machine.workers[w] == Running(task.value)
      ensures task == None ==> tasks == [] && machine.workers[w] == Exited
      ensures stop == old(stop)
    {
      StepKeepsInv(machine, Take(w));
      machine := Apply(machine, Take(w));
      if stop && tasks == [] {
        return None;
      }
      task := Some(tasks[0]);
      tasks := tasks[1..];
    }

    /** shut_down, between lock and unlock. */
    method StopLocked()
      requires Valid() && machine.shut == Locked
      modifies this
      ensures Valid() && machine == Apply(old(machine), StoreStop)
      ensures stop && tasks == old(tasks)
    {
      StepKeepsInv(machine, StoreStop);
      machine := Apply(machine, StoreStop);
      stop := true;
    }
  }
}
