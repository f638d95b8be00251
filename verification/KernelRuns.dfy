/** Runs of the kernel from boot: the first environments start, and a parent's call
puts its child on two processors (lab/kern/init.c:58-110, lab/kern/syscall.c:120-147). */
module KernelRuns {
  import opened EnvId
  import opened Sched
  import opened Exclusion
  import opened Kernel

  /** The only eligible slot is chosen, unless the search starts there. */
  lemma PicksOnly(envs: seq<Env>, cur: int, cpu: nat, choice: Choice, t: nat)
    requires |envs| == NENV && -1 <= cur < NENV - 1 && cpu < NENV && Chosen(envs, cur, cpu, choice)
    requires t < NENV && t != Origin(cur) && forall k :: 0 <= k < NENV ==> (Eligible(envs[k]) <==> k == t)
    ensures choice == Run(t)
  {
    var i := Origin(cur);
    assert At(i, Distance(i, t)) == t;
    assert !NoneEligible(envs, i);
    var n :| First(envs, i, n) && choice == Run(At(i, n));
  }

  /** With nothing eligible but something running, a new processor idles. */
  lemma PicksIdle(envs: seq<Env>, cpu: nat, choice: Choice, t: nat)
    requires |envs| == NENV && cpu < NENV && Chosen(envs, -1, cpu, choice)
    requires t < NENV && Busy(envs[t]) && envs[cpu].status == Runnable
    requires forall k :: 0 <= k < NENV ==> !Eligible(envs[k])
    ensures choice == Run(cpu)
  {
    assert NoneEligible(envs, 1);
  }

  /** The table while the first environments start: eight idle ones, the file
      server in slot 8, perhaps its child in slot 9, and nothing else. */
  predicate Booting(envs: seq<Env>, server: Status, child: Status) {
    && |envs| == NENV
    && (forall i :: 0 <= i < NCPU ==> envs[i].typ == Idle)
    && envs[NCPU].typ == FileServer && envs[NCPU].status == server
    && (envs[NCPU + 1].status == child && envs[NCPU + 1].typ == User)
    && (forall i :: NCPU + 1 < i < NENV ==> envs[i].status == Free)
  }

  /** Such a table with the file server on processor 0 and the idle environments of
      those from 1 up to `c` running there. */
  predicate Starting(w: World, ncpu: nat, c: nat) {
    && Sized(w) && |w.sys.cur| == ncpu <= NCPU && w.free != [] && w.free[0] == NCPU + 1
    && Booting(w.sys.envs, Running, Free) && (forall i :: c <= i < NCPU ==> w.sys.envs[i].status == Runnable)
    && forall d :: 0 <= d < ncpu ==> w.sys.cur[d] == if d == 0 then NCPU else if d < c then d else -1
  }

  lemma ServerStarts(w0: World, w: World, ncpu: nat, choice: Choice, after: Sys)
    requires 1 <= ncpu <= NCPU && Booted(w0, ncpu) && Sized(w0) && w == Alloc(w0, 0, FileServer, Runnable)
    requires Decided(w.sys, 0, true, choice, after)
    ensures choice == Run(NCPU) && Starting(w.(sys := after), ncpu, 1)
  {
    PicksOnly(w.sys.envs, -1, 0, choice, NCPU);
  }

  lemma IdleStarts(w: World, ncpu: nat, c: nat, choice: Choice, after: Sys)
    requires Starting(w, ncpu, c) && 1 <= c < ncpu && Decided(w.sys, c, true, choice, after)
    ensures choice == Run(c) && Starting(w.(sys := after), ncpu, c + 1)
  {
    PicksIdle(w.sys.envs, c, choice, NCPU);
  }

  lemma BootedFirst(w: World, ncpu: nat)
    requires Booted(w, ncpu) && 1 <= ncpu
    ensures |w.sys.cur| == ncpu && w.sys.cur[0] == -1 && w.free != []
  {
  }

  lemma CreatedFirst(w0: World, w: World, ncpu: nat)
    requires Booted(w0, ncpu) && 1 <= ncpu && Sized(w0) && w0.free != [] && w == Alloc(w0, 0, FileServer, Runnable)
    ensures |w.sys.cur| == ncpu && w.sys.cur[0] == -1
  {
  }

  lemma StartingNext(w: World, ncpu: nat, c: nat)
    requires Starting(w, ncpu, c) && 1 <= c < ncpu
    ensures |w.sys.cur| == ncpu && w.sys.cur[c] == -1
  {
  }

  /** Such runs exist: with a file server created, every processor starts, the
      first with the file server and the others idle. */
  method Boot(ncpu: nat) returns (k: Kernel)
    requires 1 <= ncpu <= NCPU
    ensures fresh(k) && k.Valid() && Starting(k.Whole(), ncpu, ncpu)
  {
    hide Excl, IdsOk, FreeListOk, MsgsOk, Decided, Alloc, Booted, Starting, GoesOn;
    k := new Kernel(ncpu);
    ghost var w0 := k.Whole();
    assert |k.cur| == ncpu && k.cur[0] == -1 && k.free != [] by {
      BootedFirst(w0, ncpu);
    }
    var server := k.EnvCreate(FileServer, true);
    ghost var w1 := k.Whole();
    CreatedFirst(w0, w1, ncpu);
    var first := k.Start(0);
    ServerStarts(w0, w1, ncpu, first, k.Now());
    var c := 1;
    while c < ncpu
      invariant fresh(k) && k.Valid() && 1 <= c <= ncpu && Starting(k.Whole(), ncpu, c)
      modifies k
    {
      ghost var w := k.Whole();
      StartingNext(w, ncpu, c);
      var idle := k.Start(c);
      IdleStarts(w, ncpu, c, idle, k.Now());
      c := c + 1;
    }
  }

  /** Two processors, the first with the file server; its child, if there is one,
      has the id `id` and this status. */
  predicate Pair(w: World, child: Status, second: nat, id: int) {
    && Sized(w) && |w.sys.cur| == 2 && w.sys.cur[0] == NCPU && w.sys.cur[1] == second
    && Booting(w.sys.envs, Running, child)
    && (child == Free ==> w.free != [] && w.free[0] == NCPU + 1)
    && (child != Free ==> Resolve(w.sys, 0, id, true) == NCPU + 1 && w.phase[NCPU + 1] == Ready)
  }

  lemma ForkRun(w: World, id: int, choice: Choice, after: Sys)
    requires Pair(w, Free, 1, id) && Decided(Effect(w, 0, Exofork(true)).sys, 0, false, choice, after)
    requires id == Answer(w, 0, Exofork(true)) && Resolve(Effect(w, 0, Exofork(true)).sys, 0, id, true) == NCPU + 1
    ensures choice == Run(NCPU) && Pair(Effect(w, 0, Exofork(true)).(sys := after), NotRunnable, 1, id)
  {
  }

  lemma SetStatusRun(w: World, child: Status, second: nat, id: int, choice: Choice, after: Sys)
    requires Pair(w, child, second, id) && child != Free
    requires Decided(Effect(w, 0, SetStatus(id, Runnable)).sys, 0, false, choice, after)
    ensures choice == Run(NCPU) && Pair(Effect(w, 0, SetStatus(id, Runnable)).(sys := after), Runnable, second, id)
    ensures child == NotRunnable ==> Harmless(w.sys, w.phase, 0, SetStatus(id, Runnable))
  {
  }

  lemma ChildRun(w: World, id: int, choice: Choice, after: Sys)
    requires Pair(w, Runnable, 1, id) && w.sys.envs[1].status != Dying
    requires Decided(Effect(w, 1, Timer).sys, 1, true, choice, after)
    ensures choice == Run(NCPU + 1) && Pair(Effect(w, 1, Timer).(sys := after), Running, NCPU + 1, id)
  {
    PicksOnly(w.sys.envs, 1, 1, choice, NCPU + 1);
  }

  lemma DoubleRun(w: World, id: int, choice: Choice, after: Sys)
    requires Pair(w, Runnable, NCPU + 1, id) && Decided(w.sys, 0, true, choice, after)
    ensures |after.cur| == 2 && after.cur[0] == after.cur[1] == NCPU + 1 && Doubled(after)
  {
    PicksOnly(w.sys.envs, NCPU, 0, choice, NCPU + 1);
    assert after.cur[0] == after.cur[1];
  }

  lemma ExoforkFinds(w: World)
    requires Starting(w, 2, 2) && Sound(w)
    ensures Pair(w, Free, 1, Answer(w, 0, Exofork(true)))
    ensures var id := Answer(w, 0, Exofork(true)); Resolve(Effect(w, 0, Exofork(true)).sys, 0, id, true) == NCPU + 1
  {
    Enter(w.sys, 0);
    ExoforkKeeps(w, 0, true);
  }

  /** The file server forks on processor 0. */
  method Forked() returns (k: Kernel, id: int)
    ensures fresh(k) && k.Valid() && Pair(k.Whole(), NotRunnable, 1, id)
  {
    k := Boot(2);
    ghost var w := k.Whole();
    ExoforkFinds(w);
    hide Excl, IdsOk, FreeListOk, MsgsOk, Decided, Effect, Answer, Booting, Starting, Returns;
    var back;
    id, back := k.Trap(0, Exofork(true));
    ForkRun(w, id, back, k.Now());
  }

  /** It makes its child runnable. */
  method Released() returns (k: Kernel, id: int)
    ensures fresh(k) && k.Valid() && Pair(k.Whole(), Runnable, 1, id)
  {
    k, id := Forked();
    ghost var w := k.Whole();
    hide Excl, IdsOk, FreeListOk, MsgsOk, Decided, Effect, Answer, Booting, Returns;
    var r, back := k.Trap(0, SetStatus(id, Runnable));
    SetStatusRun(w, NotRunnable, 1, id, back, k.Now());
  }

  /** Processor 1 takes up the child. */
  method ChildRuns() returns (k: Kernel, id: int)
    ensures fresh(k) && k.Valid() && Pair(k.Whole(), Running, NCPU + 1, id)
  {
    k, id := Released();
    ghost var w := k.Whole();
    assert EnvOk(w.sys, 1);
    hide Excl, IdsOk, FreeListOk, MsgsOk, Decided, Effect, Answer, Booting, Returns;
    var r, choice := k.Trap(1, Timer);
    ChildRun(w, id, choice, k.Now());
  }

  /** The file server sets the running child's status to runnable all the same. */
  method Unclaimed() returns (k: Kernel, id: int)
    ensures fresh(k) && Pair(k.Whole(), Runnable, NCPU + 1, id)
  {
    k, id := ChildRuns();
    ghost var w := k.Whole();
    hide Excl, IdsOk, FreeListOk, MsgsOk, Decided, Effect, Answer, Booting, Returns;
    var r, back := k.Trap(0, SetStatus(id, Runnable));
    SetStatusRun(w, Running, NCPU + 1, id, back, k.Now());
  }

  /** At the next timer interrupt processor 0 runs what processor 1 is running. */
  method TwoProcessors() returns (k: Kernel)
    ensures fresh(k) && |k.cur| == 2 && k.cur[0] == k.cur[1] == NCPU + 1 && Doubled(k.Now())
  {
    var id;
    k, id := Unclaimed();
    ghost var w := k.Whole();
    var choice := k.Reschedule(0);
    DoubleRun(w, id, choice, k.Now());
  }
}
