/** Why the bound on waiting needs that nobody exits: after an exit the search starts
from slot 2 again, so a parent that forks children which exit can keep a processor
from an environment in a higher slot for ever (lab/kern/sched.c:33-56). */
module KernelWaits {
  import opened EnvId
  import opened Sched
  import opened Exclusion
  import opened Kernel
  import opened KernelTraces

  const SERVER := NCPU
  const CHILD := NCPU + 1
  const WAITER := NCPU + 2

  /** One processor, with the file server and its child, if there is one, and a third
      environment that is runnable. */
  predicate Trio(w: World, cur: int, server: Status, child: Status) {
    && Sized(w) && |w.sys.cur| == 1 && w.sys.cur[0] == cur
    && (forall i :: 0 <= i < NCPU ==> w.sys.envs[i].typ == Idle)
    && w.sys.envs[SERVER].typ != Idle && w.sys.envs[SERVER].status == server
    && w.sys.envs[CHILD].status == child && w.sys.envs[CHILD].typ != Idle
    && Eligible(w.sys.envs[WAITER]) && (child == Free ==> w.free != [] && w.free[0] == CHILD)
  }

  /** One step of the run: the processor goes to `k`. */
  ghost predicate Goes(w: World, ev: Event, k: nat, w': World) {
    && Sound(w) && Sound(w') && Allowed(w.sys, w.phase, TrapOn(0, ev))
    && Follows(w, TrapOn(0, ev), w') && Continues(w, TrapOn(0, ev)) && 0 < |w'.sys.cur| && w'.sys.cur[0] == k
  }

  /** A trap whose way out is to run `k` is such a step. */
  lemma Take(w: World, ev: Event, k: nat) returns (w': World)
    requires Sound(w) && Allowed(w.sys, w.phase, TrapOn(0, ev)) && k < NENV
    requires var mid := Effect(w, 0, ev).sys; Decided(mid, 0, Yields(ev), Run(k), EnvRun(mid, 0, k))
    ensures Goes(w, ev, k, w') && w' == Effect(w, 0, ev).(sys := EnvRun(Effect(w, 0, ev).sys, 0, k))
  {
    hide Excl, IdsOk, FreeListOk, MsgsOk, Effect, Returns, Harmless;
    var mid := Effect(w, 0, ev);
    w' := mid.(sys := EnvRun(mid.sys, 0, k));
    MidLocked(w, 0, ev);
    ReturnsExactly(mid.sys, 0, Yields(ev), Run(k), w'.sys);
    assert Decided(mid.sys, 0, Yields(ev), Run(k), w'.sys);
    StepKeeps(w, TrapOn(0, ev), w');
  }

  lemma ForkStep(w: World) returns (w': World, id: int)
    requires Sound(w) && Trio(w, SERVER, Running, Free)
    ensures Goes(w, Exofork(true), SERVER, w') && Trio(w', SERVER, Running, NotRunnable)
    ensures Resolve(w'.sys, 0, id, true) == CHILD && w'.phase[CHILD] == Ready
  {
    hide Excl, IdsOk, FreeListOk, MsgsOk;
    w' := Take(w, Exofork(true), SERVER);
    id := Answer(w, 0, Exofork(true));
    Enter(w.sys, 0);
    ExoforkKeeps(w, 0, true);
  }

  lemma ReleaseStep(w: World, id: int) returns (w': World)
    requires Sound(w) && Trio(w, SERVER, Running, NotRunnable)
    requires Resolve(w.sys, 0, id, true) == CHILD && w.phase[CHILD] == Ready
    ensures Goes(w, SetStatus(id, Runnable), SERVER, w') && Trio(w', SERVER, Running, Runnable)
  {
    hide Excl, IdsOk, FreeListOk, MsgsOk;
    w' := Take(w, SetStatus(id, Runnable), SERVER);
  }

  lemma YieldStep(w: World) returns (w': World)
    requires Sound(w) && Trio(w, SERVER, Running, Runnable)
    ensures Goes(w, Yield, CHILD, w') && Trio(w', CHILD, Runnable, Running) && Decides(w, TrapOn(0, Yield), 0)
  {
    hide Excl, IdsOk, FreeListOk, MsgsOk;
    assert At(SERVER, 1) == CHILD && First(w.sys.envs, SERVER, 1);
    w' := Take(w, Yield, CHILD);
  }

  /** The child exits, and the search starts again from the front. */
  lemma ExitStep(w: World) returns (w': World)
    requires Sound(w) && Trio(w, CHILD, Runnable, Running)
    ensures Goes(w, Destroy(0), SERVER, w') && Trio(w', SERVER, Running, Free) && Decides(w, TrapOn(0, Destroy(0)), 0)
  {
    hide Excl, IdsOk, FreeListOk, MsgsOk;
    var mid := Effect(w, 0, Destroy(0)).sys;
    assert At(1, SERVER - 1) == SERVER;
    assert forall d :: 1 <= d < SERVER - 1 ==> At(1, d) == 1 + d;
    assert First(mid.envs, 1, SERVER - 1);
    w' := Take(w, Destroy(0), SERVER);
  }

  /** The first `n` environments have been created, and nothing runs. */
  predicate Created(w: World, n: nat) {
    && Sized(w) && |w.sys.cur| == 1 && w.sys.cur[0] == -1
    && (forall i :: 0 <= i < NCPU ==> w.sys.envs[i].typ == Idle)
    && (forall i :: NCPU <= i < NCPU + n < NENV ==> Eligible(w.sys.envs[i]))
    && |w.free| == NENV - NCPU - n && forall i :: 0 <= i < |w.free| ==> w.free[i] == NCPU + n + i
  }

  lemma CreateStep(w: World, n: nat, typ: EnvType) returns (w': World)
    requires Sound(w) && Created(w, n) && n < 3 && typ != Idle
    ensures Sound(w') && Follows(w, Create(typ, true), w') && Continues(w, Create(typ, true)) && Created(w', n + 1)
  {
    hide Excl, IdsOk, FreeListOk, MsgsOk;
    w' := Alloc(w, 0, typ, Runnable);
    StepKeeps(w, Create(typ, true), w');
  }

  lemma StartStep(w: World) returns (w': World)
    requires Sound(w) && Created(w, 3)
    ensures Sound(w') && Follows(w, StartOn(0), w') && Continues(w, StartOn(0)) && Trio(w', SERVER, Running, Runnable)
  {
    hide Excl, IdsOk, FreeListOk, MsgsOk;
    assert At(1, SERVER - 1) == SERVER;
    assert forall d :: 1 <= d < SERVER - 1 ==> At(1, d) == 1 + d;
    assert First(w.sys.envs, 1, SERVER - 1);
    w' := w.(sys := EnvRun(w.sys, 0, SERVER));
    assert Decided(w.sys, 0, true, Run(SERVER), w'.sys);
    StepKeeps(w, StartOn(0), w');
  }

  lemma Extend(trace: seq<World>, script: seq<Step>, step: Step, w': World)
    requires Trace(trace, script) && Sound(w')
    requires Follows(trace[|script|], step, w') && Continues(trace[|script|], step)
    ensures Trace(trace + [w'], script + [step])
  {
    hide Sound, Follows, Continues;
    var trace', script' := trace + [w'], script + [step];
    forall n | 0 <= n < |script'|
      ensures Follows(trace'[n], script'[n], trace'[n + 1]) && Continues(trace'[n], script'[n])
    {
      if n < |script| {
        assert Follows(trace[n], script[n], trace[n + 1]);
      }
    }
  }

  lemma BootCreated()
    ensures Sound(BootWorld(1)) && Created(BootWorld(1), 0)
  {
    BootSound(1);
  }

  /** A run so far, in which the third environment has been runnable from its fourth step on. */
  ghost predicate Waiting(trace: seq<World>, script: seq<Step>) {
    && Trace(trace, script) && Booted(trace[0], 1) && 4 <= |script|
    && forall n :: 4 <= n < |trace| ==> Eligible(trace[n].sys.envs[WAITER])
  }

  lemma WaitOn(trace: seq<World>, script: seq<Step>, ev: Event, k: nat, w': World, server: Status, child: Status)
    requires Waiting(trace, script) && Goes(trace[|script|], ev, k, w') && Trio(w', k, server, child)
    ensures Waiting(trace + [w'], script + [TrapOn(0, ev)])
  {
    hide Sound, Follows, Continues, Booted;
    Extend(trace, script, TrapOn(0, ev), w');
  }

  /** Three environments are created, and the first starts. */
  lemma Opening() returns (trace: seq<World>, script: seq<Step>)
    ensures Waiting(trace, script) && |script| == 4 && Trio(trace[4], SERVER, Running, Runnable)
  {
    hide Excl, IdsOk, FreeListOk, MsgsOk, Follows, Continues, Created, Booted;
    BootCreated();
    var w0 := BootWorld(1);
    var w1 := CreateStep(w0, 0, FileServer);
    var w2 := CreateStep(w1, 1, User);
    var w3 := CreateStep(w2, 2, User);
    var w4 := StartStep(w3);
    Extend([w0], [], Create(FileServer, true), w1);
    trace, script := [w0] + [w1], [] + [Create(FileServer, true)];
    Extend(trace, script, Create(User, true), w2);
    trace, script := trace + [w2], script + [Create(User, true)];
    Extend(trace, script, Create(User, true), w3);
    trace, script := trace + [w3], script + [Create(User, true)];
    Extend(trace, script, StartOn(0), w4);
    trace, script := trace + [w4], script + [StartOn(0)];
  }

  /** The child of the moment runs and exits; the processor has been to the scheduler
      twice, and has passed the third environment by. */
  lemma PassedBy(trace: seq<World>, script: seq<Step>) returns (trace': seq<World>, script': seq<Step>)
    requires Waiting(trace, script) && Trio(trace[|script|], SERVER, Running, Runnable)
    ensures Waiting(trace', script') && |script'| == |script| + 2 && Trio(trace'[|script'|], SERVER, Running, Free)
    ensures trace' == trace + trace'[|trace|..] && script' == script + script'[|script|..]
    ensures Decides(trace'[|script|], script'[|script|], 0) && Decides(trace'[|script| + 1], script'[|script| + 1], 0)
  {
    hide Excl, IdsOk, FreeListOk, MsgsOk, Booted, Trio, Decides;
    var w1 := YieldStep(trace[|script|]);
    WaitOn(trace, script, Yield, CHILD, w1, Runnable, Running);
    trace', script' := trace + [w1], script + [TrapOn(0, Yield)];
    var w2 := ExitStep(w1);
    WaitOn(trace', script', Destroy(0), SERVER, w2, Running, Free);
    trace', script' := trace' + [w2], script' + [TrapOn(0, Destroy(0))];
  }

  /** The server forks again, into the slot that was freed. */
  lemma ForksAgain(trace: seq<World>, script: seq<Step>) returns (trace': seq<World>, script': seq<Step>)
    requires Waiting(trace, script) && Trio(trace[|script|], SERVER, Running, Free)
    ensures Waiting(trace', script') && |script'| == |script| + 2 && Trio(trace'[|script'|], SERVER, Running, Runnable)
    ensures trace' == trace + trace'[|trace|..] && script' == script + script'[|script|..]
  {
    hide Excl, IdsOk, FreeListOk, MsgsOk, Booted, Trio, Resolve;
    var w1, id := ForkStep(trace[|script|]);
    WaitOn(trace, script, Exofork(true), SERVER, w1, Running, NotRunnable);
    trace', script' := trace + [w1], script + [TrapOn(0, Exofork(true))];
    var w2 := ReleaseStep(w1, id);
    WaitOn(trace', script', SetStatus(id, Runnable), SERVER, w2, Running, Runnable);
    trace', script' := trace' + [w2], script' + [TrapOn(0, SetStatus(id, Runnable))];
  }

  /** For every number there is a run in which the only processor comes to the
      scheduler that often, twice in every four steps, and an environment that is
      runnable all the time never runs. */
  lemma {:induction false} Starves(n: nat) returns (trace: seq<World>, script: seq<Step>)
    ensures Waiting(trace, script) && |script| == 4 * n + 4 && Trio(trace[|script|], SERVER, Running, Runnable)
    ensures forall j :: 0 <= j < n ==>
              Decides(trace[4 * j + 4], script[4 * j + 4], 0) && Decides(trace[4 * j + 5], script[4 * j + 5], 0)
  {
    hide Excl, IdsOk, FreeListOk, MsgsOk, Booted, Trio, Decides, Follows, Continues;
    if n == 0 {
      trace, script := Opening();
    } else {
      var trace0, script0 := Starves(n - 1);
      var trace1, script1 := PassedBy(trace0, script0);
      trace, script := ForksAgain(trace1, script1);
      forall j | 0 <= j < n
        ensures Decides(trace[4 * j + 4], script[4 * j + 4], 0) && Decides(trace[4 * j + 5], script[4 * j + 5], 0)
      {
        assert trace[4 * j + 4] == trace1[4 * j + 4] && trace[4 * j + 5] == trace1[4 * j + 5];
        assert j < n - 1 ==> trace1[4 * j + 4] == trace0[4 * j + 4] && trace1[4 * j + 5] == trace0[4 * j + 5];
      }
    }
  }
}
