/** What holds from step to step of a kernel run: who can run, what a receiver gets,
and how long an environment waits for a processor (lab/kern/sched.c:9-85,
lab/kern/env.c:604-640, lab/kern/syscall.c:409-464). */
module KernelTraces {
  import opened Common
  import opened EnvId
  import opened Sched
  import opened Exclusion
  import opened Kernel

  predicate CanRun(e: Env) {
    e.status == Runnable || e.status == Running
  }

  /** The step takes the environment in slot `i` off the processors: it begins a
      receive itself, or is set not runnable, or is destroyed. */
  predicate Stops(w: World, step: Step, i: nat)
    requires Sized(w)
  {
    && step.TrapOn? && Allowed(w.sys, w.phase, step) && w.sys.envs[w.sys.cur[step.c]].status != Dying
    && match step.ev
       case Receive(dstva) => w.sys.cur[step.c] == i && !Misplaced(dstva)
       case SetStatus(id, status) =>
         status == NotRunnable && Known(w.sys, step.c, id, true) && SlotOf(w.sys, step.c, id) == i
       case Destroy(id) => Known(w.sys, step.c, id, true) && SlotOf(w.sys, step.c, id) == i
       case _ => false
  }

  /** The change of record `i` by an event, before the way out. */
  predicate Spared(e: Env, e': Env, stops: bool) {
    && (CanRun(e') <==> !stops) && (!stops && e.status == Runnable ==> e'.status == Runnable)
    && e' == e.(status := e'.status, recving := e'.recving, ipcValue := e'.ipcValue, ipcFrom := e'.ipcFrom)
  }

  lemma EffectSpares(w: World, c: nat, ev: Event, i: nat)
    requires Sized(w) && Allowed(w.sys, w.phase, TrapOn(c, ev)) && i < NENV && CanRun(w.sys.envs[i])
    requires !w.sys.envs[i].recving && (w.free != [] ==> w.free[0] != i)
    ensures Spared(w.sys.envs[i], Effect(w, c, ev).sys.envs[i], Stops(w, TrapOn(c, ev), i))
  {
  }

  /** The way out leaves every environment able to run that was, and no other: it
      makes the environment that ran runnable and the chosen one running. */
  lemma DecidedCanRun(mid: Sys, c: nat, mustYield: bool, choice: Choice, after: Sys, i: nat)
    requires Inside(mid, c) && Decided(mid, c, mustYield, choice, after) && i < NENV
    ensures |after.envs| == NENV && (CanRun(after.envs[i]) <==> CanRun(mid.envs[i]))
    ensures choice.Run? ==> after.cur == mid.cur[c := choice.k]
    ensures choice.Run? && i == choice.k ==>
              after.envs[i] == mid.envs[i].(status := Running, runs := mid.envs[i].runs + 1, cpu := c)
    ensures choice.Run? && i != choice.k && i == mid.cur[c] && mid.envs[i].status == Running ==>
              after.envs[i] == mid.envs[i].(status := Runnable)
    ensures (choice.Run? ==> i != choice.k) && (i == mid.cur[c] ==> mid.envs[i].status != Running) ==>
              after.envs[i] == mid.envs[i]
  {
    assert EnvOk(mid, c);
  }

  lemma EffectNone(w: World, c: nat, ev: Event)
    requires Entered(w, c) && Yields(ev)
    ensures Effect(w, c, ev) == w
  {
  }

  lemma CallLocked(w: World, c: nat, ev: Event)
    requires Entered(w, c) && Harmless(w.sys, w.phase, c, ev)
    ensures Locked(Effect(w, c, ev), c)
  {
    hide Locked, Inside, Booked, Effect, SetStatusSafe, DestroySafe;
    match ev
    case Timer => EffectNone(w, c, ev);
    case Yield => EffectNone(w, c, ev);
    case Exofork(memory) => ExoforkKeeps(w, c, memory);
    case Receive(dstva) => ReceiveKeeps(w, c, dstva);
    case Send(id, value) => SendKeeps(w, c, id, value);
    case SetStatus(id, status) => SetStatusKeeps(w, c, id, status);
    case Destroy(id) => DestroyKeeps(w, c, id);
  }

  /** The processor decides with everything in order. */
  lemma MidLocked(w: World, c: nat, ev: Event)
    requires Sound(w) && Allowed(w.sys, w.phase, TrapOn(c, ev))
    ensures Locked(Effect(w, c, ev), c)
  {
    assert CpuOk(w.sys, c) && EnvOk(w.sys, w.sys.cur[c]);
    if w.sys.envs[w.sys.cur[c]].status == Dying {
      CollectKeeps(w, c);
    } else {
      Enter(w.sys, c);
      CallLocked(w, c, ev);
    }
  }

  lemma EffectCanRun(w: World, c: nat, ev: Event, i: nat)
    requires Sound(w) && Allowed(w.sys, w.phase, TrapOn(c, ev)) && i < NENV && CanRun(w.sys.envs[i])
    ensures Spared(w.sys.envs[i], Effect(w, c, ev).sys.envs[i], Stops(w, TrapOn(c, ev), i))
  {
    hide Effect, Allowed, Stops;
    assert MsgOk(w.sys.envs[i], w.phase[i], w.sent[i], w.seen[i]);
    assert w.free != [] ==> w.sys.envs[w.free[0]].status == Free;
    EffectSpares(w, c, ev, i);
  }

  /** An environment that can run can run after a step exactly unless the step
      stops it, whatever else the step does and whoever is chosen. */
  lemma CanRunExactly(w: World, step: Step, w': World, i: nat)
    requires Sound(w) && Follows(w, step, w') && i < NENV && CanRun(w.sys.envs[i])
    ensures |w'.sys.envs| == NENV && (CanRun(w'.sys.envs[i]) <==> !Stops(w, step, i))
  {
    hide Effect, Excl, IdsOk, MsgsOk, Chosen, EnvRun;
    if Allowed(w.sys, w.phase, step) {
      match step
      case Create(typ, memory) =>
        assert w.free != [] ==> w.sys.envs[w.free[0]].status == Free;
      case StartOn(c) =>
        var choice :| Decided(w.sys, c, true, choice, w'.sys);
        Enter(w.sys, c);
        DecidedCanRun(w.sys, c, true, choice, w'.sys, i);
      case TrapOn(c, ev) =>
        var mid := Effect(w, c, ev);
        var choice :| Decided(mid.sys, c, Yields(ev), choice, w'.sys);
        MidLocked(w, c, ev);
        EffectCanRun(w, c, ev, i);
        DecidedCanRun(mid.sys, c, Yields(ev), choice, w'.sys, i);
      case FetchOn(c) =>
    }
  }

  /** The event is about the environment in slot `i`, beside the caller's own. */
  predicate Concerns(w: World, c: nat, ev: Event, i: nat)
    requires Sized(w) && c < |w.sys.cur| && w.sys.cur[c] >= 0
  {
    match ev
    case Exofork(memory) => w.free != [] && w.free[0] == i
    case SetStatus(id, _) => SlotOf(w.sys, c, id) == i
    case Send(id, _) => SlotOf(w.sys, c, id) == i
    case Destroy(id) => SlotOf(w.sys, c, id) == i
    case _ => false
  }

  lemma EffectFrame(w: World, c: nat, ev: Event, i: nat)
    requires Sized(w) && c < |w.sys.cur| && w.sys.cur[c] >= 0 && i < NENV
    ensures var mid := Effect(w, c, ev);
            && mid.sys.cur[c := 0] == w.sys.cur[c := 0] && mid.sys.cur[c] in {w.sys.cur[c], -1}
            && (mid.sys.cur[c] == -1 ==> mid.sys.envs[w.sys.cur[c]].status == Free)
            && (CanRun(mid.sys.envs[i]) ==> mid.sys.envs[i].runs == w.sys.envs[i].runs)
            && (i != w.sys.cur[c] && !Concerns(w, c, ev, i) ==> mid.sys.envs[i] == w.sys.envs[i])
  {
  }

  lemma ChosenCanRun(mid: Sys, c: nat, mustYield: bool, choice: Choice, after: Sys)
    requires Inside(mid, c) && Decided(mid, c, mustYield, choice, after) && choice.Run?
    ensures choice.k < NENV && CanRun(mid.envs[choice.k])
  {
  }

  /** A trap that goes back to user mode: the environment it goes to is running, here,
      once more than before; the one that ran until now, if it was not stopped, is
      runnable; and no environment changes but these and the one the call is about. */
  lemma SwitchExactly(w: World, c: nat, ev: Event, w': World, i: nat)
    requires Sound(w) && Allowed(w.sys, w.phase, TrapOn(c, ev)) && i < NENV
    requires Follows(w, TrapOn(c, ev), w') && Continues(w, TrapOn(c, ev))
    ensures |w'.sys.envs| == NENV && |w'.sys.cur| == |w.sys.cur| && 0 <= w'.sys.cur[c] < NENV
    ensures w'.sys.cur == w.sys.cur[c := w'.sys.cur[c]]
    ensures var k := w'.sys.cur[c];
            w'.sys.envs[k].status == Running && w'.sys.envs[k].cpu == c &&
            w'.sys.envs[k].runs == w.sys.envs[k].runs + 1
    ensures i == w.sys.cur[c] && i != w'.sys.cur[c] && w.sys.envs[i].status == Running &&
            !Stops(w, TrapOn(c, ev), i) ==>
              w'.sys.envs[i].status == Runnable && w'.sys.envs[i].runs == w.sys.envs[i].runs
    ensures i != w.sys.cur[c] && i != w'.sys.cur[c] && !Concerns(w, c, ev, i) ==> w'.sys.envs[i] == w.sys.envs[i]
  {
    hide Effect, Excl, IdsOk, MsgsOk, FreeListOk, Chosen, EnvRun, Stops, Concerns;
    var mid := Effect(w, c, ev);
    var choice :| Decided(mid.sys, c, Yields(ev), choice, w'.sys);
    MidLocked(w, c, ev);
    ReturnsExactly(mid.sys, c, Yields(ev), choice, w'.sys);
    ChosenCanRun(mid.sys, c, Yields(ev), choice, w'.sys);
    EffectFrame(w, c, ev, i);
    EffectFrame(w, c, ev, choice.k);
    DecidedCanRun(mid.sys, c, Yields(ev), choice, w'.sys, i);
    DecidedCanRun(mid.sys, c, Yields(ev), choice, w'.sys, choice.k);
    assert mid.sys.cur[c := 0][c := choice.k] == mid.sys.cur[c := choice.k] == w'.sys.cur;
    assert w.sys.cur[c := 0][c := choice.k] == w.sys.cur[c := choice.k];
    if CanRun(w.sys.envs[i]) {
      EffectCanRun(w, c, ev, i);
      CanRunExactly(w, TrapOn(c, ev), w', i);
    }
  }

  /** Everything a run of `script` goes through, without a stop. */
  ghost predicate Trace(trace: seq<World>, script: seq<Step>) {
    && |trace| == |script| + 1
    && (forall n :: 0 <= n <= |script| ==> Sound(trace[n]))
    && (forall n :: 0 <= n < |script| ==> Follows(trace[n], script[n], trace[n + 1]) && Continues(trace[n], script[n]))
  }

  /** The step brings processor `c` to the scheduler. */
  predicate Decides(w: World, step: Step, c: nat)
    requires Sized(w)
  {
    && step.TrapOn? && step.c == c && Allowed(w.sys, w.phase, step)
    && var mid := Effect(w, c, step.ev).sys;
    Yields(step.ev) || mid.cur[c] < 0 || mid.envs[mid.cur[c]].status != Running
  }

  /** The current environment of processor `c` exits or is collected. */
  predicate Vacates(w: World, step: Step, c: nat)
    requires Sized(w)
  {
    step.TrapOn? && step.c == c && Allowed(w.sys, w.phase, step) && Effect(w, c, step.ev).sys.cur[c] < 0
  }

  /** How often processor `c` comes to the scheduler. */
  ghost function Turns(trace: seq<World>, script: seq<Step>, c: nat): nat
    requires |trace| == |script| + 1 && forall n :: 0 <= n < |script| ==> Sized(trace[n])
  {
    if script == [] then 0 else (if Decides(trace[0], script[0], c) then 1 else 0) + Turns(trace[1..], script[1..], c)
  }

  /** At a decision of processor `c`, the environment in slot `e` is chosen or comes closer. */
  lemma DecisionCloser(mid: Sys, c: nat, choice: Choice, e: nat)
    requires Inside(mid, c) && mid.cur[c] >= 0 && e < NENV && Eligible(mid.envs[e]) && e != mid.cur[c]
    requires Chosen(mid.envs, mid.cur[c], c, choice) && choice.Run? && choice.k != e
    ensures choice.k < NENV && Distance(choice.k, e) < Distance(mid.cur[c], e)
  {
    var i := mid.cur[c];
    assert At(i, Distance(i, e)) == e && !NoneEligible(mid.envs, i);
    var d :| First(mid.envs, i, d) && choice == Run(At(i, d));
    Closer(mid.envs, i, d, e);
  }

  lemma NotCurrent(w: World, c: nat, e: nat)
    requires Sound(w) && c < |w.sys.cur| && e < NENV && Eligible(w.sys.envs[e])
    ensures -1 <= w.sys.cur[c] < NENV && w.sys.cur[c] != e
  {
    assert CpuOk(w.sys, c);
  }

  /** The current slot of processor `c` comes closer to slot `e`, if the step takes it to the scheduler. */
  predicate Approaches(w: World, step: Step, w': World, c: nat, e: nat)
    requires Sized(w) && c < |w.sys.cur| && e < NENV && 0 <= w.sys.cur[c] < NENV
  {
    && c < |w'.sys.cur| && 0 <= w'.sys.cur[c] < NENV
    && Distance(w'.sys.cur[c], e) <= Distance(w.sys.cur[c], e) - if Decides(w, step, c) then 1 else 0
  }

  lemma TrapCloser(w: World, d: nat, ev: Event, w': World, c: nat, e: nat)
    requires Sound(w) && Follows(w, TrapOn(d, ev), w') && Continues(w, TrapOn(d, ev))
    requires Allowed(w.sys, w.phase, TrapOn(d, ev))
    requires c < |w.sys.cur| && 0 <= w.sys.cur[c] < NENV && e < NENV && Eligible(w.sys.envs[e]) && w.sys.cur[c] != e
    requires !Stops(w, TrapOn(d, ev), e) && !Vacates(w, TrapOn(d, ev), c)
    ensures |w'.sys.envs| == NENV && |w'.sys.cur| == |w.sys.cur| && w'.sys.envs[e].typ == w.sys.envs[e].typ
    ensures w'.sys.envs[e].status != Running ==> Approaches(w, TrapOn(d, ev), w', c, e)
  {
    hide Effect, Excl, IdsOk, FreeListOk, MsgsOk, Inside, Chosen, EnvRun, Stops, Concerns, Harmless, Returns;
    SwitchExactly(w, d, ev, w', e);
    var mid := Effect(w, d, ev);
    var choice :| Decided(mid.sys, d, Yields(ev), choice, w'.sys);
    MidLocked(w, d, ev);
    ReturnsExactly(mid.sys, d, Yields(ev), choice, w'.sys);
    EffectFrame(w, d, ev, e);
    EffectCanRun(w, d, ev, e);
    DecidedCanRun(mid.sys, d, Yields(ev), choice, w'.sys, e);
    if Decides(w, TrapOn(d, ev), c) && choice.k != e {
      DecisionCloser(mid.sys, c, choice, e);
    }
  }

  lemma QuietStep(w: World, step: Step, w': World, c: nat, e: nat)
    requires Sound(w) && Follows(w, step, w') && !(step.TrapOn? && Allowed(w.sys, w.phase, step))
    requires c < |w.sys.cur| && 0 <= w.sys.cur[c] < NENV && e < NENV && Eligible(w.sys.envs[e])
    ensures |w'.sys.envs| == NENV && |w'.sys.cur| == |w.sys.cur| && w'.sys.envs[e].typ == w.sys.envs[e].typ
    ensures w'.sys.cur[c] == w.sys.cur[c]
  {
    hide IdsOk, MsgsOk, Excl, Chosen;
    assert w.free != [] ==> w.sys.envs[w.free[0]].status == Free;
  }

  /** A step of any processor, seen by a runnable environment that waits for `c`. */
  lemma StepCloser(w: World, step: Step, w': World, c: nat, e: nat)
    requires Sound(w) && Sound(w') && Follows(w, step, w') && Continues(w, step)
    requires c < |w.sys.cur| && 0 <= w.sys.cur[c] < NENV && e < NENV && Eligible(w.sys.envs[e])
    requires !Stops(w, step, e) && !Vacates(w, step, c)
    ensures |w'.sys.cur| == |w.sys.cur| && |w'.sys.envs| == NENV && w.sys.cur[c] != e
    ensures w'.sys.envs[e].status != Running ==> Eligible(w'.sys.envs[e]) && Approaches(w, step, w', c, e)
  {
    hide Excl, IdsOk, FreeListOk, MsgsOk, Follows, Continues, Stops, Vacates, Allowed;
    CanRunExactly(w, step, w', e);
    NotCurrent(w, c, e);
    if step.TrapOn? && Allowed(w.sys, w.phase, step) {
      TrapCloser(w, step.c, step.ev, w', c, e);
    } else {
      QuietStep(w, step, w', c, e);
    }
  }

  lemma TraceRest(trace: seq<World>, script: seq<Step>)
    requires Trace(trace, script) && script != []
    ensures Trace(trace[1..], script[1..])
  {
    var rest, steps := trace[1..], script[1..];
    forall n | 0 <= n < |steps| ensures Follows(rest[n], steps[n], rest[n + 1]) && Continues(rest[n], steps[n]) {
      assert Follows(trace[n + 1], script[n + 1], trace[n + 1 + 1]) && Continues(trace[n + 1], script[n + 1]);
    }
  }

  lemma TraceFront(trace: seq<World>, script: seq<Step>)
    requires Trace(trace, script) && script != []
    ensures Trace(trace[..|script|], script[..|script| - 1])
  {
    var front, steps := trace[..|script|], script[..|script| - 1];
    forall n | 0 <= n < |steps| ensures Follows(front[n], steps[n], front[n + 1]) && Continues(front[n], steps[n]) {
      assert Follows(trace[n], script[n], trace[n + 1]);
    }
  }

  /** Bounded waiting over every run on any number of processors: an environment that
      is runnable, and that no step stops, runs before processor `c` has been to the
      scheduler as often as the environment's slot is ahead of it, at most 1023 times,
      as long as nobody exits on that processor. */
  lemma {:induction false} RunsInTime(trace: seq<World>, script: seq<Step>, c: nat, e: nat)
    requires Trace(trace, script) && c < |trace[0].sys.cur| && trace[0].sys.cur[c] >= 0
    requires e < NENV && trace[0].sys.envs[e].status == Runnable && trace[0].sys.envs[e].typ != Idle
    requires forall n :: 0 <= n < |script| ==> !Stops(trace[n], script[n], e) && !Vacates(trace[n], script[n], c)
    requires Turns(trace, script, c) >= Distance(trace[0].sys.cur[c], e)
    ensures trace[0].sys.cur[c] != e && 1 <= Distance(trace[0].sys.cur[c], e) < NENV
    ensures exists n :: 0 < n <= |script| && trace[n].sys.envs[e].status == Running
    decreases |script|
  {
    hide Follows, Continues, Stops, Vacates, Decides, Excl, IdsOk, FreeListOk, MsgsOk;
    var w := trace[0];
    NotCurrent(w, c, e);
    var w', rest, steps := trace[1], trace[1..], script[1..];
    assert Follows(trace[0], script[0], trace[0 + 1]) && Continues(trace[0], script[0]);
    StepCloser(w, script[0], w', c, e);
    TraceRest(trace, script);
    if w'.sys.envs[e].status != Running {
      assert forall n :: 0 <= n < |steps| ==> rest[n] == trace[n + 1] && steps[n] == script[n + 1];
      RunsInTime(rest, steps, c, e);
      var n :| 0 < n <= |steps| && rest[n].sys.envs[e].status == Running;
      assert trace[n + 1].sys.envs[e].status == Running;
    }
  }

  /** The environment that the step puts into a slot. */
  function Born(w: World, step: Step): Option<nat>
    requires Sized(w)
  {
    if w.free == [] || !Allowed(w.sys, w.phase, step) then None
    else if step.Create? && step.memory then Some(w.free[0])
    else if step.TrapOn? && step.ev == Exofork(true) && w.sys.envs[w.sys.cur[step.c]].status != Dying then
      Some(w.free[0])
    else None
  }

  /** The message that the step sends, if it is a send to an environment that waits,
      and the slot it goes to: the id of the caller, and the value it gave. */
  function Posted(w: World, step: Step): Option<(int, Msg)>
    requires Sized(w)
  {
    if !(step.TrapOn? && step.ev.Send? && Allowed(w.sys, w.phase, step)) then None
    else
      var me, t := w.sys.envs[w.sys.cur[step.c]], SlotOf(w.sys, step.c, step.ev.id);
      if me.status == Dying || !Known(w.sys, step.c, step.ev.id, false) || !w.sys.envs[t].recving then None
      else Some((t, Msg(me.id, step.ev.value)))
  }

  /** What the steps of a run have sent to the environment in slot `i`. */
  function Inbox(trace: seq<World>, script: seq<Step>, i: nat): seq<Msg>
    requires |trace| == |script| + 1 && forall n :: 0 <= n < |script| ==> Sized(trace[n])
    decreases |script|
  {
    if script == [] then []
    else
      var n := |script| - 1;
      var before, post := Inbox(trace[..n + 1], script[..n], i), Posted(trace[n], script[n]);
      if Born(trace[n], script[n]) == Some(i) then []
      else if post.Some? && post.value.0 == i then before + [post.value.1] else before
  }

  lemma SentStep(w: World, step: Step, w': World, i: nat)
    requires Sound(w) && Follows(w, step, w') && i < NENV
    ensures |w'.sent| == NENV
    ensures w'.sent[i] == if Born(w, step) == Some(i) then []
                          else if Posted(w, step).Some? && Posted(w, step).value.0 == i then
                            w.sent[i] + [Posted(w, step).value.1]
                          else w.sent[i]
  {
    hide Excl, IdsOk, MsgsOk, Decided;
  }

  /** Every message that a run from boot sends is on record, and no other. */
  lemma {:induction false} SentExactly(trace: seq<World>, script: seq<Step>, ncpu: nat, i: nat)
    requires Trace(trace, script) && Booted(trace[0], ncpu) && i < NENV
    ensures trace[|script|].sent[i] == Inbox(trace, script, i)
    decreases |script|
  {
    if script != [] {
      var n := |script| - 1;
      TraceFront(trace, script);
      SentExactly(trace[..n + 1], script[..n], ncpu, i);
      assert Follows(trace[n], script[n], trace[n + 1]);
      SentStep(trace[n], script[n], trace[n + 1], i);
    }
  }

  /** So over every run from boot an environment has fetched what was sent to it,
      by whom and in order, up to one message that it has not read yet. */
  lemma FetchedExactly(trace: seq<World>, script: seq<Step>, ncpu: nat, i: nat)
    requires Trace(trace, script) && Booted(trace[0], ncpu) && i < NENV && trace[|script|].sys.envs[i].status != Free
    ensures var w, sent := trace[|script|], Inbox(trace, script, i);
            && w.seen[i] <= sent && |sent| <= |w.seen[i]| + 1 && (w.phase[i] != Delivered ==> w.seen[i] == sent)
  {
    SentExactly(trace, script, ncpu, i);
    SoundMeans(trace[|script|]);
  }

  lemma CreateKeeps(w: World, typ: EnvType)
    requires Sound(w) && |w.sys.cur| > 0 && w.sys.cur[0] == -1 && w.free != [] && typ != Idle
    ensures Sound(Alloc(w, 0, typ, Runnable))
  {
    Enter(w.sys, 0);
    AllocKeeps(w, 0, 0, typ, Runnable);
    LeaveNone(Alloc(w, 0, typ, Runnable).sys, 0);
  }

  lemma CurrentKeeps(mid: World, c: nat)
    requires Locked(mid, c) && mid.sys.cur[c] >= 0 && mid.sys.envs[mid.sys.cur[c]].status == Running
    ensures Sound(mid.(sys := EnvRun(mid.sys, c, mid.sys.cur[c])))
  {
    assert EnvOk(mid.sys, mid.sys.cur[c]);
    RunKeeps(mid, c, mid.sys.cur[c]);
  }

  lemma WayOutKeeps(mid: World, c: nat, mustYield: bool, choice: Choice, after: Sys)
    requires Locked(mid, c) && Decided(mid.sys, c, mustYield, choice, after) && choice.Run?
    ensures Sound(mid.(sys := after))
  {
    hide Excl, IdsOk, FreeListOk, MsgsOk, Chosen, EnvRun;
    if !mustYield && mid.sys.cur[c] >= 0 && mid.sys.envs[mid.sys.cur[c]].status == Running {
      CurrentKeeps(mid, c);
    } else {
      ChoiceKeeps(mid, c, choice);
    }
  }

  lemma FetchKeeps(w: World, c: nat)
    requires Sound(w) && Allowed(w.sys, w.phase, FetchOn(c))
    ensures Sound(Fetched(w, c))
  {
    var i := w.sys.cur[c];
    assert CpuOk(w.sys, c);
    assert MsgOk(w.sys.envs[i], w.phase[i], w.sent[i], w.seen[i]);
  }

  /** Every step after which the kernel goes on keeps the invariant. */
  lemma StepKeeps(w: World, step: Step, w': World)
    requires Sound(w) && Follows(w, step, w') && Continues(w, step)
    ensures Sound(w')
  {
    hide Excl, IdsOk, FreeListOk, MsgsOk, Effect, Alloc, Fetched, Returns, GoesOn, Harmless;
    if Allowed(w.sys, w.phase, step) {
      match step
      case Create(typ, memory) => CreateKeeps(w, typ);
      case StartOn(c) =>
        var choice :| Decided(w.sys, c, true, choice, w'.sys);
        Enter(w.sys, c);
        assert Locked(w, c);
        GoesOnExactly(w.sys, c, choice);
        WayOutKeeps(w, c, true, choice, w'.sys);
      case TrapOn(c, ev) =>
        var mid := Effect(w, c, ev);
        var choice :| Decided(mid.sys, c, Yields(ev), choice, w'.sys);
        MidLocked(w, c, ev);
        ReturnsExactly(mid.sys, c, Yields(ev), choice, w'.sys);
        WayOutKeeps(mid, c, Yields(ev), choice, w'.sys);
      case FetchOn(c) => FetchKeeps(w, c);
    }
  }
}
