/** Traps into the kernel, one at a time under the kernel lock, with the system
calls that change environments and pass messages (lab/kern/trap.c:343-409,
lab/kern/syscall.c:52-147, 409-500, lab/kern/env.c:79-116, 270-334, 556-572). */
module Kernel {
  import opened Common
  import opened EnvId
  import opened Sched
  import opened Exclusion

  const NCPU: nat := 8

  datatype Msg = Msg(from: int, value: nat)

  /** Where an environment is in receiving: not at all, blocked in sys_ipc_recv,
      or with a message that ipc_recv has not fetched yet. */
  datatype Phase = Ready | Waiting | Delivered

  /** envid2env: the slot of an id, or -1 for -E_BAD_ENV. */
  function Resolve(s: Sys, c: nat, id: int, checkperm: bool): int
    requires Shape(s) && c < |s.cur| && s.cur[c] >= 0
  {
    var me := s.cur[c];
    var t := EnvX(id);
    if id == 0 then me
    else if s.envs[t].status == Free || s.envs[t].id != id then -1
    else if checkperm && t != me && s.envs[t].parent != s.envs[me].id then -1
    else t
  }

  /** Ids in use come from the slot's own sequence. */
  predicate IdsOk(envs: seq<Env>, allocs: seq<nat>) {
    && |envs| == |allocs| == NENV
    && forall i :: 0 <= i < NENV ==> envs[i].id == Nth(i, allocs[i]) && (envs[i].status != Free ==> allocs[i] >= 1)
  }

  /** An id handed out earlier for a slot leads to the slot's present environment
      exactly if that environment exists and the ids have come round. */
  lemma StaleIdsRejected(s: Sys, allocs: seq<nat>, c: nat, slot: nat, i: nat)
    requires Shape(s) && IdsOk(s.envs, allocs) && c < |s.cur| && s.cur[c] >= 0 && slot < NENV && 1 <= i <= allocs[slot]
    ensures Resolve(s, c, Nth(slot, i), false) == -1 || Resolve(s, c, Nth(slot, i), false) == slot
    ensures Resolve(s, c, Nth(slot, i), false) == slot <==>
            s.envs[slot].status != Free && (allocs[slot] - i) % CYCLE == 0
  {
    NthForm(slot, i);
    SameIdExactly(slot, i, allocs[slot]);
  }

  /** Live environments have different, positive ids that carry their slot. */
  lemma LiveIdsDiffer(envs: seq<Env>, allocs: seq<nat>, i: nat, j: nat)
    requires IdsOk(envs, allocs) && i < NENV && j < NENV && i != j && envs[i].status != Free && envs[j].status != Free
    ensures envs[i].id > 0 && EnvX(envs[i].id) == i && envs[i].id != envs[j].id
  {
    NthForm(i, allocs[i]);
    SlotsDiffer(i, allocs[i], j, allocs[j]);
  }

  predicate FreeListOk(envs: seq<Env>, free: seq<nat>) {
    && |envs| == NENV
    && (forall k :: 0 <= k < |free| ==> free[k] < NENV && envs[free[k]].status == Free)
    && (forall j, k :: 0 <= j < k < |free| ==> free[j] != free[k])
    && (forall i :: 0 <= i < NENV && envs[i].status == Free ==> i in free)
  }

  lemma TakeFree(envs: seq<Env>, free: seq<nat>, e: Env)
    requires FreeListOk(envs, free) && free != [] && e.status != Free
    ensures FreeListOk(envs[free[0] := e], free[1..])
  {
    var k, rest := free[0], free[1..];
    assert free == [k] + rest;
    forall i | 0 <= i < NENV && envs[k := e][i].status == Free ensures i in rest {
      assert i in free;
    }
  }

  lemma GiveFree(envs: seq<Env>, free: seq<nat>, k: nat, e: Env)
    requires FreeListOk(envs, free) && k < NENV && envs[k].status != Free && e.status == Free
    ensures FreeListOk(envs[k := e], [k] + free)
  {
    var free' := [k] + free;
    forall i | 0 <= i < NENV && envs[k := e][i].status == Free ensures i in free' {
      if i != k {
        assert i in free;
      }
    }
  }

  /** The messages fetched are those sent, up to one that is waiting to be fetched. */
  predicate MsgOk(e: Env, phase: Phase, sent: seq<Msg>, seen: seq<Msg>) {
    e.status == Free ||
    (&& (phase == Waiting <==> e.recving)
     && (phase == Waiting ==> e.status == NotRunnable)
     && sent == seen + (if phase == Delivered then [Msg(e.ipcFrom, e.ipcValue)] else []))
  }

  predicate MsgsOk(envs: seq<Env>, phase: seq<Phase>, sent: seq<seq<Msg>>, seen: seq<seq<Msg>>) {
    && |envs| == |phase| == |sent| == |seen| == NENV
    && forall i :: 0 <= i < NENV ==> MsgOk(envs[i], phase[i], sent[i], seen[i])
  }

  /** Changes of status, processor or run count of an existing environment do not touch the books. */
  lemma StatusBooks(envs: seq<Env>, allocs: seq<nat>, free: seq<nat>, phase: seq<Phase>,
                    sent: seq<seq<Msg>>, seen: seq<seq<Msg>>, t: nat, e: Env)
    requires IdsOk(envs, allocs) && FreeListOk(envs, free) && MsgsOk(envs, phase, sent, seen)
    requires t < NENV && envs[t].status != Free && e.status != Free && (phase[t] == Waiting ==> e.status == NotRunnable)
    requires e == envs[t].(status := e.status, runs := e.runs, cpu := e.cpu)
    ensures IdsOk(envs[t := e], allocs) && FreeListOk(envs[t := e], free) && MsgsOk(envs[t := e], phase, sent, seen)
  {
    assert MsgOk(envs[t], phase[t], sent[t], seen[t]);
    assert forall k :: 0 <= k < |free| ==> free[k] != t;
  }

  lemma RunBooks(s: Sys, allocs: seq<nat>, free: seq<nat>, phase: seq<Phase>,
                 sent: seq<seq<Msg>>, seen: seq<seq<Msg>>, c: nat, k: nat)
    requires Shape(s) && c < |s.cur| && k < NENV && s.envs[k].status in {Runnable, Running}
    requires IdsOk(s.envs, allocs) && FreeListOk(s.envs, free) && MsgsOk(s.envs, phase, sent, seen)
    ensures var envs' := EnvRun(s, c, k).envs;
            IdsOk(envs', allocs) && FreeListOk(envs', free) && MsgsOk(envs', phase, sent, seen)
  {
    var i, envs1 := s.cur[c], s.envs;
    assert MsgOk(s.envs[k], phase[k], sent[k], seen[k]);
    if i >= 0 && s.envs[i].status == Running {
      assert MsgOk(s.envs[i], phase[i], sent[i], seen[i]);
      envs1 := s.envs[i := s.envs[i].(status := Runnable)];
      StatusBooks(s.envs, allocs, free, phase, sent, seen, i, envs1[i]);
    }
    StatusBooks(envs1, allocs, free, phase, sent, seen, k,
                envs1[k].(status := Running, runs := envs1[k].runs + 1, cpu := c));
  }

  datatype Event =
    | Timer
    | Yield
    | Exofork(memory: bool)
    | SetStatus(id: int, status: Status)
    | Receive(dstva: nat)
    | Send(id: int, value: nat)
    | Destroy(id: int)

  /** A step of a run: the creation of an environment before any runs, the first
      decision of a processor, a trap on a processor, or the current environment
      of a processor fetching its message. */
  datatype Step = Create(typ: EnvType, memory: bool) | StartOn(c: nat) | TrapOn(c: nat, ev: Event) | FetchOn(c: nat)

  /** Everything a run is about: the table and the processors, the free list, and
      the records of allocations and messages. */
  datatype World = World(
    sys: Sys, free: seq<nat>, allocs: seq<nat>, phase: seq<Phase>, sent: seq<seq<Msg>>, seen: seq<seq<Msg>>)

  predicate Sized(w: World) {
    && Shape(w.sys) && |w.allocs| == |w.phase| == |w.sent| == |w.seen| == NENV
    && forall k :: 0 <= k < |w.free| ==> w.free[k] < NENV
  }

  /** Ids, free list and messages are in order. */
  ghost predicate Booked(w: World) {
    && Sized(w) && IdsOk(w.sys.envs, w.allocs) && FreeListOk(w.sys.envs, w.free)
    && MsgsOk(w.sys.envs, w.phase, w.sent, w.seen)
  }

  /** What holds whenever the kernel lock is free. */
  ghost predicate Sound(w: World) {
    Booked(w) && Excl(w.sys)
  }

  /** What holds while processor `c` has the lock. */
  ghost predicate Locked(w: World, c: nat) {
    Booked(w) && Inside(w.sys, c)
  }

  /** What that means: no environment is current twice, and every receiver has seen
      what was sent to it, in order, up to one message it has not read yet. */
  lemma SoundMeans(w: World)
    requires Sound(w)
    ensures !Doubled(w.sys)
    ensures forall i :: 0 <= i < NENV && w.sys.envs[i].status != Free ==>
              && w.seen[i] <= w.sent[i] && |w.sent[i]| <= |w.seen[i]| + 1
              && (w.phase[i] != Delivered ==> w.seen[i] == w.sent[i])
  {
    ExclNotDoubled(w.sys);
    forall i | 0 <= i < NENV && w.sys.envs[i].status != Free
      ensures && w.seen[i] <= w.sent[i] && |w.sent[i]| <= |w.seen[i]| + 1
              && (w.phase[i] != Delivered ==> w.seen[i] == w.sent[i])
    {
      assert MsgOk(w.sys.envs[i], w.phase[i], w.sent[i], w.seen[i]);
    }
  }

  // What each event does, before the processor leaves the kernel.

  function SetEnv(w: World, t: nat, e: Env): (r: World)
    requires Sized(w) && t < NENV
    ensures Sized(r)
  {
    w.(sys := w.sys.(envs := w.sys.envs[t := e]))
  }

  /** A new environment in the first free slot, with the next id of the slot. */
  function Alloc(w: World, parent: int, typ: EnvType, status: Status): (r: World)
    requires Sized(w) && w.free != []
    ensures Sized(r)
  {
    var k := w.free[0];
    var e := w.sys.envs[k];
    SetEnv(w, k, Env(NextId(e.id, k), parent, typ, status, 0, e.cpu, false, e.ipcValue, e.ipcFrom))
    .(free := w.free[1..], allocs := w.allocs[k := w.allocs[k] + 1],
      phase := w.phase[k := Ready], sent := w.sent[k := []], seen := w.seen[k := []])
  }

  /** Slot `t` goes back to the free list; a processor that ran it runs nothing. */
  function Release(w: World, c: nat, t: nat): (r: World)
    requires Sized(w) && c < |w.sys.cur| && t < NENV
    ensures Sized(r)
  {
    var w1 := SetEnv(w, t, w.sys.envs[t].(status := Free)).(free := [t] + w.free);
    if w.sys.cur[c] == t then w1.(sys := w1.sys.(cur := w1.sys.cur[c := -1])) else w1
  }

  /** An address for a page that is not at a page boundary. */
  predicate Misplaced(dstva: nat) {
    dstva < UTOP && dstva % PGSIZE != 0
  }

  function Waits(e: Env): Env {
    e.(recving := true, ipcValue := 0, ipcFrom := 0, status := NotRunnable)
  }

  function Gets(e: Env, from: int, value: nat): Env {
    e.(recving := false, ipcFrom := from, ipcValue := value, status := Runnable)
  }

  function Effect(w: World, c: nat, ev: Event): (r: World)
    requires Sized(w) && c < |w.sys.cur| && w.sys.cur[c] >= 0
    ensures Sized(r) && |r.sys.cur| == |w.sys.cur|
  {
    var envs, me := w.sys.envs, w.sys.cur[c];
    if envs[me].status == Dying then Release(w, c, me)
    else
      match ev
      case Timer => w
      case Yield => w
      case Exofork(memory) =>
        if w.free == [] || !memory then w else Alloc(w, envs[me].id, User, NotRunnable)
      case SetStatus(id, status) =>
        var t := Resolve(w.sys, c, id, true);
        if t < 0 || (status != Runnable && status != NotRunnable) then w else SetEnv(w, t, envs[t].(status := status))
      case Receive(dstva) =>
        if Misplaced(dstva) then w
        else SetEnv(w, me, Waits(envs[me])).(phase := w.phase[me := Waiting])
      case Send(id, value) =>
        var t := Resolve(w.sys, c, id, false);
        if t < 0 || !envs[t].recving then w
        else
          SetEnv(w, t, Gets(envs[t], envs[me].id, value))
          .(phase := w.phase[t := Delivered], sent := w.sent[t := w.sent[t] + [Msg(envs[me].id, value)]])
      case Destroy(id) =>
        var t := Resolve(w.sys, c, id, true);
        if t < 0 then w
        else if t != me && envs[t].status == Running then SetEnv(w, t, envs[t].(status := Dying))
        else Release(w, c, t)
  }

  /** The result of a system call; 0 for interrupts and for a dying environment. */
  function Answer(w: World, c: nat, ev: Event): int
    requires Sized(w) && c < |w.sys.cur| && w.sys.cur[c] >= 0
  {
    var envs := w.sys.envs;
    if envs[w.sys.cur[c]].status == Dying then 0
    else
      match ev
      case Timer => 0
      case Yield => 0
      case Exofork(memory) =>
        if w.free == [] || !memory then -E_NO_FREE_ENV else NextId(envs[w.free[0]].id, w.free[0])
      case SetStatus(id, status) =>
        if Resolve(w.sys, c, id, true) < 0 then -E_BAD_ENV
        else if status != Runnable && status != NotRunnable then -E_INVAL else 0
      case Receive(dstva) => if Misplaced(dstva) then -E_INVAL else 0
      case Send(id, _) =>
        var t := Resolve(w.sys, c, id, false);
        if t < 0 then -E_BAD_ENV else if !envs[t].recving then -E_IPC_NOT_RECV else 0
      case Destroy(id) => if Resolve(w.sys, c, id, true) < 0 then -E_BAD_ENV else 0
  }

  /** The slot that an id would be in; 0 stands for the caller. */
  function SlotOf(s: Sys, c: nat, id: int): int
    requires Shape(s) && c < |s.cur|
  {
    if id == 0 then s.cur[c] else EnvX(id)
  }

  /** An environment there has the id; with `checkperm` it is the caller or a child of it. */
  predicate Known(s: Sys, c: nat, id: int, checkperm: bool)
    requires Shape(s) && c < |s.cur| && s.cur[c] >= 0
  {
    || id == 0
    || (&& s.envs[EnvX(id)].status != Free && s.envs[EnvX(id)].id == id
        && (checkperm ==> EnvX(id) == s.cur[c] || s.envs[EnvX(id)].parent == s.envs[s.cur[c]].id))
  }

  /** What sending `value` means: refused for an id that nobody has and for an
      environment that does not wait, else the sender's id and the value are in the
      receiver's mailbox and on its record, and it can run. */
  predicate Delivers(w: World, c: nat, id: int, value: nat, r: int, w': World)
    requires Sized(w) && c < |w.sys.cur| && w.sys.cur[c] >= 0 && Sized(w')
  {
    var t, from := SlotOf(w.sys, c, id), w.sys.envs[w.sys.cur[c]].id;
    if !Known(w.sys, c, id, false) then r == -E_BAD_ENV && w'.sent == w.sent
    else if !w.sys.envs[t].recving then r == -E_IPC_NOT_RECV && w'.sent == w.sent
    else
      var e := w'.sys.envs[t];
      && r == 0 && e.ipcFrom == from && e.ipcValue == value && !e.recving && e.status in {Runnable, Running}
      && w'.phase[t] == Delivered && w'.sent == w.sent[t := w.sent[t] + [Msg(from, value)]]
  }

  /** The event goes to the scheduler even if the environment could continue. */
  predicate Yields(ev: Event) {
    ev == Timer || ev == Yield
  }

  /** The way out of the kernel: back to the current environment if it still runs
      and need not yield, else what the scheduler chooses. */
  ghost predicate Decided(mid: Sys, c: nat, mustYield: bool, choice: Choice, after: Sys)
    requires Shape(mid) && c < |mid.cur|
  {
    && (if !mustYield && mid.cur[c] >= 0 && mid.envs[mid.cur[c]].status == Running then choice == Run(mid.cur[c])
        else Chosen(mid.envs, mid.cur[c], c, choice))
    && (choice.Run? ==> choice.k < NENV)
    && after == if choice.Run? then EnvRun(mid, c, choice.k) else mid
  }

  /** It leads back to user mode. */
  predicate Returns(mid: Sys, c: nat, mustYield: bool)
    requires Shape(mid) && c < |mid.cur|
  {
    (!mustYield && mid.cur[c] >= 0 && mid.envs[mid.cur[c]].status == Running) || GoesOn(mid, c)
  }

  lemma ReturnsExactly(mid: Sys, c: nat, mustYield: bool, choice: Choice, after: Sys)
    requires Inside(mid, c) && Decided(mid, c, mustYield, choice, after)
    ensures choice.Run? <==> Returns(mid, c, mustYield)
  {
    if mustYield || mid.cur[c] < 0 || mid.envs[mid.cur[c]].status != Running {
      GoesOnExactly(mid, c, choice);
    }
  }

  lemma RunKeeps(w: World, c: nat, k: nat)
    requires Locked(w, c) && k < NENV && (Claimed(w.sys.envs[k]) ==> w.sys.cur[c] == k)
    requires w.sys.envs[k].status in {Runnable, Running}
    requires k < |w.sys.cur| ==> k == c || (w.sys.cur[c] == k && w.sys.envs[k].status == Running)
    ensures Sound(w.(sys := EnvRun(w.sys, c, k)))
  {
    RunRestores(w.sys, c, k);
    RunBooks(w.sys, w.allocs, w.free, w.phase, w.sent, w.seen, c, k);
  }

  /** What sched_yield chooses, if anything, leaves a sound state. */
  lemma ChoiceKeeps(w: World, c: nat, choice: Choice)
    requires Locked(w, c) && Chosen(w.sys.envs, w.sys.cur[c], c, choice)
    ensures choice.Run? <==> GoesOn(w.sys, c)
    ensures choice.Run? ==> choice.k < NENV && Sound(w.(sys := EnvRun(w.sys, c, choice.k)))
  {
    GoesOnExactly(w.sys, c, choice);
    if choice.Run? {
      ChosenIsFree(w.sys, c, choice);
      RunKeeps(w, c, choice.k);
    }
  }

  // The system calls that the kernel does not guard well enough, and when they do no harm.

  /** The target does not run on another processor, is not woken out of a receive,
      and is not an idle environment that stops itself. */
  predicate SetStatusSafe(s: Sys, phase: seq<Phase>, c: nat, id: int, status: Status)
    requires Shape(s) && c < |s.cur| && s.cur[c] >= 0 && |phase| == NENV
  {
    var t := Resolve(s, c, id, true);
    t < 0 || (status != Runnable && status != NotRunnable) ||
    (&& !(t != s.cur[c] && Claimed(s.envs[t])) && !(phase[t] == Waiting && status == Runnable)
     && !(t == s.cur[c] && t < |s.cur| && status == NotRunnable))
  }

  /** The target is not already dying on another processor, nor an idle environment that exits. */
  predicate DestroySafe(s: Sys, c: nat, id: int)
    requires Shape(s) && c < |s.cur| && s.cur[c] >= 0
  {
    var t := Resolve(s, c, id, true);
    t >= 0 ==> if t == s.cur[c] then t >= |s.cur| else s.envs[t].status != Dying
  }

  /** Nor does ipc_recv make a receive before the last message was fetched, or an
      idle environment one at all. */
  predicate Harmless(s: Sys, phase: seq<Phase>, c: nat, ev: Event)
    requires Shape(s) && c < |s.cur| && s.cur[c] >= 0 && |phase| == NENV
  {
    s.envs[s.cur[c]].status == Dying ||
    match ev
    case Receive(dstva) => Misplaced(dstva) || (phase[s.cur[c]] == Ready && s.cur[c] >= |s.cur|)
    case SetStatus(id, status) => SetStatusSafe(s, phase, c, id, status)
    case Destroy(id) => DestroySafe(s, c, id)
    case _ => true
  }

  lemma DyingHarmless(s: Sys, phase: seq<Phase>, c: nat, ev: Event)
    requires Shape(s) && c < |s.cur| && s.cur[c] >= 0 && |phase| == NENV && s.envs[s.cur[c]].status == Dying
    ensures Harmless(s, phase, c, ev)
  {
  }

  /** A system call of the running environment of processor `c` begins. */
  ghost predicate Entered(w: World, c: nat) {
    Locked(w, c) && w.sys.cur[c] >= 0 && w.sys.envs[w.sys.cur[c]].status == Running
  }

  // What harmless calls keep.

  lemma AllocKeeps(w: World, c: nat, parent: int, typ: EnvType, status: Status)
    requires Locked(w, c) && w.free != [] && status in {Runnable, NotRunnable}
    ensures Locked(Alloc(w, parent, typ, status), c) && |w.sys.cur| <= w.free[0] != w.sys.cur[c]
    ensures var k, w' := w.free[0], Alloc(w, parent, typ, status); w'.sys.envs[k].id == Nth(k, w'.allocs[k])
  {
    var k := w.free[0];
    var e := Alloc(w, parent, typ, status).sys.envs[k];
    assert EnvOk(w.sys, k);
    ChangeOther(w.sys, c, k, e);
    TakeFree(w.sys.envs, w.free, e);
  }

  lemma ExoforkKeeps(w: World, c: nat, memory: bool)
    requires Entered(w, c)
    ensures var w' := Effect(w, c, Exofork(memory));
            && Entered(w', c)
            && (w.free != [] && memory ==>
                  var k, r := w.free[0], Answer(w, c, Exofork(memory));
                  r == Nth(k, w.allocs[k] + 1) > 0 && Resolve(w'.sys, c, r, true) == k)
  {
    if w.free != [] && memory {
      var k := w.free[0];
      AllocKeeps(w, c, w.sys.envs[w.sys.cur[c]].id, User, NotRunnable);
      NthForm(k, w.allocs[k] + 1);
    }
  }

  lemma ReceiveKeeps(w: World, c: nat, dstva: nat)
    requires Entered(w, c) && Harmless(w.sys, w.phase, c, Receive(dstva))
    ensures Locked(Effect(w, c, Receive(dstva)), c)
  {
    if !Misplaced(dstva) {
      var me := w.sys.cur[c];
      assert MsgOk(w.sys.envs[me], w.phase[me], w.sent[me], w.seen[me]);
      ChangeSelf(w.sys, c, Waits(w.sys.envs[me]));
    }
  }

  lemma SendBooks(w: World, t: nat, from: int, value: nat)
    requires Booked(w) && t < NENV && w.sys.envs[t].status != Free && w.sys.envs[t].recving
    ensures Booked(SetEnv(w, t, Gets(w.sys.envs[t], from, value))
                   .(phase := w.phase[t := Delivered], sent := w.sent[t := w.sent[t] + [Msg(from, value)]]))
  {
    var e := Gets(w.sys.envs[t], from, value);
    assert MsgOk(w.sys.envs[t], w.phase[t], w.sent[t], w.seen[t]);
    assert MsgOk(e, Delivered, w.sent[t] + [Msg(from, value)], w.seen[t]);
    assert forall k :: 0 <= k < |w.free| ==> w.free[k] != t;
  }

  lemma SendKeeps(w: World, c: nat, id: int, value: nat)
    requires Entered(w, c)
    ensures Entered(Effect(w, c, Send(id, value)), c)
  {
    var t, me := Resolve(w.sys, c, id, false), w.sys.cur[c];
    if t >= 0 && w.sys.envs[t].recving {
      assert MsgOk(w.sys.envs[t], w.phase[t], w.sent[t], w.seen[t]) && EnvOk(w.sys, t);
      ChangeOther(w.sys, c, t, Gets(w.sys.envs[t], w.sys.envs[me].id, value));
      SendBooks(w, t, w.sys.envs[me].id, value);
    }
  }

  lemma CallerGoesOn(w: World, c: nat, ev: Event, choice: Choice, after: Sys)
    requires Entered(w, c) && (ev.Send? || ev.Exofork?) && Decided(Effect(w, c, ev).sys, c, false, choice, after)
    ensures choice == Run(w.sys.cur[c])
  {
    if ev.Send? {
      SendKeeps(w, c, ev.id, ev.value);
    } else {
      ExoforkKeeps(w, c, ev.memory);
    }
  }

  /** The way out does not take a message away. */
  lemma SendDelivers(w: World, c: nat, id: int, value: nat, choice: Choice, after: Sys)
    requires Entered(w, c) && Decided(Effect(w, c, Send(id, value)).sys, c, false, choice, after)
    ensures var w' := Effect(w, c, Send(id, value)).(sys := after);
            Sized(w') && Delivers(w, c, id, value, Answer(w, c, Send(id, value)), w')
  {
    SendKeeps(w, c, id, value);
  }

  /** A permission check never passes for another processor's idle environment. */
  lemma NotIdle(w: World, c: nat, id: int)
    requires Entered(w, c)
    ensures var t := Resolve(w.sys, c, id, true);
            t >= 0 && t != w.sys.cur[c] ==> t >= |w.sys.cur|
  {
    var t, me := Resolve(w.sys, c, id, true), w.sys.cur[c];
    if t >= 0 && t != me {
      assert EnvOk(w.sys, t);
      NthForm(me, w.allocs[me]);
    }
  }

  lemma SetStatusKeeps(w: World, c: nat, id: int, status: Status)
    requires Entered(w, c) && SetStatusSafe(w.sys, w.phase, c, id, status)
    ensures Locked(Effect(w, c, SetStatus(id, status)), c)
  {
    var t := Resolve(w.sys, c, id, true);
    if t >= 0 && (status == Runnable || status == NotRunnable) {
      var e := w.sys.envs[t].(status := status);
      NotIdle(w, c, id);
      assert EnvOk(w.sys, t) && MsgOk(w.sys.envs[t], w.phase[t], w.sent[t], w.seen[t]);
      if t == w.sys.cur[c] {
        ChangeSelf(w.sys, c, e);
      } else {
        ChangeOther(w.sys, c, t, e);
      }
      StatusBooks(w.sys.envs, w.allocs, w.free, w.phase, w.sent, w.seen, t, e);
    }
  }

  lemma ReleaseBooks(w: World, c: nat, t: nat)
    requires Booked(w) && c < |w.sys.cur| && t < NENV && w.sys.envs[t].status != Free
    ensures Booked(Release(w, c, t))
  {
    GiveFree(w.sys.envs, w.free, t, w.sys.envs[t].(status := Free));
  }

  lemma DestroyKeeps(w: World, c: nat, id: int)
    requires Entered(w, c)
    ensures Booked(Effect(w, c, Destroy(id)))
    ensures DestroySafe(w.sys, c, id) ==> Locked(Effect(w, c, Destroy(id)), c)
  {
    var t, me := Resolve(w.sys, c, id, true), w.sys.cur[c];
    if t >= 0 {
      var e := w.sys.envs[t];
      NotIdle(w, c, id);
      assert EnvOk(w.sys, t) && EnvOk(w.sys, me);
      if t != me && e.status == Running {
        MarkDying(w.sys, c, t);
        StatusBooks(w.sys.envs, w.allocs, w.free, w.phase, w.sent, w.seen, t, e.(status := Dying));
      } else {
        ReleaseBooks(w, c, t);
        if t == me && me >= |w.sys.cur| {
          FreeSelf(w.sys, c);
        } else if t != me && !Claimed(e) {
          ChangeOther(w.sys, c, t, e.(status := Free));
        }
      }
    }
  }

  /** Freeing the current environment, dying or not. */
  lemma CollectKeeps(w: World, c: nat)
    requires Sound(w) && c < |w.sys.cur| && w.sys.cur[c] >= 0 && w.sys.envs[w.sys.cur[c]].status == Dying
    ensures Locked(Release(w, c, w.sys.cur[c]), c)
  {
    assert CpuOk(w.sys, c) && EnvOk(w.sys, w.sys.cur[c]);
    FreeSelf(w.sys, c);
    ReleaseBooks(w, c, w.sys.cur[c]);
  }

  // A call that is not harmless leaves a state that is not sound.

  lemma ReceiveHarms(w: World, c: nat, dstva: nat, choice: Choice, after: Sys)
    requires Entered(w, c) && !Harmless(w.sys, w.phase, c, Receive(dstva))
    requires Decided(Effect(w, c, Receive(dstva)).sys, c, false, choice, after) && choice.Run?
    ensures !Sound(Effect(w, c, Receive(dstva)).(sys := after))
  {
    var me, mid := w.sys.cur[c], Effect(w, c, Receive(dstva));
    assert EnvOk(w.sys, me) && MsgOk(w.sys.envs[me], w.phase[me], w.sent[me], w.seen[me]);
    if me < |w.sys.cur| {
      IdleStaysBroken(mid.sys, c, choice.k);
    } else {
      assert !MsgOk(after.envs[me], mid.phase[me], mid.sent[me], mid.seen[me]);
    }
  }

  lemma SetStatusHarms(w: World, c: nat, id: int, status: Status, choice: Choice, after: Sys)
    requires Entered(w, c) && !SetStatusSafe(w.sys, w.phase, c, id, status)
    requires Decided(Effect(w, c, SetStatus(id, status)).sys, c, false, choice, after) && choice.Run?
    ensures !Sound(Effect(w, c, SetStatus(id, status)).(sys := after))
  {
    var t, mid := Resolve(w.sys, c, id, true), Effect(w, c, SetStatus(id, status));
    assert EnvOk(w.sys, t) && MsgOk(w.sys.envs[t], w.phase[t], w.sent[t], w.seen[t]);
    if t != w.sys.cur[c] && Claimed(w.sys.envs[t]) {
      StaysBroken(mid.sys, c, choice.k, t, w.sys.envs[t].cpu);
    } else if t == w.sys.cur[c] && t < |w.sys.cur| {
      IdleStaysBroken(mid.sys, c, choice.k);
    } else {
      assert !MsgOk(after.envs[t], mid.phase[t], mid.sent[t], mid.seen[t]);
    }
  }

  lemma DestroyHarms(w: World, c: nat, id: int, choice: Choice, after: Sys)
    requires Entered(w, c) && !DestroySafe(w.sys, c, id)
    requires Decided(Effect(w, c, Destroy(id)).sys, c, false, choice, after) && choice.Run?
    ensures !Sound(Effect(w, c, Destroy(id)).(sys := after))
  {
    var t, mid := Resolve(w.sys, c, id, true), Effect(w, c, Destroy(id));
    assert EnvOk(w.sys, t);
    if t == w.sys.cur[c] {
      IdleStaysBroken(mid.sys, c, choice.k);
    } else {
      StaysBroken(mid.sys, c, choice.k, t, w.sys.envs[t].cpu);
    }
  }

  predicate Allowed(s: Sys, phase: seq<Phase>, step: Step)
    requires Shape(s) && |phase| == NENV
  {
    match step
    case Create(typ, _) => |s.cur| > 0 && typ != Idle && forall c :: 0 <= c < |s.cur| ==> s.cur[c] == -1
    case StartOn(c) => c < |s.cur| && s.cur[c] == -1
    case TrapOn(c, ev) => c < |s.cur| && s.cur[c] >= 0 && Harmless(s, phase, c, ev)
    case FetchOn(c) => c < |s.cur| && s.cur[c] >= 0 && phase[s.cur[c]] == Delivered
  }

  /** The current environment of a processor reads the message it was sent. */
  function Fetched(w: World, c: nat): World
    requires Sized(w) && c < |w.sys.cur| && w.sys.cur[c] >= 0
  {
    var i := w.sys.cur[c];
    var e := w.sys.envs[i];
    w.(phase := w.phase[i := Ready], seen := w.seen[i := w.seen[i] + [Msg(e.ipcFrom, e.ipcValue)]])
  }

  /** One step of a run; a step that is not allowed is left out. */
  ghost predicate Follows(w: World, step: Step, w': World) {
    Sized(w) &&
    if !Allowed(w.sys, w.phase, step) then w' == w
    else
      match step
      case Create(typ, memory) => w' == if w.free == [] || !memory then w else Alloc(w, 0, typ, Runnable)
      case StartOn(c) => w' == w.(sys := w'.sys) && exists choice :: Decided(w.sys, c, true, choice, w'.sys)
      case TrapOn(c, ev) =>
        var mid := Effect(w, c, ev);
        w' == mid.(sys := w'.sys) && exists choice :: Decided(mid.sys, c, Yields(ev), choice, w'.sys)
      case FetchOn(c) => w' == Fetched(w, c)
  }

  /** The kernel goes on after a step: there was memory for a first environment, or
      the processor had something to run. */
  predicate Continues(w: World, step: Step) {
    Sized(w) &&
    (Allowed(w.sys, w.phase, step) ==>
       match step
       case Create(_, memory) => w.free != [] && memory
       case StartOn(c) => GoesOn(w.sys, c)
       case TrapOn(c, ev) => Returns(Effect(w, c, ev).sys, c, Yields(ev))
       case FetchOn(_) => true)
  }

  /** The table after env_init and the creation of the idle environments: nothing
      runs, and all other slots are on the free list in order. */
  predicate Booted(w: World, ncpu: nat) {
    && |w.sys.cur| == ncpu && (forall c :: 0 <= c < ncpu ==> w.sys.cur[c] == -1)
    && |w.sys.envs| == NENV
    && (forall i :: 0 <= i < NCPU ==> w.sys.envs[i].typ == Idle && w.sys.envs[i].status == Runnable)
    && (forall i :: NCPU <= i < NENV ==> w.sys.envs[i].status == Free && w.sys.envs[i].typ == User)
    && |w.free| == NENV - NCPU && (forall i :: 0 <= i < |w.free| ==> w.free[i] == NCPU + i)
    && |w.sent| == |w.seen| == NENV && (forall i :: 0 <= i < NENV ==> w.sent[i] == [] && w.seen[i] == [])
  }

  const BLANK := Env(0, 0, User, Free, 0, 0, false, 0, 0)

  /** That table. */
  function BootWorld(ncpu: nat): (w: World)
    requires ncpu <= NCPU
    ensures Booted(w, ncpu) && Sized(w)
  {
    World(
      Sys(seq(NENV, i requires 0 <= i < NENV =>
            if i < NCPU then BLANK.(id := Nth(i, 1), typ := Idle, status := Runnable) else BLANK),
          seq(ncpu, _ => -1)),
      seq(NENV - NCPU, i requires 0 <= i < NENV - NCPU => NCPU + i),
      seq(NENV, i requires 0 <= i < NENV => if i < NCPU then 1 else 0),
      seq(NENV, _ => Ready), seq(NENV, _ => []), seq(NENV, _ => []))
  }

  lemma BootFree(w: World, ncpu: nat)
    requires Booted(w, ncpu)
    ensures FreeListOk(w.sys.envs, w.free)
  {
    forall i | 0 <= i < NENV && w.sys.envs[i].status == Free ensures i in w.free {
      assert w.free[i - NCPU] == i;
    }
  }

  lemma BootExcl(w: World, ncpu: nat)
    requires ncpu <= NCPU && w == BootWorld(ncpu)
    ensures Excl(w.sys)
  {
    forall i | 0 <= i < NENV ensures EnvOk(w.sys, i) {
    }
  }

  lemma BootSound(ncpu: nat)
    requires ncpu <= NCPU
    ensures Sound(BootWorld(ncpu))
  {
    var w := BootWorld(ncpu);
    BootFree(w, ncpu);
    BootExcl(w, ncpu);
    forall i | 0 <= i < NENV ensures w.sys.envs[i].id == Nth(i, w.allocs[i]) {
    }
    forall i | 0 <= i < NENV ensures MsgOk(w.sys.envs[i], w.phase[i], w.sent[i], w.seen[i]) {
    }
  }

  class Kernel {
    var envs: seq<Env>
    var cur: seq<int>
    var free: seq<nat>              // env_free_list
    ghost var allocs: seq<nat>
    var phase: seq<Phase>           // progress of each environment's ipc_recv
    ghost var sent: seq<seq<Msg>>   // successful sends, by receiving slot
    ghost var seen: seq<seq<Msg>>   // messages fetched by ipc_recv

    ghost function Now(): Sys
      reads this
    {
      Sys(envs, cur)
    }

    ghost function Whole(): World
      reads this
    {
      World(Now(), free, allocs, phase, sent, seen)
    }

    ghost predicate Valid()
      reads this
    {
      Sound(Whole())
    }

    constructor (ncpu: nat)
      requires ncpu <= NCPU
      ensures Valid() && Booted(Whole(), ncpu)
    {
      var w := BootWorld(ncpu);
      envs, cur, free, phase := w.sys.envs, w.sys.cur, w.free, w.phase;
      allocs, sent, seen := w.allocs, w.sent, w.seen;
      new;
      BootSound(ncpu);
      assert Whole() == w;
    }

    ghost predicate Mid(c: nat)
      reads this
    {
      Locked(Whole(), c)
    }

    method EnvRunOn(c: nat, k: nat)
      requires Shape(Now()) && c < |cur| && k < NENV
      modifies this`envs, this`cur
      ensures Now() == EnvRun(old(Now()), c, k) && cur == old(cur)[c := k]
      ensures envs[k] == old(envs)[k].(status := Running, runs := old(envs)[k].runs + 1, cpu := c)
      // The environment that ran until now can run again, and no other changes.
      ensures forall i :: 0 <= i < NENV && i != k ==>
                envs[i] == if i == old(cur)[c] && old(envs)[i].status == Running then old(envs)[i].(status := Runnable)
                           else old(envs)[i]
    {
      var i := cur[c];
      if i >= 0 && envs[i].status == Running {
        envs := envs[i := envs[i].(status := Runnable)];
      }
      cur := cur[c := k];
      envs := envs[k := envs[k].(status := Running, runs := envs[k].runs + 1, cpu := c)];
    }

    /** sched_yield, with what it keeps. */
    method Reschedule(c: nat) returns (choice: Choice)
      requires Shape(Now()) && c < |cur|
      modifies this`envs, this`cur
      ensures Decided(old(Now()), c, true, choice, Now())
      ensures old(Mid(c)) ==> (choice.Run? <==> GoesOn(old(Now()), c)) && (choice.Run? ==> Valid())
    {
      choice := Choose(envs, cur[c], c);
      if old(Mid(c)) {
        ChoiceKeeps(Whole(), c, choice);
      }
      hide Excl, IdsOk, FreeListOk, MsgsOk, Inside, EnvRun;
      if choice.Run? {
        EnvRunOn(c, choice.k);
      }
    }

    /** A processor that has not run anything yet enters the scheduler. */
    method Start(c: nat) returns (choice: Choice)
      requires Valid() && c < |cur| && cur[c] == -1
      modifies this`envs, this`cur
      ensures Decided(old(Now()), c, true, choice, Now()) && (choice.Run? <==> GoesOn(old(Now()), c))
      ensures choice.Run? ==> Valid()
    {
      Enter(Now(), c);
      choice := Reschedule(c);
    }

    /** env_alloc; `memory` says whether env_setup_vm finds its pages. */
    method EnvAlloc(c: nat, parent: int, memory: bool) returns (k: int)
      requires Mid(c)
      modifies this`envs, this`free, this`allocs, this`phase, this`sent, this`seen
      ensures Mid(c)
      ensures k < 0 <==> old(free) == [] || !memory
      ensures k < 0 ==> Whole() == old(Whole())
      ensures k >= 0 ==>
                && k == old(free)[0] && Whole() == Alloc(old(Whole()), parent, User, Runnable)
                && envs[k].id == Nth(k, allocs[k])
    {
      hide IdsOk, FreeListOk, MsgsOk, Inside;
      if free == [] || !memory {
        return -1;
      }
      AllocKeeps(Whole(), c, parent, User, Runnable);
      k := free[0];
      envs := envs[k := Env(NextId(envs[k].id, k), parent, User, Runnable, 0, envs[k].cpu, false,
                            envs[k].ipcValue, envs[k].ipcFrom)];
      free := free[1..];
      allocs := allocs[k := allocs[k] + 1];
      phase, sent, seen := phase[k := Ready], sent[k := []], seen[k := []];
    }

    /** env_create, while the kernel initializes on processor 0 and nothing runs. */
    method EnvCreate(typ: EnvType, memory: bool) returns (k: int)
      requires Valid() && |cur| > 0 && cur[0] == -1 && typ != Idle
      modifies this`envs, this`free, this`allocs, this`phase, this`sent, this`seen
      ensures Valid() && (k < 0 <==> old(free) == [] || !memory)
      ensures k < 0 ==> Whole() == old(Whole())
      ensures k >= 0 ==>
                && k == old(free)[0] && Whole() == Alloc(old(Whole()), 0, typ, Runnable)
                && envs == old(envs)[k := envs[k]] && cur == old(cur) && free == old(free)[1..]
                && envs[k].typ == typ && envs[k].status == Runnable && envs[k].parent == 0 && envs[k].runs == 0
    {
      ghost var w := Whole();
      Enter(w.sys, 0);
      if w.free != [] {
        AllocKeeps(w, 0, 0, typ, Runnable);
        LeaveNone(Alloc(w, 0, typ, Runnable).sys, 0);
      }
      hide Excl, IdsOk, FreeListOk, MsgsOk, Inside;
      k := EnvAlloc(0, 0, memory);
      if k >= 0 {
        envs := envs[k := envs[k].(typ := typ)];
        assert Whole() == Alloc(w, 0, typ, Runnable);
      }
    }

    ghost predicate Calling(c: nat)
      reads this
    {
      Entered(Whole(), c)
    }

    /** The state is what the event makes of `w`, and `r` its result. */
    ghost predicate Did(w: World, c: nat, ev: Event, r: int)
      reads this
    {
      && Sized(w) && c < |w.sys.cur| && w.sys.cur[c] >= 0
      && Whole() == Effect(w, c, ev) && r == Answer(w, c, ev)
    }

    /** sys_exofork: the child gets the first free slot and does not run yet. */
    method SysExofork(c: nat, memory: bool) returns (r: int)
      requires Calling(c)
      modifies this`envs, this`free, this`allocs, this`phase, this`sent, this`seen
      ensures Calling(c) && Did(old(Whole()), c, Exofork(memory), r)
      ensures r < 0 <==> old(free) == [] || !memory
      ensures r < 0 ==> r == -E_NO_FREE_ENV && Whole() == old(Whole())
      ensures r >= 0 ==>
                var k := old(free)[0];
                && r == Nth(k, old(allocs)[k] + 1) && Resolve(Now(), c, r, true) == k
                && envs == old(envs)[k := envs[k]] && cur == old(cur) && free == old(free)[1..]
                && envs[k].id == r && envs[k].parent == envs[cur[c]].id && envs[k].typ == User
                && envs[k].status == NotRunnable && envs[k].runs == 0 && !envs[k].recving
    {
      ghost var w := Whole();
      ExoforkKeeps(w, c, memory);
      hide Excl, IdsOk, FreeListOk, MsgsOk, Inside;
      var k := EnvAlloc(c, envs[cur[c]].id, memory);
      if k < 0 {
        return -E_NO_FREE_ENV;
      }
      envs := envs[k := envs[k].(status := NotRunnable)];
      assert Whole() == Alloc(w, w.sys.envs[w.sys.cur[c]].id, User, NotRunnable);
      r := envs[k].id;
    }

    /** sys_ipc_recv. A message that has not been fetched is lost. */
    method SysIpcRecv(c: nat, dstva: nat) returns (r: int)
      requires Calling(c)
      modifies this`envs, this`phase
      ensures Did(old(Whole()), c, Receive(dstva), r)
      ensures old(Harmless(Now(), phase, c, Receive(dstva))) ==> Mid(c)
      ensures dstva < UTOP && dstva % PGSIZE != 0 ==> r == -E_INVAL && Whole() == old(Whole())
      ensures !(dstva < UTOP && dstva % PGSIZE != 0) ==>
                var me := cur[c];
                && r == 0 && envs == old(envs)[me := envs[me]] && phase == old(phase)[me := Waiting]
                && envs[me] == old(envs)[me].(recving := true, ipcValue := 0, ipcFrom := 0, status := NotRunnable)
    {
      if Harmless(Now(), phase, c, Receive(dstva)) {
        ReceiveKeeps(Whole(), c, dstva);
      }
      if Misplaced(dstva) {
        return -E_INVAL;
      }
      var me := cur[c];
      envs := envs[me := Waits(envs[me])];
      phase := phase[me := Waiting];
      r := 0;
    }

    /** sys_ipc_try_send without a page: a message for an environment that is not
        waiting changes nothing; any other is delivered and wakes the receiver. */
    method SysIpcTrySend(c: nat, id: int, value: nat) returns (r: int)
      requires Calling(c)
      modifies this`envs, this`phase, this`sent
      ensures Calling(c) && Did(old(Whole()), c, Send(id, value), r)
      ensures r != 0 ==> Whole() == old(Whole())
      ensures Delivers(old(Whole()), c, id, value, r, Whole())
      ensures r == 0 ==> var t := SlotOf(Now(), c, id); envs == old(envs)[t := envs[t]] && envs[t].status == Runnable
    {
      SendKeeps(Whole(), c, id, value);
      hide Excl, IdsOk, FreeListOk, MsgsOk, Inside;
      var t := Resolve(Sys(envs, cur), c, id, false);
      if t < 0 {
        return -E_BAD_ENV;
      }
      if !envs[t].recving {
        return -E_IPC_NOT_RECV;
      }
      var me := cur[c];
      sent := sent[t := sent[t] + [Msg(envs[me].id, value)]];
      envs := envs[t := Gets(envs[t], envs[me].id, value)];
      phase := phase[t := Delivered];
      r := 0;
    }

    method SysEnvSetStatus(c: nat, id: int, status: Status) returns (r: int)
      requires Calling(c)
      modifies this`envs
      ensures Did(old(Whole()), c, SetStatus(id, status), r)
      ensures old(SetStatusSafe(Now(), phase, c, id, status)) ==> Mid(c) && cur[c] >= 0
      ensures r == if !old(Known(Now(), c, id, true)) then -E_BAD_ENV
                   else if status != Runnable && status != NotRunnable then -E_INVAL else 0
      ensures r != 0 ==> envs == old(envs)
      ensures r == 0 ==> var t := SlotOf(Now(), c, id); envs == old(envs)[t := old(envs)[t].(status := status)]
    {
      if SetStatusSafe(Now(), phase, c, id, status) {
        SetStatusKeeps(Whole(), c, id, status);
      }
      hide Excl, IdsOk, FreeListOk, MsgsOk, Inside;
      var t := Resolve(Sys(envs, cur), c, id, true);
      if t < 0 {
        return -E_BAD_ENV;
      }
      if status != Runnable && status != NotRunnable {
        return -E_INVAL;
      }
      envs := envs[t := envs[t].(status := status)];
      r := 0;
    }

    /** env_free, as far as the table goes. */
    method EnvFree(t: nat)
      requires Booked(Whole()) && t < NENV && envs[t].status != Free
      modifies this`envs, this`free
      ensures Booked(Whole()) && free == [t] + old(free) && envs == old(envs)[t := old(envs)[t].(status := Free)]
    {
      GiveFree(envs, free, t, envs[t].(status := Free));
      envs := envs[t := envs[t].(status := Free)];
      free := [t] + free;
    }

    /** sys_env_destroy with env_destroy: a running environment of another
        processor is marked, any other is freed. */
    method SysEnvDestroy(c: nat, id: int) returns (r: int)
      requires Calling(c)
      modifies this`envs, this`free, this`cur
      ensures Did(old(Whole()), c, Destroy(id), r)
      ensures Booked(Whole()) && (old(DestroySafe(Now(), c, id)) ==> Mid(c))
      ensures r == if old(Known(Now(), c, id, true)) then 0 else -E_BAD_ENV
      ensures r != 0 ==> Whole() == old(Whole())
      // Another environment that runs is marked; any other is freed, and its id is known no more.
      ensures r == 0 ==>
                var t, me := old(SlotOf(Now(), c, id)), old(cur)[c];
                if t != me && old(envs)[t].status == Running then
                  envs == old(envs)[t := old(envs)[t].(status := Dying)] && free == old(free) && cur == old(cur)
                else
                  && envs == old(envs)[t := old(envs)[t].(status := Free)] && free == [t] + old(free)
                  && cur == (if t == me then old(cur)[c := -1] else old(cur))
                  && (t != me ==> Resolve(Now(), c, id, true) == -1)
    {
      DestroyKeeps(Whole(), c, id);
      hide Excl, IdsOk, FreeListOk, MsgsOk, Inside;
      var t, me := Resolve(Sys(envs, cur), c, id, true), cur[c];
      if t < 0 {
        return -E_BAD_ENV;
      }
      r := 0;
      if envs[t].status == Running && me != t {
        envs := envs[t := envs[t].(status := Dying)];
        return;
      }
      EnvFree(t);
      if t == me {
        cur := cur[c := -1];
      }
    }

    /** The end of a trap: back to the current environment if it still runs, else to the scheduler. */
    method Leave(c: nat) returns (choice: Choice)
      requires Shape(Now()) && c < |cur|
      modifies this`envs, this`cur
      ensures Decided(old(Now()), c, false, choice, Now())
      ensures old(Mid(c)) ==> (choice.Run? <==> Returns(old(Now()), c, false)) && (choice.Run? ==> Valid())
    {
      if cur[c] >= 0 && envs[cur[c]].status == Running {
        if old(Mid(c)) {
          RunKeeps(Whole(), c, cur[c]);
        }
        choice := Run(cur[c]);
        EnvRunOn(c, cur[c]);
      } else {
        choice := Reschedule(c);
      }
    }

    /** The state is where the event and the way out of the kernel lead from `w`. */
    ghost predicate Trapped(w: World, c: nat, ev: Event, r: int, choice: Choice)
      reads this
    {
      && Sized(w) && c < |w.sys.cur| && w.sys.cur[c] >= 0 && r == Answer(w, c, ev)
      && var mid := Effect(w, c, ev);
      Whole() == mid.(sys := Now()) && Decided(mid.sys, c, Yields(ev), choice, Now())
    }

    /** A dying environment is freed when it traps, and its processor makes a new choice. */
    method Collect(c: nat) returns (choice: Choice)
      requires Valid() && c < |cur| && cur[c] >= 0 && envs[cur[c]].status == Dying
      modifies this`envs, this`cur, this`free
      ensures var mid := Release(old(Whole()), c, old(cur)[c]);
              && mid.sys.cur[c] == -1 && Whole() == mid.(sys := Now())
              && (forall mustYield ::
                    Decided(mid.sys, c, mustYield, choice, Now()) && (choice.Run? <==> Returns(mid.sys, c, mustYield)))
      ensures choice.Run? ==> Valid()
    {
      var me := cur[c];
      CollectKeeps(Whole(), c);
      hide Excl, IdsOk, FreeListOk, MsgsOk, Inside;
      EnvFree(me);
      cur := cur[c := -1];
      choice := Reschedule(c);
    }

    method TrapYield(c: nat, ev: Event) returns (choice: Choice)
      requires Calling(c) && Yields(ev)
      modifies this`envs, this`cur
      ensures Trapped(old(Whole()), c, ev, 0, choice)
      ensures choice.Run? <==> Returns(Effect(old(Whole()), c, ev).sys, c, true)
      ensures choice.Run? ==> Valid()
    {
      assert Effect(Whole(), c, ev) == Whole() && Answer(Whole(), c, ev) == 0;
      hide Excl, IdsOk, FreeListOk, MsgsOk, Inside, Chosen, EnvRun;
      choice := Reschedule(c);
    }

    method TrapReceive(c: nat, dstva: nat) returns (r: int, choice: Choice)
      requires Calling(c)
      modifies this`envs, this`phase, this`cur
      ensures Trapped(old(Whole()), c, Receive(dstva), r, choice)
      ensures old(Harmless(Now(), phase, c, Receive(dstva))) ==>
                (choice.Run? <==> Returns(Effect(old(Whole()), c, Receive(dstva)).sys, c, false))
      ensures choice.Run? ==> (Valid() <==> old(Harmless(Now(), phase, c, Receive(dstva))))
    {
      hide Excl, IdsOk, FreeListOk, MsgsOk, Inside, Chosen, EnvRun, Effect, Answer;
      ghost var w, ev := Whole(), Receive(dstva);
      r := SysIpcRecv(c, dstva);
      choice := Leave(c);
      if !Harmless(w.sys, w.phase, c, ev) && choice.Run? {
        ReceiveHarms(w, c, dstva, choice, Now());
      }
    }

    method TrapSetStatus(c: nat, id: int, status: Status) returns (r: int, choice: Choice)
      requires Calling(c)
      modifies this`envs, this`cur
      ensures Trapped(old(Whole()), c, SetStatus(id, status), r, choice)
      ensures old(SetStatusSafe(Now(), phase, c, id, status)) ==>
                (choice.Run? <==> Returns(Effect(old(Whole()), c, SetStatus(id, status)).sys, c, false))
      ensures choice.Run? ==> (Valid() <==> old(SetStatusSafe(Now(), phase, c, id, status)))
    {
      hide Excl, IdsOk, FreeListOk, MsgsOk, Inside, Chosen, EnvRun, Effect, Answer;
      ghost var w := Whole();
      r := SysEnvSetStatus(c, id, status);
      choice := Leave(c);
      if !SetStatusSafe(w.sys, w.phase, c, id, status) && choice.Run? {
        SetStatusHarms(w, c, id, status, choice, Now());
      }
    }

    method TrapDestroy(c: nat, id: int) returns (r: int, choice: Choice)
      requires Calling(c)
      modifies this`envs, this`cur, this`free
      ensures Trapped(old(Whole()), c, Destroy(id), r, choice)
      ensures old(DestroySafe(Now(), c, id)) ==>
                (choice.Run? <==> Returns(Effect(old(Whole()), c, Destroy(id)).sys, c, false))
      ensures choice.Run? ==> (Valid() <==> old(DestroySafe(Now(), c, id)))
    {
      hide Excl, IdsOk, FreeListOk, MsgsOk, Inside, Chosen, EnvRun, Effect, Answer;
      ghost var w := Whole();
      r := SysEnvDestroy(c, id);
      choice := Leave(c);
      if !DestroySafe(w.sys, c, id) && choice.Run? {
        DestroyHarms(w, c, id, choice, Now());
      }
    }

    /** trap_dispatch and the way back to user mode. */
    method Dispatch(c: nat, ev: Event) returns (r: int, choice: Choice)
      requires Calling(c)
      modifies this
      ensures Trapped(old(Whole()), c, ev, r, choice)
      ensures choice.Run? ==> (Valid() <==> old(Harmless(Now(), phase, c, ev)))
      ensures old(Harmless(Now(), phase, c, ev)) ==>
                (choice.Run? <==> Returns(Effect(old(Whole()), c, ev).sys, c, Yields(ev)))
    {
      hide Excl, IdsOk, FreeListOk, MsgsOk, Inside, Chosen, EnvRun, Effect, Answer, Misplaced,
           SetStatusSafe, DestroySafe;
      r := 0;
      match ev
      case Timer => choice := TrapYield(c, ev);
      case Yield => choice := TrapYield(c, ev);
      case Exofork(memory) =>
        r := SysExofork(c, memory);
        choice := Leave(c);
      case Receive(dstva) =>
        r, choice := TrapReceive(c, dstva);
      case Send(id, value) =>
        r := SysIpcTrySend(c, id, value);
        choice := Leave(c);
      case SetStatus(id, status) =>
        r, choice := TrapSetStatus(c, id, status);
      case Destroy(id) =>
        r, choice := TrapDestroy(c, id);
    }

    /** A trap from user mode on processor `c`, from taking the lock to giving it
        back: the exact effect of the event, then the way out. After a harmless call
        it leads back to user mode exactly if there is something to run; whenever it
        does, everything holds again if and only if the call was a harmless one. */
    method Trap(c: nat, ev: Event) returns (r: int, choice: Choice)
      requires Valid() && c < |cur| && cur[c] >= 0
      modifies this
      ensures Trapped(old(Whole()), c, ev, r, choice)
      ensures choice.Run? ==> (Valid() <==> old(Harmless(Now(), phase, c, ev)))
      ensures old(Harmless(Now(), phase, c, ev)) ==>
                (choice.Run? <==> Returns(Effect(old(Whole()), c, ev).sys, c, Yields(ev)))
      // Interrupts and sys_yield go to the scheduler; the other calls come back while the caller can go on.
      ensures (ev == Timer || ev == Yield) && old(envs)[old(cur)[c]].status != Dying ==>
                Chosen(old(envs), old(cur)[c], c, choice)
      ensures (ev.Send? || ev.Exofork?) && old(envs)[old(cur)[c]].status != Dying ==> choice == Run(old(cur)[c])
      ensures ev.Send? && old(envs)[old(cur)[c]].status != Dying ==>
                Delivers(old(Whole()), c, ev.id, ev.value, r, Whole())
    {
      hide IdsOk, FreeListOk, MsgsOk, Chosen, EnvRun, Delivers, Harmless, Returns, GoesOn;
      ghost var w := Whole();
      assert CpuOk(Now(), c) && EnvOk(Now(), cur[c]);
      if envs[cur[c]].status == Dying {
        DyingHarmless(Now(), phase, c, ev);
        choice := Collect(c);
        r := 0;
      } else {
        Enter(Now(), c);
        r, choice := Dispatch(c, ev);
        if ev.Send? || ev.Exofork? {
          CallerGoesOn(w, c, ev, choice, Now());
        }
        if ev.Send? {
          SendDelivers(w, c, ev.id, ev.value, choice, Now());
        }
      }
    }

    /** The second half of ipc_recv: the environment, running again, reads its message. */
    method Fetch(c: nat) returns (m: Msg)
      requires Valid() && c < |cur| && cur[c] >= 0 && phase[cur[c]] == Delivered
      modifies this`phase, this`seen
      ensures Valid() && Whole() == Fetched(old(Whole()), c)
      ensures seen[cur[c]] == sent[cur[c]] == old(seen)[cur[c]] + [m]
      ensures m == Msg(envs[cur[c]].ipcFrom, envs[cur[c]].ipcValue)
    {
      var i := cur[c];
      assert CpuOk(Now(), c);
      assert MsgOk(envs[i], phase[i], sent[i], seen[i]);
      m := Msg(envs[i].ipcFrom, envs[i].ipcValue);
      seen := seen[i := seen[i] + [m]];
      phase := phase[i := Ready];
    }

    /** One step of a script. */
    method Perform(step: Step) returns (goes: bool)
      requires Valid()
      modifies this
      ensures Follows(old(Whole()), step, Whole())
      ensures goes <==> Continues(old(Whole()), step)
      ensures goes ==> Valid()
    {
      goes := true;
      if Allowed(Sys(envs, cur), phase, step) {
        match step
        case Create(typ, memory) =>
          var k := EnvCreate(typ, memory);
          goes := k >= 0;
        case StartOn(c) =>
          var choice := Start(c);
          goes := choice.Run?;
        case TrapOn(c, ev) =>
          var r, choice := Trap(c, ev);
          goes := choice.Run?;
        case FetchOn(c) =>
          var m := Fetch(c);
      }
    }

    /** Every run, on any number of processors, of steps that are not allowed being
        left out: each state follows from the one before by its step, all of them are
        sound, and the run ends early exactly after a step at which the kernel stops
        for good. */
    method Execute(script: seq<Step>) returns (ghost trace: seq<World>, halted: bool)
      requires Valid()
      modifies this
      ensures 1 <= |trace| <= |script| + 1 && trace[0] == old(Whole()) && trace[|trace| - 1] == Whole()
      ensures forall i :: 0 <= i < |trace| - 1 ==> Follows(trace[i], script[i], trace[i + 1])
      ensures forall i :: 0 <= i < |trace| - 1 ==> Sound(trace[i]) && !Doubled(trace[i].sys)
      ensures forall i :: 0 <= i < |trace| - 1 ==> (Continues(trace[i], script[i]) <==> !(halted && i == |trace| - 2))
      ensures if halted then |trace| > 1 else |trace| == |script| + 1 && Sound(Whole()) && !Doubled(Now())
    {
      hide Follows, Continues, Sound, Doubled;
      halted, trace := false, [Whole()];
      var n := 0;
      while n < |script| && !halted
        invariant 0 <= n <= |script| && |trace| == n + 1 && trace[0] == old(Whole()) && trace[n] == Whole()
        invariant forall i :: 0 <= i < n ==> Follows(trace[i], script[i], trace[i + 1])
        invariant forall i :: 0 <= i < n ==> Sound(trace[i]) && !Doubled(trace[i].sys)
        invariant forall i :: 0 <= i < n ==> (Continues(trace[i], script[i]) <==> !(halted && i == n - 1))
        invariant if halted then n > 0 else Valid()
      {
        SoundMeans(Whole());
        var goes := Perform(script[n]);
        halted, trace := !goes, trace + [Whole()];
        n := n + 1;
      }
      if !halted {
        SoundMeans(Whole());
      }
    }

    /** The same for the runs from boot. */
    static method BootAndExecute(ncpu: nat, script: seq<Step>)
      returns (k: Kernel, ghost trace: seq<World>, halted: bool)
      requires ncpu <= NCPU
      ensures fresh(k) && 1 <= |trace| <= |script| + 1 && Booted(trace[0], ncpu) && trace[|trace| - 1] == k.Whole()
      ensures forall i :: 0 <= i < |trace| - 1 ==> Follows(trace[i], script[i], trace[i + 1])
      ensures forall i :: 0 <= i < |trace| - 1 ==> Sound(trace[i]) && !Doubled(trace[i].sys)
      ensures forall i :: 0 <= i < |trace| - 1 ==> (Continues(trace[i], script[i]) <==> !(halted && i == |trace| - 2))
      ensures if halted then |trace| > 1 else |trace| == |script| + 1 && Sound(k.Whole()) && !Doubled(k.Now())
    {
      k := new Kernel(ncpu);
      trace, halted := k.Execute(script);
    }
  }
}
