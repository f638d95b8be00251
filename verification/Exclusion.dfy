/** Which processor runs which environment: the table of environments and the
current environment of each processor, when the kernel lock is free and while
one processor holds it (lab/kern/env.c:605-637, lab/kern/trap.c:363-409). */
module Exclusion {
  import opened EnvId
  import opened Sched

  datatype Sys = Sys(envs: seq<Env>, cur: seq<int>)

  predicate Claimed(e: Env) {
    e.status == Running || e.status == Dying
  }

  predicate Shape(s: Sys) {
    |s.envs| == NENV && |s.cur| <= NENV && forall c :: 0 <= c < |s.cur| ==> -1 <= s.cur[c] < NENV
  }

  /** A processor with a current environment is the one that environment is on. */
  predicate CpuOk(s: Sys, c: nat)
    requires Shape(s) && c < |s.cur|
  {
    s.cur[c] >= 0 ==> s.envs[s.cur[c]].cpu == c && Claimed(s.envs[s.cur[c]])
  }

  /** An idle environment, created by the kernel, never freed and always able to run. */
  predicate IdleOk(e: Env) {
    e.typ == Idle && (e.status == Runnable || e.status == Running) && e.parent == 0
  }

  /** An environment that is running, or dying while it runs, is current on its
      processor; the first environments are the processors' own idle ones. */
  predicate EnvOk(s: Sys, i: nat)
    requires Shape(s) && i < NENV
  {
    && (Claimed(s.envs[i]) ==> 0 <= s.envs[i].cpu < |s.cur| && s.cur[s.envs[i].cpu] == i)
    && (i < |s.cur| ==> IdleOk(s.envs[i]) && (Claimed(s.envs[i]) ==> s.envs[i].cpu == i))
  }

  /** The lock is free. */
  ghost predicate Excl(s: Sys) {
    && Shape(s)
    && (forall c {:trigger CpuOk(s, c)} :: 0 <= c < |s.cur| ==> CpuOk(s, c))
    && (forall i {:trigger EnvOk(s, i)} :: 0 <= i < NENV ==> EnvOk(s, i))
  }

  /** Processor `c` is inside the kernel: its current environment may have any
      status but dying or free, and all the rest is as when the lock is free. */
  ghost predicate Inside(s: Sys, c: nat) {
    && Shape(s) && c < |s.cur|
    && (s.cur[c] >= 0 ==>
          s.envs[s.cur[c]].cpu == c && s.envs[s.cur[c]].status != Dying && s.envs[s.cur[c]].status != Free)
    && (forall d {:trigger CpuOk(s, d)} :: 0 <= d < |s.cur| && d != c ==> CpuOk(s, d))
    && (forall i {:trigger EnvOk(s, i)} :: 0 <= i < NENV ==> EnvOk(s, i))
  }

  /** No environment is current on two processors, and running means being
      current on exactly one. */
  lemma OneCpuPerEnv(s: Sys, c: nat, d: nat, i: nat)
    requires Excl(s) && c < |s.cur| && d < |s.cur| && i < NENV
    ensures s.cur[c] == s.cur[d] && s.cur[c] >= 0 ==> c == d
    ensures s.cur[c] == i ==> Claimed(s.envs[i])
    ensures s.envs[i].status == Running ==> exists c' :: 0 <= c' < |s.cur| && s.cur[c'] == i
  {
    assert CpuOk(s, c) && CpuOk(s, d) && EnvOk(s, i);
  }

  /** env_run on processor `c`. */
  function EnvRun(s: Sys, c: nat, k: nat): Sys
    requires Shape(s) && c < |s.cur| && k < NENV
  {
    var i := s.cur[c];
    var envs := if i >= 0 && s.envs[i].status == Running then s.envs[i := s.envs[i].(status := Runnable)] else s.envs;
    Sys(envs[k := envs[k].(status := Running, runs := envs[k].runs + 1, cpu := c)], s.cur[c := k])
  }

  /** What sched_yield may choose is never current on another processor. */
  lemma ChosenIsFree(s: Sys, c: nat, choice: Choice)
    requires Inside(s, c) && Chosen(s.envs, s.cur[c], c, choice) && choice.Run?
    ensures choice.k < NENV && (Claimed(s.envs[choice.k]) ==> s.cur[c] == choice.k)
    ensures choice.k < |s.cur| ==> choice.k == c || (s.cur[c] == choice.k && s.envs[choice.k].status == Running)
  {
    assert EnvOk(s, choice.k);
    if s.cur[c] >= 0 {
      assert EnvOk(s, s.cur[c]);
    }
  }

  /** A decision of processor `c` runs something. */
  predicate GoesOn(s: Sys, c: nat)
    requires Shape(s) && c < |s.cur|
  {
    && s.cur[c] != NENV - 1
    && ((s.cur[c] >= 0 && s.envs[s.cur[c]].status == Running) || exists k :: 0 <= k < NENV && Busy(s.envs[k]))
  }

  /** sched_yield runs something exactly if it does not start from the last slot
      and the current environment still runs or another, not idle, could. Its
      panic for want of an idle environment never happens. */
  lemma GoesOnExactly(s: Sys, c: nat, choice: Choice)
    requires Inside(s, c) && Chosen(s.envs, s.cur[c], c, choice)
    ensures choice.Run? <==> GoesOn(s, c)
    ensures choice != NoIdle && (choice == OutOfBounds <==> s.cur[c] == NENV - 1)
  {
    assert EnvOk(s, c);
    var i := Origin(s.cur[c]);
    if i != NENV - 1 && !NoneEligible(s.envs, i) {
      var d :| 1 <= d < NENV && Eligible(s.envs[At(i, d)]);
      assert Busy(s.envs[At(i, d)]);
    }
  }

  /** An idle environment that cannot run is not repaired by running another. */
  lemma IdleStaysBroken(s: Sys, c: nat, k: nat)
    requires Shape(s) && c < |s.cur| && k < NENV && k != c
    requires s.envs[c].status != Runnable && s.envs[c].status != Running
    ensures !Excl(EnvRun(s, c, k))
  {
    assert !EnvOk(EnvRun(s, c, k), c);
  }

  /** Leaving the kernel by running such an environment restores exclusion. */
  lemma RunRestores(s: Sys, c: nat, k: nat)
    requires Inside(s, c) && k < NENV && (Claimed(s.envs[k]) ==> s.cur[c] == k)
    requires k < |s.cur| ==> k == c || (s.cur[c] == k && s.envs[k].status == Running)
    requires s.envs[k].status != Free
    ensures Excl(EnvRun(s, c, k))
  {
    var s' := EnvRun(s, c, k);
    assert EnvOk(s, k);
    forall d | 0 <= d < |s'.cur| ensures CpuOk(s', d) {
      if d != c {
        assert CpuOk(s, d);
      }
    }
    forall i | 0 <= i < NENV ensures EnvOk(s', i) {
      assert EnvOk(s, i);
    }
  }

  /** Entering the kernel on a processor whose environment is not dying. */
  lemma Enter(s: Sys, c: nat)
    requires Excl(s) && c < |s.cur| && (s.cur[c] >= 0 ==> s.envs[s.cur[c]].status != Dying)
    ensures Inside(s, c)
  {
    assert CpuOk(s, c);
  }

  /** A change to the current environment's own record that keeps its processor
      and does not make it dying. */
  lemma ChangeSelf(s: Sys, c: nat, e: Env)
    requires Inside(s, c) && s.cur[c] >= 0 && e.cpu == c && e.status != Dying && e.status != Free
    requires s.cur[c] < |s.cur| ==> IdleOk(e) && (Claimed(e) ==> s.cur[c] == c)
    ensures Inside(s.(envs := s.envs[s.cur[c] := e]), c)
  {
    var s' := s.(envs := s.envs[s.cur[c] := e]);
    forall d | 0 <= d < |s'.cur| && d != c ensures CpuOk(s', d) {
      assert CpuOk(s, d);
    }
    forall i | 0 <= i < NENV ensures EnvOk(s', i) {
      assert EnvOk(s, i);
    }
  }

  /** A change to the record of an environment that no processor runs, to a
      status that claims none. */
  lemma ChangeOther(s: Sys, c: nat, t: nat, e: Env)
    requires Inside(s, c) && t < NENV && s.cur[c] != t && !Claimed(s.envs[t]) && !Claimed(e)
    requires t < |s.cur| ==> IdleOk(e)
    ensures Inside(s.(envs := s.envs[t := e]), c)
  {
    var s' := s.(envs := s.envs[t := e]);
    forall d | 0 <= d < |s'.cur| && d != c ensures CpuOk(s', d) {
      assert CpuOk(s, d);
    }
    forall i | 0 <= i < NENV ensures EnvOk(s', i) {
      assert EnvOk(s, i);
    }
  }

  /** Destroying a running environment of another processor leaves it there, dying. */
  lemma MarkDying(s: Sys, c: nat, t: nat)
    requires Inside(s, c) && |s.cur| <= t < NENV && s.cur[c] != t && s.envs[t].status == Running
    ensures Inside(s.(envs := s.envs[t := s.envs[t].(status := Dying)]), c)
  {
    var s' := s.(envs := s.envs[t := s.envs[t].(status := Dying)]);
    forall d | 0 <= d < |s'.cur| && d != c ensures CpuOk(s', d) {
      assert CpuOk(s, d);
    }
    forall i | 0 <= i < NENV ensures EnvOk(s', i) {
      assert EnvOk(s, i);
    }
  }

  /** A processor that runs nothing breaks nothing. */
  lemma LeaveNone(s: Sys, c: nat)
    requires Inside(s, c) && s.cur[c] < 0
    ensures Excl(s)
  {
    assert CpuOk(s, c);
  }

  /** Freeing the current environment leaves its processor without one. */
  lemma FreeSelf(s: Sys, c: nat)
    requires Shape(s) && c < |s.cur| && s.cur[c] >= |s.cur| && s.envs[s.cur[c]].cpu == c
    requires Inside(s, c) || Excl(s)
    ensures Inside(Sys(s.envs[s.cur[c] := s.envs[s.cur[c]].(status := Free)], s.cur[c := -1]), c)
  {
    var s' := Sys(s.envs[s.cur[c] := s.envs[s.cur[c]].(status := Free)], s.cur[c := -1]);
    forall d | 0 <= d < |s'.cur| && d != c ensures CpuOk(s', d) {
      assert CpuOk(s, d);
    }
    forall i | 0 <= i < NENV ensures EnvOk(s', i) {
      assert EnvOk(s, i);
    }
  }

  /** An environment that is current elsewhere without a claim is not repaired by
      whatever this processor runs next. */
  lemma StaysBroken(s: Sys, c: nat, k: nat, t: nat, d: nat)
    requires Shape(s) && c < |s.cur| && k < NENV && t < NENV && d < |s.cur| && d != c
    requires s.cur[d] == t && s.cur[c] != t && !Claimed(s.envs[t])
    ensures !Excl(EnvRun(s, c, k))
  {
    assert !CpuOk(EnvRun(s, c, k), d);
  }

  /** Some environment is current on two processors. */
  ghost predicate Doubled(s: Sys) {
    exists c, d :: 0 <= c < d < |s.cur| && s.cur[c] == s.cur[d] >= 0
  }

  lemma ExclNotDoubled(s: Sys)
    requires Excl(s)
    ensures !Doubled(s)
  {
    forall c, d | 0 <= c < d < |s.cur| && s.cur[c] >= 0 ensures s.cur[c] != s.cur[d] {
      OneCpuPerEnv(s, c, d, s.cur[c]);
    }
  }

  /** Running `k` makes an environment current twice exactly if `k` already is on
      another processor. */
  lemma RunDoubles(s: Sys, p: nat, k: nat)
    requires Shape(s) && p < |s.cur| && k < NENV && !Doubled(s)
    ensures Doubled(EnvRun(s, p, k)) <==> exists d :: 0 <= d < |s.cur| && d != p && s.cur[d] == k
  {
    var s' := EnvRun(s, p, k);
    if d :| 0 <= d < |s.cur| && d != p && s.cur[d] == k {
      assert s'.cur[d] == s'.cur[p] == k;
    }
    if Doubled(s') {
      var c, d :| 0 <= c < d < |s'.cur| && s'.cur[c] == s'.cur[d] >= 0;
      assert c == p || d == p;
    }
  }

  lemma OtherChoice(s0: Sys, t: nat, e: Env, d: nat, p: nat, choice: Choice)
    requires Excl(s0) && |s0.cur| <= t < NENV && d < |s0.cur| && s0.cur[d] == t && !Claimed(e)
    requires var s := s0.(envs := s0.envs[t := e]);
             p < |s.cur| && p != d && Chosen(s.envs, s.cur[p], p, choice) && choice.Run?
    requires var s := s0.(envs := s0.envs[t := e]);
             forall n :: First(s.envs, Origin(s.cur[p]), n) ==> At(Origin(s.cur[p]), n) != t
    ensures forall x :: 0 <= x < |s0.cur| && x != p ==> s0.cur[x] != choice.k
  {
    OneCpuPerEnv(s0, p, d, t);
    forall x | 0 <= x < |s0.cur| && x != p ensures s0.cur[x] != choice.k {
      assert CpuOk(s0, x) && CpuOk(s0, p) && EnvOk(s0, p);
      if s0.cur[x] >= 0 {
        assert EnvOk(s0, s0.cur[x]);
      }
      OneCpuPerEnv(s0, x, p, t);
    }
  }

  /** Whatever takes the claim off environment `t` while processor `d` runs it, the
      next decision of another processor puts `t` on two of them exactly if `t` is
      then runnable and the first such slot in the round. */
  lemma DoublesExactly(s0: Sys, t: nat, e: Env, d: nat, p: nat, choice: Choice)
    requires Excl(s0) && |s0.cur| <= t < NENV && d < |s0.cur| && s0.cur[d] == t && !Claimed(e)
    requires var s := s0.(envs := s0.envs[t := e]);
             p < |s.cur| && p != d && Chosen(s.envs, s.cur[p], p, choice) && choice.Run?
    ensures choice.k < NENV
    ensures var s := s0.(envs := s0.envs[t := e]);
            Doubled(EnvRun(s, p, choice.k)) <==>
              exists n :: First(s.envs, Origin(s.cur[p]), n) && At(Origin(s.cur[p]), n) == t
  {
    var s := s0.(envs := s0.envs[t := e]);
    ExclNotDoubled(s0);
    OneCpuPerEnv(s0, p, d, t);
    RunDoubles(s, p, choice.k);
    var i := Origin(s.cur[p]);
    if n :| First(s.envs, i, n) && At(i, n) == t {
      var m :| First(s.envs, i, m) && choice == Run(At(i, m));
      assert m == n;
    } else {
      OtherChoice(s0, t, e, d, p, choice);
    }
  }
}
