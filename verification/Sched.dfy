/** The round-robin choice of the next environment (lab/kern/sched.c) and how
long a runnable environment can wait for it. */
module Sched {
  import opened EnvId

  datatype Status = Free | Dying | Runnable | Running | NotRunnable

  datatype EnvType = User | Idle | FileServer | NetServer

  /** The fields of struct Env that scheduling and messages use. */
  datatype Env = Env(
    id: int, parent: int, typ: EnvType, status: Status, runs: nat, cpu: int,
    recving: bool, ipcValue: nat, ipcFrom: int)

  /** What sched_yield ends in: running slot `k`, the monitor, a panic for want of
      an idle environment, or a read past the end of `envs`. */
  datatype Choice = Run(k: nat) | Monitor | NoIdle | OutOfBounds

  predicate Eligible(e: Env) {
    e.status == Runnable && e.typ != Idle
  }

  predicate Busy(e: Env) {
    e.typ != Idle && (e.status == Runnable || e.status == Running)
  }

  /** Where the search starts: the slot after this one. */
  function Origin(cur: int): int {
    if cur >= 0 then cur else 1
  }

  function At(i: int, d: nat): nat {
    (i + d) % NENV
  }

  /** Slot At(i, d) is the first eligible one going round from `i`, not looking at `i` itself. */
  ghost predicate First(envs: seq<Env>, i: int, d: nat)
    requires |envs| == NENV
  {
    1 <= d < NENV && Eligible(envs[At(i, d)]) && forall c :: 1 <= c < d ==> !Eligible(envs[At(i, c)])
  }

  ghost predicate NoneEligible(envs: seq<Env>, i: int)
    requires |envs| == NENV
  {
    forall c :: 1 <= c < NENV ==> !Eligible(envs[At(i, c)])
  }

  ghost predicate Chosen(envs: seq<Env>, cur: int, cpu: nat, choice: Choice)
    requires |envs| == NENV && cur < NENV && cpu < NENV
  {
    var i := Origin(cur);
    if i == NENV - 1 then choice == OutOfBounds
    else if !NoneEligible(envs, i) then exists d :: First(envs, i, d) && choice == Run(At(i, d))
    else if cur >= 0 && envs[cur].status == Running then choice == Run(cur)
    else if forall k :: 0 <= k < NENV ==> !Busy(envs[k]) then choice == Monitor
    else if envs[cpu].status == Runnable || envs[cpu].status == Running then choice == Run(cpu)
    else choice == NoIdle
  }

  /** The two loops of sched_yield. */
  method Choose(envs: seq<Env>, cur: int, cpu: nat) returns (choice: Choice)
    requires |envs| == NENV && -1 <= cur < NENV && cpu < NENV
    ensures Chosen(envs, cur, cpu, choice)
  {
    var i := if cur >= 0 then cur else 1;
    var k := i + 1;
    if k == NENV {
      return OutOfBounds;
    }
    var j := 1;
    while j < NENV
      invariant 1 <= j <= NENV && (j < NENV ==> k == At(i, j))
      invariant forall c :: 1 <= c < j ==> !Eligible(envs[At(i, c)])
    {
      if envs[k].status == Runnable && envs[k].typ != Idle {
        assert First(envs, i, j);
        return Run(k);
      }
      k := k + 1;
      if k == NENV {
        k := 0;
      }
      j := j + 1;
    }
    if cur >= 0 && envs[cur].status == Running {
      return Run(cur);
    }
    var m := 0;
    while m < NENV
      invariant 0 <= m <= NENV && forall c :: 0 <= c < m ==> !Busy(envs[c])
    {
      if envs[m].typ != Idle && (envs[m].status == Runnable || envs[m].status == Running) {
        break;
      }
      m := m + 1;
    }
    if m == NENV {
      return Monitor;
    }
    if !(envs[cpu].status == Runnable || envs[cpu].status == Running) {
      return NoIdle;
    }
    choice := Run(cpu);
  }

  /** The search stays inside `envs` exactly if it does not start from the last slot. */
  lemma InBoundsExactly(envs: seq<Env>, cur: int, cpu: nat, choice: Choice)
    requires |envs| == NENV && -1 <= cur < NENV && cpu < NENV && Chosen(envs, cur, cpu, choice)
    ensures choice != OutOfBounds <==> cur != NENV - 1
  {
  }

  /** How far slot `e` lies ahead of slot `i`, going round. */
  function Distance(i: int, e: int): (d: nat)
    requires 0 <= i < NENV && 0 <= e < NENV
    ensures i != e ==> 1 <= d < NENV && At(i, d) == e
  {
    if e >= i then e - i else e + NENV - i
  }

  /** A runnable environment is run whenever there is one, other than in the slot
      that the search starts from. Without a current environment that is slot 1. */
  lemma RunsSomethingExactly(envs: seq<Env>, cur: int, cpu: nat, choice: Choice)
    requires |envs| == NENV && -1 <= cur < NENV - 1 && cpu < NENV && Chosen(envs, cur, cpu, choice)
    requires envs[cpu].typ == Idle
    ensures choice.Run? && Eligible(envs[choice.k]) <==>
            exists k :: 0 <= k < NENV && k != Origin(cur) && Eligible(envs[k])
  {
    var i := Origin(cur);
    if k :| 0 <= k < NENV && k != i && Eligible(envs[k]) {
      var d := Distance(i, k);
      assert At(i, d) == k;
      assert !NoneEligible(envs, i);
    } else {
      forall c | 1 <= c < NENV ensures !Eligible(envs[At(i, c)]) {
        assert At(i, c) != i;
      }
      assert NoneEligible(envs, i);
    }
  }

  /** The choice is never beyond an eligible slot, and brings every slot between
      closer by the distance it moved. */
  lemma Closer(envs: seq<Env>, i: int, d: nat, e: int)
    requires |envs| == NENV && 0 <= i < NENV && 0 <= e < NENV && e != i && Eligible(envs[e]) && First(envs, i, d)
    ensures d <= Distance(i, e)
    ensures At(i, d) == e <==> d == Distance(i, e)
    ensures At(i, d) != e ==> Distance(At(i, d), e) == Distance(i, e) - d
  {
    assert At(i, Distance(i, e)) == e;
  }

  /** Of the eligible slots, other than the one the search starts from, the nearest
      ahead is run; without a current environment the search starts from slot 1. */
  lemma NearestRuns(envs: seq<Env>, cur: int, cpu: nat, choice: Choice, e: nat)
    requires |envs| == NENV && -1 <= cur < NENV - 1 && cpu < NENV && Chosen(envs, cur, cpu, choice)
    requires e < NENV && envs[e].status == Runnable && envs[e].typ != Idle && e != if cur >= 0 then cur else 1
    ensures var start := if cur >= 0 then cur else 1;
            && choice.Run? && choice.k < NENV && choice.k != start
            && envs[choice.k].status == Runnable && envs[choice.k].typ != Idle
            && Distance(start, choice.k) <= Distance(start, e)
  {
    var start := Origin(cur);
    assert At(start, Distance(start, e)) == e && !NoneEligible(envs, start);
    var d :| First(envs, start, d) && choice == Run(At(start, d));
    Closer(envs, start, d, e);
    assert At(start, d) != start && Distance(start, At(start, d)) == d;
  }

  /** With none eligible, the current environment goes on if it still runs; else the
      processor's idle one runs, if that can and any other environment is runnable
      or running; else there is nothing left to do. */
  lemma FallsBack(envs: seq<Env>, cur: int, cpu: nat, choice: Choice)
    requires |envs| == NENV && -1 <= cur < NENV - 1 && cpu < NENV && Chosen(envs, cur, cpu, choice)
    requires forall k :: 0 <= k < NENV && k != (if cur >= 0 then cur else 1) ==>
               envs[k].status != Runnable || envs[k].typ == Idle
    ensures cur >= 0 && envs[cur].status == Running ==> choice == Run(cur)
    ensures !(cur >= 0 && envs[cur].status == Running) ==>
              if forall k :: 0 <= k < NENV ==> envs[k].typ == Idle || envs[k].status !in {Runnable, Running} then
                choice == Monitor
              else if envs[cpu].status in {Runnable, Running} then choice == Run(cpu)
              else choice == NoIdle
  {
    var i := Origin(cur);
    forall c | 1 <= c < NENV ensures !Eligible(envs[At(i, c)]) {
      assert At(i, c) != i;
    }
    assert (forall k :: 0 <= k < NENV ==> !Busy(envs[k])) <==>
           (forall k :: 0 <= k < NENV ==> envs[k].typ == Idle || envs[k].status !in {Runnable, Running});
  }

  /** One scheduling decision: the table, the current slot and the choice made. */
  datatype Decision = Decision(envs: seq<Env>, cur: int, choice: Choice)

  /** Consecutive decisions of one processor on which no environment exits, none
      of them from the last slot. */
  ghost predicate Decisions(ds: seq<Decision>, cpu: nat) {
    && cpu < NENV
    && (forall t :: 0 <= t < |ds| ==>
          && |ds[t].envs| == NENV && 0 <= ds[t].cur < NENV - 1
          && Chosen(ds[t].envs, ds[t].cur, cpu, ds[t].choice) && ds[t].choice.Run?)
    && (forall t :: 0 <= t < |ds| - 1 ==> ds[t + 1].cur == ds[t].choice.k)
  }

  /** An environment that is runnable at every decision runs at one of the next
      Distance(cur, e) of them, so within NENV - 1. */
  lemma {:induction false} BoundedWaiting(ds: seq<Decision>, cpu: nat, e: nat)
    requires Decisions(ds, cpu) && e < NENV && |ds| > 0 && ds[0].cur != e
    requires |ds| >= Distance(ds[0].cur, e)
    requires forall t :: 0 <= t < |ds| ==> Eligible(ds[t].envs[e])
    ensures exists t :: 0 <= t < Distance(ds[0].cur, e) <= NENV - 1 && ds[t].choice == Run(e)
    decreases |ds|
  {
    var i := ds[0].cur;
    var d := Distance(i, e);
    assert At(i, d) == e && !NoneEligible(ds[0].envs, i);
    var f :| First(ds[0].envs, i, f) && ds[0].choice == Run(At(i, f));
    Closer(ds[0].envs, i, f, e);
    if At(i, f) != e {
      assert |ds| > 1 && ds[0 + 1].cur == At(i, f);
      var rest := ds[1..];
      forall t | 0 <= t < |rest| - 1 ensures rest[t + 1].cur == rest[t].choice.k {
        assert ds[(t + 1) + 1].cur == ds[t + 1].choice.k;
      }
      BoundedWaiting(rest, cpu, e);
      var t :| 0 <= t < Distance(rest[0].cur, e) && rest[t].choice == Run(e);
      assert ds[t + 1].choice == Run(e);
    }
  }
}
