/** Environment ids (lab/kern/env.c:80-115, 270-334; lab/inc/env.h:29-31). */
module EnvId {
  const NENV: nat := 1024
  const GENSTEP: int := 4096      // 1 << ENVGENSHIFT
  const CYCLE: nat := 0x7ffff     // 2^19 - 1 generations fit a positive id

  /** Two's complement wrap-around of a 32-bit signed addition. */
  function Wrap32(x: int): int {
    (x + 0x8000_0000) % 0x1_0000_0000 - 0x8000_0000
  }

  /** ENVX: the low ten bits of an id, also of a negative one. */
  function EnvX(id: int): nat {
    id % NENV
  }

  /** The id that env_alloc gives a slot whose last id was `id`. Clearing the low
      ten bits rounds down to a multiple of 1024, and the slot fills them again. */
  function NextId(id: int, slot: nat): int {
    var sum := Wrap32(id + GENSTEP);
    var generation := sum - sum % NENV;
    (if generation <= 0 then GENSTEP else generation) + slot
  }

  /** The id of the `k`th environment in a slot; 0 before the first. */
  function Nth(slot: nat, k: nat): int {
    if k == 0 then 0 else NextId(Nth(slot, k - 1), slot)
  }

  lemma WrapForm(x: int)
    requires 0 <= x < 0x1_0000_0000
    ensures Wrap32(x) == if x < 0x8000_0000 then x else x - 0x1_0000_0000
  {
  }

  lemma LowBits(q: int, slot: nat)
    requires slot < NENV
    ensures (1024 * q + slot) % NENV == slot
  {
  }

  lemma NextForm(slot: nat, g: nat)
    requires slot < NENV && 1 <= g <= CYCLE
    ensures NextId(4096 * g + slot, slot) == (if g == CYCLE then 4096 + slot else 4096 * (g + 1) + slot)
  {
    var sum := 4096 * g + slot + GENSTEP;
    WrapForm(sum);
    LowBits(4 * (g + 1), slot);
    LowBits(4 * (g + 1) - 0x40_0000, slot);
    if g == CYCLE {
      assert Wrap32(sum) == 1024 * (4 * (g + 1) - 0x40_0000) + slot;
    } else {
      assert Wrap32(sum) == 1024 * (4 * (g + 1)) + slot;
    }
  }

  lemma StepMod(m: nat)
    ensures (m + 1) % CYCLE == if m % CYCLE == CYCLE - 1 then 0 else m % CYCLE + 1
  {
  }

  /** The ids of a slot in closed form: positive, carrying the slot, with the
      generation going round in 2^19 - 1 steps. */
  lemma {:induction false} NthForm(slot: nat, k: nat)
    requires slot < NENV && k >= 1
    ensures Nth(slot, k) == 4096 * (1 + (k - 1) % CYCLE) + slot
    ensures 0 < Nth(slot, k) < 0x8000_0000 && EnvX(Nth(slot, k)) == slot
  {
    if k == 1 {
      assert Wrap32(4096) == 4096;
    } else {
      NthForm(slot, k - 1);
      var g := 1 + (k - 2) % CYCLE;
      NextForm(slot, g);
      StepMod(k - 2);
    }
    LowBits(4 * (1 + (k - 1) % CYCLE), slot);
  }

  lemma SameRemainder(a: nat, b: nat)
    requires a <= b
    ensures a % CYCLE == b % CYCLE <==> (b - a) % CYCLE == 0
  {
    var qa, ra, qb, rb := a / CYCLE, a % CYCLE, b / CYCLE, b % CYCLE;
    assert b - a == CYCLE * (qb - qa) + (rb - ra);
  }

  /** Two environments of one slot have the same id exactly when a multiple of
      2^19 - 1 allocations lies between them. */
  lemma SameIdExactly(slot: nat, i: nat, j: nat)
    requires slot < NENV && 1 <= i <= j
    ensures Nth(slot, i) == Nth(slot, j) <==> (j - i) % CYCLE == 0
  {
    NthForm(slot, i);
    NthForm(slot, j);
    SameRemainder(i - 1, j - 1);
    assert (j - 1) - (i - 1) == j - i;
    var ri, rj := (i - 1) % CYCLE, (j - 1) % CYCLE;
    assert 4096 * (1 + ri) + slot == 4096 * (1 + rj) + slot <==> ri == rj;
  }

  /** Ids of different slots differ. */
  lemma SlotsDiffer(slot: nat, i: nat, slot': nat, j: nat)
    requires slot < NENV && slot' < NENV && slot != slot' && i >= 1 && j >= 1
    ensures Nth(slot, i) != Nth(slot', j)
  {
    NthForm(slot, i);
    NthForm(slot', j);
  }
}
