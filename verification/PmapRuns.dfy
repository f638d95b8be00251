/** A run of page-table calls that puts page 0 on the free list while it is mapped
(lab/kern/pmap.c:656-657, 681-692; lab/kern/syscall.c:285-339). */
module PmapRuns {
  import opened Common
  import opened Mmu
  import opened PageTable
  import opened PageCounts
  import opened Pmap

  // Three pages of one page table.
  const FIRST := 0x80_0000
  const EMPTY := 0x80_1000
  const SECOND := 0x80_2000

  const PWU: Perm := {P, W, U}

  lemma PermSeven()
    ensures FromInt(7) == PermWord(0, PWU) && Allowed(FromInt(7))
  {
    assert forall f: Flag :: f in FromInt(7).flags <==> f in PWU;
  }

  lemma {:induction false} MissingAtMost(words: Memory, q: nat, level: nat, va: nat)
    requires 1 <= level
    ensures Missing(words, q, level, va) <= level - 1
    decreases level
  {
    if level > 1 && q < |words| && |words[q]| == NENTRIES && words[q][Index(level, va)] != ZERO {
      MissingAtMost(words, words[q][Index(level, va)].ppn, level - 1, va);
    }
  }

  /** What the run keeps about an address space: nothing at EMPTY, page 0 has count
      `zero`, and there are still `n` free pages. */
  ghost predicate Ready(s: Snap, kernel: set<nat>, root: nat, zero: nat, n: nat) {
    && Consistent(s.words, s.place, s.refs, s.free, kernel) && IsRoot(s.place, root) && kernel == {0}
    && Translate(s.words, root, EMPTY) == ZERO && |s.refs| > 0 && s.refs[0] == zero && |s.free| >= n
    && forall j, k :: 0 <= j < k < |s.free| ==> s.free[j] != s.free[k]
  }

  lemma NewReady(s: Snap, kernel: set<nat>, kpgdir: seq<Entry>)
    requires SpaceOk(s, kernel, kpgdir) && kernel == {0} && |s.free| >= 8 && |s.refs| > 0 && s.refs[0] == 0
    ensures Ready(Space(s, kpgdir), kernel, s.free[0], 0, 5)
    ensures forall va :: 0 <= va < UTOP ==> Translate(Space(s, kpgdir).words, s.free[0], va) == ZERO
  {
    SpaceMade(s, kernel, kpgdir);
    assert s.free[0] in s.free && s.free[1] in s.free && s.free[2] in s.free;
    forall va: nat | va < UTOP ensures Translate(Space(s, kpgdir).words, s.free[0], va) == ZERO {
      SpaceTranslate(s, kernel, kpgdir, s.free[0], va);
    }
  }

  lemma Reaches(s: Snap, kernel: set<nat>, root: nat, va: nat)
    requires Consistent(s.words, s.place, s.refs, s.free, kernel) && IsRoot(s.place, root) && va in {FIRST, SECOND}
    requires Translate(s.words, root, va) != ZERO
    ensures Leaf(s.words, root, 4, EMPTY).Some? && Missing(s.words, root, 4, SECOND) == 0
  {
    SameTableSameLeaf(s.words, root, 4, va, EMPTY);
    SameTableSameLeaf(s.words, root, 4, va, SECOND);
    RootOn(s.words, s.place, root, SECOND);
    MissingLeaf(s.words, s.place, root, 4, SECOND);
  }

  /** A page at an address where there was none. */
  lemma AllocReady(s: Snap, s': Snap, kernel: set<nat>, root: nat, va: nat, n: nat)
    requires Ready(s, kernel, root, 0, n + 1 + Missing(s.words, root, 4, va)) && va in {FIRST, SECOND}
    requires Translate(s.words, root, va) == ZERO && Allocated(s, s', root, va, PWU)
    requires Consistent(s'.words, s'.place, s'.refs, s'.free, kernel)
    ensures Ready(s', kernel, root, 0, n) && Translate(s'.words, root, va) == Entry(s.free[0], PWU) && s.free[0] != 0
    ensures va == FIRST ==> Translate(s'.words, root, SECOND) == Translate(s.words, root, SECOND)
    ensures Leaf(s'.words, root, 4, EMPTY).Some? && Missing(s'.words, root, 4, SECOND) == 0
  {
    assert s.free[0] in s.free;
    assert forall q :: q in s.free[1..] ==> q in s.free;
    assert Translate(s'.words, root, va) == Entry(s.free[0], PWU);
    assert Translate(s'.words, root, EMPTY) == ZERO;
    Reaches(s', kernel, root, va);
  }

  /** Mapping the unmapped EMPTY over the page at SECOND gives page 0 a count. */
  lemma MapReady(s: Snap, s': Snap, kernel: set<nat>, root: nat)
    requires Ready(s, kernel, root, 0, 0) && Mapped(s, s', root, EMPTY, root, SECOND, PermWord(0, PWU))
    requires Translate(s.words, root, SECOND).ppn != 0 && Consistent(s'.words, s'.place, s'.refs, s'.free, kernel)
    requires Missing(s.words, root, 4, SECOND) == 0
    ensures IsRoot(s'.place, root) && Translate(s'.words, root, EMPTY) == ZERO && s'.refs[0] == 1
    ensures Translate(s'.words, root, SECOND) == Entry(0, PWU) && Leaf(s'.words, root, 4, EMPTY).Some?
  {
    assert PWU + {P} == PWU && Or(0, 0) == 0;
    assert Translate(s'.words, root, SECOND) == Entry(0, PWU);
    assert Translate(s'.words, root, EMPTY) == ZERO;
    Reaches(s', kernel, root, SECOND);
  }

  /** An address space with pages at FIRST and SECOND and none between them. */
  method TwoPages(memory: Memory, kpgdir: seq<Entry>) returns (k: Pmap, root: nat)
    requires Shape(memory) && |memory| >= 9
    requires |kpgdir| == NENTRIES && forall i :: 0 <= i < 0x17c ==> kpgdir[i] == ZERO
    ensures fresh(k) && k.Valid() && Ready(k.Now(), k.kernel, root, 0, 0)
    ensures Translate(k.words, root, SECOND).ppn != 0
    ensures Leaf(k.words, root, 4, EMPTY).Some? && Missing(k.words, root, 4, SECOND) == 0
  {
    PermSeven();
    hide Consistent, FreeList, Space, Allocated, Translate, FromInt, Allowed;
    k := new Pmap(memory, {});
    ghost var s0 := k.Now();
    assert 0 in k.kernel;
    var r0 := k.EnvSetupVm(kpgdir);
    NewReady(s0, k.kernel, kpgdir);
    root := r0;
    ghost var s1 := k.Now();
    MissingAtMost(s1.words, root, 4, FIRST);
    var r := k.SysPageAlloc(Some(root), FIRST, 7);
    AllocReady(s1, k.Now(), k.kernel, root, FIRST, 1);
    ghost var s2 := k.Now();
    r := k.SysPageAlloc(Some(root), SECOND, 7);
    AllocReady(s2, k.Now(), k.kernel, root, SECOND, 0);
  }

  /** After mapping from EMPTY and unmapping it again, page 0 is free and mapped at SECOND. */
  method PageZeroFreed(memory: Memory, kpgdir: seq<Entry>) returns (k: Pmap, root: nat)
    requires Shape(memory) && |memory| >= 9
    requires |kpgdir| == NENTRIES && forall i :: 0 <= i < 0x17c ==> kpgdir[i] == ZERO
    ensures fresh(k) && k.Repr() && IsRoot(k.place, root) && Translate(k.words, root, SECOND) == Entry(0, PWU)
    ensures 0 in k.free && k.freeHead == 0 && !k.Valid()
  {
    PermSeven();
    k, root := TwoPages(memory, kpgdir);
    ghost var s := k.Now();
    hide Mapped, FromInt, Translate, FreeList, Missing;
    var r := k.SysPageMap(Some(root), EMPTY, Some(root), SECOND, 7);
    MapReady(s, k.Now(), k.kernel, root);
    k.PageRemove(root, EMPTY);
    assert k.free[0] == 0;
  }
}
