/** Physical pages, the intrusive free list, and the operations that edit page
tables in place (lab/kern/pmap.c:349-692, lab/kern/syscall.c:226-369). */
module Pmap {
  import opened Common
  import opened Mmu
  import opened PageTable
  import opened PageCounts

  const NULL: int := -1

  ghost function Next(free: seq<nat>, k: nat): int {
    if k + 1 < |free| then free[k + 1] else NULL
  }

  /** The chain of pp_link pointers from `head` visits `free`, once each, and ends. */
  ghost predicate FreeList(link: seq<int>, head: int, free: seq<nat>) {
    && head == (if free == [] then NULL else free[0])
    && (forall k :: 0 <= k < |free| ==> free[k] < |link|)
    && (forall k {:trigger Next(free, k)} :: 0 <= k < |free| ==> link[free[k]] == Next(free, k))
    && (forall j, k :: 0 <= j < k < |free| ==> free[j] != free[k])
  }

  lemma Pop(link: seq<int>, head: int, free: seq<nat>)
    requires FreeList(link, head, free) && free != []
    ensures FreeList(link[head := NULL], link[head], free[1..]) && head !in free[1..] && link[head] == Next(free, 0)
  {
    var rest := free[1..];
    forall k | 0 <= k < |rest| ensures rest[k] < |link| && link[head := NULL][rest[k]] == Next(rest, k) {
      assert rest[k] == free[k + 1] && free[0] != free[k + 1] && link[free[k + 1]] == Next(free, k + 1);
    }
    assert link[free[0]] == Next(free, 0);
  }

  lemma PushLink(link: seq<int>, head: int, free: seq<nat>, p: nat, k: nat)
    requires FreeList(link, head, free) && p < |link| && p !in free && k < |free|
    ensures ([p] + free)[k + 1] == free[k] < |link| && link[p := head][free[k]] == Next([p] + free, k + 1)
  {
    assert free[k] in free && link[free[k]] == Next(free, k);
    assert Next([p] + free, k + 1) == Next(free, k);
  }

  lemma PushDistinct(free: seq<nat>, p: nat, j: nat, k: nat)
    requires j < k < |free| + 1 && p !in free && forall j, k :: 0 <= j < k < |free| ==> free[j] != free[k]
    ensures ([p] + free)[j] != ([p] + free)[k]
  {
    assert free[k - 1] in free;
  }

  lemma Push(link: seq<int>, head: int, free: seq<nat>, p: nat)
    requires FreeList(link, head, free) && p < |link| && p !in free
    ensures FreeList(link[p := head], p, [p] + free)
  {
    var link', free' := link[p := head], [p] + free;
    forall k | 0 <= k < |free'| ensures free'[k] < |link'| && link'[free'[k]] == Next(free', k) {
      if k > 0 {
        PushLink(link, head, free, p, k - 1);
      }
    }
    forall j, k | 0 <= j < k < |free'| ensures free'[j] != free'[k] {
      PushDistinct(free, p, j, k);
    }
  }

  /** How many tables a walk for `va` finds missing. */
  function Missing(words: Memory, q: nat, level: nat, va: nat): nat
    decreases level
  {
    if level <= 1 || q >= |words| || |words[q]| != NENTRIES then 0
    else
      var e := words[q][Index(level, va)];
      if e == ZERO then level - 1 else Missing(words, e.ppn, level - 1, va)
  }

  /** A zero count of missing tables is exactly a walk that arrives. */
  lemma {:induction false} MissingLeaf(words: Memory, place: map<nat, Place>, q: nat, level: nat, va: nat)
    requires Tree(words, place) && 1 <= level <= 4 && va < UTOP && On(place, q, level, va)
    ensures Missing(words, q, level, va) == 0 <==> Leaf(words, q, level, va).Some?
    decreases level
  {
    assert PlaceOk(words, place, q);
    if level > 1 && words[q][Index(level, va)] != ZERO {
      Descend(level, va);
      assert EntryOk(words, place, q, Index(level, va));
      MissingLeaf(words, place, words[q][Index(level, va)].ppn, level - 1, va);
    }
  }

  lemma StepDown(words: Memory, place: map<nat, Place>, q: nat, level: nat, va: nat)
    requires Tree(words, place) && 2 <= level <= 4 && va < UTOP && On(place, q, level, va)
    requires q < |words| && words[q][Index(level, va)] != ZERO
    ensures var c := words[q][Index(level, va)].ppn;
            On(place, c, level - 1, va) && Missing(words, c, level - 1, va) == Missing(words, q, level, va)
  {
    Descend(level, va);
    assert EntryOk(words, place, q, Index(level, va));
  }

  datatype Snap = Snap(words: Memory, place: map<nat, Place>, refs: seq<nat>, free: seq<nat>)

  /** Pages that are not tables hold what they held. */
  ghost predicate SameData(s: Snap, s': Snap) {
    |s'.words| == |s.words| && forall p :: 0 <= p < |s.words| && p !in s'.place ==> s'.words[p] == s.words[p]
  }

  ghost predicate GrownTables(s: Snap, s': Snap, n: nat) {
    && n <= |s.free| && s'.free == s.free[n..]
    && |s'.words| == |s.words| && Shape(s.words) && Shape(s'.words)
    && s'.place.Keys == s.place.Keys + (set p | p in s.free[..n])
    && (forall q :: q in s.place ==> s'.place[q] == s.place[q])
    && (forall q :: q in s.free[..n] ==> s'.place[q].level < 4)
    && |s'.refs| == |s.refs|
    && (forall p :: 0 <= p < |s.refs| ==> s'.refs[p] == if p in s.free[..n] then 1 else s.refs[p])
    && (forall p, i :: 0 <= p < |s.words| && 0 <= i < NENTRIES && p !in s.free[..n] && s.words[p][i] != ZERO ==>
          s'.words[p][i] == s.words[p][i])
    && SameData(s, s')
  }

  ghost predicate SameReads(s: Snap, s': Snap) {
    forall root, va {:trigger Translate(s'.words, root, va)} :: IsRoot(s.place, root) && 0 <= va < UTOP ==>
      Translate(s'.words, root, va) == Translate(s.words, root, va)
  }

  /** `n` pages left the front of the free list and became tables of count 1;
      no other count, no nonzero entry and no translation changed. */
  ghost predicate Grown(s: Snap, s': Snap, n: nat) {
    GrownTables(s, s', n) && SameReads(s, s')
  }

  /** Nothing changed but the contents of free pages. */
  ghost predicate Same(s: Snap, s': Snap) {
    && s' == s.(words := s'.words) && |s'.words| == |s.words|
    && (forall p :: 0 <= p < |s.words| && p !in s.free ==> s'.words[p] == s.words[p])
  }

  const TABLE: Perm := {U, W, P}

  ghost function ZeroPage(): (z: seq<Entry>)
    ensures |z| == NENTRIES && forall i :: 0 <= i < NENTRIES ==> z[i] == ZERO
  {
    seq(NENTRIES, _ => ZERO)
  }

  /** The state after the first free page was cleared and hung into slot `i` of table `q`. */
  ghost function Linked(s: Snap, q: nat, i: nat): Snap
    requires Shape(s.words) && s.free != [] && q in s.place && s.place[q].level > 1 && q < |s.words| && i < NENTRIES
    requires s.free[0] < |s.words| && s.free[0] < |s.refs|
  {
    var c := s.free[0];
    Snap(Set(s.words[c := ZeroPage()], q, i, Entry(c, TABLE)),
         s.place[c := Place(s.place[q].root, s.place[q].level - 1, s.place[q].prefix * NENTRIES + i, q)],
         s.refs[c := 1], s.free[1..])
  }

  ghost predicate CanLink(s: Snap, kernel: set<nat>, q: nat, level: nat, va: nat) {
    && Consistent(s.words, s.place, s.refs, s.free, kernel)
    && s.free != [] && s.free[0] !in s.free[1..]
    && 2 <= level <= 4 && va < UTOP && On(s.place, q, level, va)
    && q < |s.words| && s.words[q][Index(level, va)] == ZERO
    && s.free[0] !in s.place && s.free[0] < |s.words| && s.free[0] < |s.refs|
  }

  lemma LinkTree(s: Snap, kernel: set<nat>, q: nat, level: nat, va: nat)
    requires CanLink(s, kernel, q, level, va)
    ensures var s' := Linked(s, q, Index(level, va));
            Tree(s'.words, s'.place) && On(s'.place, s.free[0], level - 1, va)
    ensures forall root, va' :: IsRoot(s.place, root) && 0 <= va' < UTOP ==>
              Translate(Linked(s, q, Index(level, va)).words, root, va') == Translate(s.words, root, va')
  {
    var c, i := s.free[0], Index(level, va);
    var w := s.words[c := ZeroPage()];
    InRange(s.words, s.place);
    SameTables(s.words, w, s.place);
    Descend(level, va);
    Link(w, s.place, q, i, c, Entry(c, TABLE));
    forall root, va' | IsRoot(s.place, root) && 0 <= va' < UTOP
      ensures Translate(Linked(s, q, i).words, root, va') == Translate(s.words, root, va')
    {
      LinkTranslate(w, s.place, q, i, c, Entry(c, TABLE), root, va');
      SameTranslate(s.words, w, s.place, root, va');
    }
  }

  lemma LinkCounts(s: Snap, kernel: set<nat>, q: nat, level: nat, va: nat)
    requires CanLink(s, kernel, q, level, va)
    ensures var s' := Linked(s, q, Index(level, va));
            Exact(s'.words, s'.place, s'.refs, kernel) && FreeOk(s'.refs, s'.free, kernel)
  {
    var c, i := s.free[0], Index(level, va);
    var s' := Linked(s, q, i);
    var w := s.words[c := ZeroPage()];
    InRange(s.words, s.place);
    SameTables(s.words, w, s.place);
    FreeIsUnused(s.words, s.place, s.refs, s.free, kernel, c);
    forall p | p in s'.free ensures p < |s'.refs| && s'.refs[p] == 0 && p !in kernel {
      assert p in s.free && p != c;
    }
    forall p: nat | p < |s'.refs| && p !in kernel ensures s'.refs[p] == Count(s'.words, s'.place, p) {
      LinkSlots(w, s.place, q, i, c, Entry(c, TABLE), s'.place[c], p);
      assert s.refs[p] == Count(s.words, s.place, p);
    }
  }

  lemma LinkConsistent(s: Snap, kernel: set<nat>, q: nat, level: nat, va: nat)
    requires CanLink(s, kernel, q, level, va)
    ensures var s' := Linked(s, q, Index(level, va));
            Shape(s'.words) && Consistent(s'.words, s'.place, s'.refs, s'.free, kernel)
  {
    LinkTree(s, kernel, q, level, va);
    LinkCounts(s, kernel, q, level, va);
  }

  /** Hanging in a table keeps the books and every translation. */
  lemma LinkGrown(s: Snap, kernel: set<nat>, q: nat, level: nat, va: nat)
    requires CanLink(s, kernel, q, level, va)
    ensures var s' := Linked(s, q, Index(level, va));
            Consistent(s'.words, s'.place, s'.refs, s'.free, kernel) && Grown(s, s', 1)
  {
    var s' := Linked(s, q, Index(level, va));
    LinkTree(s, kernel, q, level, va);
    LinkCounts(s, kernel, q, level, va);
    assert s.free[..1] == [s.free[0]];
  }

  lemma TwoWrites(words: Memory, q: nat, i: nat, e: Entry, c: nat)
    requires Shape(words) && q < |words| && c < |words| && q != c && i < NENTRIES
    ensures words[q := words[q][i := e]][c := seq(NENTRIES, _ => ZERO)] == Set(words[c := ZeroPage()], q, i, e)
  {
  }

  lemma LinkedMissing(s: Snap, kernel: set<nat>, q: nat, level: nat, va: nat)
    requires CanLink(s, kernel, q, level, va)
    ensures Missing(Linked(s, q, Index(level, va)).words, s.free[0], level - 1, va) == level - 2
  {
    var c, w := s.free[0], Linked(s, q, Index(level, va)).words;
    assert w[c] == ZeroPage();
    if level > 2 {
      assert w[c][Index(level - 1, va)] == ZERO;
    }
  }

  lemma GrownLeaf(s: Snap, s': Snap, n: nat, kernel: set<nat>, q: nat, level: nat, va: nat)
    requires Consistent(s.words, s.place, s.refs, s.free, kernel) && Grown(s, s', n)
    requires q in s.place && q < |s.words| && level > 1 && s.words[q][Index(level, va)] != ZERO
    ensures Leaf(s'.words, q, level, va) == Leaf(s'.words, s.words[q][Index(level, va)].ppn, level - 1, va)
  {
    if q in s.free[..n] {
      FreeIsUnused(s.words, s.place, s.refs, s.free, kernel, q);
    }
    assert s'.words[q][Index(level, va)] == s.words[q][Index(level, va)];
  }

  lemma GrownNone(s: Snap)
    requires Shape(s.words)
    ensures Grown(s, s, 0)
  {
    assert s.place.Keys == s.place.Keys + (set p | p in s.free[..0]);
  }

  lemma TakeTwice(free: seq<nat>, n: nat, p: nat)
    requires n + 1 <= |free|
    ensures free[n + 1..] == free[1..][n..] && (p in free[..n + 1] <==> p in free[..1] || p in free[1..][..n])
  {
    assert free[..n + 1] == free[..1] + free[1..][..n];
  }

  lemma SameDataTrans(s: Snap, s1: Snap, s2: Snap)
    requires SameData(s, s1) && SameData(s1, s2) && s1.place.Keys <= s2.place.Keys
    ensures SameData(s, s2)
  {
  }

  lemma GrownTablesTrans(s: Snap, s1: Snap, s2: Snap, n: nat)
    requires GrownTables(s, s1, 1) && GrownTables(s1, s2, n)
    ensures GrownTables(s, s2, n + 1)
  {
    hide SameData;
    SameDataTrans(s, s1, s2);
    forall p ensures p in s.free[..n + 1] <==> p in s.free[..1] || p in s1.free[..n] {
      TakeTwice(s.free, n, p);
    }
    TakeTwice(s.free, n, 0);
  }

  lemma GrownTrans(s: Snap, s1: Snap, s2: Snap, n: nat)
    requires Grown(s, s1, 1) && Grown(s1, s2, n)
    ensures Grown(s, s2, n + 1)
  {
    GrownTablesTrans(s, s1, s2, n);
    assert forall root :: IsRoot(s.place, root) ==> IsRoot(s1.place, root);
  }

  /** Taking the table out again, after a failure that changed nothing else,
      brings back the state before it was hung in. */
  lemma UnlinkSame(s: Snap, kernel: set<nat>, q: nat, level: nat, va: nat, s2: Snap)
    requires CanLink(s, kernel, q, level, va)
    requires Same(Linked(s, q, Index(level, va)), s2) && Shape(s2.words)
    ensures var c, i := s.free[0], Index(level, va);
            var s3 := Snap(Set(s2.words, q, i, ZERO), s2.place - {c}, s2.refs[c := 0], s2.free);
            && Consistent(s3.words, s3.place, s3.refs, s3.free, kernel)
            && Same(s, s3.(free := [c] + s3.free))
  {
    var c, i := s.free[0], Index(level, va);
    var s1 := Linked(s, q, i);
    var s3 := Snap(Set(s2.words, q, i, ZERO), s2.place - {c}, s2.refs[c := 0], s2.free);
    assert s.free == [c] + s1.free;
    assert s3.place == s.place;
    assert s.refs[c] == 0 && s3.refs == s.refs;
    InRange(s.words, s.place);
    forall p: nat | p < |s.words| && p !in s.free ensures s3.words[p] == s.words[p] {
      assert s2.words[p] == s1.words[p];
      if p == q {
        assert s3.words[p] == s.words[p];
      }
    }
    forall p | p in s.place ensures p !in s.free {
      if p in s.free {
        FreeIsUnused(s.words, s.place, s.refs, s.free, kernel, p);
      }
    }
    SameTables(s.words, s3.words, s.place);
    forall p | p in s3.free ensures p in s.free {
    }
  }

  /** The one slot that a walk for `va` arrives at, and what writing it does to the flat view. */
  ghost predicate Rewritten(words: Memory, words': Memory, place: map<nat, Place>, root: nat, va: nat, e: Entry) {
    forall root', va' {:trigger Translate(words', root', va')} :: IsRoot(place, root') && 0 <= va' < UTOP ==>
      Translate(words', root', va') ==
        if root' == root && va' / PGSIZE == va / PGSIZE then e else Translate(words, root', va')
  }

  lemma AtSlot(words: Memory, place: map<nat, Place>, root: nat, va: nat, t: nat)
    requires Tree(words, place) && IsRoot(place, root) && va < UTOP && Leaf(words, root, 4, va) == Some(t)
    ensures t in place && place[t].level == 1 && t < |words| && words[t][Index(1, va)] == Translate(words, root, va)
    ensures words[t][Index(1, va)] == ZERO || words[t][Index(1, va)].ppn < |words|
    ensures IsUser(place[t], Index(1, va))
  {
    RootOn(words, place, root, va);
    LeafPlace(words, place, root, 4, va);
    assert PlaceOk(words, place, t);
    Descend(1, va);
    assert EntryOk(words, place, t, Index(1, va));
  }

  /** All addresses of one page table lead to it. */
  lemma {:induction false} SameTableSameLeaf(words: Memory, q: nat, level: nat, va: nat, va': nat)
    requires va / 0x20_0000 == va' / 0x20_0000 && 1 <= level <= 4
    ensures Leaf(words, q, level, va) == Leaf(words, q, level, va')
    decreases level
  {
    Nest(va);
    Nest(va');
    if level > 1 && q < |words| && |words[q]| == NENTRIES && words[q][Index(level, va)] != ZERO {
      SameTableSameLeaf(words, words[q][Index(level, va)].ppn, level - 1, va, va');
    }
  }

  lemma SamePageSameLeaf(words: Memory, q: nat, level: nat, va: nat, va': nat)
    requires va / PGSIZE == va' / PGSIZE && 1 <= level <= 4
    ensures Leaf(words, q, level, va) == Leaf(words, q, level, va')
  {
    Nest(va);
    Nest(va');
    SameTableSameLeaf(words, q, level, va, va');
  }

  lemma Rewrite(words: Memory, place: map<nat, Place>, root: nat, va: nat, t: nat, e: Entry)
    requires Tree(words, place) && IsRoot(place, root) && va < UTOP && Leaf(words, root, 4, va) == Some(t)
    ensures t in place && place[t].level == 1 && t < |words| && words[t][Index(1, va)] == Translate(words, root, va)
    ensures words[t][Index(1, va)] == ZERO || words[t][Index(1, va)].ppn < |words|
    ensures e == ZERO || e.ppn < |words| ==> Tree(Set(words, t, Index(1, va), e), place)
    ensures Leaf(Set(words, t, Index(1, va), e), root, 4, va) == Some(t)
    ensures Rewritten(words, Set(words, t, Index(1, va), e), place, root, va, e)
  {
    AtSlot(words, place, root, va, t);
    if e == ZERO || e.ppn < |words| {
      SetLeafTree(words, place, t, Index(1, va), e);
    }
    SetLeaf(words, place, t, Index(1, va), e, root, va);
    var words' := Set(words, t, Index(1, va), e);
    forall root', va' | IsRoot(place, root') && 0 <= va' < UTOP
      ensures Translate(words', root', va') ==
              if root' == root && va' / PGSIZE == va / PGSIZE then e else Translate(words, root', va')
    {
      SetLeaf(words, place, t, Index(1, va), e, root', va');
      if Leaf(words, root', 4, va') == Some(t) {
        SlotDeterminesPage(words, place, root, va, root', va');
      } else if root' == root && va' / PGSIZE == va / PGSIZE {
        SamePageSameLeaf(words, root, 4, va, va');
        assert false;
      }
    }
  }

  lemma NoTable(words: Memory, place: map<nat, Place>, root: nat, va: nat)
    requires Leaf(words, root, 4, va).None?
    ensures Rewritten(words, words, place, root, va, ZERO)
  {
    forall va' | 0 <= va' < UTOP && va' / PGSIZE == va / PGSIZE ensures Translate(words, root, va') == ZERO {
      SamePageSameLeaf(words, root, 4, va, va');
    }
  }

  lemma Overwrite(words: Memory, t: nat, i: nat, e: Entry, e': Entry)
    requires Shape(words) && t < |words| && i < NENTRIES
    ensures Set(Set(words, t, i, e), t, i, e') == Set(words, t, i, e')
  {
    assert words[t][i := e][i := e'] == words[t][i := e'];
  }

  lemma NotMapped(words: Memory, place: map<nat, Place>, root: nat, va: nat)
    requires Tree(words, place) && IsRoot(place, root) && va < UTOP
    ensures Translate(words, root, va) == ZERO || Translate(words, root, va).ppn < |words|
  {
    if Leaf(words, root, 4, va).Some? {
      AtSlot(words, place, root, va, Leaf(words, root, 4, va).value);
    }
  }

  lemma {:induction false} MissingFrame(words: Memory, words': Memory, place: map<nat, Place>,
                                        q: nat, level: nat, va: nat)
    requires Tree(words, place) && Shape(words') && |words'| == |words| && Agree(words, words', place, 1)
    requires 1 <= level <= 4 && va < UTOP && On(place, q, level, va)
    ensures Missing(words', q, level, va) == Missing(words, q, level, va)
    decreases level
  {
    assert PlaceOk(words, place, q);
    Descend(level, va);
    assert words'[q][Index(level, va)] == words[q][Index(level, va)];
    if level > 1 && words[q][Index(level, va)] != ZERO {
      assert EntryOk(words, place, q, Index(level, va));
      MissingFrame(words, words', place, words[q][Index(level, va)].ppn, level - 1, va);
    }
  }

  /** Clearing the page at the head of the free list is invisible to the tables. */
  lemma AllocFrame(s: Snap, kernel: set<nat>, root: nat, va: nat)
    requires Consistent(s.words, s.place, s.refs, s.free, kernel) && IsRoot(s.place, root) && va < UTOP
    requires s.free != [] && s.free[0] < |s.words|
    ensures var w := s.words[s.free[0] := seq(NENTRIES, _ => ZERO)];
            && Missing(w, root, 4, va) == Missing(s.words, root, 4, va)
            && forall root', va' {:trigger Translate(w, root', va')} :: IsRoot(s.place, root') && 0 <= va' < UTOP ==>
                 Translate(w, root', va') == Translate(s.words, root', va')
  {
    var w := s.words[s.free[0] := seq(NENTRIES, _ => ZERO)];
    FreeIsUnused(s.words, s.place, s.refs, s.free, kernel, s.free[0]);
    RootOn(s.words, s.place, root, va);
    MissingFrame(s.words, w, s.place, root, 4, va);
    forall root', va' | IsRoot(s.place, root') && 0 <= va' < UTOP
      ensures Translate(w, root', va') == Translate(s.words, root', va')
    {
      SameTranslate(s.words, w, s.place, root', va');
    }
  }

  lemma SameAfterAlloc(s: Snap, z: seq<Entry>, s2: Snap)
    requires s.free != [] && s.free[0] < |s.words|
    requires Same(Snap(s.words[s.free[0] := z], s.place, s.refs, s.free[1..]), s2)
    ensures Same(s, s2.(free := [s.free[0]] + s2.free))
  {
    assert s.free == [s.free[0]] + s.free[1..];
    forall p | 0 <= p < |s.words| && p !in s.free ensures s2.words[p] == s.words[p] {
      assert p != s.free[0] && p !in s.free[1..];
    }
  }

  lemma NamedNotFree(words: Memory, place: map<nat, Place>, refs: seq<nat>, free: seq<nat>, kernel: set<nat>,
                     t: nat, i: nat)
    requires Consistent(words, place, refs, free, kernel)
    requires t in place && place[t].level == 1 && t < |words| && i < NENTRIES
    ensures words[t][i].ppn !in free
  {
    assert (t, i) in Slots(words, place, words[t][i].ppn);
    if words[t][i].ppn in free {
      FreeIsUnused(words, place, refs, free, kernel, words[t][i].ppn);
    }
  }

  /** The first free page, cleared, as the root of an empty address space. */
  ghost function Rooted(s: Snap): Snap
    requires s.free != [] && s.free[0] < |s.words| && s.free[0] < |s.refs|
  {
    var c := s.free[0];
    Snap(s.words[c := ZeroPage()], s.place[c := Place(c, 4, 0, c)], s.refs[c := 1], s.free[1..])
  }

  lemma RootConsistent(s: Snap, kernel: set<nat>)
    requires Consistent(s.words, s.place, s.refs, s.free, kernel)
    requires s.free != [] && s.free[0] < |s.words| && s.free[0] < |s.refs| && s.free[0] !in s.free[1..]
    ensures var s' := Rooted(s);
            && Shape(s'.words) && Consistent(s'.words, s'.place, s'.refs, s'.free, kernel)
            && s.free[0] !in s.place
            && (forall va :: 0 <= va < UTOP ==> Translate(s'.words, s.free[0], va) == ZERO)
            && forall root, va :: IsRoot(s.place, root) && 0 <= va < UTOP ==>
                 Translate(s'.words, root, va) == Translate(s.words, root, va)
  {
    var c, s' := s.free[0], Rooted(s);
    FreeIsUnused(s.words, s.place, s.refs, s.free, kernel, c);
    SameTables(s.words, s'.words, s.place);
    NewRoot(s'.words, s.place, c);
    forall p: nat | p < |s'.refs| && p !in kernel ensures s'.refs[p] == Count(s'.words, s'.place, p) {
      assert s.refs[p] == Count(s.words, s.place, p);
      assert Slots(s'.words, s'.place, p) == Slots(s'.words, s.place, p);
    }
    assert FreeOk(s'.refs, s'.free, kernel) by {
      forall p | p in s'.free ensures p < |s'.refs| && s'.refs[p] == 0 && p !in kernel {
        assert p in s.free && p != c;
      }
    }
    forall root, va | IsRoot(s.place, root) && 0 <= va < UTOP
      ensures Translate(s'.words, root, va) == Translate(s.words, root, va)
    {
      SameTranslate(s.words, s'.words, s.place, root, va);
    }
  }

  /** The address space that env_setup_vm builds from the first three free pages. */
  ghost function Space(s: Snap, kpgdir: seq<Entry>): Snap
    requires Shape(s.words) && |s.free| >= 3 && |s.refs| == |s.words| && |kpgdir| == NENTRIES
    requires forall k :: 0 <= k < 3 ==> s.free[k] < |s.words|
  {
    var s3 := Linked(Linked(Rooted(s), s.free[0], 0), s.free[1], 3);
    var root := s.free[0];
    s3.(words := s3.words[s.free[2] := kpgdir][root := s3.words[root][2 := Entry(root, {P, U})]])
  }

  ghost predicate SpaceOk(s: Snap, kernel: set<nat>, kpgdir: seq<Entry>) {
    && Consistent(s.words, s.place, s.refs, s.free, kernel)
    && |s.free| >= 3 && (forall j, k :: 0 <= j < k < |s.free| ==> s.free[j] != s.free[k])
    && (forall k :: 0 <= k < 3 ==> s.free[k] < |s.words|)
    && |kpgdir| == NENTRIES && forall i :: 0 <= i < 0x17c ==> kpgdir[i] == ZERO
  }

  const UVA: nat := 0xc000_0000

  lemma SpaceFirst(s: Snap, kernel: set<nat>, kpgdir: seq<Entry>)
    requires SpaceOk(s, kernel, kpgdir)
    ensures CanLink(Rooted(s), kernel, s.free[0], 4, UVA) && Index(4, UVA) == 0
    ensures var s2 := Linked(Rooted(s), s.free[0], 0);
            && Consistent(s2.words, s2.place, s2.refs, s2.free, kernel) && Grown(Rooted(s), s2, 1)
            && s2.place[s.free[1]] == Place(s.free[0], 3, 0, s.free[0]) && s2.words[s.free[1]] == ZeroPage()
            && s2.free == s.free[2..] && |s2.words| == |s.words|
  {
    var s1 := Rooted(s);
    RootConsistent(s, kernel);
    assert Index(4, UVA) == 0 && Prefix(4, UVA) == 0;
    FreeIsUnused(s1.words, s1.place, s1.refs, s1.free, kernel, s.free[1]);
    assert CanLink(s1, kernel, s.free[0], 4, UVA);
    LinkGrown(s1, kernel, s.free[0], 4, UVA);
  }

  lemma SpaceSecond(s: Snap, kernel: set<nat>, kpgdir: seq<Entry>)
    requires SpaceOk(s, kernel, kpgdir)
    ensures CanLink(Rooted(s), kernel, s.free[0], 4, UVA)
    ensures var s2 := Linked(Rooted(s), s.free[0], 0);
            && CanLink(s2, kernel, s.free[1], 3, UVA) && Index(3, UVA) == 3 && s2.free[0] == s.free[2]
            && var s3 := Linked(s2, s.free[1], 3);
            && Consistent(s3.words, s3.place, s3.refs, s3.free, kernel) && Grown(s2, s3, 1)
            && s3.place[s.free[2]] == Place(s.free[0], 2, 3, s.free[1]) && s3.words[s.free[2]] == ZeroPage()
            && s3.free == s.free[3..]
  {
    hide Exact, Grown;
    SpaceFirst(s, kernel, kpgdir);
    var s2 := Linked(Rooted(s), s.free[0], 0);
    assert Index(3, UVA) == 3 && Prefix(3, UVA) == 0;
    FreeIsUnused(s2.words, s2.place, s2.refs, s2.free, kernel, s.free[2]);
    assert CanLink(s2, kernel, s.free[1], 3, UVA);
    LinkGrown(s2, kernel, s.free[1], 3, UVA);
  }

  /** The copied kernel entries and the self-map lie outside the user part. */
  lemma SpaceAgrees(s: Snap, s3: Snap, s': Snap, kpgdir: seq<Entry>)
    requires |s.free| >= 3 && |kpgdir| == NENTRIES && (forall i :: 0 <= i < 0x17c ==> kpgdir[i] == ZERO)
    requires Shape(s3.words) && Shape(s'.words) && s.free[0] < |s3.words|
    requires s.free[2] < |s3.words| && s.free[0] != s.free[2]
    requires s'.words == s3.words[s.free[2] := kpgdir][s.free[0] := s3.words[s.free[0]][2 := Entry(s.free[0], {P, U})]]
    requires s.free[0] in s3.place && s3.place[s.free[0]].level == 4 && s3.place[s.free[0]].prefix == 0
    requires s.free[2] in s3.place && s3.place[s.free[2]].level == 2 && s3.place[s.free[2]].prefix == 3
    requires s3.words[s.free[2]] == ZeroPage()
    ensures |s'.words| == |s3.words| && Agree(s3.words, s'.words, s3.place, 1)
  {
  }

  lemma SpaceConsistent(s: Snap, kernel: set<nat>, kpgdir: seq<Entry>)
    requires SpaceOk(s, kernel, kpgdir)
    ensures var s' := Space(s, kpgdir);
            && Shape(s'.words) && Consistent(s'.words, s'.place, s'.refs, s'.free, kernel)
            && IsRoot(s'.place, s.free[0]) && s'.free == s.free[3..]
  {
    hide FreeOk, Grown;
    SpaceFirst(s, kernel, kpgdir);
    SpaceSecond(s, kernel, kpgdir);
    var s3, s' := Linked(Linked(Rooted(s), s.free[0], 0), s.free[1], 3), Space(s, kpgdir);
    SpaceAgrees(s, s3, s', kpgdir);
    SameTables(s3.words, s'.words, s3.place);
  }

  /** Address spaces stay address spaces. */
  lemma SpaceRoots(s: Snap, kernel: set<nat>, kpgdir: seq<Entry>, root: nat)
    requires SpaceOk(s, kernel, kpgdir) && IsRoot(s.place, root)
    ensures IsRoot(Space(s, kpgdir).place, root)
  {
    SpaceFirst(s, kernel, kpgdir);
    SpaceSecond(s, kernel, kpgdir);
    FreeIsUnused(s.words, s.place, s.refs, s.free, kernel, s.free[0]);
  }

  lemma GrownTwice(s1: Snap, s2: Snap, s3: Snap, root: nat, va: nat)
    requires Grown(s1, s2, 1) && Grown(s2, s3, 1) && IsRoot(s1.place, root) && va < UTOP
    ensures Translate(s3.words, root, va) == Translate(s1.words, root, va) && IsRoot(s3.place, root)
  {
    assert IsRoot(s2.place, root);
  }

  /** A new address space is empty and leaves every other translation alone. */
  lemma SpaceTranslate(s: Snap, kernel: set<nat>, kpgdir: seq<Entry>, root: nat, va: nat)
    requires SpaceOk(s, kernel, kpgdir) && va < UTOP
    requires root == s.free[0] || IsRoot(s.place, root)
    ensures Translate(Space(s, kpgdir).words, root, va) ==
            if root == s.free[0] then ZERO else Translate(s.words, root, va)
  {
    hide Exact, FreeOk, Grown;
    var s1 := Rooted(s);
    SpaceFirst(s, kernel, kpgdir);
    SpaceSecond(s, kernel, kpgdir);
    var s2 := Linked(s1, s.free[0], 0);
    var s3, s' := Linked(s2, s.free[1], 3), Space(s, kpgdir);
    assert IsRoot(s1.place, root);
    GrownTwice(s1, s2, s3, root, va);
    SpaceAgrees(s, s3, s', kpgdir);
    SameTranslate(s3.words, s'.words, s3.place, root, va);
    RootConsistent(s, kernel);
  }

  lemma ThreePages(words: Memory, p: nat, p2: nat, p3: nat, a: seq<Entry>, b: seq<Entry>, c: seq<Entry>)
    requires p < |words| && p2 < |words| && p3 < |words| && p != p2 && p2 != p3 && p != p3
    ensures var z := ZeroPage();
            words[p := z][p2 := z][p3 := z][p := a][p2 := b][p3 := c] == words[p := a][p2 := b][p3 := c]
  {
  }

  lemma SpaceWords(s: Snap, kernel: set<nat>, kpgdir: seq<Entry>)
    requires SpaceOk(s, kernel, kpgdir)
    ensures var p, p2, p3 := s.free[0], s.free[1], s.free[2];
            && Space(s, kpgdir).words ==
               s.words[p := ZeroPage()[0 := Entry(p2, TABLE)][2 := Entry(p, {P, U})]]
                      [p2 := ZeroPage()[3 := Entry(p3, TABLE)]][p3 := kpgdir]
            && Space(s, kpgdir).refs == s.refs[p := 1][p2 := 1][p3 := 1]
            && Space(s, kpgdir).free == s.free[3..]
  {
    assert s.free[0] != s.free[1] && s.free[1] != s.free[2] && s.free[0] != s.free[2];
  }

  /** What env_setup_vm writes into three cleared pages makes that address space. */
  lemma SpaceMade(s: Snap, kernel: set<nat>, kpgdir: seq<Entry>)
    requires SpaceOk(s, kernel, kpgdir)
    ensures var p, p2, p3, s', z := s.free[0], s.free[1], s.free[2], Space(s, kpgdir), ZeroPage();
            && Consistent(s'.words, s'.place, s'.refs, s'.free, kernel) && IsRoot(s'.place, p)
            && s'.words == s.words[p := z][p2 := z][p3 := z]
                                  [p := z[0 := Entry(p2, TABLE)][2 := Entry(p, {P, U})]]
                                  [p2 := z[3 := Entry(p3, TABLE)]][p3 := kpgdir]
            && s'.refs == s.refs[p := 1][p2 := 1][p3 := 1] && s'.free == s.free[3..]
            && s.refs[p] == s.refs[p2] == s.refs[p3] == 0
  {
    var p, p2, p3 := s.free[0], s.free[1], s.free[2];
    assert p in s.free && p2 in s.free && p3 in s.free;
    SpaceConsistent(s, kernel, kpgdir);
    SpaceWords(s, kernel, kpgdir);
    ThreePages(s.words, p, p2, p3, ZeroPage()[0 := Entry(p2, TABLE)][2 := Entry(p, {P, U})],
               ZeroPage()[3 := Entry(p3, TABLE)], kpgdir);
  }

  /** The permission argument that sys_page_alloc accepts. */
  predicate Allowed(word: PermWord) {
    word.high == 0 && {U, P} <= word.flags <= PTE_SYSCALL
  }

  /** These are PTE_U and PTE_P with any of PTE_W and PTE_AVAIL, and no other bit. */
  lemma AllowedExactly(perm: int)
    requires IsInt(perm)
    ensures Allowed(FromInt(perm)) <==> 0 <= perm < 4096 && perm % 512 in {5, 7}
  {
    hide FromInt;
    LowFlags(perm);
    NoHighBits(perm);
    var word := FromInt(perm);
    forall f: Flag ensures f in PTE_SYSCALL <==> f !in {PWT, PCD, A, D, PS, G} {
      match f
      case P => case W => case U => case PWT => case PCD => case A => case D => case PS => case G =>
      case Avail0 => case Avail1 => case Avail2 =>
    }
    assert word.flags <= PTE_SYSCALL <==> word.flags !! {PWT, PCD, A, D, PS, G};
  }

  /** Writing entry `e` for page `pp`, with the counts moved, keeps the books: when
      the entry names `pp`, exactly if no count wraps and no kernel page is freed. */
  lemma InsertConsistent(s: Snap, kernel: set<nat>, t: nat, i: nat, pp: nat, e: Entry)
    requires Consistent(s.words, s.place, s.refs, s.free, kernel)
    requires t in s.place && s.place[t].level == 1 && t < |s.words| && i < NENTRIES && IsUser(s.place[t], i)
    requires s.words[t][i].ppn < |s.refs| && pp < |s.refs| && pp !in s.free && e != ZERO
    ensures var was := s.words[t][i];
            var safe := was.ppn == pp || !(was != ZERO && was.ppn in kernel && s.refs[was.ppn] == 1);
            Consistent(Set(s.words, t, i, e), s.place, Moved(s.refs, was, pp),
                       FreedBy(was, pp, s.refs, s.free), kernel) <==>
            && safe
            && if e.ppn == pp then was.ppn == pp || pp in kernel || s.refs[pp] < 65535
               else e.ppn < |s.words| && e.ppn in kernel && pp in kernel
  {
    if e.ppn != pp {
      MisnamedConsistent(s.words, s.place, s.refs, s.free, kernel, t, i, pp, e);
    } else if s.words[t][i].ppn == pp {
      Reperm(s.words, s.place, s.refs, s.free, kernel, t, i, e);
    } else {
      ReplaceConsistent(s.words, s.place, s.refs, s.free, kernel, t, i, e);
    }
  }

  /** With the permission word 0x2007 a mapping of frame 5 names frame 7. */
  lemma PermChangesFrame()
    ensures FromInt(0x2007) == PermWord(2, {P, W, U}) && Or(5, 2) == 7 && !Contains(5, 2)
  {
    var word := FromInt(0x2007);
    assert forall f: Flag :: f in word.flags <==> f in {P, W, U};
  }

  /** Counts after the pages `tables` became tables. */
  ghost function Tabled(refs: seq<nat>, tables: seq<nat>): (r: seq<nat>)
    ensures |r| == |refs| && forall p :: 0 <= p < |refs| ==> r[p] == if p in tables then 1 else refs[p]
  {
    seq(|refs|, p requires 0 <= p < |refs| => if p in tables then 1 else refs[p])
  }

  /** Page `pp` was inserted at `va`, by an entry `e`: the missing tables left the
      front of the free list, the counts moved, and the page that was there is
      freed with its last count. Nothing else changed that counts or translates. */
  ghost predicate Inserted(s: Snap, s': Snap, root: nat, va: nat, pp: nat, e: Entry) {
    var n, was := Missing(s.words, root, 4, va), Translate(s.words, root, va);
    && n <= |s.free| && was.ppn < |s.refs| && pp < |s.refs|
    && Rewritten(s.words, s'.words, s.place, root, va, e)
    && (forall root' :: IsRoot(s.place, root') <==> IsRoot(s'.place, root'))
    && var refs1 := Tabled(s.refs, s.free[..n]);
    && s'.refs == Moved(refs1, was, pp) && s'.free == FreedBy(was, pp, refs1, s.free[n..])
  }

  /** Every page outside the kernel's is free, counted or lost, and only one of these. */
  ghost predicate Conserved(refs: seq<nat>, free: seq<nat>, kernel: set<nat>, lost: set<nat>) {
    && (forall p {:trigger p in lost} :: p in lost ==> p < |refs| && refs[p] == 0 && p !in free && p !in kernel)
    && (forall p :: 0 <= p < |refs| && p !in kernel ==> p in free || refs[p] > 0 || p in lost)
  }

  /** A page that some entry names is neither free nor lost. */
  lemma NamedCounted(s: Snap, kernel: set<nat>, lost: set<nat>, root: nat, va: nat)
    requires Consistent(s.words, s.place, s.refs, s.free, kernel) && Conserved(s.refs, s.free, kernel, lost)
    requires IsRoot(s.place, root) && va < UTOP && Leaf(s.words, root, 4, va).Some?
    ensures var p := Translate(s.words, root, va).ppn;
            p !in s.free && p !in lost && p < |s.refs| && (p in kernel || s.refs[p] > 0)
  {
    var t, i := Leaf(s.words, root, 4, va).value, Index(1, va);
    AtSlot(s.words, s.place, root, va, t);
    NamedNotFree(s.words, s.place, s.refs, s.free, kernel, t, i);
    var p := s.words[t][i].ppn;
    assert (t, i) in Slots(s.words, s.place, p);
    assert p !in kernel ==> s.refs[p] == Count(s.words, s.place, p);
  }

  lemma NoLeafZero(s: Snap, root: nat, va: nat)
    requires Leaf(s.words, root, 4, va).None?
    ensures Translate(s.words, root, va) == ZERO
  {
  }

  /** Moving counts keeps them: the page inserted may come from anywhere but the lost ones. */
  lemma MoveConserves(refs: seq<nat>, free: seq<nat>, kernel: set<nat>, lost: set<nat>, n: nat, was: Entry, pp: nat)
    requires n <= |free| && was.ppn < |refs| && pp < |refs| && pp !in free && pp !in lost && 0 in kernel
    requires was.ppn !in free && was.ppn !in lost && (was.ppn in kernel || refs[was.ppn] > 0)
    requires pp in kernel || refs[pp] < 65535
    requires forall p {:trigger p in lost} :: p in lost ==> p < |refs| && refs[p] == 0 && p !in free && p !in kernel
    requires forall p :: 0 <= p < |refs| && p !in kernel && p != pp ==> p in free || refs[p] > 0 || p in lost
    requires was.ppn == pp ==> pp in kernel || refs[pp] > 0
    ensures var refs1 := Tabled(refs, free[..n]);
            Conserved(Moved(refs1, was, pp), FreedBy(was, pp, refs1, free[n..]), kernel, lost)
  {
    var refs1, rest := Tabled(refs, free[..n]), free[n..];
    var refs', free' := Moved(refs1, was, pp), FreedBy(was, pp, refs1, rest);
    assert free == free[..n] + rest;
    forall p | 0 <= p < |refs| && p !in kernel ensures p in free' || refs'[p] > 0 || p in lost {
      assert p in free ==> p in free[..n] || p in rest;
      assert p in rest ==> p in free';
    }
  }

  /** What environments make of the page tables: the system calls on them, in the
      address spaces that are given by their roots, and new address spaces. */
  datatype Call =
    | NewSpace(kpgdir: seq<Entry>)
    | AllocAt(root: nat, va: nat, perm: int)
    | MapAt(src: nat, srcva: nat, dst: nat, dstva: nat, perm: int)
    | UnmapAt(root: nat, va: nat)

  /** A moment of a run: with the address spaces created so far and the pages that
      failed env_setup_vm calls have lost. */
  datatype Stage = Stage(snap: Snap, roots: set<nat>, lost: set<nat>)

  /** What every run keeps: the tables are an unaliased forest, every count outside
      the kernel's pages is exact, the free list is a chain of pages of count 0,
      and no other page is missing. */
  ghost predicate Good(g: Stage, kernel: set<nat>) {
    var s := g.snap;
    && Consistent(s.words, s.place, s.refs, s.free, kernel) && Conserved(s.refs, s.free, kernel, g.lost)
    && forall r :: r in g.roots ==> IsRoot(s.place, r)
  }

  predicate KeepsKernel(refs: seq<nat>, kernel: set<nat>, p: nat) {
    p < |refs| && !(p in kernel && refs[p] == 1)
  }

  /** When replacing the page mapped by `was` keeps the books: the new count
      does not wrap and no kernel page is freed. */
  predicate InsertSafe(refs: seq<nat>, kernel: set<nat>, was: Entry, pp: nat)
    requires pp < |refs| && was.ppn < |refs|
  {
    || was.ppn == pp
    || ((pp in kernel || refs[pp] < 65535) && !(was != ZERO && was.ppn in kernel && refs[was.ppn] == 1))
  }

  /** The same for a permission argument with bits above the flags, which are
      or-ed into the frame number. */
  predicate WordSafe(refs: seq<nat>, kernel: set<nat>, was: Entry, pp: nat, high: nat)
    requires pp < |refs| && was.ppn < |refs|
  {
    if Contains(pp, high) then InsertSafe(refs, kernel, was, pp)
    else
      && Or(pp, high) < |refs| && Or(pp, high) in kernel && pp in kernel
      && (was.ppn == pp || !(was != ZERO && was.ppn in kernel && refs[was.ppn] == 1))
  }

  /** The calls whose own conditions say that they keep the books. */
  predicate Harmless(words: Memory, refs: seq<nat>, kernel: set<nat>, roots: set<nat>, call: Call) {
    match call
    case NewSpace(kpgdir) => |kpgdir| == NENTRIES && forall i :: 0 <= i < 0x17c ==> kpgdir[i] == ZERO
    case AllocAt(root, va, perm) =>
      && root in roots && IsInt(perm)
      && var was := Translate(words, root, va);
      was == ZERO || KeepsKernel(refs, kernel, was.ppn)
    case MapAt(src, srcva, dst, dstva, perm) =>
      && src in roots && dst in roots && IsInt(perm)
      && var was, pp := Translate(words, dst, dstva), Translate(words, src, srcva).ppn;
      was.ppn < |refs| && pp < |refs| && WordSafe(refs, kernel, was, pp, FromInt(perm).high)
    case UnmapAt(root, va) =>
      && root in roots && va < UTOP
      && (Leaf(words, root, 4, va).None? || KeepsKernel(refs, kernel, Translate(words, root, va).ppn))
  }

  /** The result of sys_page_alloc in address space `root`. */
  ghost function AllocCode(s: Snap, root: nat, va: nat, perm: int): int
    requires IsInt(perm)
  {
    if va >= UTOP || va % PGSIZE != 0 || !Allowed(FromInt(perm)) then -E_INVAL
    else if |s.free| < 1 + Missing(s.words, root, 4, va) then -E_NO_MEM else 0
  }

  /** The result of sys_page_map from address space `src` to `dst`. */
  ghost function MapCode(s: Snap, src: nat, srcva: nat, dst: nat, dstva: nat): int {
    if srcva >= UTOP || srcva % PGSIZE != 0 || dstva >= UTOP || dstva % PGSIZE != 0
       || Leaf(s.words, src, 4, srcva).None? then -E_INVAL
    else if |s.free| < Missing(s.words, dst, 4, dstva) then -E_NO_MEM else 0
  }

  /** Only free pages become tables. */
  ghost predicate NewTables(s: Snap, s': Snap) {
    forall p :: p in s'.place ==> p in s.place || p in s.free
  }

  /** A page taken from the front of the free list was inserted. */
  ghost predicate Allocated(s: Snap, s': Snap, root: nat, va: nat, flags: Perm) {
    && s.free != [] && Inserted(s.(free := s.free[1..]), s', root, va, s.free[0], Entry(s.free[0], flags))
    && s.free[0] < |s.words| && s.free[0] !in s'.place && NewTables(s, s')
    && SameData(s.(words := s.words[s.free[0] := ZeroPage()]), s')
  }

  ghost predicate Mapped(s: Snap, s': Snap, src: nat, srcva: nat, dst: nat, dstva: nat, word: PermWord) {
    var pp := Translate(s.words, src, srcva).ppn;
    Inserted(s, s', dst, dstva, pp, Entry(Or(pp, word.high), word.flags + {P})) && SameData(s, s') && NewTables(s, s')
  }

  /** page_remove: without a table nothing, with one the entry is cleared and the
      page it names loses a count. */
  ghost function Removed(s: Snap, root: nat, va: nat): Snap {
    var t, p := Leaf(s.words, root, 4, va), Translate(s.words, root, va).ppn;
    if t.None? || t.value >= |s.words| || |s.words[t.value]| != NENTRIES || p >= |s.refs| || !Shape(s.words) then s
    else
      s.(words := Set(s.words, t.value, Index(1, va), ZERO), refs := s.refs[p := Dec(s.refs[p])],
         free := if s.refs[p] == 1 then [p] + s.free else s.free)
  }

  /** One call of a run; a call that could break the books is left out. */
  ghost predicate Follows(g: Stage, kernel: set<nat>, call: Call, g': Stage) {
    var s, s' := g.snap, g'.snap;
    if !Harmless(s.words, s.refs, kernel, g.roots, call) then g' == g
    else
      match call
      case NewSpace(kpgdir) =>
        if |s.free| < 3 then
          && g' == Stage(s', g.roots, g.lost + (set p | p in s.free))
          && s' == s.(words := s'.words, free := []) && SameReads(s, s') && Same(s, s'.(free := s.free))
        else SpaceOk(s, kernel, kpgdir) && g' == Stage(Space(s, kpgdir), g.roots + {s.free[0]}, g.lost)
      case AllocAt(root, va, perm) =>
        && g' == g.(snap := s')
        && if AllocCode(s, root, va, perm) == 0 then Allocated(s, s', root, va, FromInt(perm).flags) else Same(s, s')
      case MapAt(src, srcva, dst, dstva, perm) =>
        && g' == g.(snap := s')
        && if MapCode(s, src, srcva, dst, dstva) == 0 then Mapped(s, s', src, srcva, dst, dstva, FromInt(perm))
           else Same(s, s')
      case UnmapAt(root, va) => g' == g.(snap := Removed(s, root, va))
  }

  lemma WasCounted(s: Snap, kernel: set<nat>, lost: set<nat>, root: nat, va: nat)
    requires Consistent(s.words, s.place, s.refs, s.free, kernel) && Conserved(s.refs, s.free, kernel, lost)
    requires IsRoot(s.place, root) && va < UTOP
    ensures var p := Translate(s.words, root, va).ppn;
            p !in s.free && p !in lost && (p in kernel || (p < |s.refs| && s.refs[p] > 0))
  {
    if Leaf(s.words, root, 4, va).Some? {
      NamedCounted(s, kernel, lost, root, va);
    }
  }

  // Each call conserves pages.

  lemma AllocConserves(s: Snap, s': Snap, kernel: set<nat>, lost: set<nat>, root: nat, va: nat, flags: Perm)
    requires Consistent(s.words, s.place, s.refs, s.free, kernel) && Conserved(s.refs, s.free, kernel, lost)
    requires IsRoot(s.place, root) && va < UTOP && Allocated(s, s', root, va, flags)
    requires forall k :: 1 <= k < |s.free| ==> s.free[0] != s.free[k]
    ensures Conserved(s'.refs, s'.free, kernel, lost)
  {
    var pp, was, n := s.free[0], Translate(s.words, root, va), Missing(s.words, root, 4, va);
    var rest := s.free[1..];
    assert pp in s.free && s.free == [pp] + rest;
    assert pp !in rest;
    FreeIsUnused(s.words, s.place, s.refs, s.free, kernel, pp);
    WasCounted(s, kernel, lost, root, va);
    MoveConserves(s.refs, rest, kernel, lost, n, was, pp);
  }

  lemma SamePageConserves(s: Snap, kernel: set<nat>, lost: set<nat>, n: nat, was: Entry, pp: nat)
    requires Conserved(s.refs, s.free, kernel, lost) && n <= |s.free| && was.ppn == pp < |s.refs|
    ensures var refs1 := Tabled(s.refs, s.free[..n]);
            Conserved(Moved(refs1, was, pp), FreedBy(was, pp, refs1, s.free[n..]), kernel, lost)
  {
    assert s.free == s.free[..n] + s.free[n..];
    forall p | p in s.free ensures p in s.free[..n] || p in s.free[n..] {
    }
  }

  lemma MapConserves(s: Snap, s': Snap, kernel: set<nat>, lost: set<nat>,
                     src: nat, srcva: nat, dst: nat, dstva: nat, word: PermWord)
    requires Consistent(s.words, s.place, s.refs, s.free, kernel) && Conserved(s.refs, s.free, kernel, lost)
    requires IsRoot(s.place, src) && IsRoot(s.place, dst) && srcva < UTOP
    requires dstva < UTOP && Leaf(s.words, src, 4, srcva).Some?
    requires Mapped(s, s', src, srcva, dst, dstva, word)
    requires var was, pp := Translate(s.words, dst, dstva), Translate(s.words, src, srcva).ppn;
             WordSafe(s.refs, kernel, was, pp, word.high)
    ensures Conserved(s'.refs, s'.free, kernel, lost)
  {
    var was, pp := Translate(s.words, dst, dstva), Translate(s.words, src, srcva).ppn;
    var n := Missing(s.words, dst, 4, dstva);
    NamedCounted(s, kernel, lost, src, srcva);
    WasCounted(s, kernel, lost, dst, dstva);
    if was.ppn == pp {
      SamePageConserves(s, kernel, lost, n, was, pp);
    } else {
      MoveConserves(s.refs, s.free, kernel, lost, n, was, pp);
    }
  }

  lemma RemoveConserves(s: Snap, kernel: set<nat>, lost: set<nat>, root: nat, va: nat)
    requires Consistent(s.words, s.place, s.refs, s.free, kernel) && Conserved(s.refs, s.free, kernel, lost)
    requires IsRoot(s.place, root) && va < UTOP
    requires Leaf(s.words, root, 4, va).None? || KeepsKernel(s.refs, kernel, Translate(s.words, root, va).ppn)
    ensures Conserved(Removed(s, root, va).refs, Removed(s, root, va).free, kernel, lost)
  {
    if Leaf(s.words, root, 4, va).Some? {
      NamedCounted(s, kernel, lost, root, va);
    }
  }

  lemma SpaceConserves(s: Snap, kernel: set<nat>, kpgdir: seq<Entry>, lost: set<nat>)
    requires SpaceOk(s, kernel, kpgdir) && Conserved(s.refs, s.free, kernel, lost)
    ensures Conserved(Space(s, kpgdir).refs, Space(s, kpgdir).free, kernel, lost)
  {
    hide Exact, FreeOk, Space;
    var s' := Space(s, kpgdir);
    SpaceMade(s, kernel, kpgdir);
    assert s.free == [s.free[0], s.free[1], s.free[2]] + s.free[3..];
    forall p | p in lost ensures s'.refs[p] == 0 && p !in s'.free {
      assert s.free[0] in s.free && s.free[1] in s.free && s.free[2] in s.free;
    }
    forall p | 0 <= p < |s.refs| && p !in kernel ensures p in s'.free || s'.refs[p] > 0 || p in lost {
    }
  }

  lemma SpacePlaces(s: Snap, kpgdir: seq<Entry>)
    requires Shape(s.words) && |s.free| >= 3 && |s.refs| == |s.words| && |kpgdir| == NENTRIES
    requires forall k :: 0 <= k < 3 ==> s.free[k] < |s.words|
    ensures Space(s, kpgdir).place.Keys == s.place.Keys + {s.free[0], s.free[1], s.free[2]}
  {
  }

  lemma LeafIsTable(g: Stage, kernel: set<nat>, root: nat, va: nat)
    requires Good(g, kernel) && root in g.roots && va < UTOP
    ensures var t := Leaf(g.snap.words, root, 4, va); t.Some? ==> t.value in g.snap.place
  {
    if Leaf(g.snap.words, root, 4, va).Some? {
      AtSlot(g.snap.words, g.snap.place, root, va, Leaf(g.snap.words, root, 4, va).value);
    }
  }

  /** No call changes what a page holds that is in use and not a table, or makes a table of it. */
  lemma DataStays(g: Stage, kernel: set<nat>, call: Call, g': Stage, p: nat)
    requires Good(g, kernel) && Follows(g, kernel, call, g')
    requires p < |g.snap.words| && p !in g.snap.place && p !in g.snap.free
    ensures |g'.snap.words| == |g.snap.words| && g'.snap.words[p] == g.snap.words[p] && p !in g'.snap.place
  {
    hide Exact, FreeOk, Conserved, Inserted, Space, AllocCode, MapCode;
    var s, s' := g.snap, g'.snap;
    if Harmless(s.words, s.refs, kernel, g.roots, call) {
      match call
      case NewSpace(kpgdir) =>
        if |s.free| >= 3 {
          SpaceMade(s, kernel, kpgdir);
          SpacePlaces(s, kpgdir);
        }
      case AllocAt(root, va, perm) =>
      case MapAt(src, srcva, dst, dstva, perm) =>
      case UnmapAt(root, va) => LeafIsTable(g, kernel, root, va);
    }
  }

  /** The page that is mapped at `va` is none of the pages that become tables. */
  lemma WasUntouched(s: Snap, kernel: set<nat>, root: nat, va: nat, n: nat)
    requires Consistent(s.words, s.place, s.refs, s.free, kernel) && IsRoot(s.place, root) && va < UTOP && n <= |s.free|
    ensures var p := Translate(s.words, root, va).ppn; p !in s.free[..n]
    ensures var p := Translate(s.words, root, va).ppn; p < |s.refs| ==> Tabled(s.refs, s.free[..n])[p] == s.refs[p]
  {
    var p := Translate(s.words, root, va).ppn;
    if Leaf(s.words, root, 4, va).Some? {
      var t := Leaf(s.words, root, 4, va).value;
      AtSlot(s.words, s.place, root, va, t);
      NamedNotFree(s.words, s.place, s.refs, s.free, kernel, t, Index(1, va));
    }
    assert forall q :: q in s.free[..n] ==> q in s.free;
  }

  lemma GrownFacts(s: Snap, s1: Snap, kernel: set<nat>, root: nat, va: nat, n: nat, pp: nat)
    requires Consistent(s.words, s.place, s.refs, s.free, kernel) && Grown(s, s1, n)
    requires IsRoot(s.place, root) && va < UTOP && pp < |s.refs| && pp !in s.free
    ensures var was := Translate(s.words, root, va);
            && Translate(s1.words, root, va) == was && was.ppn < |s.refs| == |s1.refs|
            && pp !in s1.free && s1.refs[was.ppn] == s.refs[was.ppn] && s1.refs[pp] == s.refs[pp]
    ensures n <= |s.free| && s1.free == s.free[n..] && s1.refs == Tabled(s.refs, s.free[..n])
    ensures SameReads(s, s1) && forall root' :: IsRoot(s.place, root') <==> IsRoot(s1.place, root')
  {
    NotMapped(s.words, s.place, root, va);
    WasUntouched(s, kernel, root, va, n);
    hide Consistent, Tree;
    assert s1.refs == Tabled(s.refs, s.free[..n]);
    assert forall q :: q in s1.free ==> q in s.free;
    assert forall q :: q in s.free[..n] ==> q in s.free;
    forall root' ensures IsRoot(s.place, root') <==> IsRoot(s1.place, root') {
    }
  }

  /** Filling the entry that a creating walk has found completes an insertion. */
  lemma FilledInserts(s: Snap, s1: Snap, kernel: set<nat>, root: nat, va: nat, t: nat, pp: nat, e: Entry)
    requires Consistent(s.words, s.place, s.refs, s.free, kernel)
    requires Consistent(s1.words, s1.place, s1.refs, s1.free, kernel)
    requires IsRoot(s.place, root) && va < UTOP && Grown(s, s1, Missing(s.words, root, 4, va))
    requires Leaf(s1.words, root, 4, va) == Some(t) && pp < |s.refs| && pp !in s.free
    ensures var was := Translate(s.words, root, va);
            && Translate(s1.words, root, va) == was && t < |s1.words| && was.ppn < |s.refs| == |s1.refs|
            && IsRoot(s1.place, root) && pp !in s1.free
            && s1.refs[was.ppn] == s.refs[was.ppn] && s1.refs[pp] == s.refs[pp]
            && var words' := Set(s1.words, t, Index(1, va), e);
            && (e == ZERO || e.ppn < |s.words| ==> Tree(words', s1.place))
            && Inserted(s, Snap(words', s1.place, Moved(s1.refs, was, pp), FreedBy(was, pp, s1.refs, s1.free)),
                        root, va, pp, e)
            && SameData(s, Snap(words', s1.place, Moved(s1.refs, was, pp), FreedBy(was, pp, s1.refs, s1.free)))
            && s1.place.Keys == s.place.Keys + (set p | p in s.free[..Missing(s.words, root, 4, va)])
  {
    var n := Missing(s.words, root, 4, va);
    Rewrite(s1.words, s1.place, root, va, t, e);
    GrownFacts(s, s1, kernel, root, va, n, pp);
    hide Consistent, Grown, Tree;
  }

  /** The contents of free pages do not show in any translation. */
  lemma FreeChanged(s: Snap, s': Snap, kernel: set<nat>)
    requires Consistent(s.words, s.place, s.refs, s.free, kernel) && Shape(s'.words) && |s'.words| == |s.words|
    requires forall q :: 0 <= q < |s.words| && q !in s.free ==> s'.words[q] == s.words[q]
    ensures SameReads(s, s')
  {
    forall q | q in s.place ensures q !in s.free {
      if q in s.free {
        FreeIsUnused(s.words, s.place, s.refs, s.free, kernel, q);
      }
    }
    forall root, va | IsRoot(s.place, root) && 0 <= va < UTOP
      ensures Translate(s'.words, root, va) == Translate(s.words, root, va)
    {
      SameTranslate(s.words, s'.words, s.place, root, va);
    }
  }

  /** What is known of the page at the head of the free list, and that clearing it
      is invisible. */
  lemma FreshPage(s: Snap, kernel: set<nat>, root: nat, va: nat)
    requires Consistent(s.words, s.place, s.refs, s.free, kernel) && IsRoot(s.place, root) && va < UTOP
    requires s.free != [] && s.free[0] < |s.words| && s.free[0] !in s.free[1..]
    ensures var p, w := s.free[0], s.words[s.free[0] := ZeroPage()];
            && s.refs[p] == 0 && p !in kernel
            && Missing(w, root, 4, va) == Missing(s.words, root, 4, va)
            && Translate(w, root, va) == Translate(s.words, root, va)
            && Translate(s.words, root, va).ppn < |s.refs| && Translate(s.words, root, va).ppn != p
  {
    assert s.free[0] in s.free;
    AllocFrame(s, kernel, root, va);
    NotMapped(s.words, s.place, root, va);
    if Leaf(s.words, root, 4, va).Some? {
      var t := Leaf(s.words, root, 4, va).value;
      AtSlot(s.words, s.place, root, va, t);
      NamedNotFree(s.words, s.place, s.refs, s.free, kernel, t, Index(1, va));
    }
  }

  lemma FreshInserted(s: Snap, s': Snap, kernel: set<nat>, root: nat, va: nat, flags: Perm)
    requires Consistent(s.words, s.place, s.refs, s.free, kernel) && IsRoot(s.place, root) && va < UTOP
    requires s.free != [] && s.free[0] < |s.words|
    requires Inserted(Snap(s.words[s.free[0] := ZeroPage()], s.place, s.refs, s.free[1..]), s', root, va, s.free[0],
                      Entry(s.free[0], flags))
    requires s.free[0] !in s.free[1..]
    requires var w := s.words[s.free[0] := ZeroPage()];
             && SameData(Snap(w, s.place, s.refs, s.free[1..]), s')
             && s'.place.Keys == s.place.Keys + (set p | p in s.free[1..][..Missing(w, root, 4, va)])
    ensures Allocated(s, s', root, va, flags) && s'.words[s.free[0]] == ZeroPage()
  {
    hide Exact, Tree;
    AllocFrame(s, kernel, root, va);
    FreeIsUnused(s.words, s.place, s.refs, s.free, kernel, s.free[0]);
  }

  /** The books do not depend on the contents of free pages. */
  lemma SameConsistent(s: Snap, s': Snap, kernel: set<nat>)
    requires Consistent(s.words, s.place, s.refs, s.free, kernel) && Same(s, s') && Shape(s'.words)
    ensures Consistent(s'.words, s'.place, s'.refs, s'.free, kernel)
  {
    forall q | q in s.place ensures q !in s.free {
      if q in s.free {
        FreeIsUnused(s.words, s.place, s.refs, s.free, kernel, q);
      }
    }
    SameTables(s.words, s'.words, s.place);
  }

  class Pmap {
    const npages: nat
    var refs: seq<nat>    // pp_ref
    var link: seq<int>    // pp_link, as page numbers
    var freeHead: int     // page_free_list
    var words: Memory     // every page read as a table
    ghost var free: seq<nat>
    ghost var place: map<nat, Place>
    const kernel: set<nat>    // pages whose counts are not kept

    ghost predicate Repr()
      reads this
    {
      && |refs| == |link| == |words| == npages
      && Shape(words)
      && FreeList(link, freeHead, free)
    }

    ghost predicate Valid()
      reads this
    {
      Repr() && Consistent(words, place, refs, free, kernel)
    }

    ghost function Now(): Snap
      reads this
    {
      Snap(words, place, refs, free)
    }

    /** Puts a page that is not on the free list, and above all that are, at its front. */
    method Enlist(p: nat)
      requires Repr() && p < npages && (forall q :: q in free ==> q < p)
      requires forall j, k :: 0 <= j < k < |free| ==> free[k] < free[j]
      modifies this`link, this`freeHead, this`free
      ensures Repr() && free == [p] + old(free) && (forall q :: q in free <==> q == p || q in old(free))
      ensures forall j, k :: 0 <= j < k < |free| ==> free[k] < free[j]
    {
      Push(link, freeHead, free, p);
      assert forall k :: 0 <= k < |free| ==> free[k] in free;
      link := link[p := freeHead];
      freeHead := p;
      free := [p] + free;
    }

    /** page_init, for memory of any contents in which the pages `inUse` and page 0
        are taken: the rest go on the free list, in descending order. */
    constructor (memory: Memory, inUse: set<nat>)
      requires Shape(memory)
      ensures Valid() && npages == |memory| && words == memory && place == map[] && kernel == inUse + {0}
      ensures (forall p :: 0 <= p < npages ==> refs[p] == 0) && Good(Stage(Now(), {}, {}), kernel)
      ensures forall p :: p in free <==> 0 < p < npages && p !in inUse
      ensures inUse == {} && npages > 0 ==> |free| == npages - 1
      ensures forall j, k :: 0 <= j < k < |free| ==> free[k] < free[j]
    {
      npages, words, place, kernel := |memory|, memory, map[], inUse + {0};
      refs, link := seq(|memory|, _ => 1), seq(|memory|, _ => NULL);
      freeHead, free := NULL, [];
      new;
      var i := 0;
      while i < npages
        invariant i <= npages && Repr() && words == memory && place == map[]
        invariant forall p :: 0 <= p < i ==> refs[p] == 0
        invariant forall p :: p in free <==> 0 < p < i && p !in inUse
        invariant inUse == {} ==> |free| == if i == 0 then 0 else i - 1
        invariant forall j, k :: 0 <= j < k < |free| ==> free[k] < free[j]
      {
        refs := refs[i := 0];
        if i != 0 && i !in inUse {
          Enlist(i);
        }
        i := i + 1;
      }
      forall p | 0 <= p < |refs| ensures Count(words, place, p) == 0 {
        assert Slots(words, place, p) == {};
      }
    }

    method PageAlloc(zero: bool) returns (p: int)
      requires Valid()
      modifies this`link, this`freeHead, this`free, this`words
      ensures Valid()
      ensures if old(free) == [] then p == NULL && free == [] && words == old(words) && link == old(link) else
              && p == old(free)[0] && free == old(free)[1..] && link == old(link)[p := NULL]
              && words == (if zero then old(words)[p := seq(NENTRIES, _ => ZERO)] else old(words))
    {
      p := freeHead;
      if p == NULL {
        return;
      }
      Pop(link, freeHead, free);
      FreeIsUnused(words, place, refs, free, kernel, p);
      InRange(words, place);
      if zero {
        SameTables(words, words[p := seq(NENTRIES, _ => ZERO)], place);
        words := words[p := seq(NENTRIES, _ => ZERO)];
      }
      freeHead := link[p];
      link := link[p := NULL];
      free := free[1..];
    }

    method PageFree(p: nat)
      requires Repr() && p < npages
      modifies this`link, this`freeHead, this`free
      ensures Repr()
      ensures if refs[p] != 0 || p in old(free) then free == old(free) && link == old(link)
              else free == [p] + old(free) && link == old(link)[p := old(freeHead)]
    {
      if refs[p] != 0 {
        return;
      }
      var c := freeHead;
      ghost var k := 0;
      while c != NULL
        invariant 0 <= k <= |free| && c == (if k == |free| then NULL else free[k])
        invariant forall j :: 0 <= j < k ==> free[j] != p
        decreases |free| - k
      {
        if c == p {
          return;
        }
        assert link[free[k]] == Next(free, k);
        c := link[c];
        k := k + 1;
      }
      Push(link, freeHead, free, p);
      link := link[p := freeHead];
      freeHead := p;
      free := [p] + free;
    }

    method PageDecref(p: nat)
      requires Repr() && p < npages
      modifies this`refs, this`link, this`freeHead, this`free
      ensures Repr()
      ensures refs == old(refs)[p := Dec(old(refs)[p])]
      ensures free == if old(refs)[p] == 1 && p !in old(free) then [p] + old(free) else old(free)
    {
      refs := refs[p := Dec(refs[p])];
      if refs[p] == 0 {
        PageFree(p);
      }
    }

    /** The creating step of a walk: take a page, clear it, and hang it into slot
        Index(level, va) of table `q`. */
    method AddTable(q: nat, level: nat, va: nat) returns (page: int)
      requires Valid() && 2 <= level <= 4 && va < UTOP && On(place, q, level, va)
      requires q < npages && words[q][Index(level, va)] == ZERO
      modifies this`refs, this`link, this`freeHead, this`free, this`words, this`place
      ensures Valid()
      ensures page == NULL <==> old(free) == []
      ensures page == NULL ==> Now() == old(Now()) && link == old(link)
      ensures page != NULL ==>
                && page == old(free)[0] && CanLink(old(Now()), kernel, q, level, va)
                && Now() == Linked(old(Now()), q, Index(level, va))
                && link == old(link)[page := NULL] && freeHead == old(link)[page] && page !in free
    {
      ghost var s := Now();
      page := PageAlloc(false);
      if page == NULL {
        return;
      }
      Pop(old(link), old(freeHead), old(free));
      FreeIsUnused(s.words, s.place, s.refs, s.free, kernel, page);
      var i := Index(level, va);
      assert CanLink(s, kernel, q, level, va);
      ghost var s' := Linked(s, q, i);
      LinkConsistent(s, kernel, q, level, va);
      TwoWrites(s.words, q, i, Entry(page, TABLE), page);
      refs := refs[page := Inc(refs[page])];
      words := words[q := words[q][i := Entry(page, {U, W, P})]];
      words := words[page := seq(NENTRIES, _ => ZERO)];
      place := place[page := Place(place[q].root, level - 1, place[q].prefix * NENTRIES + i, q)];
      assert Now() == s';
    }

    /** The undoing step of a failed walk. */
    method DropTable(page: nat, q: nat, level: nat, va: nat, ghost s: Snap)
      requires Valid() && CanLink(s, kernel, q, level, va) && page == s.free[0] && page < npages && page !in free
      requires q < npages && Same(Linked(s, q, Index(level, va)), Now())
      modifies this`refs, this`link, this`freeHead, this`free, this`words, this`place
      ensures Valid()
      ensures Same(s, Now()) && link == old(link)[page := old(freeHead)] && freeHead == page
    {
      UnlinkSame(s, kernel, q, level, va, Now());
      words := words[q := words[q][Index(level, va) := ZERO]];
      refs := refs[page := 0];
      place := place - {page};
      PageFree(page);
      assert place == s.place && s.refs[page] == 0;
      assert FreeOk(s.refs, s.free, kernel);
    }

    /** The walks without `create`: the page table for `va`, or NULL. */
    method Find(q: nat, level: nat, va: nat) returns (t: int)
      requires Valid() && 1 <= level <= 4 && va < UTOP && On(place, q, level, va)
      ensures t == NULL <==> Leaf(words, q, level, va).None?
      ensures t != NULL ==> t >= 0 && Leaf(words, q, level, va) == Some(t)
      decreases level
    {
      assert PlaceOk(words, place, q);
      if level == 1 {
        return q;
      }
      var i := Index(level, va);
      if words[q][i] == ZERO {
        return NULL;
      }
      Descend(level, va);
      assert EntryOk(words, place, q, i);
      t := Find(words[q][i].ppn, level - 1, va);
    }

    method WalkDown(q: nat, level: nat, va: nat) returns (t: int)
      requires Valid() && 2 <= level <= 4 && va < UTOP && On(place, q, level, va)
      requires q < npages && words[q][Index(level, va)] != ZERO
      modifies this`refs, this`link, this`freeHead, this`free, this`words, this`place
      ensures Valid()
      ensures t != NULL <==> old(Missing(words, q, level, va)) <= |old(free)|
      ensures t != NULL ==> t >= 0 && Leaf(words, q, level, va) == Some(t)
      ensures t != NULL ==> Grown(old(Now()), Now(), old(Missing(words, q, level, va)))
      ensures t == NULL ==> Same(old(Now()), Now()) && link == old(link) && freeHead == old(freeHead)
      decreases level, 0
    {
      ghost var s := Now();
      ghost var n := Missing(words, q, level, va);
      StepDown(words, place, q, level, va);
      t := Walk(words[q][Index(level, va)].ppn, level - 1, va);
      if t != NULL {
        GrownLeaf(s, Now(), n, kernel, q, level, va);
      }
    }

    /** pml4e_walk (level 4), pdpe_walk (3) and pgdir_walk (2) with `create`: the
        page table for `va`, creating missing tables on the way down and undoing
        them on failure. */
    method Walk(q: nat, level: nat, va: nat) returns (t: int)
      requires Valid() && 1 <= level <= 4 && va < UTOP && On(place, q, level, va)
      modifies this`refs, this`link, this`freeHead, this`free, this`words, this`place
      ensures Valid()
      ensures t != NULL <==> old(Missing(words, q, level, va)) <= |old(free)|
      ensures t != NULL ==> t >= 0 && Leaf(words, q, level, va) == Some(t)
      ensures t != NULL ==> Grown(old(Now()), Now(), old(Missing(words, q, level, va)))
      ensures t == NULL ==> Same(old(Now()), Now()) && link == old(link) && freeHead == old(freeHead)
      decreases level
    {
      assert PlaceOk(words, place, q);
      if level == 1 {
        GrownNone(Now());
        return q;
      }
      if words[q][Index(level, va)] == ZERO {
        t := WalkNew(q, level, va);
      } else {
        t := WalkDown(q, level, va);
      }
    }

    method WalkNew(q: nat, level: nat, va: nat) returns (t: int)
      requires Valid() && 2 <= level <= 4 && va < UTOP && On(place, q, level, va)
      requires q < npages && words[q][Index(level, va)] == ZERO
      modifies this`refs, this`link, this`freeHead, this`free, this`words, this`place
      ensures Valid()
      ensures t != NULL <==> old(Missing(words, q, level, va)) <= |old(free)|
      ensures t != NULL ==> t >= 0 && Leaf(words, q, level, va) == Some(t)
      ensures t != NULL ==> Grown(old(Now()), Now(), old(Missing(words, q, level, va)))
      ensures t == NULL ==> Same(old(Now()), Now()) && link == old(link) && freeHead == old(freeHead)
      decreases level, 0
    {
      hide Grown, Exact, FreeOk, CanLink;
      ghost var s := Now();
      var page := AddTable(q, level, va);
      if page == NULL {
        return NULL;
      }
      LinkGrown(s, kernel, q, level, va);
      LinkTree(s, kernel, q, level, va);
      LinkedMissing(s, kernel, q, level, va);
      ghost var s1 := Now();
      t := Walk(page, level - 1, va);
      if t == NULL {
        assert old(link)[page := NULL][page := old(link)[page]] == old(link);
        DropTable(page, q, level, va, s);
      } else {
        GrownLeaf(s1, Now(), level - 2, kernel, q, level, va);
        GrownTrans(s, s1, Now(), level - 2);
      }
    }

    /** page_lookup: the page and the table for `va`. When the table exists, the
        page is reported even if the entry is clear, and is then page 0. */
    method PageLookup(root: nat, va: nat) returns (pp: int, t: int)
      requires Valid() && IsRoot(place, root) && va < UTOP
      ensures (pp == NULL <==> t == NULL) && (t == NULL <==> Leaf(words, root, 4, va).None?)
      ensures t != NULL ==>
                t >= 0 && Leaf(words, root, 4, va) == Some(t) && pp == Translate(words, root, va).ppn < npages
    {
      RootOn(words, place, root, va);
      t := Find(root, 4, va);
      if t == NULL {
        return NULL, NULL;
      }
      AtSlot(words, place, root, va, t);
      pp := words[t][Index(1, va)].ppn;
    }

    /** Drops the count of the page that slot `i` of page table `t` names, then clears the slot. */
    method DropEntry(t: nat, i: nat)
      requires Valid() && t in place && place[t].level == 1 && t < npages && i < NENTRIES && words[t][i].ppn < npages
      modifies this`refs, this`link, this`freeHead, this`free, this`words
      ensures Repr()
      ensures words == Set(old(words), t, i, ZERO)
      ensures var p := old(words)[t][i].ppn;
              && refs == old(refs)[p := Dec(old(refs)[p])]
              && free == (if old(refs)[p] == 1 then [p] + old(free) else old(free))
              && (Valid() <==> !(p in kernel && old(refs)[p] == 1))
    {
      ClearConsistent(words, place, refs, free, kernel, t, i);
      PageDecref(words[t][i].ppn);
      words := words[t := words[t][i := ZERO]];
    }

    method PageRemove(root: nat, va: nat)
      requires Valid() && IsRoot(place, root) && va < UTOP
      modifies this`refs, this`link, this`freeHead, this`free, this`words
      ensures Repr() && Tree(words, place)
      // Without a table nothing happens; with one, the entry is cleared and the page it names loses a count.
      ensures old(Leaf(words, root, 4, va)).None? ==>
                Now() == old(Now()) && link == old(link) && freeHead == old(freeHead)
      ensures old(Leaf(words, root, 4, va)).Some? ==>
                var t, p := old(Leaf(words, root, 4, va)).value, old(Translate(words, root, va)).ppn;
                && t < |old(words)| && p < |old(refs)| && words == Set(old(words), t, Index(1, va), ZERO)
                && Leaf(words, root, 4, va) == Some(t)
                && refs == old(refs)[p := Dec(old(refs)[p])]
                && free == if old(refs)[p] == 1 then [p] + old(free) else old(free)
      ensures Rewritten(old(words), words, place, root, va, ZERO)
      // Removing at an address with no page "silently does nothing" exactly when there is no table.
      ensures old(Translate(words, root, va)) == ZERO ==> (Now() == old(Now()) <==> old(Leaf(words, root, 4, va)).None?)
      ensures Valid() <==> old(Leaf(words, root, 4, va)).None?
                           || !(old(Translate(words, root, va)).ppn in kernel &&
                                old(refs)[old(Translate(words, root, va)).ppn] == 1)
    {
      var pp, t := PageLookup(root, va);
      if pp == NULL {
        NoTable(words, place, root, va);
        return;
      }
      Rewrite(words, place, root, va, t, ZERO);
      DropEntry(t, Index(1, va));
    }

    /** Replaces the page mapped at `va`, permission bits clear, and moves the counts. */
    method SwapPage(root: nat, va: nat, t: nat, pp: nat)
      requires Valid() && IsRoot(place, root) && va < UTOP && Leaf(words, root, 4, va) == Some(t)
      requires pp < npages && pp !in free && pp != Translate(words, root, va).ppn
      modifies this`refs, this`link, this`freeHead, this`free, this`words
      ensures Repr() && t < |old(words)| && words == Set(old(words), t, Index(1, va), Entry(pp, {}))
      ensures var was := old(Translate(words, root, va));
              && was.ppn < npages
              && refs == Recount(old(refs), Drops(was), Some(pp)) && free == FreeAfter(was, old(refs), old(free))
    {
      var i := Index(1, va);
      AtSlot(words, place, root, va, t);
      Overwrite(words, t, i, ZERO, Entry(pp, {}));
      if words[t][i] != ZERO {
        PageRemove(root, va);
      }
      words := words[t := words[t][i := Entry(pp, {})]];
      refs := refs[pp := Inc(refs[pp])];
    }

    /** The second half of page_insert, once the page table is there. */
    method FillEntry(root: nat, va: nat, t: nat, pp: nat, perm: PermWord)
      requires Valid() && IsRoot(place, root) && va < UTOP && Leaf(words, root, 4, va) == Some(t)
      requires pp < npages && pp !in free
      modifies this`refs, this`link, this`freeHead, this`free, this`words
      ensures Repr() && t < |old(words)|
      ensures words == Set(old(words), t, Index(1, va), Entry(Or(pp, perm.high), perm.flags + {P}))
      ensures var was := old(Translate(words, root, va));
              && was.ppn < npages && (Valid() <==> WordSafe(old(refs), kernel, was, pp, perm.high))
              && refs == Moved(old(refs), was, pp) && free == FreedBy(was, pp, old(refs), old(free))
    {
      var i, bits := Index(1, va), perm.flags + {P};
      assert P in bits && {} + bits == bits;
      AtSlot(words, place, root, va, t);
      ghost var e := Entry(Or(pp, perm.high), bits);
      ghost var words' := Set(words, t, i, e);
      Overwrite(words, t, i, Entry(pp, {}), e);
      InsertConsistent(Now(), kernel, t, i, pp, e);
      if words[t][i].ppn != pp {
        SwapPage(root, va, t, pp);
      } else {
        words := words[t := words[t][i := Entry(pp, {})]];
      }
      OrKeeps(pp, perm.high);
      words := words[t := words[t][i := Entry(Or(words[t][i].ppn, perm.high), words[t][i].perm + bits)]];
      assert words == words';
    }

    /** page_insert. The bits of `perm` above the flags are 0 in every call but
        those of sys_page_map. */
    method PageInsert(root: nat, pp: nat, va: nat, perm: PermWord) returns (r: int)
      requires Valid() && IsRoot(place, root) && va < UTOP && pp < npages && pp !in free
      modifies this`refs, this`link, this`freeHead, this`free, this`words, this`place
      ensures r == if old(Missing(words, root, 4, va)) <= |old(free)| then 0 else -E_NO_MEM
      // A failed insertion puts back every entry, every count and the order of the free list.
      ensures r != 0 ==> Valid() && Same(old(Now()), Now()) && link == old(link) && freeHead == old(freeHead)
      // A successful one changes the translation of exactly one page of one address space.
      ensures r == 0 ==> Repr() && IsRoot(place, root) && (Or(pp, perm.high) < npages ==> Tree(words, place))
      ensures r == 0 ==> Inserted(old(Now()), Now(), root, va, pp, Entry(Or(pp, perm.high), perm.flags + {P}))
      // The missing tables become tables; no other page is written but the table that has the entry.
      ensures r == 0 ==>
                && SameData(old(Now()), Now())
                && place.Keys == old(place).Keys + (set p | p in old(free)[..old(Missing(words, root, 4, va))])
      ensures var was := old(Translate(words, root, va));
              was.ppn < npages && (r == 0 ==> (Valid() <==> WordSafe(old(refs), kernel, was, pp, perm.high)))
      ensures Or(pp, perm.high) == pp <==> Contains(pp, perm.high)
    {
      ghost var s, e := Now(), Entry(Or(pp, perm.high), perm.flags + {P});
      OrKeeps(pp, perm.high);
      RootOn(words, place, root, va);
      NotMapped(words, place, root, va);
      var t := Walk(root, 4, va);
      if t == NULL {
        return -E_NO_MEM;
      }
      FilledInserts(s, Now(), kernel, root, va, t, pp, e);
      hide Grown, Consistent, Inserted, Tree;
      FillEntry(root, va, t, pp, perm);
      r := 0;
    }

    /** page_free of the page that the call has taken, when nothing else has changed. */
    method GiveBack(p: nat, ghost s: Snap, ghost link0: seq<int>)
      requires Repr() && Consistent(s.words, s.place, s.refs, s.free, kernel)
      requires s.free != [] && p == s.free[0] < |s.words|
      requires |link0| == npages && FreeList(link0, p, s.free)
      requires Same(Snap(s.words[p := ZeroPage()], s.place, s.refs, s.free[1..]), Now())
      requires link == link0[p := NULL] && freeHead == link0[p] && p !in free && refs[p] == 0
      modifies this`link, this`freeHead, this`free
      ensures Valid() && Same(s, Now()) && link == link0 && freeHead == p
    {
      SameAfterAlloc(s, ZeroPage(), Now());
      PageFree(p);
      assert link0[p := NULL][p := link0[p]] == link0;
      SameConsistent(s, Now(), kernel);
    }

    /** sys_page_alloc in the address space that envid2env finds, if it finds one. */
    method SysPageAlloc(env: Option<nat>, va: nat, perm: int) returns (r: int)
      requires Valid() && (env.Some? ==> IsRoot(place, env.value)) && IsInt(perm)
      modifies this`refs, this`link, this`freeHead, this`free, this`words, this`place
      ensures r == if env.None? then -E_BAD_ENV else AllocCode(old(Now()), env.value, va, perm)
      ensures env.Some? ==>
                (r == -E_INVAL <==>
                   || va >= UTOP || va % PGSIZE != 0
                   || !(0 <= perm < 4096 && perm % 512 in {5, 7}))
      ensures r in {0, -E_NO_MEM} ==> (r == 0 <==> |old(free)| > old(Missing(words, env.value, 4, va)))
      // The page is given back: a failure leaves every count and the order of the free list.
      ensures r != 0 ==> Valid() && Same(old(Now()), Now()) && link == old(link) && freeHead == old(freeHead)
      ensures r == 0 ==>
                Repr() && Tree(words, place) && Allocated(old(Now()), Now(), env.value, va, FromInt(perm).flags)
      // The page is cleared before it is mapped.
      ensures r == 0 ==> old(free) != [] && old(free)[0] < |words| && words[old(free)[0]] == ZeroPage()
      ensures r == 0 ==> var was := old(Translate(words, env.value, va));
                         && was.ppn < |old(refs)|
                         && (Valid() <==> !(was != ZERO && was.ppn in kernel && old(refs)[was.ppn] == 1))
    {
      hide Consistent, Inserted, Translate, Missing, SameData, Allocated, FromInt;
      if env.None? {
        return -E_BAD_ENV;
      }
      var root, word := env.value, FromInt(perm);
      AllowedExactly(perm);
      if va >= UTOP || va % PGSIZE != 0 || !Allowed(word) {
        return -E_INVAL;
      }
      assert word.flags + {P} == word.flags;
      var p := PageAlloc(true);
      if p == NULL {
        return -E_NO_MEM;
      }
      Pop(old(link), old(freeHead), old(free));
      FreshPage(old(Now()), kernel, root, va);
      r := PageInsert(root, p, va, word);
      if r == 0 {
        FreshInserted(old(Now()), Now(), kernel, root, va, word.flags);
      } else {
        GiveBack(p, old(Now()), old(link));
      }
    }

    /** sys_page_map, which does not check its permissions. It refuses an unmapped
        source only when its page table is missing; with a table and a clear entry
        it maps page 0. Bits of the argument above the flags change the page named. */
    method SysPageMap(src: Option<nat>, srcva: nat, dst: Option<nat>, dstva: nat, perm: int) returns (r: int)
      requires Valid() && (src.Some? ==> IsRoot(place, src.value)) && (dst.Some? ==> IsRoot(place, dst.value))
      requires IsInt(perm)
      modifies this`refs, this`link, this`freeHead, this`free, this`words, this`place
      ensures r == if src.None? || dst.None? then -E_BAD_ENV
                   else MapCode(old(Now()), src.value, srcva, dst.value, dstva)
      ensures src.Some? && dst.Some? ==>
                (r == -E_INVAL <==>
                   || srcva >= UTOP || srcva % PGSIZE != 0 || dstva >= UTOP || dstva % PGSIZE != 0
                   || old(Leaf(words, src.value, 4, srcva)).None?)
      ensures r in {0, -E_NO_MEM} ==> (r == 0 <==> |old(free)| >= old(Missing(words, dst.value, 4, dstva)))
      ensures r != 0 ==> Valid() && Same(old(Now()), Now()) && link == old(link) && freeHead == old(freeHead)
      ensures r == 0 ==> Repr() && Mapped(old(Now()), Now(), src.value, srcva, dst.value, dstva, FromInt(perm))
      ensures r == 0 ==>
                var was, pp := old(Translate(words, dst.value, dstva)), old(Translate(words, src.value, srcva)).ppn;
                         var word := FromInt(perm);
                         && (Or(pp, word.high) == pp <==> Contains(pp, word.high))
                         && was.ppn < npages && pp < npages
                         && (Valid() <==> WordSafe(old(refs), kernel, was, pp, word.high))
    {
      if src.None? || dst.None? {
        return -E_BAD_ENV;
      }
      if srcva >= UTOP || srcva % PGSIZE != 0 || dstva >= UTOP || dstva % PGSIZE != 0 {
        return -E_INVAL;
      }
      var pp, t := PageLookup(src.value, srcva);
      if pp == NULL {
        return -E_INVAL;
      }
      AtSlot(words, place, src.value, srcva, t);
      NamedNotFree(words, place, refs, free, kernel, t, Index(1, srcva));
      r := PageInsert(dst.value, pp, dstva, FromInt(perm));
    }

    method TakeThree() returns (p: int, p2: int, p3: int)
      requires Valid()
      modifies this`link, this`freeHead, this`free, this`words
      ensures Valid()
      ensures p3 == NULL <==> |old(free)| < 3
      ensures p3 == NULL ==> free == [] && |words| == |old(words)|
      ensures p3 == NULL ==> forall q :: 0 <= q < |words| && q !in old(free) ==> words[q] == old(words)[q]
      ensures p3 != NULL ==>
                && free == old(free)[3..] && p == old(free)[0] && p2 == old(free)[1] && p3 == old(free)[2]
                && p < npages && p2 < npages && p3 < npages && p != p2 && p2 != p3 && p != p3
                && (forall j, k :: 0 <= j < k < |old(free)| ==> old(free)[j] != old(free)[k])
                && words == old(words)[p := ZeroPage()][p2 := ZeroPage()][p3 := ZeroPage()]
    {
      p, p2, p3 := NULL, NULL, NULL;
      p := PageAlloc(true);
      if p == NULL {
        return;
      }
      p2 := PageAlloc(true);
      if p2 == NULL {
        return;
      }
      p3 := PageAlloc(true);
    }

    /** Links the three pages of a new address space and copies the kernel's page directory. */
    method FillSpace(p: nat, p2: nat, p3: nat, kpgdir: seq<Entry>)
      requires Repr() && |kpgdir| == NENTRIES && p < npages && p2 < npages && p3 < npages
      requires p != p2 && p2 != p3 && p != p3
      requires words[p] == words[p2] == words[p3] == ZeroPage() && refs[p] == refs[p2] == refs[p3] == 0
      modifies this`refs, this`words
      ensures Repr() && refs == old(refs)[p := 1][p2 := 1][p3 := 1]
      ensures words == old(words)[p := ZeroPage()[0 := Entry(p2, TABLE)][2 := Entry(p, {P, U})]]
                                 [p2 := ZeroPage()[3 := Entry(p3, TABLE)]][p3 := kpgdir]
    {
      words := words[p := words[p][0 := Entry(p2, {U, W, P})]];
      words := words[p2 := words[p2][3 := Entry(p3, {U, W, P})]];
      refs := refs[p := Inc(refs[p])];
      refs := refs[p2 := Inc(refs[p2])];
      refs := refs[p3 := Inc(refs[p3])];
      ghost var w := words;
      var i := 0;
      while i < NENTRIES
        modifies this`words
        invariant 0 <= i <= NENTRIES && |words| == |w| && |words[p3]| == NENTRIES
        invariant forall q :: 0 <= q < |w| && q != p3 ==> words[q] == w[q]
        invariant forall j :: 0 <= j < i ==> words[p3][j] == kpgdir[j]
      {
        words := words[p3 := words[p3][i := kpgdir[i]]];
        i := i + 1;
      }
      assert words[p3] == kpgdir;
      words := words[p := words[p][2 := Entry(p, {P, U})]];
    }

    /** env_setup_vm, for a kernel page directory that is clear below UTOP. When
        pages run out, those already taken are lost. */
    method EnvSetupVm(kpgdir: seq<Entry>) returns (root: int)
      requires Valid() && |kpgdir| == NENTRIES && forall i :: 0 <= i < 0x17c ==> kpgdir[i] == ZERO
      modifies this`refs, this`link, this`freeHead, this`free, this`words, this`place
      ensures Valid()
      ensures root == NULL <==> |old(free)| < 3
      ensures root == NULL ==> free == [] && refs == old(refs) && place == old(place) && SameReads(old(Now()), Now())
      ensures root == NULL ==> Same(old(Now()), Now().(free := old(free)))
      ensures root != NULL ==>
                && root == old(free)[0] && IsRoot(place, root)
                && SpaceOk(old(Now()), kernel, kpgdir) && Now() == Space(old(Now()), kpgdir)
      // The kernel's page directory, reached by way of two tables, and the map of itself.
      ensures root != NULL ==>
                var p2, p3 := old(free)[1], old(free)[2];
                && p2 < npages && p3 < npages && free == old(free)[3..]
                && refs == old(refs)[root := 1][p2 := 1][p3 := 1]
                && words[root] == ZeroPage()[0 := Entry(p2, {P, W, U})][2 := Entry(root, {P, U})]
                && words[p2] == ZeroPage()[3 := Entry(p3, {P, W, U})] && words[p3] == kpgdir
    {
      hide Consistent, FreeList;
      assert TABLE == {P, W, U};
      ghost var s := Now();
      var p, p2, p3 := TakeThree();
      if p3 == NULL {
        FreeChanged(s, Now(), kernel);
        return NULL;
      }
      SpaceMade(s, kernel, kpgdir);
      hide Space, SpaceOk;
      FillSpace(p, p2, p3, kpgdir);
      place := Space(s, kpgdir).place;
      root := p;
    }

    method AddSpace(roots: set<nat>, ghost lost: set<nat>, kpgdir: seq<Entry>)
      returns (roots': set<nat>, ghost lost': set<nat>)
      requires Repr() && Good(Stage(Now(), roots, lost), kernel)
      requires Harmless(words, refs, kernel, roots, NewSpace(kpgdir))
      modifies this`refs, this`link, this`freeHead, this`free, this`words, this`place
      ensures Repr() && Good(Stage(Now(), roots', lost'), kernel)
      ensures Follows(Stage(old(Now()), roots, lost), kernel, NewSpace(kpgdir), Stage(Now(), roots', lost'))
    {
      hide Space;
      ghost var s := Now();
      var root := EnvSetupVm(kpgdir);
      roots', lost' := roots, lost;
      if root == NULL {
        lost' := lost + (set p | p in s.free);
      } else {
        SpaceConserves(s, kernel, kpgdir, lost);
        forall r | r in roots ensures IsRoot(place, r) {
          SpaceRoots(s, kernel, kpgdir, r);
        }
        roots' := roots + {root};
      }
    }

    method AllocPage(roots: set<nat>, ghost lost: set<nat>, root: nat, va: nat, perm: int)
      requires Repr() && Good(Stage(Now(), roots, lost), kernel)
      requires Harmless(words, refs, kernel, roots, AllocAt(root, va, perm))
      modifies this`refs, this`link, this`freeHead, this`free, this`words, this`place
      ensures Repr() && Good(Stage(Now(), roots, lost), kernel)
      ensures Follows(Stage(old(Now()), roots, lost), kernel, AllocAt(root, va, perm), Stage(Now(), roots, lost))
    {
      ghost var s := Now();
      var r := SysPageAlloc(Some(root), va, perm);
      if r == 0 {
        AllocConserves(s, Now(), kernel, lost, root, va, FromInt(perm).flags);
      }
    }

    method MapPage(roots: set<nat>, ghost lost: set<nat>, src: nat, srcva: nat, dst: nat, dstva: nat, perm: int)
      requires Repr() && Good(Stage(Now(), roots, lost), kernel)
      requires Harmless(words, refs, kernel, roots, MapAt(src, srcva, dst, dstva, perm))
      modifies this`refs, this`link, this`freeHead, this`free, this`words, this`place
      ensures Repr() && Good(Stage(Now(), roots, lost), kernel)
      ensures Follows(Stage(old(Now()), roots, lost), kernel, MapAt(src, srcva, dst, dstva, perm),
                      Stage(Now(), roots, lost))
    {
      ghost var s := Now();
      var r := SysPageMap(Some(src), srcva, Some(dst), dstva, perm);
      if r == 0 {
        MapConserves(s, Now(), kernel, lost, src, srcva, dst, dstva, FromInt(perm));
      }
    }

    method UnmapPage(roots: set<nat>, ghost lost: set<nat>, root: nat, va: nat)
      requires Repr() && Good(Stage(Now(), roots, lost), kernel)
      requires Harmless(words, refs, kernel, roots, UnmapAt(root, va))
      modifies this`refs, this`link, this`freeHead, this`free, this`words, this`place
      ensures Repr() && Good(Stage(Now(), roots, lost), kernel)
      ensures Follows(Stage(old(Now()), roots, lost), kernel, UnmapAt(root, va), Stage(Now(), roots, lost))
    {
      RemoveConserves(Now(), kernel, lost, root, va);
      PageRemove(root, va);
    }

    /** One call. */
    method Perform(roots: set<nat>, ghost lost: set<nat>, call: Call) returns (roots': set<nat>, ghost lost': set<nat>)
      requires Repr() && Good(Stage(Now(), roots, lost), kernel)
      modifies this`refs, this`link, this`freeHead, this`free, this`words, this`place
      ensures Repr() && Good(Stage(Now(), roots', lost'), kernel)
      ensures Follows(Stage(old(Now()), roots, lost), kernel, call, Stage(Now(), roots', lost'))
    {
      roots', lost' := roots, lost;
      if !Harmless(words, refs, kernel, roots, call) {
        return;
      }
      match call {
        case NewSpace(kpgdir) => roots', lost' := AddSpace(roots, lost, kpgdir);
        case AllocAt(root, va, perm) => AllocPage(roots, lost, root, va, perm);
        case MapAt(src, srcva, dst, dstva, perm) => MapPage(roots, lost, src, srcva, dst, dstva, perm);
        case UnmapAt(root, va) => UnmapPage(roots, lost, root, va);
      }
    }

    /** Every run of such calls, in any number of address spaces: each stage follows
        from the one before by its call, and all of them are good. */
    method Run(calls: seq<Call>, roots0: set<nat>, ghost lost0: set<nat>)
      returns (roots: set<nat>, ghost trace: seq<Stage>)
      requires Repr() && Good(Stage(Now(), roots0, lost0), kernel)
      modifies this`refs, this`link, this`freeHead, this`free, this`words, this`place
      ensures |trace| == |calls| + 1 && trace[0] == Stage(old(Now()), roots0, lost0)
      ensures trace[|calls|] == Stage(Now(), roots, trace[|calls|].lost)
      ensures forall i :: 0 <= i < |calls| ==> Follows(trace[i], kernel, calls[i], trace[i + 1])
      ensures forall i :: 0 <= i <= |calls| ==> Good(trace[i], kernel)
      ensures Repr()
    {
      ghost var lost := lost0;
      roots, trace := roots0, [Stage(Now(), roots0, lost0)];
      var i := 0;
      while i < |calls|
        invariant i <= |calls| && |trace| == i + 1 && trace[0] == Stage(old(Now()), roots0, lost0)
        invariant Repr() && trace[i] == Stage(Now(), roots, lost)
        invariant forall j :: 0 <= j < i ==> Follows(trace[j], kernel, calls[j], trace[j + 1])
        invariant forall j :: 0 <= j <= i ==> Good(trace[j], kernel)
      {
        roots, lost := Perform(roots, lost, calls[i]);
        trace := trace + [Stage(Now(), roots, lost)];
        i := i + 1;
      }
    }
  }
}
