/** Copy-on-write fork as a machine whose steps are the single system calls and
memory accesses of all environments, in any order, and the machine with one
private memory per environment that it refines (lab/lib/fork.c:14-231). */
module Cow {
  import opened Bytes
  import opened Common

  // Page numbers of PFTEMP, UTEXT, the user stack page and the exception stack page.
  const PFTEMP: nat := 0x5ff
  const UTEXT: nat := 0x800
  const STACK: nat := 0xef7fd
  const XSTACK: nat := 0xef7ff

  type Content = seq<Byte>

  /** Page `v` of environment `e`. */
  datatype Loc = Loc(e: nat, v: nat)

  /** A page-table entry: the physical page and the bits PTE_W, PTE_COW and PTE_SHARE. */
  datatype Pte = Pte(page: nat, w: bool, cow: bool, share: bool)

  /** Progress of an environment's page-fault handler. */
  datatype Fault =
    | Idle
    | Copying(v: nat, n: nat)   // PFTEMP allocated, the first n bytes copied
    | Moved(v: nat)             // the copy is mapped at v as well

  /** Progress of fork. `half` is set between the two calls of duppage, to
      whether the parent's page was writable at the first. `lost` holds the pages
      whose system call failed, which fork does not notice. */
  datatype Fork =
    | NoFork
    | Forking(child: nat, next: nat, half: Option<bool>, lost: set<nat>)
    | Building(parent: nat)     // a child that does not run yet
    | Abandoned                 // a child whose parent exited in the middle of fork

  datatype State = State(
    phys: seq<Content>,
    maps: map<Loc, Pte>,
    fault: map<nat, Fault>,
    fork: map<nat, Fork>)

  datatype Action =
    | Store(e: nat, v: nat, off: nat, b: Byte)
    | FaultAlloc(e: nat, v: nat, page: nat)
    | CopyByte(e: nat)
    | MoveCopy(e: nat)
    | UnmapTemp(e: nat)
    | ForkStart(e: nat, child: nat, page: nat)
    | ForkBare(e: nat, child: nat)   // no memory for the child's exception stack
    | DupNext(e: nat)
    | DupFails(e: nat)               // no memory for the child's page table
    | DupSelf(e: nat)
    | ForkDone(e: nat)
    | Alloc(e: nat, v: nat, page: nat, w: bool, share: bool)
    | Unmap(e: nat, v: nat)
    | MapShared(e: nat, v: nat, d: nat)
    | Exit(e: nat)

  predicate Unused(c: State, page: nat) {
    page < |c.phys| && forall l :: l in c.maps ==> c.maps[l].page != page
  }

  /** A child that fork has not started. */
  predicate Waits(f: Fork) {
    f.Building? || f.Abandoned?
  }

  /** Environment `e` exists, runs, and is not inside its fault handler. */
  predicate Runs(c: State, e: nat) {
    && e in c.fault && e in c.fork && c.fault[e].Idle? && !Waits(c.fork[e])
  }

  predicate Enabled(c: State, a: Action) {
    match a
    case Store(e, v, off, b) =>
      Runs(c, e) && Loc(e, v) in c.maps && v != PFTEMP && c.maps[Loc(e, v)].w && off < PGSIZE
    case FaultAlloc(e, v, page) =>
      && Runs(c, e) && Loc(e, v) in c.maps && v != PFTEMP
      && c.maps[Loc(e, v)].cow && !c.maps[Loc(e, v)].w && !c.maps[Loc(e, v)].share && Unused(c, page)
      && Loc(e, XSTACK) in c.maps && c.maps[Loc(e, XSTACK)].w
    case CopyByte(e) => e in c.fault && c.fault[e].Copying? && c.fault[e].n < PGSIZE
    case MoveCopy(e) => e in c.fault && c.fault[e].Copying? && c.fault[e].n == PGSIZE
    case UnmapTemp(e) => e in c.fault && c.fault[e].Moved?
    case ForkStart(e, child, page) => Runs(c, e) && c.fork[e].NoFork? && child !in c.fault && Unused(c, page)
    case ForkBare(e, child) => Runs(c, e) && c.fork[e].NoFork? && child !in c.fault
    case DupNext(e) => Runs(c, e) && c.fork[e].Forking? && c.fork[e].half.None? && c.fork[e].next <= STACK
    case DupFails(e) =>
      && Runs(c, e) && c.fork[e].Forking? && c.fork[e].half.None? && c.fork[e].next <= STACK
      && Loc(e, c.fork[e].next) in c.maps
    case DupSelf(e) => Runs(c, e) && c.fork[e].Forking? && c.fork[e].half.Some?
    case ForkDone(e) => Runs(c, e) && c.fork[e].Forking? && c.fork[e].half.None? && c.fork[e].next > STACK
    case Alloc(e, v, page, w, share) => Runs(c, e) && c.fork[e].NoFork? && v != PFTEMP && Unused(c, page)
    case Unmap(e, v) => Runs(c, e) && c.fork[e].NoFork? && v != PFTEMP
    case MapShared(e, v, d) =>
      Runs(c, e) && c.fork[e].NoFork? && Loc(e, v) in c.maps && c.maps[Loc(e, v)].share && v != PFTEMP && d != PFTEMP
    case Exit(e) => e in c.fault && e in c.fork && !Waits(c.fork[e])
  }

  ghost predicate Basic(c: State) {
    && c.fault.Keys == c.fork.Keys
    && (forall p :: 0 <= p < |c.phys| ==> |c.phys[p]| == PGSIZE)
    && (forall l :: l in c.maps ==> l.e in c.fault && c.maps[l].page < |c.phys|)
  }

  function Private(page: nat): Pte { Pte(page, true, false, false) }

  ghost predicate FaultOk(c: State, e: nat)
    requires Basic(c) && e in c.fault
  {
    var t := Loc(e, PFTEMP);
    match c.fault[e]
    case Idle => t !in c.maps
    case Copying(v, n) =>
      var l := Loc(e, v);
      && !Waits(c.fork[e]) && v != PFTEMP && n <= PGSIZE
      && l in c.maps && c.maps[l].cow && !c.maps[l].w && !c.maps[l].share
      && t in c.maps && c.maps[t] == Private(c.maps[t].page) && c.maps[t].page != c.maps[l].page
      && (forall k :: 0 <= k < n ==> c.phys[c.maps[t].page][k] == c.phys[c.maps[l].page][k])
    case Moved(v) =>
      var l := Loc(e, v);
      && !Waits(c.fork[e]) && v != PFTEMP
      && l in c.maps && t in c.maps && c.maps[t] == c.maps[l] && c.maps[l].w && !c.maps[l].share
  }

  function CopyOnWrite(page: nat): Pte { Pte(page, false, true, false) }

  /** What duppage makes of the parent's entry `l`: the same for a shared page and
      for one that nobody writes, else a copy-on-write entry. */
  predicate Duplicate(l: Pte, k: Pte) {
    if l.share || (!l.w && !l.cow) then k == l else k == CopyOnWrite(k.page)
  }

  /** What has been duplicated so far is mapped in the child exactly where it is in
      the parent, by a duplicate of the entry, except for the pages lost; the rest
      is not mapped yet. */
  ghost predicate Covered(maps: map<Loc, Pte>, e: nat, f: Fork, v: nat)
    requires f.Forking?
  {
    var l, k := Loc(e, v), Loc(f.child, v);
    if v < f.next then
      && (k in maps <==> l in maps && v !in f.lost)
      && (k in maps ==> Duplicate(maps[l], maps[k]))
      && (v in f.lost ==> l in maps)
    else (k in maps ==> f.half.Some? && v == f.next) && v !in f.lost
  }

  ghost predicate ForkOk(c: State, e: nat)
    requires Basic(c) && e in c.fork
  {
    match c.fork[e]
    case NoFork => true
    case Abandoned => true
    case Building(parent) => parent in c.fork && c.fork[parent].Forking? && c.fork[parent].child == e
    case Forking(child, next, half, lost) =>
      && (Loc(child, XSTACK) in c.maps <==> XSTACK !in lost)
      && child != e && child in c.fork && c.fork[child] == Building(e)
      && UTEXT <= next <= STACK + 1
      && (forall v {:trigger Covered(c.maps, e, c.fork[e], v)} ::
            UTEXT <= v <= STACK ==> Covered(c.maps, e, c.fork[e], v))
      && (half.Some? ==>
            && next <= STACK
            && var l, k := Loc(e, next), Loc(child, next);
            && l in c.maps && k in c.maps && !c.maps[l].share && !c.maps[k].share && c.maps[k].cow && !c.maps[k].w
            && (half.value ==> c.maps[l].w && c.maps[l].page == c.maps[k].page))
  }

  /** The child's mapping is shared with a parent that can still write to the
      page, because duppage has not made its second call. */
  ghost predicate HalfDup(c: State, l: Loc) {
    && l.e in c.fork && c.fork[l.e].Building?
    && c.fork[l.e].parent in c.fork && c.fork[c.fork[l.e].parent].Forking?
    && var f := c.fork[c.fork[l.e].parent]; f.child == l.e && f.next == l.v && f.half == Some(true)
  }

  /** The only ways a writable private page may have a second mapper. */
  ghost predicate MayShare(c: State, l: Loc, k: Loc) {
    || (k.e == l.e && l.e in c.fault && c.fault[l.e].Moved? &&
        ((l.v == PFTEMP && k.v == c.fault[l.e].v) || (k.v == PFTEMP && l.v == c.fault[l.e].v)))
    || (k.v == l.v && HalfDup(c, k) && c.fork[k.e].parent == l.e)
  }

  ghost predicate PairOk(c: State, l: Loc, k: Loc)
    requires l in c.maps && k in c.maps
  {
    l != k && c.maps[l].page == c.maps[k].page ==>
      && c.maps[l].share == c.maps[k].share
      && (c.maps[l].w && !c.maps[l].share ==> MayShare(c, l, k))
  }

  ghost predicate Inv(c: State) {
    && Basic(c)
    && (forall e {:trigger FaultOk(c, e)} :: e in c.fault ==> FaultOk(c, e))
    && (forall e {:trigger ForkOk(c, e)} :: e in c.fork ==> ForkOk(c, e))
    && (forall l, k {:trigger PairOk(c, l, k)} :: l in c.maps && k in c.maps ==> PairOk(c, l, k))
  }

  /** Only the pages of other environments. */
  function Without<T>(pages: map<Loc, T>, e: nat): map<Loc, T> {
    map l | l in pages && l.e != e :: pages[l]
  }

  /** One step of the machine. */
  function Do(c: State, a: Action): State
    requires Enabled(c, a) && Inv(c)
  {
    match a
    case Store(e, v, off, b) =>
      var p := c.maps[Loc(e, v)].page;
      c.(phys := c.phys[p := c.phys[p][off := b]])
    case FaultAlloc(e, v, page) =>
      c.(phys := c.phys[page := Zeros(PGSIZE)], maps := c.maps[Loc(e, PFTEMP) := Private(page)],
         fault := c.fault[e := Copying(v, 0)])
    case CopyByte(e) =>
      assert FaultOk(c, e);
      var n := c.fault[e].n;
      var src, dst := c.maps[Loc(e, c.fault[e].v)].page, c.maps[Loc(e, PFTEMP)].page;
      c.(phys := c.phys[dst := c.phys[dst][n := c.phys[src][n]]], fault := c.fault[e := Copying(c.fault[e].v, n + 1)])
    case MoveCopy(e) =>
      assert FaultOk(c, e);
      var v := c.fault[e].v;
      c.(maps := c.maps[Loc(e, v) := Private(c.maps[Loc(e, PFTEMP)].page)], fault := c.fault[e := Moved(v)])
    case UnmapTemp(e) =>
      c.(maps := c.maps - {Loc(e, PFTEMP)}, fault := c.fault[e := Idle])
    case ForkStart(e, child, page) =>
      c.(phys := c.phys[page := Zeros(PGSIZE)], maps := c.maps[Loc(child, XSTACK) := Private(page)],
         fault := c.fault[child := Idle], fork := c.fork[child := Building(e)][e := Forking(child, UTEXT, None, {})])
    case ForkBare(e, child) =>
      c.(fault := c.fault[child := Idle],
         fork := c.fork[child := Building(e)][e := Forking(child, UTEXT, None, {XSTACK})])
    case DupNext(e) =>
      var Forking(child, v, half, lost) := c.fork[e];
      if Loc(e, v) !in c.maps then c.(fork := c.fork[e := Forking(child, v + 1, None, lost)])
      else
        var pte := c.maps[Loc(e, v)];
        if pte.share then
          c.(maps := c.maps[Loc(child, v) := pte], fork := c.fork[e := Forking(child, v + 1, None, lost)])
        else if pte.w || pte.cow then
          c.(maps := c.maps[Loc(child, v) := CopyOnWrite(pte.page)],
             fork := c.fork[e := Forking(child, v, Some(pte.w), lost)])
        else
          c.(maps := c.maps[Loc(child, v) := pte], fork := c.fork[e := Forking(child, v + 1, None, lost)])
    case DupFails(e) =>
      var Forking(child, v, half, lost) := c.fork[e];
      c.(fork := c.fork[e := Forking(child, v + 1, None, lost + {v})])
    case DupSelf(e) =>
      assert ForkOk(c, e);
      var Forking(child, v, half, lost) := c.fork[e];
      c.(maps := c.maps[Loc(e, v) := CopyOnWrite(c.maps[Loc(e, v)].page)],
         fork := c.fork[e := Forking(child, v + 1, None, lost)])
    case ForkDone(e) =>
      c.(fork := c.fork[c.fork[e].child := NoFork][e := NoFork])
    case Alloc(e, v, page, w, share) =>
      c.(phys := c.phys[page := Zeros(PGSIZE)], maps := c.maps[Loc(e, v) := Pte(page, w, false, share)])
    case Unmap(e, v) =>
      c.(maps := c.maps - {Loc(e, v)})
    case MapShared(e, v, d) =>
      c.(maps := c.maps[Loc(e, d) := c.maps[Loc(e, v)]])
    case Exit(e) =>
      c.(maps := Without(c.maps, e), fault := c.fault - {e},
         fork := (if c.fork[e].Forking? then c.fork[c.fork[e].child := Abandoned] else c.fork) - {e})
  }

  /** The machine without sharing: every environment owns its pages, and a copy is made at once. */
  type Memory = map<Loc, Content>

  datatype Eager =
    | Skip
    | Put(l: Loc, off: nat, b: Byte)
    | Clear(l: Loc)
    | Copy(src: Loc, dst: Loc)
    | Drop(l: Loc)
    | DropAll(e: nat)

  function DoEager(m: Memory, x: Eager): Memory {
    match x
    case Skip => m
    case Put(l, off, b) => if l in m && off < |m[l]| then m[l := m[l][off := b]] else m
    case Clear(l) => m[l := Zeros(PGSIZE)]
    case Copy(src, dst) => if src in m then m[dst := m[src]] else m
    case Drop(l) => m - {l}
    case DropAll(e) => Without(m, e)
  }

  /** What each step means for private memories. A write fault means nothing. A
      page that was writable when duppage began is copied when duppage ends; one
      that was already copy-on-write is copied at duppage's first call. */
  function Meaning(c: State, a: Action): Eager
    requires Enabled(c, a)
  {
    match a
    case Store(e, v, off, b) => if c.maps[Loc(e, v)].share then Skip else Put(Loc(e, v), off, b)
    case ForkStart(e, child, page) => Clear(Loc(child, XSTACK))
    case DupNext(e) =>
      var l, k := Loc(e, c.fork[e].next), Loc(c.fork[e].child, c.fork[e].next);
      if l !in c.maps || c.maps[l].share then Skip else Copy(l, k)
    case DupSelf(e) =>
      if c.fork[e].half.value then Copy(Loc(e, c.fork[e].next), Loc(c.fork[e].child, c.fork[e].next)) else Skip
    case Alloc(e, v, page, w, share) => if share then Drop(Loc(e, v)) else Clear(Loc(e, v))
    case Unmap(e, v) => Drop(Loc(e, v))
    case MapShared(e, v, d) => Drop(Loc(e, d))
    case Exit(e) => DropAll(e)
    case _ => Skip
  }

  predicate IsPrivate(c: State, l: Loc) {
    l in c.maps && l.v != PFTEMP && !c.maps[l].share
  }

  predicate Orphan(c: State, l: Loc) {
    l.e in c.fork && c.fork[l.e].Abandoned?
  }

  /** Page `l` is private in one machine exactly if it is in the other, and reads the same. */
  ghost predicate Reads(c: State, m: Memory, l: Loc)
    requires Basic(c)
  {
    && (l in m <==> IsPrivate(c, l))
    && (l in m && !HalfDup(c, l) && !Orphan(c, l) ==> m[l] == c.phys[c.maps[l].page])
  }

  ghost predicate Refines(c: State, m: Memory) {
    Basic(c) && forall l {:trigger Reads(c, m, l)} :: Reads(c, m, l)
  }

  ghost predicate Good(c: State, m: Memory) {
    Inv(c) && Refines(c, m)
  }

  lemma StoreInv(c: State, a: Action)
    requires Inv(c) && Enabled(c, a) && a.Store?
    ensures Inv(Do(c, a))
  {
    var c' := Do(c, a);
    var t := Loc(a.e, a.v);
    assert FaultOk(c, a.e);
    forall e | e in c'.fault ensures FaultOk(c', e) {
      assert FaultOk(c, e);
      if c.fault[e].Copying? {
        assert PairOk(c, t, Loc(e, PFTEMP)) && PairOk(c, Loc(e, PFTEMP), t) && PairOk(c, t, Loc(e, c.fault[e].v));
      }
    }
    forall e | e in c'.fork ensures ForkOk(c', e) {
      assert ForkOk(c, e);
      forall v | c'.fork[e].Forking? && UTEXT <= v <= STACK ensures Covered(c'.maps, e, c'.fork[e], v) {
        assert Covered(c.maps, e, c.fork[e], v);
      }
    }
    forall l, k | l in c'.maps && k in c'.maps ensures PairOk(c', l, k) {
      assert PairOk(c, l, k);
    }
  }

  lemma StoreReads(c: State, m: Memory, a: Action, l: Loc)
    requires Good(c, m) && Enabled(c, a) && a.Store? && Inv(Do(c, a))
    ensures Reads(Do(c, a), DoEager(m, Meaning(c, a)), l)
  {
    var t := Loc(a.e, a.v);
    assert FaultOk(c, a.e);
    assert Reads(c, m, l) && Reads(c, m, t);
    if l in c.maps {
      assert PairOk(c, t, l) && ForkOk(c, l.e);
    }
  }

  lemma FaultAllocInv(c: State, a: Action)
    requires Inv(c) && Enabled(c, a) && a.FaultAlloc?
    ensures Inv(Do(c, a))
  {
    var c' := Do(c, a);
    assert FaultOk(c, a.e);
    forall e | e in c'.fault ensures FaultOk(c', e) {
      assert FaultOk(c, e);
    }
    forall e | e in c'.fork ensures ForkOk(c', e) {
      assert ForkOk(c, e);
      forall v | c'.fork[e].Forking? && UTEXT <= v <= STACK ensures Covered(c'.maps, e, c'.fork[e], v) {
        assert Covered(c.maps, e, c.fork[e], v);
      }
    }
    forall l, k | l in c'.maps && k in c'.maps ensures PairOk(c', l, k) {
      if l in c.maps && k in c.maps {
        assert PairOk(c, l, k);
      }
    }
  }

  lemma FaultAllocReads(c: State, m: Memory, a: Action, l: Loc)
    requires Good(c, m) && Enabled(c, a) && a.FaultAlloc? && Inv(Do(c, a))
    ensures Reads(Do(c, a), DoEager(m, Meaning(c, a)), l)
  {
    assert FaultOk(c, a.e);
    assert Reads(c, m, l);
    if l in c.maps {
      assert ForkOk(c, l.e);
    }
  }

  lemma CopyByteInv(c: State, a: Action)
    requires Inv(c) && Enabled(c, a) && a.CopyByte?
    ensures Inv(Do(c, a))
  {
    var c' := Do(c, a);
    var t := Loc(a.e, PFTEMP);
    assert FaultOk(c, a.e);
    forall e | e in c'.fault ensures FaultOk(c', e) {
      assert FaultOk(c, e);
      if c.fault[e].Copying? {
        assert PairOk(c, t, Loc(e, PFTEMP)) && PairOk(c, Loc(e, PFTEMP), t) && PairOk(c, t, Loc(e, c.fault[e].v));
      }
    }
    forall e | e in c'.fork ensures ForkOk(c', e) {
      assert ForkOk(c, e);
      forall v | c'.fork[e].Forking? && UTEXT <= v <= STACK ensures Covered(c'.maps, e, c'.fork[e], v) {
        assert Covered(c.maps, e, c.fork[e], v);
      }
    }
    forall l, k | l in c'.maps && k in c'.maps ensures PairOk(c', l, k) {
      assert PairOk(c, l, k);
    }
  }

  lemma CopyByteReads(c: State, m: Memory, a: Action, l: Loc)
    requires Good(c, m) && Enabled(c, a) && a.CopyByte? && Inv(Do(c, a))
    ensures Reads(Do(c, a), DoEager(m, Meaning(c, a)), l)
  {
    var t := Loc(a.e, PFTEMP);
    assert FaultOk(c, a.e);
    assert Reads(c, m, l) && Reads(c, m, t);
    if l in c.maps {
      assert PairOk(c, t, l) && ForkOk(c, l.e);
    }
  }

  lemma MoveCopyPairs(c: State, a: Action, l: Loc, k: Loc)
    requires Inv(c) && Enabled(c, a) && a.MoveCopy?
    requires l in Do(c, a).maps && k in Do(c, a).maps
    ensures PairOk(Do(c, a), l, k)
  {
    assert FaultOk(c, a.e);
    var t := Loc(a.e, PFTEMP);
    assert ForkOk(c, a.e) && ForkOk(c, l.e) && ForkOk(c, k.e);
    assert PairOk(c, l, k) && PairOk(c, t, l) && PairOk(c, t, k) && PairOk(c, l, t) && PairOk(c, k, t);
  }

  lemma MoveCopyInv(c: State, a: Action)
    requires Inv(c) && Enabled(c, a) && a.MoveCopy?
    ensures Inv(Do(c, a))
  {
    var c' := Do(c, a);
    assert FaultOk(c, a.e);
    forall e | e in c'.fault ensures FaultOk(c', e) {
      assert FaultOk(c, e);
    }
    forall e | e in c'.fork ensures ForkOk(c', e) {
      assert ForkOk(c, e);
      forall v | c'.fork[e].Forking? && UTEXT <= v <= STACK ensures Covered(c'.maps, e, c'.fork[e], v) {
        assert Covered(c.maps, e, c.fork[e], v);
      }
    }
    forall l, k | l in c'.maps && k in c'.maps ensures PairOk(c', l, k) {
      MoveCopyPairs(c, a, l, k);
    }
  }

  lemma MoveCopyReads(c: State, m: Memory, a: Action, l: Loc)
    requires Good(c, m) && Enabled(c, a) && a.MoveCopy? && Inv(Do(c, a))
    ensures Reads(Do(c, a), DoEager(m, Meaning(c, a)), l)
  {
    assert FaultOk(c, a.e);
    assert c.phys[c.maps[Loc(a.e, PFTEMP)].page] == c.phys[c.maps[Loc(a.e, c.fault[a.e].v)].page];
    assert Reads(c, m, l);
    if l in c.maps {
      assert ForkOk(c, l.e);
    }
  }

  lemma UnmapTempInv(c: State, a: Action)
    requires Inv(c) && Enabled(c, a) && a.UnmapTemp?
    ensures Inv(Do(c, a))
  {
    var c' := Do(c, a);
    assert FaultOk(c, a.e);
    forall e | e in c'.fault ensures FaultOk(c', e) {
      assert FaultOk(c, e);
    }
    forall e | e in c'.fork ensures ForkOk(c', e) {
      assert ForkOk(c, e);
      forall v | c'.fork[e].Forking? && UTEXT <= v <= STACK ensures Covered(c'.maps, e, c'.fork[e], v) {
        assert Covered(c.maps, e, c.fork[e], v);
      }
    }
    forall l, k | l in c'.maps && k in c'.maps ensures PairOk(c', l, k) {
      assert PairOk(c, l, k);
    }
  }

  lemma UnmapTempReads(c: State, m: Memory, a: Action, l: Loc)
    requires Good(c, m) && Enabled(c, a) && a.UnmapTemp? && Inv(Do(c, a))
    ensures Reads(Do(c, a), DoEager(m, Meaning(c, a)), l)
  {
    assert FaultOk(c, a.e);
    assert Reads(c, m, l);
    if l in c.maps {
      assert ForkOk(c, l.e);
    }
  }

  lemma ForkStartForks(c: State, a: Action, e: nat)
    requires Inv(c) && Enabled(c, a) && a.ForkStart? && e in c.fork && e != a.e
    ensures Basic(Do(c, a)) && ForkOk(Do(c, a), e)
  {
    assert ForkOk(c, e);
    forall v | c.fork[e].Forking? && UTEXT <= v <= STACK ensures Covered(Do(c, a).maps, e, c.fork[e], v) {
      assert Covered(c.maps, e, c.fork[e], v);
    }
  }

  lemma ForkStartPairs(c: State, a: Action, l: Loc, k: Loc)
    requires Inv(c) && Enabled(c, a) && a.ForkStart? && l in Do(c, a).maps && k in Do(c, a).maps
    ensures PairOk(Do(c, a), l, k)
  {
    if l in c.maps && k in c.maps {
      assert PairOk(c, l, k);
    }
  }

  lemma ForkStartInv(c: State, a: Action)
    requires Inv(c) && Enabled(c, a) && a.ForkStart?
    ensures Inv(Do(c, a))
  {
    var c' := Do(c, a);
    forall e | e in c'.fault ensures FaultOk(c', e) {
      if e != a.child {
        assert FaultOk(c, e);
      }
    }
    forall e | e in c'.fork ensures ForkOk(c', e) {
      if e == a.e {
        assert forall v :: UTEXT <= v <= STACK ==> Covered(c'.maps, e, c'.fork[e], v);
      } else if e != a.child {
        ForkStartForks(c, a, e);
      }
    }
    forall l, k | l in c'.maps && k in c'.maps ensures PairOk(c', l, k) {
      ForkStartPairs(c, a, l, k);
    }
  }

  lemma ForkStartReads(c: State, m: Memory, a: Action, l: Loc)
    requires Good(c, m) && Enabled(c, a) && a.ForkStart? && Inv(Do(c, a))
    ensures Reads(Do(c, a), DoEager(m, Meaning(c, a)), l)
  {
    assert Reads(c, m, l);
    if l in c.maps {
      assert ForkOk(c, l.e);
    }
  }

  lemma ForkDoneForks(c: State, a: Action, e: nat)
    requires Inv(c) && Enabled(c, a) && a.ForkDone? && e in c.fork
    ensures Basic(Do(c, a)) && ForkOk(Do(c, a), e)
  {
    assert ForkOk(c, a.e) && ForkOk(c, e);
    forall v | Do(c, a).fork[e].Forking? && UTEXT <= v <= STACK ensures Covered(c.maps, e, c.fork[e], v) {
      assert Covered(c.maps, e, c.fork[e], v);
    }
  }

  lemma ForkDonePairs(c: State, a: Action, l: Loc, k: Loc)
    requires Inv(c) && Enabled(c, a) && a.ForkDone? && l in c.maps && k in c.maps
    ensures PairOk(Do(c, a), l, k)
  {
    assert ForkOk(c, a.e) && ForkOk(c, l.e) && ForkOk(c, k.e);
    assert PairOk(c, l, k);
  }

  lemma ForkDoneInv(c: State, a: Action)
    requires Inv(c) && Enabled(c, a) && a.ForkDone?
    ensures Inv(Do(c, a))
  {
    var c' := Do(c, a);
    assert ForkOk(c, a.e);
    forall e | e in c'.fault ensures FaultOk(c', e) {
      assert FaultOk(c, e) && ForkOk(c, e);
    }
    forall e | e in c'.fork ensures ForkOk(c', e) {
      ForkDoneForks(c, a, e);
    }
    forall l, k | l in c'.maps && k in c'.maps ensures PairOk(c', l, k) {
      ForkDonePairs(c, a, l, k);
    }
  }

  lemma ForkDoneReads(c: State, m: Memory, a: Action, l: Loc)
    requires Good(c, m) && Enabled(c, a) && a.ForkDone? && Inv(Do(c, a))
    ensures Reads(Do(c, a), DoEager(m, Meaning(c, a)), l)
  {
    assert ForkOk(c, a.e);
    assert Reads(c, m, l);
    if l in c.maps {
      assert ForkOk(c, l.e);
    }
  }

  lemma AllocInv(c: State, a: Action)
    requires Inv(c) && Enabled(c, a) && a.Alloc?
    ensures Inv(Do(c, a))
  {
    var c' := Do(c, a);
    forall e | e in c'.fault ensures FaultOk(c', e) {
      assert FaultOk(c, e);
    }
    forall e | e in c'.fork ensures ForkOk(c', e) {
      assert ForkOk(c, e);
      forall v | c'.fork[e].Forking? && UTEXT <= v <= STACK ensures Covered(c'.maps, e, c'.fork[e], v) {
        assert Covered(c.maps, e, c.fork[e], v);
      }
    }
    forall l, k | l in c'.maps && k in c'.maps ensures PairOk(c', l, k) {
      if l in c.maps && k in c.maps {
        assert PairOk(c, l, k);
      }
    }
  }

  lemma AllocReads(c: State, m: Memory, a: Action, l: Loc)
    requires Good(c, m) && Enabled(c, a) && a.Alloc? && Inv(Do(c, a))
    ensures Reads(Do(c, a), DoEager(m, Meaning(c, a)), l)
  {
    assert Reads(c, m, l);
    if l in c.maps {
      assert ForkOk(c, l.e);
    }
  }

  lemma UnmapInv(c: State, a: Action)
    requires Inv(c) && Enabled(c, a) && a.Unmap?
    ensures Inv(Do(c, a))
  {
    var c' := Do(c, a);
    forall e | e in c'.fault ensures FaultOk(c', e) {
      assert FaultOk(c, e);
    }
    forall e | e in c'.fork ensures ForkOk(c', e) {
      assert ForkOk(c, e);
      forall v | c'.fork[e].Forking? && UTEXT <= v <= STACK ensures Covered(c'.maps, e, c'.fork[e], v) {
        assert Covered(c.maps, e, c.fork[e], v);
      }
    }
    forall l, k | l in c'.maps && k in c'.maps ensures PairOk(c', l, k) {
      assert PairOk(c, l, k);
    }
  }

  lemma UnmapReads(c: State, m: Memory, a: Action, l: Loc)
    requires Good(c, m) && Enabled(c, a) && a.Unmap? && Inv(Do(c, a))
    ensures Reads(Do(c, a), DoEager(m, Meaning(c, a)), l)
  {
    assert Reads(c, m, l);
    if l in c.maps {
      assert ForkOk(c, l.e);
    }
  }

  lemma MapSharedInv(c: State, a: Action)
    requires Inv(c) && Enabled(c, a) && a.MapShared?
    ensures Inv(Do(c, a))
  {
    var c' := Do(c, a);
    forall e | e in c'.fault ensures FaultOk(c', e) {
      assert FaultOk(c, e);
    }
    forall e | e in c'.fork ensures ForkOk(c', e) {
      assert ForkOk(c, e);
      forall v | c'.fork[e].Forking? && UTEXT <= v <= STACK ensures Covered(c'.maps, e, c'.fork[e], v) {
        assert Covered(c.maps, e, c.fork[e], v);
      }
    }
    var s := Loc(a.e, a.v);
    forall l, k | l in c'.maps && k in c'.maps ensures PairOk(c', l, k) {
      if l in c.maps && k in c.maps {
        assert PairOk(c, l, k);
      }
      if l in c.maps {
        assert PairOk(c, l, s);
      }
      if k in c.maps {
        assert PairOk(c, s, k) && PairOk(c, k, s);
      }
    }
  }

  lemma MapSharedReads(c: State, m: Memory, a: Action, l: Loc)
    requires Good(c, m) && Enabled(c, a) && a.MapShared? && Inv(Do(c, a))
    ensures Reads(Do(c, a), DoEager(m, Meaning(c, a)), l)
  {
    assert Reads(c, m, l);
    if l in c.maps {
      assert ForkOk(c, l.e);
    }
  }

  lemma ExitForks(c: State, a: Action, e: nat)
    requires Inv(c) && Enabled(c, a) && a.Exit? && e in c.fork && e != a.e
    ensures Basic(Do(c, a)) && ForkOk(Do(c, a), e)
  {
    assert ForkOk(c, a.e) && ForkOk(c, e);
    var c' := Do(c, a);
    forall v | c'.fork[e].Forking? && UTEXT <= v <= STACK ensures Covered(c'.maps, e, c'.fork[e], v) {
      assert Covered(c.maps, e, c.fork[e], v);
    }
  }

  lemma ExitPairs(c: State, a: Action, l: Loc, k: Loc)
    requires Inv(c) && Enabled(c, a) && a.Exit? && l in Do(c, a).maps && k in Do(c, a).maps
    ensures PairOk(Do(c, a), l, k)
  {
    assert ForkOk(c, a.e) && ForkOk(c, l.e) && ForkOk(c, k.e);
    assert PairOk(c, l, k);
  }

  lemma ExitInv(c: State, a: Action)
    requires Inv(c) && Enabled(c, a) && a.Exit?
    ensures Inv(Do(c, a))
  {
    var c' := Do(c, a);
    assert ForkOk(c, a.e);
    forall e | e in c'.fault ensures FaultOk(c', e) {
      assert FaultOk(c, e) && ForkOk(c, e);
    }
    forall e | e in c'.fork ensures ForkOk(c', e) {
      ExitForks(c, a, e);
    }
    forall l, k | l in c'.maps && k in c'.maps ensures PairOk(c', l, k) {
      ExitPairs(c, a, l, k);
    }
  }

  lemma ExitReads(c: State, m: Memory, a: Action, l: Loc)
    requires Good(c, m) && Enabled(c, a) && a.Exit? && Inv(Do(c, a))
    ensures Reads(Do(c, a), DoEager(m, Meaning(c, a)), l)
  {
    assert ForkOk(c, a.e);
    assert Reads(c, m, l);
    if l in c.maps {
      assert ForkOk(c, l.e);
    }
  }

  lemma ForkBareForks(c: State, a: Action, e: nat)
    requires Inv(c) && Enabled(c, a) && a.ForkBare? && e in c.fork && e != a.e
    ensures Basic(Do(c, a)) && ForkOk(Do(c, a), e)
  {
    assert ForkOk(c, e);
    forall v | c.fork[e].Forking? && UTEXT <= v <= STACK ensures Covered(Do(c, a).maps, e, c.fork[e], v) {
      assert Covered(c.maps, e, c.fork[e], v);
    }
  }

  lemma ForkBareInv(c: State, a: Action)
    requires Inv(c) && Enabled(c, a) && a.ForkBare?
    ensures Inv(Do(c, a))
  {
    var c' := Do(c, a);
    forall e | e in c'.fault ensures FaultOk(c', e) {
      if e != a.child {
        assert FaultOk(c, e);
      }
    }
    forall e | e in c'.fork ensures ForkOk(c', e) {
      if e == a.e {
        assert forall v :: UTEXT <= v <= STACK ==> Covered(c'.maps, e, c'.fork[e], v);
      } else if e != a.child {
        ForkBareForks(c, a, e);
      }
    }
    forall l, k | l in c'.maps && k in c'.maps ensures PairOk(c', l, k) {
      assert PairOk(c, l, k);
    }
  }

  lemma ForkBareReads(c: State, m: Memory, a: Action, l: Loc)
    requires Good(c, m) && Enabled(c, a) && a.ForkBare? && Inv(Do(c, a))
    ensures Reads(Do(c, a), DoEager(m, Meaning(c, a)), l)
  {
    assert Reads(c, m, l);
    if l in c.maps {
      assert ForkOk(c, l.e);
    }
  }

  lemma DupFailsForks(c: State, a: Action, e: nat)
    requires Inv(c) && Enabled(c, a) && a.DupFails? && e in c.fork
    ensures Basic(Do(c, a)) && FaultOk(Do(c, a), e) && ForkOk(Do(c, a), e)
  {
    var c' := Do(c, a);
    assert ForkOk(c, a.e) && FaultOk(c, e) && ForkOk(c, e);
    forall v | c'.fork[e].Forking? && UTEXT <= v <= STACK ensures Covered(c'.maps, e, c'.fork[e], v) {
      assert Covered(c.maps, e, c.fork[e], v);
    }
  }

  lemma DupFailsPairs(c: State, a: Action, l: Loc, k: Loc)
    requires Inv(c) && Enabled(c, a) && a.DupFails? && l in c.maps && k in c.maps
    ensures PairOk(Do(c, a), l, k)
  {
    assert ForkOk(c, a.e) && PairOk(c, l, k) && ForkOk(c, l.e) && ForkOk(c, k.e);
  }

  lemma DupFailsInv(c: State, a: Action)
    requires Inv(c) && Enabled(c, a) && a.DupFails?
    ensures Inv(Do(c, a))
  {
    var c' := Do(c, a);
    hide FaultOk, ForkOk, PairOk;
    forall e | e in c'.fork ensures FaultOk(c', e) && ForkOk(c', e) {
      DupFailsForks(c, a, e);
    }
    forall l, k | l in c'.maps && k in c'.maps ensures PairOk(c', l, k) {
      DupFailsPairs(c, a, l, k);
    }
  }

  lemma DupFailsReads(c: State, m: Memory, a: Action, l: Loc)
    requires Good(c, m) && Enabled(c, a) && a.DupFails? && Inv(Do(c, a))
    ensures Reads(Do(c, a), DoEager(m, Meaning(c, a)), l)
  {
    assert ForkOk(c, a.e);
    assert Reads(c, m, l);
    if l in c.maps {
      assert ForkOk(c, l.e);
    }
  }

  lemma DupNextPairs(c: State, a: Action, l: Loc, k: Loc)
    requires Inv(c) && Enabled(c, a) && a.DupNext?
    requires l in Do(c, a).maps && k in Do(c, a).maps
    ensures PairOk(Do(c, a), l, k)
  {
    assert ForkOk(c, a.e);
    var s := Loc(a.e, c.fork[a.e].next);
    if l in c.maps && k in c.maps {
      assert PairOk(c, l, k);
    }
    if l in c.maps && s in c.maps {
      assert PairOk(c, l, s) && PairOk(c, s, l);
    }
    if k in c.maps && s in c.maps {
      assert PairOk(c, k, s) && PairOk(c, s, k);
    }
  }

  lemma DupNextCovered(c: State, a: Action, e: nat, v: nat)
    requires Inv(c) && Enabled(c, a) && a.DupNext? && e in c.fork
    requires e != a.e && c.fork[e].Forking? && UTEXT <= v <= STACK
    ensures Covered(Do(c, a).maps, e, c.fork[e], v)
  {
    assert ForkOk(c, a.e) && ForkOk(c, e);
    assert Covered(c.maps, e, c.fork[e], v);
  }

  lemma DupNextOthers(c: State, a: Action, e: nat)
    requires Inv(c) && Enabled(c, a) && a.DupNext? && e in c.fork && e != a.e
    ensures Basic(Do(c, a)) && ForkOk(Do(c, a), e)
  {
    hide FaultOk, PairOk, Covered;
    assert ForkOk(c, a.e) && ForkOk(c, e);
    var child, next := c.fork[a.e].child, c.fork[a.e].next;
    assert c.fork[e].Forking? ==> e != child && c.fork[e].child != child;
    assert forall l :: l in c.maps && l != Loc(child, next) ==> l in Do(c, a).maps && Do(c, a).maps[l] == c.maps[l];
    forall v | c.fork[e].Forking? && UTEXT <= v <= STACK ensures Covered(Do(c, a).maps, e, c.fork[e], v) {
      DupNextCovered(c, a, e, v);
    }
  }

  lemma DupNextSelf(c: State, a: Action)
    requires Inv(c) && Enabled(c, a) && a.DupNext?
    ensures Basic(Do(c, a)) && ForkOk(Do(c, a), a.e)
  {
    assert ForkOk(c, a.e) && ForkOk(c, c.fork[a.e].child);
    var c' := Do(c, a);
    forall v | UTEXT <= v <= STACK ensures Covered(c'.maps, a.e, c'.fork[a.e], v) {
      assert Covered(c.maps, a.e, c.fork[a.e], v);
    }
  }

  lemma DupNextFault(c: State, a: Action, e: nat)
    requires Inv(c) && Enabled(c, a) && a.DupNext? && Basic(Do(c, a)) && e in c.fault
    ensures FaultOk(Do(c, a), e)
  {
    assert ForkOk(c, a.e);
    assert FaultOk(c, c.fork[a.e].child) && FaultOk(c, e);
  }

  lemma DupNextInv(c: State, a: Action)
    requires Inv(c) && Enabled(c, a) && a.DupNext?
    ensures Inv(Do(c, a))
  {
    var c' := Do(c, a);
    DupNextSelf(c, a);
    forall e | e in c'.fault ensures FaultOk(c', e) {
      DupNextFault(c, a, e);
    }
    forall e | e in c'.fork ensures ForkOk(c', e) {
      if e == a.e {
        DupNextSelf(c, a);
      } else {
        DupNextOthers(c, a, e);
      }
    }
    forall l, k | l in c'.maps && k in c'.maps ensures PairOk(c', l, k) {
      DupNextPairs(c, a, l, k);
    }
  }

  lemma DupNextReads(c: State, m: Memory, a: Action, l: Loc)
    requires Good(c, m) && Enabled(c, a) && a.DupNext? && Inv(Do(c, a))
    ensures Reads(Do(c, a), DoEager(m, Meaning(c, a)), l)
  {
    hide PairOk, Duplicate;
    assert ForkOk(c, a.e);
    var child := c.fork[a.e].child;
    var s, d := Loc(a.e, c.fork[a.e].next), Loc(child, c.fork[a.e].next);
    assert ForkOk(c, child) && FaultOk(c, child) && FaultOk(c, a.e);
    assert Covered(c.maps, a.e, c.fork[a.e], s.v);
    assert Reads(c, m, l) && Reads(c, m, s);
    if l in c.maps {
      assert ForkOk(c, l.e);
    }
  }

  lemma DupSelfPairs(c: State, a: Action, l: Loc, k: Loc)
    requires Inv(c) && Enabled(c, a) && a.DupSelf?
    requires l in Do(c, a).maps && k in Do(c, a).maps
    ensures PairOk(Do(c, a), l, k)
  {
    assert ForkOk(c, a.e) && ForkOk(c, l.e) && ForkOk(c, k.e) && FaultOk(c, a.e);
    assert PairOk(c, l, k);
  }

  lemma DupSelfForks(c: State, a: Action, e: nat)
    requires Inv(c) && Enabled(c, a) && a.DupSelf? && e in c.fork
    ensures Basic(Do(c, a)) && FaultOk(Do(c, a), e) && ForkOk(Do(c, a), e)
  {
    var c' := Do(c, a);
    assert ForkOk(c, a.e) && FaultOk(c, a.e) && FaultOk(c, e) && ForkOk(c, e);
    forall v | c'.fork[e].Forking? && UTEXT <= v <= STACK ensures Covered(c'.maps, e, c'.fork[e], v) {
      assert Covered(c.maps, e, c.fork[e], v);
    }
  }

  lemma DupSelfInv(c: State, a: Action)
    requires Inv(c) && Enabled(c, a) && a.DupSelf?
    ensures Inv(Do(c, a))
  {
    assert ForkOk(c, a.e);
    var c' := Do(c, a);
    assert Basic(c');
    hide FaultOk, ForkOk, PairOk;
    forall e | e in c'.fork ensures FaultOk(c', e) && ForkOk(c', e) {
      DupSelfForks(c, a, e);
    }
    forall l, k | l in c'.maps && k in c'.maps ensures PairOk(c', l, k) {
      DupSelfPairs(c, a, l, k);
    }
  }

  lemma DupSelfReads(c: State, m: Memory, a: Action, l: Loc)
    requires Good(c, m) && Enabled(c, a) && a.DupSelf? && Inv(Do(c, a))
    ensures Reads(Do(c, a), DoEager(m, Meaning(c, a)), l)
  {
    assert ForkOk(c, a.e);
    var child := c.fork[a.e].child;
    var s, d := Loc(a.e, c.fork[a.e].next), Loc(child, c.fork[a.e].next);
    assert ForkOk(c, child) && FaultOk(c, child) && FaultOk(c, a.e);
    assert Reads(c, m, l) && Reads(c, m, s);
    if l in c.maps {
      assert ForkOk(c, l.e);
    }
  }

  lemma StepInv(c: State, a: Action)
    requires Inv(c) && Enabled(c, a)
    ensures Inv(Do(c, a))
  {
    match a {
      case Store(_, _, _, _) => StoreInv(c, a);
      case FaultAlloc(_, _, _) => FaultAllocInv(c, a);
      case CopyByte(_) => CopyByteInv(c, a);
      case MoveCopy(_) => MoveCopyInv(c, a);
      case UnmapTemp(_) => UnmapTempInv(c, a);
      case ForkStart(_, _, _) => ForkStartInv(c, a);
      case DupNext(_) => DupNextInv(c, a);
      case DupSelf(_) => DupSelfInv(c, a);
      case ForkBare(_, _) => ForkBareInv(c, a);
      case DupFails(_) => DupFailsInv(c, a);
      case MapShared(_, _, _) => MapSharedInv(c, a);
      case Exit(_) => ExitInv(c, a);
      case ForkDone(_) => ForkDoneInv(c, a);
      case Alloc(_, _, _, _, _) => AllocInv(c, a);
      case Unmap(_, _) => UnmapInv(c, a);
    }
  }

  /** Every step keeps the sharing discipline, and both machines read alike after it. */
  lemma StepRefines(c: State, m: Memory, a: Action)
    requires Good(c, m) && Enabled(c, a)
    ensures Good(Do(c, a), DoEager(m, Meaning(c, a)))
  {
    hide Do, Reads, DoEager, Meaning, Enabled, FaultOk, ForkOk, PairOk;
    StepInv(c, a);
    forall l ensures Reads(Do(c, a), DoEager(m, Meaning(c, a)), l) {
      match a {
        case Store(_, _, _, _) => StoreReads(c, m, a, l);
        case FaultAlloc(_, _, _) => FaultAllocReads(c, m, a, l);
        case CopyByte(_) => CopyByteReads(c, m, a, l);
        case MoveCopy(_) => MoveCopyReads(c, m, a, l);
        case UnmapTemp(_) => UnmapTempReads(c, m, a, l);
        case ForkStart(_, _, _) => ForkStartReads(c, m, a, l);
        case DupNext(_) => DupNextReads(c, m, a, l);
        case DupSelf(_) => DupSelfReads(c, m, a, l);
        case ForkBare(_, _) => ForkBareReads(c, m, a, l);
        case DupFails(_) => DupFailsReads(c, m, a, l);
        case MapShared(_, _, _) => MapSharedReads(c, m, a, l);
        case Exit(_) => ExitReads(c, m, a, l);
        case ForkDone(_) => ForkDoneReads(c, m, a, l);
        case Alloc(_, _, _, _, _) => AllocReads(c, m, a, l);
        case Unmap(_, _) => UnmapReads(c, m, a, l);
      }
    }
  }

  /** A step changes no page table but the caller's and that of the child it is
      building, and gives the pages it maps the entries that the call asks for. */
  lemma EntriesExactly(c: State, a: Action, l: Loc)
    requires Inv(c) && Enabled(c, a)
    ensures l.e != a.e && !(c.fork[a.e].Forking? && c.fork[a.e].child == l.e) && !(a.ForkStart? && a.child == l.e) ==>
              (l in Do(c, a).maps <==> l in c.maps) && (l in c.maps ==> Do(c, a).maps[l] == c.maps[l])
    ensures a.Alloc? ==> Do(c, a).maps == c.maps[Loc(a.e, a.v) := Pte(a.page, a.w, false, a.share)]
    ensures a.MapShared? ==> Do(c, a).maps == c.maps[Loc(a.e, a.d) := c.maps[Loc(a.e, a.v)]]
    ensures a.Unmap? ==> Do(c, a).maps == c.maps - {Loc(a.e, a.v)}
  {
    assert FaultOk(c, a.e) && ForkOk(c, a.e);
  }

  /** The contents that a read of page `l` sees. */
  function View(c: State, l: Loc): Content {
    if l in c.maps && c.maps[l].page < |c.phys| then c.phys[c.maps[l].page] else []
  }

  ghost predicate ReadsAlike(c: State, m: Memory) {
    forall l :: IsPrivate(c, l) && l.e in c.fork && !Waits(c.fork[l.e]) ==> l in m && View(c, l) == m[l]
  }

  lemma GoodReads(c: State, m: Memory)
    requires Good(c, m)
    ensures ReadsAlike(c, m)
  {
    forall l | IsPrivate(c, l) && l.e in c.fork && !Waits(c.fork[l.e]) ensures l in m && View(c, l) == m[l] {
      assert Reads(c, m, l);
    }
  }

  /** Every action of the sequence can be taken in turn. Inv is what Do asks for; by
      StepInv it holds after every enabled action and rules out no run. */
  ghost predicate Possible(c: State, acts: seq<Action>)
    decreases |acts|
  {
    Inv(c) && (acts == [] || (Enabled(c, acts[0]) && Possible(Do(c, acts[0]), acts[1..])))
  }

  ghost function After(c: State, acts: seq<Action>): State
    requires Possible(c, acts)
    decreases |acts|
  {
    if acts == [] then c else After(Do(c, acts[0]), acts[1..])
  }

  /** The same run on private memories. */
  ghost function AfterEager(c: State, m: Memory, acts: seq<Action>): Memory
    requires Possible(c, acts)
    decreases |acts|
  {
    if acts == [] then m else AfterEager(Do(c, acts[0]), DoEager(m, Meaning(c, acts[0])), acts[1..])
  }

  /** Over every run of any number of environments, each running environment
      reads from its private pages what it would read without sharing. */
  lemma {:induction false} CowRefinesEager(c: State, m: Memory, acts: seq<Action>)
    requires Good(c, m) && Possible(c, acts)
    ensures Good(After(c, acts), AfterEager(c, m, acts))
    ensures ReadsAlike(After(c, acts), AfterEager(c, m, acts))
    decreases |acts|
  {
    if acts == [] {
      GoodReads(c, m);
    } else {
      StepRefines(c, m, acts[0]);
      CowRefinesEager(Do(c, acts[0]), DoEager(m, Meaning(c, acts[0])), acts[1..]);
    }
  }

  /** A machine with one environment and no pages is a start. */
  lemma StartGood(phys: seq<Content>, e: nat)
    requires forall p :: 0 <= p < |phys| ==> |phys[p]| == PGSIZE
    ensures Good(State(phys, map[], map[e := Idle], map[e := NoFork]), map[])
  {
    var c := State(phys, map[], map[e := Idle], map[e := NoFork]);
    assert FaultOk(c, e) && ForkOk(c, e);
    forall l ensures Reads(c, map[], l) {
    }
  }

  /** Outside the handler and outside duppage, nobody else maps a page that a
      running environment may write privately. */
  lemma NoOtherMapper(c: State, l: Loc, k: Loc)
    requires Inv(c) && l in c.maps && k in c.maps && l != k && c.maps[l].w && !c.maps[l].share
    requires Runs(c, l.e) && (c.fork[l.e].Forking? ==> c.fork[l.e].half.None? || c.fork[l.e].next != l.v)
    ensures c.maps[k].page != c.maps[l].page
  {
    assert PairOk(c, l, k);
  }

  /** When fork starts the child, the child maps a page from UTEXT to the stack
      exactly if the parent does and duppage did not fail for it, by the same entry
      if it is shared or nobody may write it, else copy-on-write; it has an exception
      stack exactly if there was memory. */
  lemma ForkCopiesExactly(c: State, e: nat, v: nat)
    requires Inv(c) && Enabled(c, ForkDone(e)) && UTEXT <= v <= STACK
    ensures var l, k, lost := Loc(e, v), Loc(c.fork[e].child, v), c.fork[e].lost;
            && (k in c.maps <==> l in c.maps && v !in lost)
            && (k in c.maps && c.maps[l].share ==> c.maps[k] == c.maps[l])
            && (k in c.maps && !c.maps[l].share && !c.maps[l].w && !c.maps[l].cow ==> c.maps[k] == c.maps[l])
            && (k in c.maps && !c.maps[l].share && (c.maps[l].w || c.maps[l].cow) ==>
                  c.maps[k].cow && !c.maps[k].w && !c.maps[k].share)
            && (v in lost ==> l in c.maps && k !in c.maps)
            && (Loc(c.fork[e].child, XSTACK) in c.maps <==> XSTACK !in lost)
  {
    assert ForkOk(c, e);
    assert Covered(c.maps, e, c.fork[e], v);
  }

  /** A page that was writable when duppage began is copied as of duppage's end. */
  lemma WritableCopiedAtEnd(c: State, m: Memory, e: nat)
    requires Good(c, m) && Enabled(c, DupSelf(e)) && c.fork[e].half == Some(true)
    ensures var c', l, k := Do(c, DupSelf(e)), Loc(e, c.fork[e].next), Loc(c.fork[e].child, c.fork[e].next);
            View(c', k) == View(c', l) == View(c, l) != []
  {
    assert ForkOk(c, e);
  }

  lemma HalfStays(c: State, m: Memory, e: nat, a: Action)
    requires Good(c, m) && Enabled(c, a) && e in c.fork && c.fork[e].Forking? && c.fork[e].half.Some?
    requires a != DupSelf(e) && a != Exit(e)
    ensures var k := Loc(c.fork[e].child, c.fork[e].next);
            && e in Do(c, a).fork && Do(c, a).fork[e] == c.fork[e]
            && k in m && k in DoEager(m, Meaning(c, a)) && DoEager(m, Meaning(c, a))[k] == m[k]
  {
    assert ForkOk(c, e);
    var k := Loc(c.fork[e].child, c.fork[e].next);
    assert Reads(c, m, k);
    if a.e in c.fork {
      assert ForkOk(c, a.e);
    }
  }

  /** A page that was already copy-on-write is copied as of duppage's first call,
      whatever the parent and all others do before the second. */
  lemma {:induction false} CowCopiedAtStart(c: State, m: Memory, e: nat, acts: seq<Action>)
    requires Good(c, m) && Possible(c, acts) && e in c.fork && c.fork[e].Forking? && c.fork[e].half == Some(false)
    requires DupSelf(e) !in acts && Exit(e) !in acts
    ensures var k := Loc(c.fork[e].child, c.fork[e].next);
            && k in m && View(After(c, acts), k) == m[k]
            && k in AfterEager(c, m, acts) && AfterEager(c, m, acts)[k] == m[k]
    decreases |acts|
  {
    assert ForkOk(c, e);
    var k := Loc(c.fork[e].child, c.fork[e].next);
    assert Reads(c, m, k);
    if acts != [] {
      var a := acts[0];
      assert a in acts;
      HalfStays(c, m, e, a);
      StepRefines(c, m, a);
      CowCopiedAtStart(Do(c, a), DoEager(m, Meaning(c, a)), e, acts[1..]);
    }
  }

  /** So "the page as it was when duppage completed" is not what the child of a
      copy-on-write page gets, as soon as the parent has written to it meanwhile. */
  lemma LateWriteNotCopied(c: State, m: Memory, e: nat, off: nat, b: Byte)
    requires Good(c, m) && e in c.fork && c.fork[e].Forking? && c.fork[e].half == Some(false) && off < PGSIZE
    requires Enabled(c, Store(e, c.fork[e].next, off, b))
    requires var k := Loc(c.fork[e].child, c.fork[e].next); k in m && off < |m[k]| && m[k][off] != b
    ensures Inv(Do(c, Store(e, c.fork[e].next, off, b)))
    ensures var c1 := Do(c, Store(e, c.fork[e].next, off, b));
            Enabled(c1, DupSelf(e)) && Inv(Do(c1, DupSelf(e)))
    ensures var c2, l, k := Do(Do(c, Store(e, c.fork[e].next, off, b)), DupSelf(e)),
                            Loc(e, c.fork[e].next), Loc(c.fork[e].child, c.fork[e].next);
            |View(c2, l)| == |View(c2, k)| == PGSIZE && View(c2, k)[off] != b == View(c2, l)[off]
  {
    var a := Store(e, c.fork[e].next, off, b);
    var c1 := Do(c, a);
    var k := Loc(c.fork[e].child, c.fork[e].next);
    assert ForkOk(c, e);
    HalfStays(c, m, e, a);
    StepRefines(c, m, a);
    assert ForkOk(c1, e);
    StepRefines(c1, DoEager(m, Meaning(c, a)), DupSelf(e));
    assert Reads(c1, DoEager(m, Meaning(c, a)), k);
  }
}
