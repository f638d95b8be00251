/** Runs of the copy-on-write machine from its start that meet the cases in which
fork does not do what its comments promise (lab/lib/fork.c:75-118, 161-231). */
module CowRuns {
  import opened Bytes
  import opened Common
  import opened Cow

  /** One environment and no pages. */
  function Start(phys: seq<Content>): State {
    State(phys, map[], map[0 := Idle], map[0 := NoFork])
  }

  ghost predicate Leads(c0: State, m0: Memory, acts: seq<Action>, c: State, m: Memory) {
    Possible(c0, acts) && After(c0, acts) == c && AfterEager(c0, m0, acts) == m
  }

  /** Some run from the start ends in `c`, and on private memories in `m`. */
  ghost predicate Reached(phys: seq<Content>, c: State, m: Memory) {
    exists acts :: Leads(Start(phys), map[], acts, c, m)
  }

  lemma ReachedGood(phys: seq<Content>, c: State, m: Memory)
    requires Reached(phys, c, m)
    ensures Good(c, m)
  {
    var acts :| Leads(Start(phys), map[], acts, c, m);
    assert Inv(Start(phys));
    StartGood(phys, 0);
    CowRefinesEager(Start(phys), map[], acts);
  }

  lemma {:induction false} Append(c0: State, m0: Memory, acts: seq<Action>, c: State, m: Memory, a: Action)
    requires Leads(c0, m0, acts, c, m) && Inv(c) && Enabled(c, a)
    ensures Inv(Do(c, a)) && Leads(c0, m0, acts + [a], Do(c, a), DoEager(m, Meaning(c, a)))
    decreases |acts|
  {
    StepInv(c, a);
    if acts == [] {
      assert [a][1..] == [] && acts + [a] == [a];
      assert Possible(Do(c, a), []);
    } else {
      Append(Do(c0, acts[0]), DoEager(m0, Meaning(c0, acts[0])), acts[1..], c, m, a);
      assert (acts + [a])[1..] == acts[1..] + [a];
    }
  }

  lemma Step(phys: seq<Content>, c: State, m: Memory, a: Action) returns (c': State, m': Memory)
    requires Reached(phys, c, m) && Enabled(c, a)
    ensures Inv(c) && c' == Do(c, a) && m' == DoEager(m, Meaning(c, a)) && Reached(phys, c', m')
  {
    ReachedGood(phys, c, m);
    var acts :| Leads(Start(phys), map[], acts, c, m);
    Append(Start(phys), map[], acts, c, m, a);
    c', m' := Do(c, a), DoEager(m, Meaning(c, a));
  }

  lemma Begin(phys: seq<Content>) returns (c: State, m: Memory)
    requires forall p :: 0 <= p < |phys| ==> |phys[p]| == PGSIZE
    ensures c == Start(phys) && m == map[] && Reached(phys, c, m)
  {
    StartGood(phys, 0);
    c, m := Start(phys), map[];
    assert Leads(c, m, [], c, m);
  }

  /** fork's loop over addresses with no page. */
  lemma {:induction false} SkipRun(phys: seq<Content>, c: State, m: Memory) returns (c': State, m': Memory)
    requires Reached(phys, c, m) && Runs(c, 0) && c.fork[0].Forking? && c.fork[0].half.None?
    requires c.fork[0].next <= STACK + 1
    requires forall v :: c.fork[0].next <= v <= STACK ==> Loc(0, v) !in c.maps
    ensures Reached(phys, c', m')
    ensures c' == c.(fork := c.fork[0 := Forking(c.fork[0].child, STACK + 1, None, c.fork[0].lost)])
    decreases STACK + 1 - c.fork[0].next
  {
    hide Reached;
    if c.fork[0].next == STACK + 1 {
      c', m' := c, m;
      assert c.fork == c.fork[0 := Forking(c.fork[0].child, STACK + 1, None, c.fork[0].lost)];
    } else {
      var c1, m1 := Step(phys, c, m, DupNext(0));
      c', m' := SkipRun(phys, c1, m1);
      assert c'.fork == c.fork[0 := Forking(c.fork[0].child, STACK + 1, None, c.fork[0].lost)];
    }
  }

  /** The handler's memmove. */
  lemma {:induction false} CopyRun(phys: seq<Content>, c: State, m: Memory) returns (c': State, m': Memory)
    requires Reached(phys, c, m) && 0 in c.fault && c.fault[0].Copying? && c.fault[0].n <= PGSIZE
    ensures Reached(phys, c', m') && c'.maps == c.maps && c'.fork == c.fork
    ensures c'.fault == c.fault[0 := Copying(c.fault[0].v, PGSIZE)]
    decreases PGSIZE - c.fault[0].n
  {
    hide Reached;
    if c.fault[0].n == PGSIZE {
      c', m' := c, m;
    } else {
      var c1, m1 := Step(phys, c, m, CopyByte(0));
      c', m' := CopyRun(phys, c1, m1);
    }
  }

  /** An environment with an exception stack and one page of its own. */
  lemma Setup(phys: seq<Content>) returns (c: State, m: Memory)
    requires |phys| >= 5 && forall p :: 0 <= p < |phys| ==> |phys[p]| == PGSIZE
    ensures Reached(phys, c, m) && |c.phys| == |phys|
    ensures c.maps == map[Loc(0, XSTACK) := Private(0), Loc(0, UTEXT) := Private(1)]
    ensures c.fault == map[0 := Idle] && c.fork == map[0 := NoFork]
  {
    hide Reached;
    var c0, m0 := Begin(phys);
    var c1, m1 := Step(phys, c0, m0, Alloc(0, XSTACK, 0, true, false));
    c, m := Step(phys, c1, m1, Alloc(0, UTEXT, 1, true, false));
  }

  /** The loop of fork is about to duplicate that page for environment 1. */
  lemma Begun(phys: seq<Content>) returns (c: State, m: Memory)
    requires |phys| >= 5 && forall p :: 0 <= p < |phys| ==> |phys[p]| == PGSIZE
    ensures Reached(phys, c, m) && |c.phys| == |phys|
    ensures c.maps == map[Loc(0, XSTACK) := Private(0), Loc(0, UTEXT) := Private(1), Loc(1, XSTACK) := Private(2)]
    ensures c.fault == map[0 := Idle, 1 := Idle] && c.fork == map[0 := Forking(1, UTEXT, None, {}), 1 := Building(0)]
  {
    hide Reached;
    var c1, m1 := Setup(phys);
    c, m := Step(phys, c1, m1, ForkStart(0, 1, 2));
  }

  /** The rest of the loop and the end of fork. */
  lemma Finished(phys: seq<Content>, c: State, m: Memory) returns (c': State, m': Memory)
    requires Reached(phys, c, m) && Runs(c, 0) && c.fork[0].Forking?
    requires c.fork[0].half.None? && c.fork[0].next <= STACK + 1
    requires c.fork[0].child != 0 && forall v :: c.fork[0].next <= v <= STACK ==> Loc(0, v) !in c.maps
    ensures Reached(phys, c', m') && c' == c.(fork := c.fork[c.fork[0].child := NoFork][0 := NoFork])
  {
    hide Reached;
    var c1, m1 := SkipRun(phys, c, m);
    c', m' := Step(phys, c1, m1, ForkDone(0));
    assert c'.fork == c.fork[c.fork[0].child := NoFork][0 := NoFork];
  }

  /** fork returns and the child runs, but a page of the parent is missing in it,
      because nobody looked at what duppage returned. */
  lemma PageLost(phys: seq<Content>) returns (c: State, m: Memory)
    requires |phys| >= 5 && forall p :: 0 <= p < |phys| ==> |phys[p]| == PGSIZE
    ensures Reached(phys, c, m) && Runs(c, 0) && Runs(c, 1)
    ensures Loc(0, UTEXT) in c.maps && c.maps[Loc(0, UTEXT)].w && Loc(1, UTEXT) !in c.maps
  {
    hide Reached;
    var c1, m1 := Begun(phys);
    var c2, m2 := Step(phys, c1, m1, DupFails(0));
    c, m := Finished(phys, c2, m2);
  }

  /** duppage of the page, the rest of the loop, and the end of fork. */
  lemma Forked(phys: seq<Content>, c: State, m: Memory) returns (c': State, m': Memory)
    requires Reached(phys, c, m) && Runs(c, 0) && c.fork[0].Forking?
    requires c.fork[0].child in c.fork && c.fork[0].child != 0
    requires c.fork[0].next == UTEXT && c.fork[0].half.None?
    requires Loc(0, UTEXT) in c.maps && c.maps[Loc(0, UTEXT)] == Private(1)
    requires forall v :: UTEXT < v <= STACK ==> Loc(0, v) !in c.maps
    ensures Reached(phys, c', m') && |c'.phys| == |c.phys| && c'.fault == c.fault
    ensures c'.fork == c.fork[c.fork[0].child := NoFork][0 := NoFork]
    ensures c'.maps == c.maps[Loc(c.fork[0].child, UTEXT) := CopyOnWrite(1)][Loc(0, UTEXT) := CopyOnWrite(1)]
  {
    hide Reached;
    var c1, m1 := Step(phys, c, m, DupNext(0));
    var c2, m2 := Step(phys, c1, m1, DupSelf(0));
    c', m' := Finished(phys, c2, m2);
    assert c'.fork == c.fork[c.fork[0].child := NoFork][0 := NoFork];
  }

  /** The same for the child's exception stack: no write fault of the child finds
      one to run its handler on. */
  lemma StackLost(phys: seq<Content>) returns (c: State, m: Memory)
    requires |phys| >= 5 && forall p :: 0 <= p < |phys| ==> |phys[p]| == PGSIZE
    ensures Reached(phys, c, m) && Runs(c, 1) && Loc(1, UTEXT) in c.maps && c.maps[Loc(1, UTEXT)].cow
    ensures forall page :: !Enabled(c, FaultAlloc(1, UTEXT, page))
  {
    hide Reached;
    var c1, m1 := Setup(phys);
    var c2, m2 := Step(phys, c1, m1, ForkBare(0, 1));
    c, m := Forked(phys, c2, m2);
  }

  lemma Replaced(phys: seq<Content>, c: State, m: Memory, v: nat) returns (c': State, m': Memory)
    requires Reached(phys, c, m) && 0 in c.fault && c.fault[0] == Copying(v, PGSIZE) && Loc(0, PFTEMP) in c.maps
    ensures Reached(phys, c', m') && c'.fork == c.fork && c'.fault == c.fault[0 := Idle]
    ensures c'.maps == c.maps[Loc(0, v) := Private(c.maps[Loc(0, PFTEMP)].page)] - {Loc(0, PFTEMP)}
  {
    hide Reached;
    var c1, m1 := Step(phys, c, m, MoveCopy(0));
    c', m' := Step(phys, c1, m1, UnmapTemp(0));
  }

  /** A write fault of environment 0 on its page gets the page to copy into. */
  lemma FaultBegun(phys: seq<Content>, c: State, m: Memory, page: nat) returns (c': State, m': Memory)
    requires Reached(phys, c, m) && Enabled(c, FaultAlloc(0, UTEXT, page))
    ensures Reached(phys, c', m') && c'.fork == c.fork && 0 in c.fault && c.fault[0] == Idle
    ensures c'.fault == c.fault[0 := Copying(UTEXT, 0)] && Loc(0, PFTEMP) !in c.maps
    ensures c'.maps == c.maps[Loc(0, PFTEMP) := Private(page)]
  {
    ReachedGood(phys, c, m);
    assert FaultOk(c, 0);
    hide Reached;
    c', m' := Step(phys, c, m, FaultAlloc(0, UTEXT, page));
  }

  /** The same fault from end to end. */
  lemma Written(phys: seq<Content>, c: State, m: Memory, page: nat) returns (c': State, m': Memory)
    requires Reached(phys, c, m) && Enabled(c, FaultAlloc(0, UTEXT, page))
    ensures Reached(phys, c', m') && c'.fork == c.fork && c'.fault == c.fault
    ensures c'.maps == c.maps[Loc(0, UTEXT) := Private(page)]
  {
    hide Reached, Enabled;
    var c1, m1 := FaultBegun(phys, c, m, page);
    var c2, m2 := CopyRun(phys, c1, m1);
    c', m' := Replaced(phys, c2, m2, UTEXT);
    assert c'.maps == c.maps[Loc(0, UTEXT) := Private(page)];
    assert c'.fault == c.fault;
  }

  /** Environment 1 runs with a copy of the page. */
  lemma OneChild(phys: seq<Content>) returns (c: State, m: Memory)
    requires |phys| >= 5 && forall p :: 0 <= p < |phys| ==> |phys[p]| == PGSIZE
    ensures Reached(phys, c, m) && |c.phys| == |phys|
    ensures c.fork == map[0 := NoFork, 1 := NoFork] && c.fault == map[0 := Idle, 1 := Idle]
    ensures c.maps == map[Loc(0, XSTACK) := Private(0), Loc(0, UTEXT) := CopyOnWrite(1), Loc(1, XSTACK) := Private(2),
                          Loc(1, UTEXT) := CopyOnWrite(1)]
  {
    hide Reached;
    var c1, m1 := Begun(phys);
    c, m := Forked(phys, c1, m1);
  }

  /** fork is about to share that page with a second child. */
  lemma SecondBegun(phys: seq<Content>) returns (c: State, m: Memory)
    requires |phys| >= 5 && forall p :: 0 <= p < |phys| ==> |phys[p]| == PGSIZE
    ensures Reached(phys, c, m) && |c.phys| == |phys|
    ensures c.fork == map[0 := Forking(2, UTEXT, None, {}), 1 := NoFork, 2 := Building(0)]
    ensures c.fault == map[0 := Idle, 1 := Idle, 2 := Idle]
    ensures c.maps == map[Loc(0, XSTACK) := Private(0), Loc(0, UTEXT) := CopyOnWrite(1), Loc(1, XSTACK) := Private(2),
                          Loc(1, UTEXT) := CopyOnWrite(1), Loc(2, XSTACK) := Private(3)]
  {
    hide Reached;
    var c1, m1 := OneChild(phys);
    c, m := Step(phys, c1, m1, ForkStart(0, 2, 3));
  }

  /** A page shared with a first child is half duplicated for a second. */
  lemma HalfReached(phys: seq<Content>) returns (c: State, m: Memory)
    requires |phys| >= 5 && forall p :: 0 <= p < |phys| ==> |phys[p]| == PGSIZE
    ensures Reached(phys, c, m) && |c.phys| == |phys|
    ensures c.fork == map[0 := Forking(2, UTEXT, Some(false), {}), 1 := NoFork, 2 := Building(0)]
    ensures c.fault == map[0 := Idle, 1 := Idle, 2 := Idle]
    ensures c.maps == map[Loc(0, XSTACK) := Private(0), Loc(0, UTEXT) := CopyOnWrite(1), Loc(1, XSTACK) := Private(2),
                          Loc(1, UTEXT) := CopyOnWrite(1), Loc(2, XSTACK) := Private(3),
                          Loc(2, UTEXT) := CopyOnWrite(1)]
  {
    hide Reached;
    var c1, m1 := SecondBegun(phys);
    c, m := Step(phys, c1, m1, DupNext(0));
  }

  lemma Differing(phys: seq<Content>, c: State, m: Memory) returns (b: Byte)
    requires Reached(phys, c, m) && 0 in c.fork && c.fork[0].Forking? && c.fork[0].half == Some(false)
    ensures Good(c, m) && var k := Loc(c.fork[0].child, c.fork[0].next); k in m && 0 < |m[k]| && m[k][0] != b
  {
    hide Reached;
    ReachedGood(phys, c, m);
    assert ForkOk(c, 0);
    CowCopiedAtStart(c, m, 0, []);
    var k := Loc(c.fork[0].child, c.fork[0].next);
    b := if m[k][0] == 0 then 1 else 0;
  }

  /** There the parent's write fault is served, and it may write: the case that
      LateWriteNotCopied is about, with the byte written differing from the copy. */
  lemma LateWriteReached(phys: seq<Content>) returns (c: State, m: Memory, b: Byte)
    requires |phys| >= 5 && forall p :: 0 <= p < |phys| ==> |phys[p]| == PGSIZE
    ensures Reached(phys, c, m) && Good(c, m) && 0 in c.fork && c.fork[0].Forking? && c.fork[0].half == Some(false)
    ensures Enabled(c, Store(0, c.fork[0].next, 0, b))
    ensures var k := Loc(c.fork[0].child, c.fork[0].next); k in m && 0 < |m[k]| && m[k][0] != b
  {
    hide Reached;
    var c1, m1 := HalfReached(phys);
    c, m := Written(phys, c1, m1, 4);
    b := Differing(phys, c, m);
  }
}
