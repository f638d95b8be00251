/** The pages marked PTE_SHARE in the machine of copy-on-write fork: they refine a
memory of objects that several environments have at addresses of their own, passed
on by fork and by sys_page_map (lab/lib/fork.c:87-103, lab/lib/fd.c:174-202). */
module CowShared {
  import opened Bytes
  import opened Common
  import opened Cow

  /** Which object is at each shared page, and what the objects hold. */
  datatype Objects = Objects(at: map<Loc, nat>, data: map<nat, Content>)

  datatype Op =
    | Nothing
    | Poke(l: Loc, off: nat, b: Byte)
    | Fresh(l: Loc, id: nat)
    | Alias(src: Loc, dst: Loc)
    | Forget(l: Loc)
    | ForgetAll(e: nat)

  function DoShared(o: Objects, x: Op): Objects {
    match x
    case Nothing => o
    case Poke(l, off, b) =>
      if l in o.at && o.at[l] in o.data && off < |o.data[o.at[l]]| then
        o.(data := o.data[o.at[l] := o.data[o.at[l]][off := b]])
      else o
    case Fresh(l, id) => Objects(o.at[l := id], o.data[id := Zeros(PGSIZE)])
    case Alias(src, dst) => if src in o.at then o.(at := o.at[dst := o.at[src]]) else o
    case Forget(l) => o.(at := o.at - {l})
    case ForgetAll(e) => o.(at := Without(o.at, e))
  }

  /** What each step means for the objects: fork gives the child what the parent has
      at the same address, sys_page_map another address of the same environment. */
  function MeaningShared(c: State, a: Action): Op
    requires Enabled(c, a)
  {
    match a
    case Store(e, v, off, b) => if c.maps[Loc(e, v)].share then Poke(Loc(e, v), off, b) else Nothing
    case DupNext(e) =>
      var l := Loc(e, c.fork[e].next);
      if l in c.maps && c.maps[l].share then Alias(l, Loc(c.fork[e].child, c.fork[e].next)) else Nothing
    case MapShared(e, v, d) => Alias(Loc(e, v), Loc(e, d))
    case Alloc(e, v, page, w, share) => if share then Fresh(Loc(e, v), page) else Forget(Loc(e, v))
    case Unmap(e, v) => Forget(Loc(e, v))
    case Exit(e) => ForgetAll(e)
    case _ => Nothing
  }

  predicate IsShared(c: State, l: Loc) {
    l in c.maps && c.maps[l].share
  }

  /** Page `l` is shared in one machine exactly if it is in the other, as the same
      object, and reads the same. */
  ghost predicate Alike(c: State, o: Objects, l: Loc)
    requires Basic(c)
  {
    && (l in o.at <==> IsShared(c, l))
    && (l in o.at ==> o.at[l] == c.maps[l].page && o.at[l] in o.data && o.data[o.at[l]] == c.phys[c.maps[l].page])
  }

  ghost predicate Matches(c: State, o: Objects) {
    Inv(c) && forall l {:trigger Alike(c, o, l)} :: Alike(c, o, l)
  }

  lemma StoreAlike(c: State, o: Objects, a: Action, l: Loc)
    requires Matches(c, o) && Enabled(c, a) && a.Store? && Inv(Do(c, a))
    ensures Alike(Do(c, a), DoShared(o, MeaningShared(c, a)), l)
  {
    var t := Loc(a.e, a.v);
    assert Alike(c, o, l) && Alike(c, o, t);
    if l in c.maps {
      assert PairOk(c, t, l);
    }
  }

  /** Steps that write a page which nobody shares, or none. */
  lemma HandlerAlike(c: State, o: Objects, a: Action, l: Loc)
    requires Matches(c, o) && Enabled(c, a) && Inv(Do(c, a))
    requires a.FaultAlloc? || a.CopyByte? || a.MoveCopy? || a.UnmapTemp?
    ensures Alike(Do(c, a), DoShared(o, MeaningShared(c, a)), l)
  {
    var t := Loc(a.e, PFTEMP);
    assert FaultOk(c, a.e) && Alike(c, o, l);
    if l in c.maps && t in c.maps {
      assert PairOk(c, t, l);
    }
  }

  lemma ForkAlike(c: State, o: Objects, a: Action, l: Loc)
    requires Matches(c, o) && Enabled(c, a) && Inv(Do(c, a))
    requires a.ForkStart? || a.ForkBare? || a.DupFails? || a.DupSelf? || a.ForkDone?
    ensures Alike(Do(c, a), DoShared(o, MeaningShared(c, a)), l)
  {
    assert ForkOk(c, a.e) && Alike(c, o, l);
  }

  lemma DupNextAlike(c: State, o: Objects, a: Action, l: Loc)
    requires Matches(c, o) && Enabled(c, a) && a.DupNext? && Inv(Do(c, a))
    ensures Alike(Do(c, a), DoShared(o, MeaningShared(c, a)), l)
  {
    var f := c.fork[a.e];
    assert ForkOk(c, a.e) && Alike(c, o, l) && Alike(c, o, Loc(a.e, f.next));
    assert Covered(c.maps, a.e, f, f.next);
  }

  lemma OwnAlike(c: State, o: Objects, a: Action, l: Loc)
    requires Matches(c, o) && Enabled(c, a) && (a.Alloc? || a.Unmap? || a.Exit?) && Inv(Do(c, a))
    ensures Alike(Do(c, a), DoShared(o, MeaningShared(c, a)), l)
  {
    assert Alike(c, o, l);
  }

  lemma MapSharedAlike(c: State, o: Objects, a: Action, l: Loc)
    requires Matches(c, o) && Enabled(c, a) && a.MapShared? && Inv(Do(c, a))
    ensures Alike(Do(c, a), DoShared(o, MeaningShared(c, a)), l)
  {
    assert Alike(c, o, l) && Alike(c, o, Loc(a.e, a.v));
  }

  /** Every step of the machine matches one on objects. */
  lemma StepMatches(c: State, o: Objects, a: Action)
    requires Matches(c, o) && Enabled(c, a)
    ensures Matches(Do(c, a), DoShared(o, MeaningShared(c, a)))
  {
    hide Do, Alike, DoShared, MeaningShared, Enabled, FaultOk, ForkOk, PairOk;
    StepInv(c, a);
    forall l ensures Alike(Do(c, a), DoShared(o, MeaningShared(c, a)), l) {
      match a {
        case Store(_, _, _, _) => StoreAlike(c, o, a, l);
        case FaultAlloc(_, _, _) => HandlerAlike(c, o, a, l);
        case CopyByte(_) => HandlerAlike(c, o, a, l);
        case MoveCopy(_) => HandlerAlike(c, o, a, l);
        case UnmapTemp(_) => HandlerAlike(c, o, a, l);
        case DupNext(_) => DupNextAlike(c, o, a, l);
        case ForkStart(_, _, _) => ForkAlike(c, o, a, l);
        case ForkBare(_, _) => ForkAlike(c, o, a, l);
        case DupFails(_) => ForkAlike(c, o, a, l);
        case DupSelf(_) => ForkAlike(c, o, a, l);
        case ForkDone(_) => ForkAlike(c, o, a, l);
        case MapShared(_, _, _) => MapSharedAlike(c, o, a, l);
        case Exit(_) => OwnAlike(c, o, a, l);
        case Alloc(_, _, _, _, _) => OwnAlike(c, o, a, l);
        case Unmap(_, _) => OwnAlike(c, o, a, l);
      }
    }
  }

  /** The same run on objects. */
  ghost function AfterShared(c: State, o: Objects, acts: seq<Action>): Objects
    requires Possible(c, acts)
    decreases |acts|
  {
    if acts == [] then o else AfterShared(Do(c, acts[0]), DoShared(o, MeaningShared(c, acts[0])), acts[1..])
  }

  /** Over every run of any number of environments, the shared pages of each are the
      objects that it was given, and it reads from them what was last written there
      by anyone who has the object. */
  lemma {:induction false} SharedRefines(c: State, o: Objects, acts: seq<Action>)
    requires Matches(c, o) && Possible(c, acts)
    ensures Matches(After(c, acts), AfterShared(c, o, acts))
    decreases |acts|
  {
    if acts != [] {
      StepMatches(c, o, acts[0]);
      SharedRefines(Do(c, acts[0]), DoShared(o, MeaningShared(c, acts[0])), acts[1..]);
    }
  }

  /** The start of such runs: nothing is mapped. */
  lemma StartMatches(phys: seq<Content>, e: nat)
    requires forall p :: 0 <= p < |phys| ==> |phys[p]| == PGSIZE
    ensures Matches(State(phys, map[], map[e := Idle], map[e := NoFork]), Objects(map[], map[]))
  {
    var c := State(phys, map[], map[e := Idle], map[e := NoFork]);
    StartGood(phys, e);
    forall l ensures Alike(c, Objects(map[], map[]), l) {
    }
  }
}
