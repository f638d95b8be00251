/** The end-of-file test of a pipe compares reference counts while descriptors are
duplicated, closed and inherited page by page (lab/lib/pipe.c:75-102, 185-190;
lab/lib/fd.c:100-119, 174-202; lab/lib/fork.c:187-199). One processor; every
system call and every read of a count is one step. */
module PipeEof {
  const MAXFD: nat := 32

  datatype End = Reading | Writing

  /** File descriptor `i` of environment `e`. */
  datatype Slot = Slot(e: nat, i: nat)

  /** What an environment is in the middle of. */
  datatype Pc =
    | Idle
    | Closing(x: Slot)                 // descriptor page unmapped, data page still there
    | DupClosing(old': Slot, x: Slot)  // the same for the target of a dup
    | DupData(old': Slot, x: Slot)     // about to map the data page
    | DupFd(old': Slot, x: Slot)       // about to map the descriptor page
    | Forking(child: nat, k: nat, from: nat)  // k of the 64 pages done, descriptors first, none before `from`
    | Check1(x: Slot, n: nat)          // env_runs read
    | Check2(x: Slot, n: nat, a: nat)  // count of the descriptor page read
    | Check3(x: Slot, n: nat, a: nat, b: nat)
    | Answered(x: Slot, closed: bool)

  /** `fd` maps open descriptors to the end they stand for, `data` holds the
      descriptors whose data page maps the pipe, and `lost` those that were
      inherited without their descriptor page. */
  datatype State = State(
    fd: map<Slot, End>, data: set<Slot>, lost: set<Slot>,
    pc: map<nat, Pc>, runs: map<nat, nat>, parent: map<nat, nat>, cur: nat)

  datatype Step =
    | Switch(e: nat)
    | Close(x: Slot)
    | Dup(old': Slot, x: Slot)
    | DupFails
    | Fork(child: nat)
    | Check(x: Slot)
    | MapFails
    | Go                               // the next step of what the environment is in

  /** The slots open for one end: their number is the page's reference count. */
  function Holders(s: State, end: End): set<Slot> {
    set x | x in s.fd && s.fd[x] == end
  }

  /** Whether the parent has the `k`th of the 64 pages. */
  predicate HasPage(s: State, e: nat, k: nat) {
    if k < MAXFD then Slot(e, k) in s.fd else Slot(e, k - MAXFD) in s.data
  }

  /** The slots of an environment with a data page and no descriptor page. */
  function Inherited(s: State, e: nat): set<Slot> {
    set x | x in s.data && x.e == e && x !in s.fd
  }

  function FdRef(s: State, x: Slot): nat {
    if x in s.fd then |Holders(s, s.fd[x])| else 0
  }

  function PipeRef(s: State): nat {
    |s.data|
  }

  predicate Enabled(s: State, a: Step) {
    s.cur in s.pc && s.cur in s.runs &&
    var e, pc := s.cur, s.pc[s.cur];
    match a
    case Switch(e') => e' in s.pc && e' in s.runs
    case Close(x) => pc.Idle? && x.e == e && x in s.fd
    case Dup(old', x) => pc.Idle? && old'.e == x.e == e && x.i < MAXFD && old' in s.fd && old' != x
    case DupFails => pc.DupData? || pc.DupFd?
    case Fork(child) => pc.Idle? && child !in s.pc && child !in s.parent
    case Check(x) => pc.Idle? && x.e == e && x in s.fd
    // All 64 pages share one page table, so no page fails once one is mapped.
    case MapFails => pc.Forking? && pc.k < 2 * MAXFD && pc.from == pc.k && HasPage(s, e, pc.k)
    case Go => !pc.Idle?
  }

  function Do(s: State, a: Step): State
    requires Enabled(s, a)
  {
    var e, pc := s.cur, s.pc[s.cur];
    match a
    case Switch(e') => s.(cur := e', runs := s.runs[e' := s.runs[e'] + 1])
    case Close(x) => s.(fd := s.fd - {x}, pc := s.pc[e := Closing(x)])
    case Dup(old', x) =>
      if x in s.fd then s.(fd := s.fd - {x}, pc := s.pc[e := DupClosing(old', x)])
      else s.(pc := s.pc[e := DupData(old', x)])
    case DupFails =>
      s.(data := s.data - {pc.x}, lost := s.lost - {pc.x}, pc := s.pc[e := Idle])
    case Fork(child) => s.(pc := s.pc[e := Forking(child, 0, 0)], parent := s.parent[child := e])
    case MapFails => s.(pc := s.pc[e := Forking(pc.child, pc.k + 1, pc.k + 1)])
    case Check(x) => s.(pc := s.pc[e := Check1(x, s.runs[e])])
    case Go =>
      (match pc
       case Closing(x) => s.(data := s.data - {x}, pc := s.pc[e := Idle])
       case DupClosing(old', x) => s.(data := s.data - {x}, pc := s.pc[e := DupData(old', x)])
       case DupData(old', x) => s.(data := s.data + {x}, lost := s.lost - {x}, pc := s.pc[e := DupFd(old', x)])
       case DupFd(old', x) =>
         if old' in s.fd then s.(fd := s.fd[x := s.fd[old']], pc := s.pc[e := Idle]) else s.(pc := s.pc[e := Idle])
       case Forking(child, k, from) =>
         if k >= 2 * MAXFD then
           s.(lost := s.lost + Inherited(s, child), pc := s.pc[e := Idle][child := Idle], runs := s.runs[child := 0])
         else if !HasPage(s, e, k) then
           s.(pc := s.pc[e := Forking(child, k + 1, if from == k then k + 1 else from)])
         else if k < MAXFD then
           s.(fd := s.fd[Slot(child, k) := s.fd[Slot(e, k)]], pc := s.pc[e := Forking(child, k + 1, from)])
         else
           s.(data := s.data + {Slot(child, k - MAXFD)}, pc := s.pc[e := Forking(child, k + 1, from)])
       case Check1(x, n) => s.(pc := s.pc[e := Check2(x, n, FdRef(s, x))])
       case Check2(x, n, a) => s.(pc := s.pc[e := Check3(x, n, a, PipeRef(s))])
       case Check3(x, n, a, b) =>
         if s.runs[e] == n then s.(pc := s.pc[e := Answered(x, a == b)]) else s.(pc := s.pc[e := Check1(x, s.runs[e])])
       case Answered(x, _) => s.(pc := s.pc[e := Idle])
       case Idle => s)
  }

  /** The slot is in transit: its data page is mapped and its descriptor page is not. */
  predicate Transit(pc: Pc, x: Slot) {
    match pc
    case Closing(y) => y == x
    case DupClosing(_, y) => y == x
    case DupFd(_, y) => y == x
    case _ => false
  }

  /** Open descriptors have the pipe mapped, and only slots in transit and those
      lost have it mapped without being open. */
  predicate SlotOk(s: State, x: Slot) {
    x.e in s.pc ==>
      && (x in s.fd ==> x in s.data && x.i < MAXFD)
      && (x in s.data ==> x in s.fd || x in s.lost || Transit(s.pc[x.e], x))
      && (x in s.lost ==> x in s.data && x !in s.fd && !Transit(s.pc[x.e], x))
  }

  /** A child being built has the first pages of its parent. */
  predicate ChildSlotOk(s: State, e: nat, i: nat)
    requires e in s.pc && s.pc[e].Forking?
  {
    var Forking(child, k, from) := s.pc[e];
    && (Slot(child, i) in s.fd <==> from <= i < k && i < MAXFD && Slot(e, i) in s.fd)
    && (Slot(child, i) in s.fd ==> s.fd[Slot(child, i)] == s.fd[Slot(e, i)])
    && (Slot(child, i) in s.data <==> from <= i + MAXFD < k && i < MAXFD && Slot(e, i) in s.data)
  }

  predicate Unborn(s: State, child: nat) {
    && child in s.parent && s.parent[child] in s.pc
    && s.pc[s.parent[child]].Forking? && s.pc[s.parent[child]].child == child
  }

  /** Nothing belongs to an environment that neither exists nor is being built. */
  predicate Known(s: State, x: Slot) {
    && ((x in s.fd || x in s.data) && x.e !in s.pc ==> Unborn(s, x.e))
    && (x in s.lost ==> x.e in s.pc)
  }

  ghost predicate PcOk(s: State, e: nat)
    requires e in s.pc
  {
    match s.pc[e]
    case Idle => true
    case Closing(x) => x.e == e && x !in s.fd
    case DupClosing(old', x) => x.e == old'.e == e && x !in s.fd && old' in s.fd && x.i < MAXFD
    case DupData(old', x) =>
      x.e == old'.e == e && x !in s.fd && (x in s.data ==> x in s.lost) && old' in s.fd && x.i < MAXFD
    case DupFd(old', x) => x.e == old'.e == e && x !in s.fd && x in s.data && old' in s.fd && x.i < MAXFD
    case Forking(child, k, from) =>
      && child !in s.pc && from <= k <= 2 * MAXFD && child in s.parent && s.parent[child] == e
      && (forall i: nat {:trigger ChildSlotOk(s, e, i)} :: ChildSlotOk(s, e, i))
    case Check1(x, n) => x.e == e && x in s.fd && e in s.runs && n <= s.runs[e]
    case Check2(x, n, a) =>
      && x.e == e && x in s.fd && e in s.runs && n <= s.runs[e]
      && (n == s.runs[e] && s.cur == e ==> a == FdRef(s, x))
    case Check3(x, n, a, b) =>
      && x.e == e && x in s.fd && e in s.runs && n <= s.runs[e]
      && (n == s.runs[e] && s.cur == e ==> a == FdRef(s, x) && b == PipeRef(s))
    case Answered(x, _) => x.e == e && x in s.fd
  }

  ghost predicate Inv(s: State) {
    && s.pc.Keys == s.runs.Keys && s.cur in s.pc
    && (forall x {:trigger SlotOk(s, x)} :: SlotOk(s, x))
    && (forall x {:trigger Known(s, x)} :: Known(s, x))
    && (forall e {:trigger PcOk(s, e)} :: e in s.pc ==> PcOk(s, e))
  }

  /** A step touches only descriptors of the environment that takes it, or of the child it is building. */
  lemma Footprint(s: State, a: Step, x: Slot)
    requires Enabled(s, a) && x.e != s.cur && !(s.pc[s.cur].Forking? && s.pc[s.cur].child == x.e)
    requires PcOk(s, s.cur)
    ensures (x in Do(s, a).fd <==> x in s.fd) && (x in s.fd ==> Do(s, a).fd[x] == s.fd[x])
    ensures (x in Do(s, a).data <==> x in s.data) && (x in Do(s, a).lost <==> x in s.lost)
  {
  }

  lemma SlotKeepsChild(s: State, a: Step, x: Slot)
    requires Inv(s) && Enabled(s, a) && s.pc[s.cur].Forking? && s.pc[s.cur].child == x.e
    ensures SlotOk(Do(s, a), x)
  {
    assert PcOk(s, s.cur) && Known(s, x);
    assert ChildSlotOk(s, s.cur, x.i) && SlotOk(s, Slot(s.cur, x.i));
  }

  lemma SlotKeeps(s: State, a: Step, x: Slot)
    requires Inv(s) && Enabled(s, a)
    ensures SlotOk(Do(s, a), x)
  {
    if s.pc[s.cur].Forking? && s.pc[s.cur].child == x.e {
      SlotKeepsChild(s, a, x);
    } else {
      assert PcOk(s, s.cur) && SlotOk(s, x) && Known(s, x);
      if x.e != s.cur {
        Footprint(s, a, x);
      }
    }
  }

  lemma KnownKeeps(s: State, a: Step, x: Slot)
    requires Inv(s) && Enabled(s, a)
    ensures Known(Do(s, a), x)
  {
    assert PcOk(s, s.cur) && Known(s, x);
    if x.e == s.cur || (s.pc[s.cur].Forking? && s.pc[s.cur].child == x.e) {
    } else {
      Footprint(s, a, x);
    }
  }

  lemma ChildKeeps(s: State, a: Step, i: nat)
    requires Inv(s) && Enabled(s, a) && s.pc[s.cur].Forking?
    requires s.cur in Do(s, a).pc && Do(s, a).pc[s.cur].Forking? && !a.Switch?
    ensures ChildSlotOk(Do(s, a), s.cur, i)
  {
    assert PcOk(s, s.cur);
    assert ChildSlotOk(s, s.cur, i) && SlotOk(s, Slot(s.cur, i));
  }

  lemma PcKeepsSelf(s: State, a: Step)
    requires Inv(s) && Enabled(s, a) && !a.Switch?
    ensures s.cur in Do(s, a).pc && PcOk(Do(s, a), s.cur)
  {
    var s', e := Do(s, a), s.cur;
    assert PcOk(s, e);
    if a.Fork? {
      forall i: nat ensures ChildSlotOk(s', e, i) {
        assert Known(s, Slot(a.child, i));
      }
    } else if s'.pc[e].Forking? {
      forall i: nat ensures ChildSlotOk(s', e, i) {
        ChildKeeps(s, a, i);
      }
    } else if a.Dup? {
      assert SlotOk(s, a.x) && SlotOk(s, a.old');
    }
  }

  lemma SwitchKeeps(s: State, e: nat, d: nat)
    requires Inv(s) && Enabled(s, Switch(e)) && d in s.pc
    ensures PcOk(Do(s, Switch(e)), d)
  {
    assert PcOk(s, d);
    if s.pc[d].Forking? {
      forall i: nat ensures ChildSlotOk(Do(s, Switch(e)), d, i) {
        assert ChildSlotOk(s, d, i);
      }
    }
  }

  predicate Untouched(s: State, s': State, x: Slot) {
    && (x in s'.fd <==> x in s.fd) && (x in s.fd ==> s'.fd[x] == s.fd[x])
    && (x in s'.data <==> x in s.data) && (x in s'.lost <==> x in s.lost)
  }

  /** An environment that does not run is where it was if its own slots, and those of its child, are. */
  lemma PcFrame(s: State, s': State, d: nat)
    requires d in s.pc && PcOk(s, d) && d in s'.pc && s'.pc[d] == s.pc[d] && s.cur != d && s'.cur != d
    requires d in s.runs && d in s'.runs && s'.runs[d] == s.runs[d]
    requires s.pc[d].Forking? ==> var c := s.pc[d].child; c !in s'.pc && c in s'.parent && s'.parent[c] == s.parent[c]
    requires forall x: Slot {:trigger Untouched(s, s', x)} ::
               x.e == d || (s.pc[d].Forking? && x.e == s.pc[d].child) ==> Untouched(s, s', x)
    ensures PcOk(s', d)
  {
    match s.pc[d]
    case Idle =>
    case Closing(x) => assert Untouched(s, s', x);
    case DupClosing(o, x) => assert Untouched(s, s', x) && Untouched(s, s', o);
    case DupData(o, x) => assert Untouched(s, s', x) && Untouched(s, s', o);
    case DupFd(o, x) => assert Untouched(s, s', x) && Untouched(s, s', o);
    case Check1(x, _) => assert Untouched(s, s', x);
    case Check2(x, _, _) => assert Untouched(s, s', x);
    case Check3(x, _, _, _) => assert Untouched(s, s', x);
    case Answered(x, _) => assert Untouched(s, s', x);
    case Forking(child, _, _) =>
      forall i: nat ensures ChildSlotOk(s', d, i) {
        assert ChildSlotOk(s, d, i);
        assert Untouched(s, s', Slot(d, i)) && Untouched(s, s', Slot(child, i));
      }
  }

  lemma PcKeepsOther(s: State, a: Step, d: nat)
    requires Inv(s) && Enabled(s, a) && d in s.pc && (d != s.cur || a.Switch?)
    ensures d in Do(s, a).pc && PcOk(Do(s, a), d)
  {
    if a.Switch? {
      SwitchKeeps(s, a.e, d);
    } else {
      hide SlotOk, Known, ChildSlotOk;
      assert PcOk(s, s.cur) && PcOk(s, d);
      forall x: Slot | x.e == d || (s.pc[d].Forking? && x.e == s.pc[d].child) ensures Untouched(s, Do(s, a), x) {
        Footprint(s, a, x);
      }
      PcFrame(s, Do(s, a), d);
    }
  }

  lemma KeysKeep(s: State, a: Step)
    requires Inv(s) && Enabled(s, a)
    ensures Do(s, a).pc.Keys == Do(s, a).runs.Keys && Do(s, a).cur in Do(s, a).pc
    ensures forall d :: d in Do(s, a).pc && d !in s.pc ==> Do(s, a).pc[d] == Idle
  {
    assert s.pc.Keys == s.runs.Keys && s.cur in s.pc;
    hide Inv, FdRef, PipeRef, Inherited, HasPage;
    var s' := Do(s, a);
    forall d ensures d in s'.pc.Keys <==> d in s'.runs.Keys {
    }
  }

  lemma PcKeeps(s: State, a: Step, d: nat)
    requires Inv(s) && Enabled(s, a) && d in Do(s, a).pc
    ensures PcOk(Do(s, a), d)
  {
    if d !in s.pc {
      KeysKeep(s, a);
      hide Do, Inv;
    } else if d == s.cur && !a.Switch? {
      PcKeepsSelf(s, a);
    } else {
      PcKeepsOther(s, a, d);
    }
  }

  lemma StepKeeps(s: State, a: Step)
    requires Inv(s) && Enabled(s, a)
    ensures Inv(Do(s, a))
  {
    hide Do, SlotOk, Known, PcOk;
    var s' := Do(s, a);
    forall x ensures SlotOk(s', x) && Known(s', x) {
      SlotKeeps(s, a, x);
      KnownKeeps(s, a, x);
    }
    forall d | d in s'.pc ensures PcOk(s', d) {
      PcKeeps(s, a, d);
    }
    KeysKeep(s, a);
  }

  /** The step opens descriptor `y` as a duplicate of `z`: the end of a dup, or fork
      passing a descriptor on to the same number in the child. */
  predicate Duplicates(s: State, a: Step, z: Slot, y: Slot)
    requires s.cur in s.pc
  {
    var pc := s.pc[s.cur];
    && a == Go
    && (|| (pc.DupFd? && z == pc.old' && y == pc.x)
        || (pc.Forking? && pc.k < MAXFD && z == Slot(s.cur, pc.k) && y == Slot(pc.child, pc.k)))
  }

  /** No open descriptor ever changes its end, and a new one stands for the end of
      the descriptor that it duplicates. */
  lemma EndsExactly(s: State, a: Step, y: Slot)
    requires Inv(s) && Enabled(s, a)
    ensures y in s.fd && y in Do(s, a).fd ==> Do(s, a).fd[y] == s.fd[y]
    ensures y !in s.fd && y in Do(s, a).fd ==>
              exists z :: z in s.fd && Duplicates(s, a, z, y) && Do(s, a).fd[y] == s.fd[z]
    ensures forall z :: z in s.fd && Duplicates(s, a, z, y) ==> y in Do(s, a).fd && Do(s, a).fd[y] == s.fd[z]
  {
    assert PcOk(s, s.cur);
    var pc := s.pc[s.cur];
    if pc.Forking? && pc.child == y.e {
      assert ChildSlotOk(s, s.cur, y.i);
    }
    if a == Go && pc.DupFd? && y == pc.x {
      assert Duplicates(s, a, pc.old', y);
    } else if a == Go && pc.Forking? && y == Slot(pc.child, pc.k) && pc.k < MAXFD && Slot(s.cur, pc.k) in s.fd {
      assert Duplicates(s, a, Slot(s.cur, pc.k), y);
    }
  }

  ghost predicate Possible(s: State, steps: seq<Step>)
    decreases |steps|
  {
    steps == [] || (Enabled(s, steps[0]) && Possible(Do(s, steps[0]), steps[1..]))
  }

  ghost function After(s: State, steps: seq<Step>): State
    requires Possible(s, steps)
    decreases |steps|
  {
    if steps == [] then s else After(Do(s, steps[0]), steps[1..])
  }

  lemma {:induction false} RunKeeps(s: State, steps: seq<Step>)
    requires Inv(s) && Possible(s, steps)
    ensures Inv(After(s, steps))
    decreases |steps|
  {
    if steps != [] {
      StepKeeps(s, steps[0]);
      RunKeeps(Do(s, steps[0]), steps[1..]);
    }
  }

  /** The state that pipe() leaves: one environment with both ends open. */
  function Opened(e: nat, i: nat, j: nat): State {
    State(map[Slot(e, i) := Reading, Slot(e, j) := Writing], {Slot(e, i), Slot(e, j)}, {},
          map[e := Idle], map[e := 0], map[], e)
  }

  lemma OpenedInv(e: nat, i: nat, j: nat)
    requires i < MAXFD && j < MAXFD && i != j
    ensures Inv(Opened(e, i, j))
  {
    var s := Opened(e, i, j);
    forall x ensures SlotOk(s, x) && Known(s, x) {
    }
    assert PcOk(s, e);
  }

  function Other(end: End): End {
    if end == Reading then Writing else Reading
  }

  predicate NoFork(s: State) {
    forall e :: e in s.pc ==> !s.pc[e].Forking?
  }

  predicate Quiet(s: State) {
    forall e :: e in s.pc ==>
      s.pc[e].Idle? || s.pc[e].Check1? || s.pc[e].Check2? || s.pc[e].Check3? || s.pc[e].Answered?
  }

  lemma Partition(s: State)
    ensures Holders(s, Reading) + Holders(s, Writing) == s.fd.Keys
    ensures |Holders(s, Reading)| + |Holders(s, Writing)| == |s.fd.Keys|
  {
    var r, w := Holders(s, Reading), Holders(s, Writing);
    assert r + w == s.fd.Keys;
    assert r !! w;
  }

  /** Open descriptors whose data page a fork has not mapped yet. */
  function Ahead(s: State): set<Slot> {
    s.fd.Keys - s.data
  }

  /** Data pages mapped without their descriptor, by a dup or close under way or
      by a fork that lost the descriptor page. */
  function Behind(s: State): set<Slot> {
    s.data - s.fd.Keys
  }

  /** Between forks the pipe page is mapped as often as both descriptor pages
      together, and once more for every data page without its descriptor; when
      nobody is inside dup or close those are the ones that forks lost. */
  lemma CountsCover(s: State)
    requires Inv(s) && NoFork(s)
    ensures PipeRef(s) == |Holders(s, Reading)| + |Holders(s, Writing)| + |Behind(s)|
    ensures Quiet(s) ==> Behind(s) == s.lost
  {
    forall x | x in s.fd ensures x in s.data {
      assert SlotOk(s, x) && Known(s, x);
    }
    Partition(s);
    assert s.data == s.fd.Keys + Behind(s);
    assert |s.data| == |s.fd.Keys| + |Behind(s)|;
    if Quiet(s) {
      forall x ensures x in Behind(s) <==> x in s.lost {
        assert SlotOk(s, x) && Known(s, x);
      }
    }
  }

  /** The moment the test answers, with env_runs unchanged. */
  predicate Answering(s: State) {
    s.cur in s.pc && s.cur in s.runs && s.pc[s.cur].Check3? && s.pc[s.cur].n == s.runs[s.cur]
  }

  /** In every state the answer is "closed" exactly when the descriptors that a
      fork has inherited without their data make up for the other end's open ones
      and for the data pages in transit. Outside forks there are none of them. */
  lemma EofExactly(s: State)
    requires Inv(s) && Answering(s)
    ensures var x := s.pc[s.cur].x;
            && x in s.fd && Do(s, Go).pc[s.cur].Answered?
            && (Do(s, Go).pc[s.cur].closed <==> |Ahead(s)| == |Holders(s, Other(s.fd[x]))| + |Behind(s)|)
    ensures forall y :: y in Ahead(s) ==> Unborn(s, y.e)
  {
    assert PcOk(s, s.cur);
    Partition(s);
    assert s.fd.Keys + Behind(s) == s.data + Ahead(s);
    assert |s.fd.Keys + Behind(s)| == |s.fd.Keys| + |Behind(s)|;
    assert |s.data + Ahead(s)| == |s.data| + |Ahead(s)|;
    forall y | y in Ahead(s) ensures Unborn(s, y.e) {
      assert SlotOk(s, y) && Known(s, y);
    }
  }

  /** Between forks, "closed" is only answered when the other end has no open
      descriptor; when nobody is inside dup or close, it is answered exactly if
      moreover no fork has lost a descriptor page. */
  lemma EofSound(s: State)
    requires Inv(s) && Answering(s) && NoFork(s)
    ensures var x := s.pc[s.cur].x;
            && x in s.fd && Do(s, Go).pc[s.cur].Answered?
            && (Do(s, Go).pc[s.cur].closed ==> Holders(s, Other(s.fd[x])) == {})
            && (Quiet(s) ==> (Do(s, Go).pc[s.cur].closed <==> Holders(s, Other(s.fd[x])) == {} && s.lost == {}))
  {
    assert PcOk(s, s.cur);
    CountsCover(s);
  }

  /** The same over every run that starts with pipe(). */
  lemma EofSoundOnRuns(e: nat, i: nat, j: nat, steps: seq<Step>)
    requires i < MAXFD && j < MAXFD && i != j && Possible(Opened(e, i, j), steps)
    ensures var s := After(Opened(e, i, j), steps);
            Answering(s) && NoFork(s) ==>
              && s.pc[s.cur].x in s.fd
              && (Do(s, Go).pc[s.cur] == Answered(s.pc[s.cur].x, true) ==> Holders(s, Other(s.fd[s.pc[s.cur].x])) == {})
  {
    OpenedInv(e, i, j);
    RunKeeps(Opened(e, i, j), steps);
    var s := After(Opened(e, i, j), steps);
    if Answering(s) && NoFork(s) {
      EofSound(s);
    }
  }
}
