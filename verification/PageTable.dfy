/** The four-level tree of page tables as a value, and why it is a flat map
(lab/kern/pmap.c:438-554, lab/inc/mmu.h:30-50). */
module PageTable {
  import opened Common
  import opened Mmu

  /** A table entry: the physical page number and the low twelve bits. The word
      0 is the entry with page number 0 and no bits. */
  datatype Entry = Entry(ppn: nat, perm: Perm)

  const ZERO: Entry := Entry(0, {})

  /** Where a table page hangs: in the address space of which root, at which
      level, for which address prefix, and below which page. */
  datatype Place = Place(root: nat, level: nat, prefix: nat, parent: nat)

  /** Physical memory, each page read as 512 entries. */
  type Memory = seq<seq<Entry>>

  predicate Shape(words: Memory) {
    forall p :: 0 <= p < |words| ==> |words[p]| == NENTRIES
  }

  ghost predicate PlaceOk(words: Memory, place: map<nat, Place>, q: nat)
    requires Shape(words) && q in place
  {
    var pl := place[q];
    && q < |words|
    && 1 <= pl.level <= 4
    && pl.prefix < UserLimit(pl.level)
    && (pl.level == 4 ==> pl.root == q && pl.prefix == 0)
    && (pl.level < 4 ==>
          && pl.parent in place && pl.parent < |words|
          && place[pl.parent].root == pl.root
          && place[pl.parent].level == pl.level + 1
          && place[pl.parent].prefix == pl.prefix / NENTRIES
          && words[pl.parent][pl.prefix % NENTRIES] != ZERO
          && words[pl.parent][pl.prefix % NENTRIES].ppn == q)
  }

  /** Whether slot `i` of a table at this place covers user addresses. */
  predicate IsUser(pl: Place, i: nat) {
    pl.level >= 1 && pl.prefix * NENTRIES + i < UserLimit(pl.level - 1)
  }

  /** A nonzero user entry leads to the table for the extended prefix (or, in a
      level 1 table, names an existing page). */
  ghost predicate EntryOk(words: Memory, place: map<nat, Place>, q: nat, i: nat)
    requires Shape(words) && q in place && q < |words| && i < NENTRIES
  {
    var pl := place[q];
    words[q][i] != ZERO && IsUser(pl, i) ==>
      var c := words[q][i].ppn;
      && c < |words|
      && (pl.level != 1 ==> c in place && place[c] == Place(pl.root, pl.level - 1, pl.prefix * NENTRIES + i, q))
  }

  /** The user parts of all address spaces form one unaliased forest. Entries
      above UTOP are not restricted. */
  ghost predicate Tree(words: Memory, place: map<nat, Place>) {
    && Shape(words)
    && (forall q {:trigger PlaceOk(words, place, q)} :: q in place ==> PlaceOk(words, place, q))
    && (forall q, i {:trigger EntryOk(words, place, q, i)} ::
          q in place && q < |words| && 0 <= i < NENTRIES ==> EntryOk(words, place, q, i))
  }

  lemma InRange(words: Memory, place: map<nat, Place>)
    requires Tree(words, place)
    ensures forall q :: q in place ==> q < |words|
  {
    forall q | q in place ensures q < |words| {
      assert PlaceOk(words, place, q);
    }
  }

  ghost predicate IsRoot(place: map<nat, Place>, root: nat) {
    root in place && place[root].level == 4
  }

  /** The level 1 table that the hardware reaches for `va` from table `q`. */
  function Leaf(words: Memory, q: nat, level: nat, va: nat): Option<nat>
    decreases level
  {
    if q >= |words| || |words[q]| != NENTRIES then None
    else if level <= 1 then Some(q)
    else
      var e := words[q][Index(level, va)];
      if e == ZERO then None else Leaf(words, e.ppn, level - 1, va)
  }

  /** The flat view: the entry that translates `va`, ZERO when there is none. */
  function Translate(words: Memory, root: nat, va: nat): Entry {
    match Leaf(words, root, 4, va)
    case None => ZERO
    case Some(t) => if t < |words| && |words[t]| == NENTRIES then words[t][Index(1, va)] else ZERO
  }

  ghost predicate On(place: map<nat, Place>, q: nat, level: nat, va: nat) {
    q in place && place[q].level == level && place[q].prefix == Prefix(level, va)
  }

  /** A walk reaches the one table whose place covers the address. */
  lemma {:induction false} LeafPlace(words: Memory, place: map<nat, Place>, q: nat, level: nat, va: nat)
    requires Tree(words, place) && 1 <= level <= 4 && va < UTOP && On(place, q, level, va)
    ensures var t := Leaf(words, q, level, va);
            t.Some? ==> On(place, t.value, 1, va) && place[t.value].root == place[q].root
    decreases level
  {
    assert PlaceOk(words, place, q);
    if level > 1 && words[q][Index(level, va)] != ZERO {
      Descend(level, va);
      assert EntryOk(words, place, q, Index(level, va));
      LeafPlace(words, place, words[q][Index(level, va)].ppn, level - 1, va);
    }
  }

  /** The two memories hold the same user entries in the tables of level at least `low`. */
  ghost predicate Agree(words: Memory, words': Memory, place: map<nat, Place>, low: nat)
    requires Shape(words) && Shape(words') && |words'| == |words|
  {
    forall q, i {:trigger words'[q][i]} ::
      q in place && q < |words| && 0 <= i < NENTRIES && place[q].level >= low && IsUser(place[q], i) ==>
        words'[q][i] == words[q][i]
  }

  /** Translation depends only on the user entries of the upper tables and the slot itself. */
  lemma {:induction false} LeafFrame(words: Memory, words': Memory, place: map<nat, Place>, q: nat, level: nat, va: nat)
    requires Tree(words, place) && Shape(words') && |words'| == |words|
    requires 1 <= level <= 4 && va < UTOP && On(place, q, level, va)
    requires Agree(words, words', place, 2)
    ensures Leaf(words', q, level, va) == Leaf(words, q, level, va)
    decreases level
  {
    assert PlaceOk(words, place, q);
    Descend(level, va);
    assert level > 1 ==> words'[q][Index(level, va)] == words[q][Index(level, va)];
    if level > 1 && words[q][Index(level, va)] != ZERO {
      assert EntryOk(words, place, q, Index(level, va));
      LeafFrame(words, words', place, words[q][Index(level, va)].ppn, level - 1, va);
    }
  }

  ghost function Set(words: Memory, q: nat, i: nat, e: Entry): (r: Memory)
    requires Shape(words) && q < |words| && i < NENTRIES
    ensures Shape(r) && |r| == |words|
  {
    words[q := words[q][i := e]]
  }

  lemma SetLeafTree(words: Memory, place: map<nat, Place>, t: nat, i: nat, e: Entry)
    requires Tree(words, place) && t in place && place[t].level == 1 && t < |words| && i < NENTRIES
    requires e == ZERO || e.ppn < |words|
    ensures Tree(Set(words, t, i, e), place)
  {
    var words' := Set(words, t, i, e);
    forall q | q in place ensures PlaceOk(words', place, q) {
      assert PlaceOk(words, place, q);
    }
    forall q, j | q in place && q < |words'| && 0 <= j < NENTRIES ensures EntryOk(words', place, q, j) {
      assert EntryOk(words, place, q, j);
    }
  }

  lemma RootOn(words: Memory, place: map<nat, Place>, root: nat, va: nat)
    requires Tree(words, place) && IsRoot(place, root) && va < UTOP
    ensures On(place, root, 4, va) && root < |words| && place[root].root == root
  {
    Descend(4, va);
    assert PlaceOk(words, place, root);
  }

  /** Writing one entry of a level 1 table changes the translation of exactly
      one page of one address space. */
  lemma SetLeaf(words: Memory, place: map<nat, Place>, t: nat, i: nat, e: Entry, root: nat, va: nat)
    requires Tree(words, place) && t in place && place[t].level == 1 && t < |words| && i < NENTRIES
    requires IsRoot(place, root) && va < UTOP
    ensures Leaf(Set(words, t, i, e), root, 4, va) == Leaf(words, root, 4, va)
    ensures Translate(Set(words, t, i, e), root, va) ==
            if Leaf(words, root, 4, va) == Some(t) && Index(1, va) == i then e else Translate(words, root, va)
  {
    RootOn(words, place, root, va);
    LeafFrame(words, Set(words, t, i, e), place, root, 4, va);
  }

  /** Two user addresses meet the same slot of the same table only if they lie on
      the same page of the same address space. */
  lemma SlotDeterminesPage(words: Memory, place: map<nat, Place>, root: nat, va: nat, root': nat, va': nat)
    requires Tree(words, place) && IsRoot(place, root) && IsRoot(place, root') && va < UTOP && va' < UTOP
    requires Leaf(words, root, 4, va).Some? && Leaf(words, root', 4, va') == Leaf(words, root, 4, va)
    ensures Index(1, va) == Index(1, va') <==> root == root' && va / PGSIZE == va' / PGSIZE
    ensures root == root'
  {
    RootOn(words, place, root, va);
    RootOn(words, place, root', va');
    LeafPlace(words, place, root, 4, va);
    LeafPlace(words, place, root', 4, va');
    Descend(1, va);
    Descend(1, va');
  }

  ghost predicate NoChild(words: Memory, q: nat) {
    q < |words| && |words[q]| == NENTRIES && forall i :: 0 <= i < NENTRIES ==> words[q][i] == ZERO
  }

  /** An empty page becomes the root of a new, empty address space. */
  lemma NewRoot(words: Memory, place: map<nat, Place>, p: nat)
    requires Tree(words, place) && p !in place && NoChild(words, p)
    ensures Tree(words, place[p := Place(p, 4, 0, p)])
  {
    var place' := place[p := Place(p, 4, 0, p)];
    forall q | q in place' ensures PlaceOk(words, place', q) {
      if q != p {
        assert PlaceOk(words, place, q);
      }
    }
    forall q, i | q in place' && q < |words| && 0 <= i < NENTRIES ensures EntryOk(words, place', q, i) {
      if q != p {
        assert EntryOk(words, place, q, i);
      }
    }
  }

  lemma LinkPlace(words: Memory, place: map<nat, Place>, q: nat, i: nat, c: nat, e: Entry, p: nat, pl: Place)
    requires Tree(words, place) && q in place && q < |words| && i < NENTRIES
    requires words[q][i] == ZERO && c !in place && p in place
    ensures PlaceOk(Set(words, q, i, e), place[c := pl], p)
  {
    assert PlaceOk(words, place, p);
  }

  /** Hanging a zeroed page into an empty user slot of an upper table. */
  lemma Link(words: Memory, place: map<nat, Place>, q: nat, i: nat, c: nat, e: Entry)
    requires Tree(words, place) && q in place && q < |words| && i < NENTRIES
    requires place[q].level > 1 && IsUser(place[q], i)
    requires words[q][i] == ZERO && c !in place && NoChild(words, c) && e.ppn == c && e != ZERO
    ensures var pl := Place(place[q].root, place[q].level - 1, place[q].prefix * NENTRIES + i, q);
            Tree(Set(words, q, i, e), place[c := pl])
  {
    var pl := Place(place[q].root, place[q].level - 1, place[q].prefix * NENTRIES + i, q);
    var words', place' := Set(words, q, i, e), place[c := pl];
    assert PlaceOk(words, place, q);
    assert pl.prefix / NENTRIES == place[q].prefix && pl.prefix % NENTRIES == i;
    forall p | p in place' ensures PlaceOk(words', place', p) {
      if p == c {
      } else {
        LinkPlace(words, place, q, i, c, e, p, pl);
      }
    }
    forall p, j | p in place' && p < |words'| && 0 <= j < NENTRIES ensures EntryOk(words', place', p, j) {
      if p != c {
        assert EntryOk(words, place, p, j);
      }
    }
  }

  /** Hanging in a zeroed table leaves every user translation as it was. */
  lemma {:induction false} LinkLeaf(words: Memory, place: map<nat, Place>, q: nat, i: nat, c: nat, e: Entry,
                                    p: nat, level: nat, va: nat)
    requires Tree(words, place) && q in place && q < |words| && i < NENTRIES
    requires place[q].level > 1 && words[q][i] == ZERO && c !in place && NoChild(words, c) && e.ppn == c && e != ZERO
    requires 1 <= level <= 4 && va < UTOP && On(place, p, level, va)
    ensures var words' := Set(words, q, i, e);
            var t, t' := Leaf(words, p, level, va), Leaf(words', p, level, va);
            (t.Some? ==> t' == t && t.value != c && t.value != q) && (t.None? && t'.Some? ==> t'.value == c)
    decreases level
  {
    var words' := Set(words, q, i, e);
    assert PlaceOk(words, place, p);
    if level > 1 {
      var k := Index(level, va);
      Descend(level, va);
      assert EntryOk(words, place, p, k);
      if words[p][k] != ZERO {
        LinkLeaf(words, place, q, i, c, e, words[p][k].ppn, level - 1, va);
      } else if p == q && k == i {
        assert words'[p][k] == e && words'[c] == words[c];
        if level > 2 {
          assert words'[c][Index(level - 1, va)] == ZERO;
        }
      }
    }
  }

  lemma LinkTranslate(words: Memory, place: map<nat, Place>, q: nat, i: nat, c: nat, e: Entry, root: nat, va: nat)
    requires Tree(words, place) && q in place && q < |words| && i < NENTRIES
    requires place[q].level > 1 && words[q][i] == ZERO && c !in place && NoChild(words, c) && e.ppn == c && e != ZERO
    requires IsRoot(place, root) && va < UTOP
    ensures Translate(Set(words, q, i, e), root, va) == Translate(words, root, va)
  {
    RootOn(words, place, root, va);
    LinkLeaf(words, place, q, i, c, e, root, 4, va);
    LeafPlace(words, place, root, 4, va);
  }
}

/** Reference counts of physical pages against the tables that name them
(lab/kern/pmap.c:349-409, 607-692). */
module PageCounts {
  import opened Common
  import opened Mmu
  import opened PageTable

  /** The user page-table entries that name page `p`. */
  ghost function Slots(words: Memory, place: map<nat, Place>, p: nat): set<(nat, nat)>
    requires Shape(words)
  {
    set q, i | q in place.Keys && place[q].level == 1 && q < |words| && 0 <= i < NENTRIES && words[q][i].ppn == p ::
      (q, i)
  }

  ghost function Count(words: Memory, place: map<nat, Place>, p: nat): nat
    requires Shape(words)
  {
    |Slots(words, place, p)| + (if p in place then 1 else 0)
  }

  ghost predicate Exact(words: Memory, place: map<nat, Place>, refs: seq<nat>, kernel: set<nat>)
    requires Shape(words)
  {
    && (forall p :: 0 <= p < |refs| ==> refs[p] < 65536)
    && (forall p {:trigger Count(words, place, p)} ::
          0 <= p < |refs| && p !in kernel ==> refs[p] == Count(words, place, p))
  }

  ghost predicate FreeOk(refs: seq<nat>, free: seq<nat>, kernel: set<nat>) {
    forall p :: p in free ==> p < |refs| && refs[p] == 0 && p !in kernel
  }

  /** What every run keeps: the tables are a tree, every count outside the pages
      whose counts the kernel does not maintain (`kernel`, page 0 among them) is
      exact, and free pages are unused, of count 0 and outside `kernel`. */
  ghost predicate Consistent(words: Memory, place: map<nat, Place>, refs: seq<nat>, free: seq<nat>, kernel: set<nat>) {
    && Tree(words, place)
    && |refs| == |words|
    && 0 in kernel
    && place.Keys !! kernel
    && Exact(words, place, refs, kernel)
    && FreeOk(refs, free, kernel)
  }

  lemma FreeIsUnused(words: Memory, place: map<nat, Place>, refs: seq<nat>, free: seq<nat>, kernel: set<nat>, p: nat)
    requires Consistent(words, place, refs, free, kernel) && p in free
    ensures p !in place && Slots(words, place, p) == {}
  {
    assert Count(words, place, p) == 0;
  }

  lemma SetLeafSlots(words: Memory, place: map<nat, Place>, t: nat, i: nat, e: Entry, p: nat)
    requires Tree(words, place) && t in place && place[t].level == 1 && t < |words| && i < NENTRIES
    ensures var s, s' := Slots(words, place, p), Slots(Set(words, t, i, e), place, p);
            && s' == (if e.ppn == p then s + {(t, i)} else s - {(t, i)})
            && ((t, i) in s <==> words[t][i].ppn == p)
            && |s'| == |s| - (if words[t][i].ppn == p then 1 else 0) + (if e.ppn == p then 1 else 0)
  {
    var s, s' := Slots(words, place, p), Slots(Set(words, t, i, e), place, p);
    assert forall q, j :: (q, j) in s' <==> (if (q, j) == (t, i) then e.ppn == p else (q, j) in s);
    assert s' == if e.ppn == p then s + {(t, i)} else s - {(t, i)};
  }

  lemma LinkSlots(words: Memory, place: map<nat, Place>, q: nat, i: nat, c: nat, e: Entry, pl: Place, p: nat)
    requires Tree(words, place) && q in place && q < |words| && i < NENTRIES && place[q].level > 1
    requires c !in place && NoChild(words, c) && p != 0
    ensures Slots(Set(words, q, i, e), place[c := pl], p) == Slots(words, place, p)
  {
    var s, s' := Slots(words, place, p), Slots(Set(words, q, i, e), place[c := pl], p);
    assert forall r, j :: (r, j) in s' ==> (r, j) in s;
    assert forall r, j :: (r, j) in s ==> (r, j) in s';
  }

  lemma SamePlace(words: Memory, words': Memory, place: map<nat, Place>, q: nat)
    requires Tree(words, place) && Shape(words') && |words'| == |words| && Agree(words, words', place, 1) && q in place
    ensures PlaceOk(words', place, q)
  {
    var pl := place[q];
    assert PlaceOk(words, place, q);
    if pl.level < 4 {
      assert pl.prefix / NENTRIES * NENTRIES + pl.prefix % NENTRIES == pl.prefix;
      assert words'[pl.parent][pl.prefix % NENTRIES] == words[pl.parent][pl.prefix % NENTRIES];
    }
  }

  /** Everything above depends only on the user entries of the table pages. */
  lemma SameTables(words: Memory, words': Memory, place: map<nat, Place>)
    requires Tree(words, place) && Shape(words') && |words'| == |words|
    requires Agree(words, words', place, 1)
    ensures Tree(words', place)
    ensures forall p: nat {:trigger Slots(words', place, p)} {:trigger Count(words', place, p)} ::
              Slots(words', place, p) == Slots(words, place, p) && Count(words', place, p) == Count(words, place, p)
  {
    forall q | q in place ensures PlaceOk(words', place, q) {
      SamePlace(words, words', place, q);
    }
    forall q, i | q in place && q < |words'| && 0 <= i < NENTRIES ensures EntryOk(words', place, q, i) {
      assert EntryOk(words, place, q, i);
    }
    forall q | q in place && place[q].level == 1 ensures q < |words| && words'[q] == words[q] {
      assert PlaceOk(words, place, q);
      assert forall i :: 0 <= i < NENTRIES ==> words'[q][i] == words[q][i];
    }
    forall p: nat
      ensures Slots(words', place, p) == Slots(words, place, p) && Count(words', place, p) == Count(words, place, p)
    {
      var s, s' := Slots(words, place, p), Slots(words', place, p);
      assert forall r, j :: (r, j) in s' <==> (r, j) in s;
    }
  }

  lemma SameTranslate(words: Memory, words': Memory, place: map<nat, Place>, root: nat, va: nat)
    requires Tree(words, place) && Shape(words') && |words'| == |words| && IsRoot(place, root) && va < UTOP
    requires Agree(words, words', place, 1)
    ensures Translate(words', root, va) == Translate(words, root, va)
  {
    RootOn(words, place, root, va);
    LeafFrame(words, words', place, root, 4, va);
    LeafPlace(words, place, root, 4, va);
    if Leaf(words, root, 4, va).Some? {
      assert PlaceOk(words, place, Leaf(words, root, 4, va).value);
      Descend(1, va);
      assert words'[Leaf(words, root, 4, va).value][Index(1, va)] ==
             words[Leaf(words, root, 4, va).value][Index(1, va)];
    }
  }

  lemma SetLeafCount(words: Memory, place: map<nat, Place>, t: nat, i: nat, e: Entry, p: nat)
    requires Tree(words, place) && t in place && place[t].level == 1 && t < |words| && i < NENTRIES
    ensures Count(Set(words, t, i, e), place, p) ==
            Count(words, place, p) - (if words[t][i].ppn == p then 1 else 0) + (if e.ppn == p then 1 else 0)
    ensures words[t][i].ppn == p ==> Count(words, place, p) >= 1
  {
    SetLeafSlots(words, place, t, i, e, p);
  }

  // pp_ref is a uint16_t and wraps.
  function Inc(n: nat): nat { if n == 65535 then 0 else n + 1 }
  function Dec(n: nat): nat { if n == 0 then 65535 else n - 1 }

  /** Counts after dropping one reference to `drop` and adding one to `add`. */
  ghost function Recount(refs: seq<nat>, drop: Option<nat>, add: Option<nat>): (r: seq<nat>)
    requires drop.Some? ==> drop.value < |refs|
    requires add.Some? ==> add.value < |refs| && add != drop
    ensures |r| == |refs|
    ensures forall p :: 0 <= p < |refs| ==>
              r[p] == if drop == Some(p) then Dec(refs[p]) else if add == Some(p) then Inc(refs[p]) else refs[p]
  {
    var refs1 := if drop.Some? then refs[drop.value := Dec(refs[drop.value])] else refs;
    if add.Some? then refs1[add.value := Inc(refs1[add.value])] else refs1
  }

  ghost function Drops(e: Entry): Option<nat> { if e == ZERO then None else Some(e.ppn) }

  ghost predicate Replaceable(words: Memory, place: map<nat, Place>, refs: seq<nat>, free: seq<nat>, kernel: set<nat>,
                              t: nat, i: nat, e: Entry)
  {
    && Consistent(words, place, refs, free, kernel)
    && t in place && place[t].level == 1 && t < |words| && i < NENTRIES && e.ppn < |words|
    && words[t][i].ppn < |refs| && words[t][i].ppn != e.ppn && e.ppn !in free
  }

  ghost function FreeAfter(was: Entry, refs: seq<nat>, free: seq<nat>): seq<nat>
    requires was.ppn < |refs|
  {
    if was != ZERO && refs[was.ppn] == 1 then [was.ppn] + free else free
  }

  lemma ReplaceExactAt(words: Memory, place: map<nat, Place>, refs: seq<nat>, free: seq<nat>, kernel: set<nat>,
                       t: nat, i: nat, e: Entry, p: nat)
    requires Replaceable(words, place, refs, free, kernel, t, i, e) && p < |refs| && p !in kernel
    ensures Recount(refs, Drops(words[t][i]), Drops(e))[p] == Count(Set(words, t, i, e), place, p) <==>
            !(e != ZERO && e.ppn == p && refs[p] == 65535)
  {
    SetLeafCount(words, place, t, i, e, p);
    assert refs[p] == Count(words, place, p);
  }

  lemma ReplaceExact(words: Memory, place: map<nat, Place>, refs: seq<nat>, free: seq<nat>, kernel: set<nat>,
                     t: nat, i: nat, e: Entry)
    requires Replaceable(words, place, refs, free, kernel, t, i, e)
    ensures Exact(Set(words, t, i, e), place, Recount(refs, Drops(words[t][i]), Drops(e)), kernel) <==>
            e == ZERO || e.ppn in kernel || refs[e.ppn] < 65535
  {
    var words' := Set(words, t, i, e);
    var refs' := Recount(refs, Drops(words[t][i]), Drops(e));
    if e == ZERO || e.ppn in kernel || refs[e.ppn] < 65535 {
      forall p: nat | p < |refs'| && p !in kernel ensures refs'[p] == Count(words', place, p) {
        ReplaceExactAt(words, place, refs, free, kernel, t, i, e, p);
      }
    } else {
      ReplaceExactAt(words, place, refs, free, kernel, t, i, e, e.ppn);
    }
  }

  lemma ReplaceFree(words: Memory, place: map<nat, Place>, refs: seq<nat>, free: seq<nat>, kernel: set<nat>,
                    t: nat, i: nat, e: Entry)
    requires Replaceable(words, place, refs, free, kernel, t, i, e)
    ensures var was := words[t][i];
            FreeOk(Recount(refs, Drops(was), Drops(e)), FreeAfter(was, refs, free), kernel) <==>
            !(was != ZERO && was.ppn in kernel && refs[was.ppn] == 1)
  {
    var was := words[t][i];
    var refs', free' := Recount(refs, Drops(was), Drops(e)), FreeAfter(was, refs, free);
    if was != ZERO && was.ppn in kernel && refs[was.ppn] == 1 {
      assert free'[0] in free';
    } else {
      forall p | p in free' ensures p < |refs| && refs'[p] == 0 && p !in kernel {
        if p in free {
          FreeIsUnused(words, place, refs, free, kernel, p);
          SetLeafSlots(words, place, t, i, e, p);
        }
      }
    }
  }

  /** Replacing the page that one entry names keeps the counts exact if and only
      if the added count does not wrap at 16 bits and no kernel page is freed. */
  lemma ReplaceConsistent(words: Memory, place: map<nat, Place>, refs: seq<nat>, free: seq<nat>, kernel: set<nat>,
                          t: nat, i: nat, e: Entry)
    requires Replaceable(words, place, refs, free, kernel, t, i, e)
    ensures var was := words[t][i];
            Consistent(Set(words, t, i, e), place, Recount(refs, Drops(was), Drops(e)),
                       FreeAfter(was, refs, free), kernel) <==>
            && (e == ZERO || e.ppn in kernel || refs[e.ppn] < 65535)
            && !(was != ZERO && was.ppn in kernel && refs[was.ppn] == 1)
  {
    SetLeafTree(words, place, t, i, e);
    ReplaceExact(words, place, refs, free, kernel, t, i, e);
    ReplaceFree(words, place, refs, free, kernel, t, i, e);
  }

  /** Clearing an entry that names page 0, or that is already clear, drops a
      count of page 0, which is kept only as long as page 0 is not freed. */
  lemma ClearZero(words: Memory, place: map<nat, Place>, refs: seq<nat>, free: seq<nat>, kernel: set<nat>,
                  t: nat, i: nat)
    requires Consistent(words, place, refs, free, kernel)
    requires t in place && place[t].level == 1 && t < |words| && i < NENTRIES && words[t][i].ppn == 0
    ensures var free' := if refs[0] == 1 then [0] + free else free;
            Consistent(Set(words, t, i, ZERO), place, refs[0 := Dec(refs[0])], free', kernel) <==> refs[0] != 1
  {
    var words', refs' := Set(words, t, i, ZERO), refs[0 := Dec(refs[0])];
    var free' := if refs[0] == 1 then [0] + free else free;
    SetLeafTree(words, place, t, i, ZERO);
    forall p: nat | p < |refs'| && p !in kernel ensures refs'[p] == Count(words', place, p) {
      SetLeafCount(words, place, t, i, ZERO, p);
    }
    if refs[0] == 1 {
      assert free'[0] in free';
    }
  }

  /** Clearing any entry: the page it names loses a count, and the books stay
      exact unless that frees a page of the kernel. */
  lemma ClearConsistent(words: Memory, place: map<nat, Place>, refs: seq<nat>, free: seq<nat>, kernel: set<nat>,
                        t: nat, i: nat)
    requires Consistent(words, place, refs, free, kernel)
    requires t in place && place[t].level == 1 && t < |words| && i < NENTRIES && words[t][i].ppn < |words|
    ensures var p := words[t][i].ppn;
            var free' := if refs[p] == 1 then [p] + free else free;
            && (refs[p] == 1 ==> p !in free)
            && (Consistent(Set(words, t, i, ZERO), place, refs[p := Dec(refs[p])], free', kernel) <==>
                !(p in kernel && refs[p] == 1))
  {
    var p := words[t][i].ppn;
    if p == 0 {
      ClearZero(words, place, refs, free, kernel, t, i);
    } else {
      ReplaceConsistent(words, place, refs, free, kernel, t, i, ZERO);
      assert Recount(refs, Some(p), None) == refs[p := Dec(refs[p])];
    }
  }

  /** Counts and free list after page_insert of `pp` over `was`. */
  ghost function Moved(refs: seq<nat>, was: Entry, pp: nat): (r: seq<nat>)
    requires was.ppn < |refs| && pp < |refs|
    ensures |r| == |refs|
  {
    if was.ppn == pp then refs else Recount(refs, Drops(was), Some(pp))
  }

  ghost function FreedBy(was: Entry, pp: nat, refs: seq<nat>, free: seq<nat>): seq<nat>
    requires was.ppn < |refs|
  {
    if was.ppn == pp then free else FreeAfter(was, refs, free)
  }

  lemma MisnamedExact(words: Memory, place: map<nat, Place>, refs: seq<nat>, free: seq<nat>, kernel: set<nat>,
                      t: nat, i: nat, pp: nat, e: Entry)
    requires Consistent(words, place, refs, free, kernel)
    requires t in place && place[t].level == 1 && t < |words| && i < NENTRIES
    requires words[t][i].ppn < |refs| && pp < |refs| && e.ppn != pp && e != ZERO && e.ppn < |refs|
    ensures Exact(Set(words, t, i, e), place, Moved(refs, words[t][i], pp), kernel) <==> e.ppn in kernel && pp in kernel
  {
    var was, words', refs' := words[t][i], Set(words, t, i, e), Moved(refs, words[t][i], pp);
    forall p: nat | p < |refs| && p !in kernel
      ensures refs'[p] == Count(words', place, p) <==> p != pp && p != e.ppn
    {
      SetLeafCount(words, place, t, i, e, p);
      assert refs[p] == Count(words, place, p);
    }
    if pp !in kernel {
      assert refs'[pp] != Count(words', place, pp);
    }
    if e.ppn !in kernel {
      assert refs'[e.ppn] != Count(words', place, e.ppn);
    }
  }

  lemma MisnamedFree(words: Memory, place: map<nat, Place>, refs: seq<nat>, free: seq<nat>, kernel: set<nat>,
                     t: nat, i: nat, pp: nat)
    requires Consistent(words, place, refs, free, kernel)
    requires t in place && place[t].level == 1 && t < |words| && i < NENTRIES
    requires words[t][i].ppn < |refs| && pp < |refs| && pp !in free
    ensures var was := words[t][i];
            FreeOk(Moved(refs, was, pp), FreedBy(was, pp, refs, free), kernel) <==>
            was.ppn == pp || !(was != ZERO && was.ppn in kernel && refs[was.ppn] == 1)
  {
    var was := words[t][i];
    if was.ppn != pp {
      ReplaceFree(words, place, refs, free, kernel, t, i, Entry(pp, {P}));
    }
  }

  /** When the bits above the flags change the frame number, the count goes to page
      `pp` and the entry names another: that is kept exactly if the books of
      neither are and the other exists. */
  lemma MisnamedConsistent(words: Memory, place: map<nat, Place>, refs: seq<nat>, free: seq<nat>, kernel: set<nat>,
                           t: nat, i: nat, pp: nat, e: Entry)
    requires Consistent(words, place, refs, free, kernel)
    requires t in place && place[t].level == 1 && t < |words| && i < NENTRIES && IsUser(place[t], i)
    requires words[t][i].ppn < |refs| && pp < |refs| && pp !in free && e.ppn != pp && e != ZERO
    ensures var was := words[t][i];
            Consistent(Set(words, t, i, e), place, Moved(refs, was, pp), FreedBy(was, pp, refs, free), kernel) <==>
            && e.ppn < |words| && e.ppn in kernel && pp in kernel
            && (was.ppn == pp || !(was != ZERO && was.ppn in kernel && refs[was.ppn] == 1))
  {
    var was, words' := words[t][i], Set(words, t, i, e);
    var refs', free' := Moved(refs, was, pp), FreedBy(was, pp, refs, free);
    if e.ppn >= |words| {
      assert !EntryOk(words', place, t, i);
    } else {
      SetLeafTree(words, place, t, i, e);
      MisnamedExact(words, place, refs, free, kernel, t, i, pp, e);
      MisnamedFree(words, place, refs, free, kernel, t, i, pp);
    }
  }

  /** Changing only the permission bits of an entry keeps everything. */
  lemma Reperm(words: Memory, place: map<nat, Place>, refs: seq<nat>, free: seq<nat>, kernel: set<nat>,
               t: nat, i: nat, e: Entry)
    requires Consistent(words, place, refs, free, kernel)
    requires t in place && place[t].level == 1 && t < |words| && i < NENTRIES && words[t][i].ppn == e.ppn < |words|
    ensures Consistent(Set(words, t, i, e), place, refs, free, kernel)
  {
    var words' := Set(words, t, i, e);
    SetLeafTree(words, place, t, i, e);
    forall p: nat | p < |refs| && p !in kernel ensures refs[p] == Count(words', place, p) {
      SetLeafCount(words, place, t, i, e, p);
    }
  }
}
