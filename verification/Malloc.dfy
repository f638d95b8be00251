/** The page-based allocator of the user library (lab/lib/malloc.c). A chunk of
less than a page shares its page with others; a reference word at the end of the
last page of a chunk counts them. */
module Heap {
  import opened Common

  const MBEGIN := 0x0800_0000
  const MEND := 0x1000_0000
  const MAXMALLOC := 0x10_0000

  /** A mapped heap page: PTE_CONTINUED, and the reference word if it is not set. */
  datatype Page = Page(cont: bool, ref: nat)

  /** The mapped pages by number, the allocation pointer, and the live chunks with their sizes. */
  datatype State = State(pages: map<nat, Page>, mptr: nat, live: map<nat, nat>)

  function First(v: nat): nat {
    v / PGSIZE
  }

  /** The page that holds a chunk's reference word. */
  function Last(v: nat, n: nat): nat {
    (v + n + 3) / PGSIZE
  }

  predicate ChunkOk(s: State, v: nat)
    requires v in s.live
  {
    var n := s.live[v];
    && 0 < n < MAXMALLOC && n % 4 == 0 && v % 4 == 0 && MBEGIN <= v
    && (First(v) < Last(v, n) ==> v % PGSIZE == 0)
    && (forall q :: First(v) <= q < Last(v, n) ==> q in s.pages && s.pages[q].cont)
    && Last(v, n) in s.pages && !s.pages[Last(v, n)].cont
  }

  predicate Apart(v: nat, n: nat, w: nat, m: nat) {
    && (v + n <= w || w + m <= v)
    && (First(v) == Last(v, n) || Last(v, n) <= First(w) || Last(w, m) < First(v))
  }

  /** Two chunks do not overlap, and a page that continues one is not used by the other. */
  predicate PairOk(live: map<nat, nat>, v: nat, w: nat)
    requires v in live && w in live
  {
    v != w ==> Apart(v, live[v], w, live[w])
  }

  /** The live chunks whose reference is counted in page `p`. */
  function Users(live: map<nat, nat>, p: nat): set<nat> {
    set v | v in live && Last(v, live[v]) == p
  }

  /** The allocation pointer is inside page `p` and holds a reference to it. */
  predicate Open(mptr: nat, p: nat) {
    mptr % PGSIZE != 0 && mptr / PGSIZE == p
  }

  predicate PageOk(s: State, p: nat)
    requires p in s.pages
  {
    && MBEGIN / PGSIZE <= p < MEND / PGSIZE
    && (!s.pages[p].cont ==>
          s.pages[p].ref >= |Users(s.live, p)| + (if Open(s.mptr, p) then 1 else 0) && s.pages[p].ref >= 1)
  }

  predicate PtrOk(s: State) {
    && (s.mptr == 0 || MBEGIN <= s.mptr <= MEND) && s.mptr % 4 == 0
    && (s.mptr % PGSIZE != 0 ==>
          && s.mptr / PGSIZE in s.pages && !s.pages[s.mptr / PGSIZE].cont
          && forall v :: v in s.live && Last(v, s.live[v]) == s.mptr / PGSIZE ==> v + s.live[v] <= s.mptr)
  }

  ghost predicate Inv(s: State) {
    && PtrOk(s)
    && (forall v {:trigger ChunkOk(s, v)} :: v in s.live ==> ChunkOk(s, v))
    && (forall v, w {:trigger PairOk(s.live, v, w)} :: v in s.live && w in s.live ==> PairOk(s.live, v, w))
    && (forall p {:trigger PageOk(s, p)} :: p in s.pages ==> PageOk(s, p))
  }

  /** What callers rely on: a live chunk lies in mapped heap pages, before the
      reference word of its last page, and apart from every other. */
  lemma Safety(s: State, v: nat, w: nat, a: nat)
    requires Inv(s) && v in s.live && w in s.live
    ensures v <= a < v + s.live[v] ==> MBEGIN <= a < MEND && a / PGSIZE in s.pages
    ensures v + s.live[v] + 4 <= (Last(v, s.live[v]) + 1) * PGSIZE
    ensures v != w ==> !(v <= a < v + s.live[v] && w <= a < w + s.live[w])
  {
    var n := s.live[v];
    assert ChunkOk(s, v) && PairOk(s.live, v, w) && PageOk(s, Last(v, n));
    if v <= a < v + n {
      assert First(v) <= a / PGSIZE <= Last(v, n);
      assert PageOk(s, a / PGSIZE);
    }
  }

  // Elementary changes.

  function Dropped(pages: map<nat, Page>, first: nat, last: nat): map<nat, Page>
    requires last in pages && pages[last].ref >= 1
  {
    var rest := map q | q in pages && !(first <= q < last) :: pages[q];
    if pages[last].ref == 1 then rest - {last} else rest[last := pages[last].(ref := pages[last].ref - 1)]
  }

  lemma UsersWithout(live: map<nat, nat>, v: nat, p: nat)
    requires v in live
    ensures Users(live - {v}, p) == Users(live, p) - {v}
    ensures |Users(live - {v}, p)| == |Users(live, p)| - (if Last(v, live[v]) == p then 1 else 0)
  {
    var live' := live - {v};
    assert Users(live', p) == Users(live, p) - {v};
  }

  lemma FreeKeepsChunk(s: State, v: nat, w: nat)
    requires Inv(s) && v in s.live && w in s.live && v != w
    requires Last(v, s.live[v]) in s.pages && s.pages[Last(v, s.live[v])].ref >= 1
    ensures ChunkOk(State(Dropped(s.pages, First(v), Last(v, s.live[v])), s.mptr, s.live - {v}), w)
  {
    var p, n := Last(v, s.live[v]), s.live[w];
    assert ChunkOk(s, v) && ChunkOk(s, w) && PairOk(s.live, v, w) && PairOk(s.live, w, v) && PageOk(s, p);
    if Last(w, n) == p {
      assert {v, w} <= Users(s.live, p);
      SubsetSize({v, w}, Users(s.live, p));
    }
  }

  /** Freeing a live chunk unmaps the pages that continue it, and its last page
      only if nothing else is in it. */
  lemma FreeKeeps(s: State, v: nat)
    requires Inv(s) && v in s.live
    ensures var p := Last(v, s.live[v]);
            && p in s.pages && s.pages[p].ref >= 1
            && Inv(State(Dropped(s.pages, First(v), p), s.mptr, s.live - {v}))
  {
    var n := s.live[v];
    var p := Last(v, n);
    assert ChunkOk(s, v) && PageOk(s, p);
    var s' := State(Dropped(s.pages, First(v), p), s.mptr, s.live - {v});
    forall q | q in s'.pages ensures PageOk(s', q) {
      assert PageOk(s, q);
      UsersWithout(s.live, v, q);
    }
    forall w | w in s'.live ensures ChunkOk(s', w) {
      FreeKeepsChunk(s, v, w);
    }
    forall w, x | w in s'.live && x in s'.live ensures PairOk(s'.live, w, x) {
      assert PairOk(s.live, w, x);
    }
    if s.mptr % PGSIZE != 0 && s.mptr / PGSIZE == p {
      UsersWithout(s.live, v, p);
      assert v in Users(s.live, p);
    }
  }

  lemma Boundary(p: nat)
    ensures p * PGSIZE % PGSIZE == 0 && p * PGSIZE % 4 == 0
  {
    assert p * PGSIZE == p * 1024 * 4;
  }

  /** Between page boundaries the pointer may move freely. */
  lemma Repoint(s: State, m: nat)
    requires Inv(s) && s.mptr % PGSIZE == 0 && m % PGSIZE == 0 && MBEGIN <= m <= MEND
    ensures Inv(s.(mptr := m))
  {
    var s' := s.(mptr := m);
    assert m == m / PGSIZE * PGSIZE;
    Boundary(m / PGSIZE);
    forall q | q in s'.pages ensures PageOk(s', q) {
      assert PageOk(s, q);
    }
    forall v | v in s'.live ensures ChunkOk(s', v) {
      assert ChunkOk(s, v);
    }
    forall v, w | v in s'.live && w in s'.live ensures PairOk(s'.live, v, w) {
      assert PairOk(s.live, v, w);
    }
  }

  lemma MoveOnChunk(s: State, v: nat)
    requires Inv(s) && s.mptr % PGSIZE != 0 && v in s.live
    requires s.mptr / PGSIZE in s.pages && s.pages[s.mptr / PGSIZE].ref >= 1
    ensures var p := s.mptr / PGSIZE; ChunkOk(State(Dropped(s.pages, p, p), (p + 1) * PGSIZE, s.live), v)
  {
    var p := s.mptr / PGSIZE;
    assert ChunkOk(s, v) && PageOk(s, p);
    if Last(v, s.live[v]) == p {
      assert v in Users(s.live, p);
      SubsetSize({v}, Users(s.live, p));
    }
  }

  /** Moving on drops the pointer's own reference to its page. */
  lemma MoveOnKeeps(s: State)
    requires Inv(s) && s.mptr % PGSIZE != 0
    ensures var p := s.mptr / PGSIZE;
            && p in s.pages && s.pages[p].ref >= 1 && !s.pages[p].cont
            && Inv(State(Dropped(s.pages, p, p), (p + 1) * PGSIZE, s.live))
  {
    var p := s.mptr / PGSIZE;
    assert PageOk(s, p);
    var s' := State(Dropped(s.pages, p, p), (p + 1) * PGSIZE, s.live);
    Boundary(p + 1);
    forall q | q in s'.pages ensures PageOk(s', q) {
      assert PageOk(s, q);
    }
    forall v | v in s'.live ensures ChunkOk(s', v) {
      MoveOnChunk(s, v);
    }
    forall v, w | v in s'.live && w in s'.live ensures PairOk(s'.live, v, w) {
      assert PairOk(s.live, v, w);
    }
  }

  lemma UsersWith(live: map<nat, nat>, v: nat, n: nat, p: nat)
    requires v !in live
    ensures |Users(live[v := n], p)| == |Users(live, p)| + (if Last(v, n) == p then 1 else 0)
  {
    var live' := live[v := n];
    assert Users(live', p) == if Last(v, n) == p then Users(live, p) + {v} else Users(live, p);
  }

  /** A chunk that fits in the rest of the open page, with room left for the reference word. */
  predicate Fits(s: State, n: nat) {
    s.mptr % PGSIZE != 0 && s.mptr / PGSIZE == (s.mptr + n + 3) / PGSIZE
  }

  /** A chunk without bytes is not told from the next at its address. */
  function With(live: map<nat, nat>, v: nat, n: nat): map<nat, nat> {
    if n == 0 then live else live[v := n]
  }

  function Small(s: State, n: nat): State
    requires s.mptr / PGSIZE in s.pages
  {
    var p := s.mptr / PGSIZE;
    State(s.pages[p := s.pages[p].(ref := s.pages[p].ref + 1)], s.mptr + n, With(s.live, s.mptr, n))
  }

  lemma FitsStays(v: nat, n: nat)
    requires v % PGSIZE != 0 && v / PGSIZE == (v + n + 3) / PGSIZE
    ensures (v + n) % PGSIZE != 0 && (v + n) / PGSIZE == v / PGSIZE
  {
    var p, r := v / PGSIZE, v % PGSIZE;
    assert v == p * PGSIZE + r;
    assert (v + n) / PGSIZE == p;
    assert v + n == p * PGSIZE + (v + n) % PGSIZE;
  }

  /** Live chunks in the open page lie below the pointer. */
  lemma SmallFresh(s: State)
    requires Inv(s) && s.mptr % PGSIZE != 0
    ensures s.mptr !in s.live
  {
    assert s.mptr in s.live ==> ChunkOk(s, s.mptr);
  }

  lemma SmallPtr(s: State, n: nat)
    requires Inv(s) && Fits(s, n) && 0 < n && n % 4 == 0
    ensures s.mptr / PGSIZE in s.pages && s.mptr !in s.live && PtrOk(Small(s, n))
    ensures (s.mptr + n) % PGSIZE != 0 && (s.mptr + n) / PGSIZE == s.mptr / PGSIZE
  {
    var p, v, s' := s.mptr / PGSIZE, s.mptr, Small(s, n);
    assert PageOk(s, p);
    FitsStays(v, n);
    SmallFresh(s);
    assert s'.mptr / PGSIZE == p && s'.mptr % 4 == 0;
    assert s'.mptr < (p + 1) * PGSIZE <= MEND;
    forall w | w in s'.live && Last(w, s'.live[w]) == p ensures w + s'.live[w] <= s'.mptr {
      assert w != v ==> w + s.live[w] <= s.mptr;
    }
  }

  lemma SmallPage(s: State, n: nat, q: nat)
    requires Inv(s) && Fits(s, n) && s.mptr !in s.live && s.mptr / PGSIZE in s.pages && q in s.pages
    requires (s.mptr + n) % PGSIZE != 0 && (s.mptr + n) / PGSIZE == s.mptr / PGSIZE
    ensures PageOk(Small(s, n), q)
  {
    assert PageOk(s, q);
    UsersWith(s.live, s.mptr, n, q);
  }

  lemma SmallChunk(s: State, n: nat, w: nat)
    requires Inv(s) && Fits(s, n) && 0 < n < MAXMALLOC && n % 4 == 0
    requires s.mptr / PGSIZE in s.pages && w in Small(s, n).live
    ensures ChunkOk(Small(s, n), w)
  {
    assert w != s.mptr ==> ChunkOk(s, w);
  }

  lemma SmallApart(s: State, n: nat, w: nat)
    requires Inv(s) && Fits(s, n) && n > 0 && w in s.live
    ensures Apart(s.mptr, n, w, s.live[w]) && Apart(w, s.live[w], s.mptr, n)
  {
    assert ChunkOk(s, w);
    var p, m := s.mptr / PGSIZE, s.live[w];
    if Last(w, m) != p {
      assert !(First(w) <= p < Last(w, m));
    }
  }

  lemma SmallKeeps(s: State, n: nat)
    requires Inv(s) && Fits(s, n) && 0 < n < MAXMALLOC && n % 4 == 0
    ensures s.mptr / PGSIZE in s.pages && s.mptr !in s.live && Inv(Small(s, n))
  {
    SmallPtr(s, n);
    var s', v := Small(s, n), s.mptr;
    forall q | q in s'.pages ensures PageOk(s', q) {
      SmallPage(s, n, q);
    }
    forall w | w in s'.live ensures ChunkOk(s', w) {
      SmallChunk(s, n, w);
    }
    forall w, x | w in s'.live && x in s'.live ensures PairOk(s'.live, w, x) {
      if w != v && x != v {
        assert PairOk(s.live, w, x);
      } else if w != v {
        SmallApart(s, n, w);
      } else if x != v {
        SmallApart(s, n, x);
      }
    }
  }

  /** An empty chunk takes a reference to the open page and no bytes. */
  lemma EmptySmall(s: State)
    requires Inv(s) && s.mptr % PGSIZE != 0
    ensures s.mptr / PGSIZE in s.pages && Inv(Small(s, 0))
  {
    var s' := Small(s, 0);
    forall q | q in s'.pages ensures PageOk(s', q) {
      assert PageOk(s, q);
    }
    forall w | w in s'.live ensures ChunkOk(s', w) {
      assert ChunkOk(s, w);
    }
    forall v, w | v in s'.live && w in s'.live ensures PairOk(s'.live, v, w) {
      assert PairOk(s.live, v, w);
    }
  }

  /** The pages of a new chunk at a page boundary. */
  function NewPages(first: nat, last: nat): (m: map<nat, Page>)
    requires first <= last
    ensures forall q :: q in m <==> first <= q <= last
    ensures forall q :: q in m ==> m[q] == if q < last then Page(true, 0) else Page(false, 2)
    decreases last - first
  {
    if first == last then map[last := Page(false, 2)] else NewPages(first + 1, last)[first := Page(true, 0)]
  }

  /** Pages `first` to `last` lie in the heap and are not mapped. */
  ghost predicate FreeRun(pages: map<nat, Page>, first: nat, last: nat) {
    forall q {:trigger q in pages} :: first <= q <= last ==> q !in pages && q < MEND / PGSIZE
  }

  lemma FreePart(pages: map<nat, Page>, first: nat, last: nat, more: nat)
    requires FreeRun(pages, first, more) && last <= more
    ensures FreeRun(pages, first, last)
  {
  }

  /** Room for `k + 1` pages. */
  ghost predicate RoomAt(pages: map<nat, Page>, first: nat, k: nat) {
    FreeRun(pages, first, first + k)
  }

  /** No page boundary from `lo` up to `hi` has room for `k + 1` pages. */
  ghost predicate NoRoom(pages: map<nat, Page>, lo: nat, hi: nat, k: nat) {
    forall f {:trigger RoomAt(pages, f, k)} :: lo <= f < hi ==> !RoomAt(pages, f, k)
  }

  /** Room for a chunk, with its reference word, at a page boundary. */
  ghost predicate Unmapped(s: State, n: nat) {
    s.mptr % PGSIZE == 0 && FreeRun(s.pages, First(s.mptr), Last(s.mptr, n))
  }

  function Big(s: State, n: nat): State
    requires First(s.mptr) <= Last(s.mptr, n)
  {
    State(s.pages + NewPages(First(s.mptr), Last(s.mptr, n)), s.mptr + n, With(s.live, s.mptr, n))
  }

  lemma PageSum(f: nat, n: nat)
    requires n % 4 == 0
    ensures (f * PGSIZE + n) % 4 == 0
  {
    var m, q := f * 1024, n / 4;
    assert f * PGSIZE + n == 4 * (m + q);
  }

  lemma LowFour(base: nat, b: nat)
    requires base % PGSIZE == 0 && b < PGSIZE && (base + b) % 4 == 0
    ensures b + 3 < PGSIZE
  {
    var c := base / PGSIZE;
    assert base == 4 * (c * 1024);
    assert b % 4 == 0;
  }

  lemma Quotient(k: nat, r: nat)
    requires r < PGSIZE
    ensures (k * PGSIZE + r) / PGSIZE == k
  {
    var base := k * PGSIZE;
    assert 0 <= (base + r) - base < PGSIZE;
  }

  /** A multiple of 4 and the next three numbers lie in the same page. */
  lemma Aligned(x: nat)
    requires x % 4 == 0
    ensures (x + 3) / PGSIZE == x / PGSIZE
  {
    var a, b := x / PGSIZE, x % PGSIZE;
    var base := a * PGSIZE;
    assert x == base + b;
    LowFour(base, b);
    Quotient(a, b + 3);
  }

  lemma BelowBoundary(x: nat, va: nat)
    requires x < va
    ensures x / PGSIZE <= (va - 1) / PGSIZE && (va % PGSIZE == 0 ==> x / PGSIZE < va / PGSIZE)
  {
    var q, p := x / PGSIZE, (va - 1) / PGSIZE;
    assert q * PGSIZE <= x <= va - 1 < p * PGSIZE + PGSIZE;
    assert q < p + 1;
    if va % PGSIZE == 0 {
      var r := va / PGSIZE;
      assert q * PGSIZE <= x < r * PGSIZE;
    }
  }

  /** Where the pointer comes to stand: in the last page, at its start when the
      chunk fills whole pages. */
  lemma BigPtr(s: State, n: nat)
    requires Unmapped(s, n) && MBEGIN <= s.mptr && 0 < n && n % 4 == 0
    ensures First(s.mptr) <= Last(s.mptr, n) < MEND / PGSIZE
    ensures (s.mptr + n) / PGSIZE == Last(s.mptr, n) && (s.mptr + n) % 4 == 0 && s.mptr + n < MEND
  {
    var l := Last(s.mptr, n);
    assert l !in s.pages;
    var f, x := s.mptr / PGSIZE, s.mptr + n;
    assert s.mptr == f * PGSIZE;
    PageSum(f, n);
    Aligned(x);
    BelowBoundary(s.mptr, x + 1);
    assert x == x / PGSIZE * PGSIZE + x % PGSIZE;
  }

  /** Unmapped pages hold no part of a live chunk. */
  lemma BigApart(s: State, n: nat, w: nat)
    requires Inv(s) && Unmapped(s, n) && w in s.live
    ensures Last(w, s.live[w]) < First(s.mptr) || Last(s.mptr, n) < First(w)
    ensures Apart(s.mptr, n, w, s.live[w]) && Apart(w, s.live[w], s.mptr, n)
  {
    assert ChunkOk(s, w);
    var f, l, m := First(s.mptr), Last(s.mptr, n), s.live[w];
    assert First(w) <= Last(w, m) && f <= l && f !in s.pages;
    assert First(w) <= f <= Last(w, m) ==> f in s.pages;
    assert First(w) in s.pages;
  }

  lemma BigPtrOk(s: State, n: nat)
    requires Inv(s) && Unmapped(s, n) && MBEGIN <= s.mptr && 0 < n && n % 4 == 0
    requires First(s.mptr) <= Last(s.mptr, n) && s.mptr !in s.live
    ensures PtrOk(Big(s, n))
  {
    BigPtr(s, n);
    var s', l := Big(s, n), Last(s.mptr, n);
    forall w | w in s'.live && Last(w, s'.live[w]) == l ensures w + s'.live[w] <= s'.mptr {
      if w != s.mptr {
        BigApart(s, n, w);
      }
    }
  }

  lemma BigPage(s: State, n: nat, q: nat)
    requires Inv(s) && Unmapped(s, n) && MBEGIN <= s.mptr && 0 < n && n % 4 == 0
    requires First(s.mptr) <= Last(s.mptr, n) && s.mptr !in s.live && q in Big(s, n).pages
    ensures PageOk(Big(s, n), q)
  {
    BigPtr(s, n);
    UsersWith(s.live, s.mptr, n, q);
    if q in s.pages {
      assert PageOk(s, q);
    } else {
      forall w | w in s.live ensures Last(w, s.live[w]) != q {
        assert ChunkOk(s, w);
      }
      assert Users(s.live, q) == {};
      assert MBEGIN / PGSIZE <= First(s.mptr) <= q;
    }
  }

  lemma BigChunk(s: State, n: nat, w: nat)
    requires Inv(s) && Unmapped(s, n) && MBEGIN <= s.mptr && 0 < n < MAXMALLOC && n % 4 == 0
    requires First(s.mptr) <= Last(s.mptr, n) && w in Big(s, n).live
    ensures ChunkOk(Big(s, n), w)
  {
    if w != s.mptr {
      assert ChunkOk(s, w);
    }
  }

  lemma BigKeeps(s: State, n: nat)
    requires Inv(s) && Unmapped(s, n) && MBEGIN <= s.mptr && 0 < n < MAXMALLOC && n % 4 == 0
    ensures First(s.mptr) <= Last(s.mptr, n) && s.mptr !in s.live && Inv(Big(s, n))
  {
    BigPtr(s, n);
    var v := s.mptr;
    if v in s.live {
      BigApart(s, n, v);
    }
    var s' := Big(s, n);
    BigPtrOk(s, n);
    forall q | q in s'.pages ensures PageOk(s', q) {
      BigPage(s, n, q);
    }
    forall w | w in s'.live ensures ChunkOk(s', w) {
      BigChunk(s, n, w);
    }
    forall w, x | w in s'.live && x in s'.live ensures PairOk(s'.live, w, x) {
      if w != v && x != v {
        assert PairOk(s.live, w, x);
      } else if w != v {
        BigApart(s, n, w);
      } else if x != v {
        BigApart(s, n, x);
      }
    }
  }

  lemma WholePages(c: nat)
    ensures c * PGSIZE / PGSIZE == c && c * PGSIZE % PGSIZE == 0
  {
    Quotient(c, 0);
  }

  /** An empty chunk at a page boundary takes a page for its reference word. */
  lemma EmptyBig(s: State)
    requires Inv(s) && Unmapped(s, 0) && MBEGIN <= s.mptr
    ensures First(s.mptr) == Last(s.mptr, 0) && s.mptr !in s.live && Inv(Big(s, 0))
  {
    var f := First(s.mptr);
    assert s.mptr == f * PGSIZE;
    Quotient(f, 3);
    assert f !in s.pages;
    var s' := Big(s, 0);
    forall q | q in s'.pages ensures PageOk(s', q) {
      if q == f {
        forall w | w in s.live ensures Last(w, s.live[w]) != q {
          assert ChunkOk(s, w);
        }
        assert Users(s.live, q) == {};
      } else {
        assert PageOk(s, q);
      }
    }
    forall w | w in s'.live ensures ChunkOk(s', w) {
      assert ChunkOk(s, w);
    }
    forall v, w | v in s'.live && w in s'.live ensures PairOk(s'.live, v, w) {
      assert PairOk(s.live, v, w);
    }
    if s.mptr in s.live {
      BigApart(s, 0, s.mptr);
    }
  }
}

/** malloc and free themselves. */
module Malloc {
  import opened Common
  import opened Heap

  /** The chunk, 0 when memory or address space runs out, or a search that has
      left the heap. */
  datatype Result = Chunk(v: nat) | Null | Lost

  /** A call of malloc, with the number of sys_page_alloc calls that the kernel can
      serve, or of free. */
  datatype Call = Get(size: nat, avail: nat) | Put(v: nat)

  /** Beyond the end of the heap the search finds nothing and does not come to the
      address it wraps at, however far it goes. */
  lemma NothingBeyondEnd(pages: map<nat, Page>, first: nat, last: nat)
    requires MEND / PGSIZE <= first <= last
    ensures !FreeRun(pages, first, last) && first + 1 != MEND / PGSIZE
  {
    assert !(first !in pages && first < MEND / PGSIZE);
  }

  /** When a request moves the pointer to the very end of the heap. */
  predicate Strands(s: State, n: nat) {
    n < MAXMALLOC && (s.mptr == MEND || (s.mptr % PGSIZE != 0 && !Fits(s, n) && s.mptr / PGSIZE + 1 == MEND / PGSIZE))
  }

  /** The pages left when the open page has been given up. */
  ghost function Remaining(s: State): map<nat, Page> {
    var p := s.mptr / PGSIZE;
    if s.mptr % PGSIZE != 0 && p in s.pages && s.pages[p].ref >= 1 then Dropped(s.pages, p, p) else s.pages
  }

  /** Where the search for new pages starts. */
  function Origin(s: State): nat {
    if s.mptr == 0 then MBEGIN else if s.mptr % PGSIZE != 0 then (s.mptr / PGSIZE + 1) * PGSIZE else s.mptr
  }

  /** Page `at` is the first, going round from page `start`, with room for `k + 1` pages. */
  ghost predicate FirstFit(pages: map<nat, Page>, start: nat, at: nat, k: nat) {
    && MBEGIN / PGSIZE <= at && RoomAt(pages, at, k)
    && (|| (start <= at && NoRoom(pages, start, at, k))
        || (NoRoom(pages, start, MEND / PGSIZE, k) && NoRoom(pages, MBEGIN / PGSIZE, at, k)))
  }

  function RoundUp(size: nat): nat {
    (size + 3) / 4 * 4
  }

  lemma RoundsUp(size: nat)
    ensures size <= RoundUp(size) < size + 4 && RoundUp(size) % 4 == 0 && (size > 0 ==> RoundUp(size) > 0)
  {
  }

  /** What fitting means: the chunk and a reference word after it, in the page that the
      pointer is inside of. */
  lemma FitsExactly(s: State, n: nat)
    requires s.mptr % 4 == 0 && n % 4 == 0
    ensures Fits(s, n) <==> s.mptr % PGSIZE != 0 && s.mptr % PGSIZE + n + 4 <= PGSIZE
  {
    var p, o := s.mptr / PGSIZE, s.mptr % PGSIZE;
    assert s.mptr == p * PGSIZE + o;
    assert s.mptr + n + 3 == p * PGSIZE + (o + n + 3);
  }

  /** And being stranded: at the end of the heap, or in its last page without the room. */
  lemma StrandsExactly(s: State, n: nat)
    requires PtrOk(s) && n % 4 == 0
    ensures Strands(s, n) <==>
            n < MAXMALLOC && (s.mptr == MEND || (MEND - PGSIZE < s.mptr < MEND && s.mptr + n + 4 > MEND))
  {
    FitsExactly(s, n);
    var p, o := s.mptr / PGSIZE, s.mptr % PGSIZE;
    assert s.mptr == p * PGSIZE + o && MEND == MEND / PGSIZE * PGSIZE;
  }

  /** What malloc of a request of `n` bytes, rounded up, makes of the heap. A chunk
      comes from the open page if it fits there, else from the first room for it;
      it is refused exactly for a size over the limit, or when memory or room is
      short; and the search leaves the heap exactly when the pointer was stranded. */
  ghost predicate Served(s: State, n: nat, avail: nat, r: Result, s': State) {
    var k, rest := (n + 3) / PGSIZE, Remaining(s);
    if n >= MAXMALLOC then r == Null && s' == s.(mptr := if s.mptr == 0 then MBEGIN else s.mptr)
    else if Fits(s, n) then s.mptr / PGSIZE in s.pages && r == Chunk(s.mptr) && s' == Small(s, n)
    else if Strands(s, n) then r == Lost && s' == State(rest, MEND, s.live)
    else if avail * PGSIZE < n + 4 || NoRoom(rest, MBEGIN / PGSIZE, MEND / PGSIZE, k) then
      r == Null && s'.pages == rest && s'.live == s.live && s'.mptr % PGSIZE == 0 && MBEGIN <= s'.mptr < MEND
    else
      && r.Chunk? && r.v == First(r.v) * PGSIZE && First(r.v) <= Last(r.v, n)
      && FirstFit(rest, First(Origin(s)), First(r.v), k) && s' == Big(State(rest, r.v, s.live), n)
  }

  /** No two chunks share a byte. */
  predicate Disjoint(live: map<nat, nat>) {
    forall v, w :: v in live && w in live && v != w ==> v + live[v] <= w || w + live[w] <= v
  }

  lemma AllApart(s: State)
    requires Inv(s)
    ensures Disjoint(s.live)
  {
    forall v, w | v in s.live && w in s.live && v != w ensures v + s.live[v] <= w || w + s.live[w] <= v {
      assert PairOk(s.live, v, w);
    }
  }

  /** One call of a run; free of what is not a live chunk is left out. */
  ghost predicate Follows(s: State, call: Call, s': State) {
    match call
    case Get(size, avail) => exists r :: Served(s, RoundUp(size), avail, r, s')
    case Put(v) =>
      if v !in s.live then s' == s
      else
        var p := Last(v, s.live[v]);
        p in s.pages && s.pages[p].ref >= 1 && s' == State(Dropped(s.pages, First(v), p), s.mptr, s.live - {v})
  }

  /** The call never comes back. */
  predicate Ends(s: State, call: Call) {
    call.Get? && Strands(s, RoundUp(call.size))
  }

  /** The states of a run of calls from an empty heap. */
  ghost predicate Trace(trace: seq<State>, calls: seq<Call>) {
    && |trace| == |calls| + 1 && trace[0].live == map[]
    && (forall i :: 0 <= i < |trace| ==> Inv(trace[i]))
    && forall i :: 0 <= i < |calls| ==> Follows(trace[i], calls[i], trace[i + 1])
  }

  /** The sizes that the callers asked for, of the chunks that they have now. */
  ghost function Asked(trace: seq<State>, calls: seq<Call>): map<nat, nat>
    requires |trace| == |calls| + 1
    decreases |calls|
  {
    if calls == [] then map[]
    else
      var n := |calls| - 1;
      var before := Asked(trace[..n + 1], calls[..n]);
      map v | v in trace[n + 1].live ::
        if v in trace[n].live && v in before then before[v] else if calls[n].Get? then calls[n].size else 0
  }

  /** Every chunk has the bytes asked for, and fewer than four more. */
  predicate Roomy(live: map<nat, nat>, asked: map<nat, nat>) {
    asked.Keys == live.Keys && forall v :: v in live ==> 0 < asked[v] <= live[v] < asked[v] + 4
  }

  lemma StaysMapped(s: State, v: nat)
    requires Inv(s) && v in s.live
    ensures First(v) in Remaining(s)
  {
    if s.mptr % PGSIZE != 0 {
      var p := s.mptr / PGSIZE;
      MoveOnKeeps(s);
      assert ChunkOk(State(Dropped(s.pages, p, p), (p + 1) * PGSIZE, s.live), v);
    } else {
      assert ChunkOk(s, v);
    }
  }

  /** malloc never hands out a chunk that somebody has. */
  lemma ChunkFresh(s: State, n: nat, avail: nat, r: Result, s': State)
    requires Inv(s) && Served(s, n, avail, r, s') && r.Chunk?
    ensures r.v !in s.live && s'.live == With(s.live, r.v, n)
  {
    if Fits(s, n) {
      SmallFresh(s);
    } else if r.v in s.live {
      StaysMapped(s, r.v);
    }
  }

  lemma NoChunk(s: State, n: nat, avail: nat, r: Result, s': State)
    requires Served(s, n, avail, r, s') && !r.Chunk?
    ensures s'.live == s.live
  {
  }

  /** What a call does to a chunk that is live after it. */
  lemma ChunkAfter(s: State, call: Call, s': State, v: nat)
    requires Inv(s) && Follows(s, call, s') && v in s'.live
    ensures if v in s.live then s'.live[v] == s.live[v]
            else call.Get? && 0 < call.size <= s'.live[v] < call.size + 4
  {
    hide Inv, Served;
    if call.Get? {
      var r :| Served(s, RoundUp(call.size), call.avail, r, s');
      if r.Chunk? {
        ChunkFresh(s, RoundUp(call.size), call.avail, r, s');
      } else {
        NoChunk(s, RoundUp(call.size), call.avail, r, s');
      }
    }
  }

  lemma {:induction false} AskedRoomy(trace: seq<State>, calls: seq<Call>)
    requires Trace(trace, calls)
    ensures Roomy(trace[|calls|].live, Asked(trace, calls))
    decreases |calls|
  {
    hide Inv, Follows;
    if calls != [] {
      var n := |calls| - 1;
      var front, steps := trace[..n + 1], calls[..n];
      forall i | 0 <= i < n ensures Follows(front[i], steps[i], front[i + 1]) {
        assert Follows(trace[i], calls[i], trace[i + 1]);
      }
      AskedRoomy(front, steps);
      assert Follows(trace[n], calls[n], trace[n + 1]);
      forall v | v in trace[n + 1].live
        ensures 0 < Asked(trace, calls)[v] <= trace[n + 1].live[v] < Asked(trace, calls)[v] + 4
      {
        ChunkAfter(trace[n], calls[n], trace[n + 1], v);
      }
    }
  }

  /** Over every run of calls the bytes that the callers asked for, from each chunk's
      address on, are mapped, in the heap, and nobody else's. */
  lemma AskedSafe(trace: seq<State>, calls: seq<Call>, v: nat, w: nat, a: nat)
    requires Trace(trace, calls) && v in trace[|calls|].live && w in trace[|calls|].live
    ensures v in Asked(trace, calls) && w in Asked(trace, calls) && Asked(trace, calls)[v] > 0
    ensures v <= a < v + Asked(trace, calls)[v] ==> MBEGIN <= a < MEND && a / PGSIZE in trace[|calls|].pages
    ensures v != w ==> !(v <= a < v + Asked(trace, calls)[v] && w <= a < w + Asked(trace, calls)[w])
  {
    hide Inv, Follows;
    AskedRoomy(trace, calls);
    Safety(trace[|calls|], v, w, a);
  }

  // Filling the heap to its end.

  /** The first `k` megabytes are taken, up to the reference word of the last page. */
  ghost predicate Filled(s: State, k: nat) {
    && s.mptr == (if k == 0 then 0 else MBEGIN + k * 0x10_0000 - 4)
    && forall q :: q in s.pages ==> q < 0x8000 + 256 * k
  }

  lemma FillStep(s: State, k: nat, r: Result, s': State)
    requires Filled(s, k) && k < 128 && Served(s, 0xf_fffc, 256, r, s')
    ensures Filled(s', k + 1)
  {
    var rest, at := Remaining(s), 0x8000 + 256 * k;
    assert First(Origin(s)) == at && !Fits(s, 0xf_fffc) && !Strands(s, 0xf_fffc);
    assert forall q :: q in rest ==> q < at;
    assert RoomAt(rest, at, 255);
    assert !NoRoom(rest, MBEGIN / PGSIZE, MEND / PGSIZE, 255) && !NoRoom(rest, at, MEND / PGSIZE, 255);
    assert First(r.v) == at;
    Quotient(at + 255, 4095);
    assert Last(r.v, 0xf_fffc) == at + 255;
  }

  lemma LastWord(s: State)
    requires Filled(s, 128)
    ensures Strands(s, 4)
  {
  }

  /** `before` with pages `first` up to `c` of a run that ends in page `last`. */
  ghost predicate Mapped(pages: map<nat, Page>, before: map<nat, Page>, first: nat, c: nat, last: nat) {
    && (forall q :: q in pages <==> q in before || first <= q < c)
    && (forall q :: q in pages ==> pages[q] == if first <= q < c then Page(q < last, 0) else before[q])
  }

  lemma MappedAll(pages: map<nat, Page>, before: map<nat, Page>, first: nat, last: nat)
    requires first <= last && Mapped(pages, before, first, last + 1, last)
    ensures last in pages && pages[last := pages[last].(ref := 2)] == before + NewPages(first, last)
  {
  }

  class Allocator {
    var mptr: nat
    var pages: map<nat, Page>
    ghost var live: map<nat, nat>

    ghost function Now(): State
      reads this
    {
      State(pages, mptr, live)
    }

    ghost predicate Valid()
      reads this
    {
      Inv(Now())
    }

    constructor ()
      ensures Valid() && live == map[] && pages == map[] && mptr == 0
    {
      mptr, pages, live := 0, map[], map[];
    }

    method IsFree(v: nat, n: nat) returns (b: bool)
      requires v % PGSIZE == 0 && n > 0
      ensures b <==> FreeRun(pages, v / PGSIZE, (v + n - 1) / PGSIZE)
    {
      var va := v;
      ghost var f := v / PGSIZE;
      ghost var c := f;
      while va < v + n
        invariant va == c * PGSIZE && f <= c
        invariant f < c ==> FreeRun(pages, f, c - 1)
      {
        BelowBoundary(va, v + n);
        WholePages(c);
        if va >= MEND || va / PGSIZE in pages {
          assert !(c !in pages && c < MEND / PGSIZE);
          return false;
        }
        va, c := va + PGSIZE, c + 1;
      }
      BelowBoundary(v + n - 1, va);
      WholePages(c);
      ghost var l := (v + n - 1) / PGSIZE;
      assert l < c;
      FreePart(pages, f, l, c - 1);
      b := true;
    }

    /** The body of free: the pages that continue a chunk are unmapped, then its
        reference in the last page is dropped. */
    method Release(v: nat, ghost last: nat)
      requires MBEGIN <= v < MEND && v / PGSIZE <= last < MEND / PGSIZE
      requires forall q :: v / PGSIZE <= q < last ==> q in pages && pages[q].cont
      requires last in pages && !pages[last].cont && pages[last].ref >= 1
      modifies this`pages
      ensures pages == Dropped(old(pages), v / PGSIZE, last)
      ensures forall q :: v / PGSIZE <= q < last ==> q !in pages
      ensures last in pages <==> old(pages)[last].ref > 1
      ensures last in pages ==> pages[last] == Page(false, old(pages)[last].ref - 1)
      ensures forall q :: q < v / PGSIZE || q > last ==>
                (q in pages <==> q in old(pages)) && (q in pages ==> pages[q] == old(pages)[q])
    {
      var c := v / PGSIZE;
      while c in pages && pages[c].cont
        invariant v / PGSIZE <= c <= last
        invariant pages == map q | q in old(pages) && !(v / PGSIZE <= q < c) :: old(pages)[q]
        decreases last - c
      {
        assert c < last;
        pages := pages - {c};
        c := c + 1;
      }
      assert c == last;
      pages := pages[c := pages[c].(ref := pages[c].ref - 1)];
      if pages[c].ref == 0 {
        pages := pages - {c};
      }
    }

    /** free of a live chunk; of the null pointer it does nothing. */
    method Free(v: nat)
      requires Valid() && (v == 0 || v in live)
      modifies this`pages, this`live
      ensures Valid() && live == old(live) - {v}
      ensures v in old(live) ==>
                var p := Last(v, old(live)[v]);
                && p in old(pages) && old(pages)[p].ref >= 1 && pages == Dropped(old(pages), First(v), p)
                && (forall q :: First(v) <= q < p ==> q !in pages) && (p in pages <==> old(pages)[p].ref > 1)
                && (p in pages ==> pages[p].ref == old(pages)[p].ref - 1)
      ensures v == 0 ==> pages == old(pages)
    {
      if v == 0 {
        assert 0 in live ==> ChunkOk(Now(), 0);
        return;
      }
      FreeKeeps(Now(), v);
      assert ChunkOk(Now(), v) && PageOk(Now(), Last(v, live[v]));
      Release(v, Last(v, live[v]));
      live := live - {v};
    }

    method Unwind(i0: nat, ghost before: map<nat, Page>, ghost last: nat)
      requires mptr % PGSIZE == 0 && i0 % PGSIZE == 0
      requires Mapped(pages, before, First(mptr), First(mptr) + i0 / PGSIZE, last)
      requires First(mptr) + i0 / PGSIZE <= last && FreeRun(before, First(mptr), last)
      modifies this`pages
      ensures pages == before
    {
      ghost var f := First(mptr);
      ghost var c := f + i0 / PGSIZE;
      var i: int := i0;
      while i >= 0
        invariant 0 <= i + PGSIZE && i % PGSIZE == 0
        invariant f <= c <= last && f + i / PGSIZE <= c <= f + i / PGSIZE + 1
        invariant Mapped(pages, before, f, c, last)
      {
        assert (mptr + i) / PGSIZE == f + i / PGSIZE;
        pages := pages - {(mptr + i) / PGSIZE};
        c := f + i / PGSIZE;
        i := i - PGSIZE;
      }
    }

    /** The loop that maps the pages of a chunk, and takes them back when the kernel
        has only `avail` to give; then the reference word. */
    method MapRun(n: nat, avail: nat) returns (ok: bool)
      requires mptr % PGSIZE == 0 && First(mptr) <= Last(mptr, n) && FreeRun(pages, First(mptr), Last(mptr, n))
      modifies this`pages
      ensures ok <==> n + 4 <= avail * PGSIZE
      ensures pages == if ok then old(pages) + NewPages(First(mptr), Last(mptr, n)) else old(pages)
    {
      ghost var f, l := First(mptr), Last(mptr, n);
      var i := 0;
      while i < n + 4
        invariant i % PGSIZE == 0 && i / PGSIZE <= avail && f <= f + i / PGSIZE <= l + 1
        invariant Mapped(pages, old(pages), f, f + i / PGSIZE, l)
        decreases n + 4 - i
      {
        if i / PGSIZE == avail {
          Unwind(i, old(pages), l);
          return false;
        }
        assert (mptr + i) / PGSIZE == f + i / PGSIZE;
        pages := pages[(mptr + i) / PGSIZE := Page(i + PGSIZE < n + 4, 0)];
        i := i + PGSIZE;
      }
      var last := (mptr + i - 4) / PGSIZE;
      assert last == l == f + i / PGSIZE - 1;
      MappedAll(pages, old(pages), f, l);
      pages := pages[last := pages[last].(ref := 2)];
      ok := true;
    }

    /** The search for address space, at most twice through the heap. */
    method Search(n: nat) returns (found: bool)
      requires Valid() && MBEGIN <= mptr < MEND && mptr % PGSIZE == 0
      modifies this`mptr
      ensures Valid() && MBEGIN <= mptr < MEND && mptr % PGSIZE == 0
      ensures found ==> Unmapped(Now(), n) && FirstFit(pages, old(mptr) / PGSIZE, mptr / PGSIZE, (n + 3) / PGSIZE)
      ensures !found ==> NoRoom(pages, MBEGIN / PGSIZE, MEND / PGSIZE, (n + 3) / PGSIZE)
    {
      var nwrap := 0;
      ghost var start, k := mptr / PGSIZE, (n + 3) / PGSIZE;
      while true
        invariant 0 <= nwrap < 2 && Valid() && MBEGIN <= mptr < MEND && mptr % PGSIZE == 0
        invariant if nwrap == 0 then start <= mptr / PGSIZE && NoRoom(pages, start, mptr / PGSIZE, k)
                  else NoRoom(pages, start, MEND / PGSIZE, k) && NoRoom(pages, MBEGIN / PGSIZE, mptr / PGSIZE, k)
        decreases 2 - nwrap, MEND - mptr
      {
        assert (mptr + n + 3) / PGSIZE == mptr / PGSIZE + k;
        var b := IsFree(mptr, n + 4);
        if b {
          assert RoomAt(pages, mptr / PGSIZE, k);
          return true;
        }
        assert !RoomAt(pages, mptr / PGSIZE, k);
        var next := mptr + PGSIZE;
        assert next / PGSIZE == mptr / PGSIZE + 1;
        if next == MEND {
          nwrap := nwrap + 1;
          Repoint(Now(), MBEGIN);
          mptr := MBEGIN;
          if nwrap == 2 {
            return false;
          }
        } else {
          Repoint(Now(), next);
          mptr := next;
        }
      }
    }

    /** A chunk in the rest of the open page. */
    method Carve(n: nat) returns (r: Result)
      requires Valid() && Fits(Now(), n) && n < MAXMALLOC && n % 4 == 0
      modifies this
      ensures Valid() && r == Chunk(old(mptr)) && r.v !in old(live)
      ensures old(mptr) / PGSIZE in old(pages) && Now() == Small(old(Now()), n)
    {
      if n == 0 {
        EmptySmall(Now());
        SmallFresh(Now());
      } else {
        SmallKeeps(Now(), n);
      }
      var p := mptr / PGSIZE;
      pages := pages[p := pages[p].(ref := pages[p].ref + 1)];
      r := Chunk(mptr);
      live := With(live, mptr, n);
      mptr := mptr + n;
    }

    /** Giving up the open page. */
    method MoveOn()
      requires Valid() && mptr % PGSIZE != 0
      modifies this
      ensures Valid() && Now() == State(Remaining(old(Now())), Origin(old(Now())), old(live))
    {
      MoveOnKeeps(Now());
      assert PageOk(Now(), mptr / PGSIZE);
      Release(mptr, mptr / PGSIZE);
      mptr := (mptr / PGSIZE + 1) * PGSIZE;
    }

    /** A chunk at the place that was found. */
    method Settle(n: nat, avail: nat) returns (r: Result)
      requires Valid() && Unmapped(Now(), n) && MBEGIN <= mptr && n < MAXMALLOC && n % 4 == 0
      modifies this
      ensures Valid() && (r.Null? ==> mptr == old(mptr))
      ensures r == if n + 4 <= avail * PGSIZE then Chunk(old(mptr)) else Null
      ensures r.Chunk? ==> r.v !in old(live) && First(r.v) <= Last(r.v, n) && Now() == Big(old(Now()), n)
      ensures r.Null? ==> live == old(live) && pages == old(pages)
    {
      if n == 0 {
        EmptyBig(Now());
      } else {
        BigKeeps(Now(), n);
      }
      assert FreeRun(pages, First(mptr), Last(mptr, n)) && First(mptr) <= Last(mptr, n);
      hide Inv, Unmapped, FreeRun, NewPages;
      var ok := MapRun(n, avail);
      if !ok {
        return Null;
      }
      r := Chunk(mptr);
      live := With(live, mptr, n);
      mptr := mptr + n;
    }

    /** A chunk in pages of its own. */
    method Place(n: nat, avail: nat) returns (r: Result)
      requires Valid() && MBEGIN <= mptr < MEND && mptr % PGSIZE == 0 && n < MAXMALLOC && n % 4 == 0
      modifies this
      ensures Valid() && !r.Lost?
      ensures r.Chunk? ==>
                && r.v !in old(live) && r.v % PGSIZE == 0 && First(r.v) <= Last(r.v, n)
                && FirstFit(old(pages), old(mptr) / PGSIZE, First(r.v), (n + 3) / PGSIZE)
                && Now() == Big(State(old(pages), r.v, old(live)), n)
      ensures r.Null? ==> live == old(live) && pages == old(pages) && mptr % PGSIZE == 0 && MBEGIN <= mptr < MEND
      ensures r.Null? <==>
                avail * PGSIZE < n + 4 || NoRoom(old(pages), MBEGIN / PGSIZE, MEND / PGSIZE, (n + 3) / PGSIZE)
    {
      var found := Search(n);
      if !found {
        return Null;
      }
      assert RoomAt(pages, mptr / PGSIZE, (n + 3) / PGSIZE);
      hide FirstFit, Inv;
      r := Settle(n, avail);
    }

    /** malloc of a size that has been rounded up. */
    method Allocate(n: nat, avail: nat) returns (r: Result)
      requires Valid() && n % 4 == 0
      modifies this
      ensures Valid() && Served(old(Now()), n, avail, r, Now())
      ensures r.Chunk? ==> r.v !in old(live) && live == With(old(live), r.v, n)
      ensures !r.Chunk? ==> live == old(live)
      ensures r.Lost? <==> Strands(old(Now()), n)
    {
      if mptr == 0 {
        Repoint(Now(), MBEGIN);
        mptr := MBEGIN;
      }
      if n >= MAXMALLOC {
        return Null;
      }
      if mptr % PGSIZE != 0 {
        if mptr / PGSIZE == (mptr + n + 3) / PGSIZE {
          r := Carve(n);
          return;
        }
        MoveOn();
      }
      if mptr >= MEND {
        return Lost;
      }
      hide Inv, Unmapped, FirstFit;
      r := Place(n, avail);
    }

    /** malloc: a new chunk beside the live ones, or none of them changes. */
    method Malloc(size: nat, avail: nat) returns (r: Result)
      requires Valid()
      modifies this
      ensures Valid() && Served(old(Now()), RoundUp(size), avail, r, Now())
      // The chunk is nobody's, and has the bytes asked for and fewer than four more.
      ensures r.Chunk? ==> r.v !in old(live) && live == With(old(live), r.v, RoundUp(size))
      ensures r.Chunk? && size > 0 ==>
                r.v in live && size <= live[r.v] < size + 4 && live[r.v] % 4 == 0 && r.v % 4 == 0
      ensures !r.Chunk? ==> live == old(live)
      ensures r.Lost? <==> Strands(old(Now()), RoundUp(size))
    {
      hide Served, Strands;
      RoundsUp(size);
      r := Allocate(RoundUp(size), avail);
      assert r.Chunk? && size > 0 ==> ChunkOk(Now(), r.v);
    }

    /** One call, of a caller that holds the live chunks `held`. */
    method Perform(call: Call, held: set<nat>) returns (held': set<nat>, lost: bool)
      requires Valid() && held == live.Keys
      modifies this
      ensures Valid() && held' == live.Keys && Follows(old(Now()), call, Now()) && (lost <==> Ends(old(Now()), call))
    {
      held', lost := held, false;
      match call {
        case Get(size, avail) =>
          var r := Malloc(size, avail);
          lost := r.Lost?;
          held' := if r.Chunk? && size > 0 then held + {r.v} else held;
        case Put(v) =>
          if v in held {
            Free(v);
            held' := held - {v};
          }
      }
    }

    /** Every run of malloc and of free of live chunks: each state follows from the
        one before by its call, in all of them the live chunks are apart and lie in
        mapped pages, and it ends early exactly with a call that leaves the heap. */
    method Run(calls: seq<Call>, held0: set<nat>) returns (ghost trace: seq<State>, lost: bool)
      requires Valid() && held0 == live.Keys
      modifies this
      ensures 1 <= |trace| <= |calls| + 1 && trace[0] == old(Now()) && trace[|trace| - 1] == Now()
      ensures forall i :: 0 <= i < |trace| - 1 ==> Follows(trace[i], calls[i], trace[i + 1])
      ensures forall i :: 0 <= i < |trace| - 1 ==> (Ends(trace[i], calls[i]) <==> lost && i == |trace| - 2)
      ensures if lost then |trace| > 1 else |trace| == |calls| + 1
      ensures forall i :: 0 <= i < |trace| ==> Inv(trace[i]) && Disjoint(trace[i].live)
    {
      hide Inv, Follows, Disjoint, Ends;
      trace, lost := [Now()], false;
      AllApart(Now());
      var i, held := 0, held0;
      while i < |calls| && !lost
        invariant 0 <= i <= |calls| && |trace| == i + 1 && trace[0] == old(Now()) && trace[i] == Now() && Valid()
        invariant forall j :: 0 <= j < i ==> Follows(trace[j], calls[j], trace[j + 1])
        invariant forall j :: 0 <= j < i ==> (Ends(trace[j], calls[j]) <==> lost && j == i - 1)
        invariant (lost ==> i > 0) && held == live.Keys
        invariant forall j :: 0 <= j <= i ==> Inv(trace[j]) && Disjoint(trace[j].live)
      {
        held, lost := Perform(calls[i], held);
        AllApart(Now());
        trace := trace + [Now()];
        i := i + 1;
      }
    }

    /** A run from the first call that ends so: 128 chunks of a megabyte fill the heap
        to its last word, and the next request moves the pointer to its end. */
    static method FillHeap() returns (a: Allocator, r: Result)
      ensures fresh(a) && r == Lost
    {
      a := new Allocator();
      var k := 0;
      while k < 128
        invariant 0 <= k <= 128 && fresh(a) && a.Valid() && Filled(a.Now(), k)
        modifies a
      {
        ghost var s := a.Now();
        r := a.Malloc(0xf_fffc, 256);
        FillStep(s, k, r, a.Now());
        k := k + 1;
      }
      LastWord(a.Now());
      r := a.Malloc(4, 1);
    }
  }
}
