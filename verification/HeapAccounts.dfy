/** Exact reference counts of heap pages: what keeps a page mapped are the chunks that
end in it, the open pointer, and the references that some requests leave behind
(lab/lib/malloc.c:41-139). */
module HeapAccounts {
  import opened Common
  import opened Heap
  import opened Malloc

  /** References to page `p` that nobody will ever drop. */
  function Extra(stray: map<nat, nat>, p: nat): nat {
    if p in stray then stray[p] else 0
  }

  /** A page that continues a chunk is part of a live one; any other counts the live
      chunks that end in it, the pointer into it, and what was left behind. */
  ghost predicate PageExact(s: State, stray: map<nat, nat>, p: nat)
    requires p in s.pages
  {
    if s.pages[p].cont then exists v :: v in s.live && First(v) <= p < Last(v, s.live[v])
    else s.pages[p].ref == |Users(s.live, p)| + (if Open(s.mptr, p) then 1 else 0) + Extra(stray, p)
  }

  ghost predicate Exact(s: State, stray: map<nat, nat>) {
    && (forall p :: p in stray ==> p in s.pages && !s.pages[p].cont && stray[p] > 0)
    && (forall p {:trigger PageExact(s, stray, p)} :: p in s.pages ==> PageExact(s, stray, p))
  }

  lemma FreePage(s: State, stray: map<nat, nat>, v: nat, q: nat)
    requires Inv(s) && Exact(s, stray) && v in s.live && Last(v, s.live[v]) in s.pages
    requires s.pages[Last(v, s.live[v])].ref >= 1
    requires q in Dropped(s.pages, First(v), Last(v, s.live[v]))
    ensures PageExact(State(Dropped(s.pages, First(v), Last(v, s.live[v])), s.mptr, s.live - {v}), stray, q)
  {
    assert ChunkOk(s, v) && PageExact(s, stray, q);
    UsersWithout(s.live, v, q);
    if s.pages[q].cont {
      var w :| w in s.live && First(w) <= q < Last(w, s.live[w]);
      assert w != v;
    }
  }

  /** free drops the chunk's reference and leaves the others. */
  lemma FreeExact(s: State, stray: map<nat, nat>, v: nat)
    requires Inv(s) && Exact(s, stray) && v in s.live
    ensures var p := Last(v, s.live[v]);
            && p in s.pages && s.pages[p].ref >= 1
            && Exact(State(Dropped(s.pages, First(v), p), s.mptr, s.live - {v}), stray)
  {
    var p := Last(v, s.live[v]);
    assert ChunkOk(s, v) && PageOk(s, p) && PageExact(s, stray, p);
    assert v in Users(s.live, p);
    var s' := State(Dropped(s.pages, First(v), p), s.mptr, s.live - {v});
    forall q | q in s'.pages ensures PageExact(s', stray, q) {
      FreePage(s, stray, v, q);
    }
    forall q | q in stray ensures q in s'.pages && !s'.pages[q].cont {
      assert PageExact(s, stray, q);
    }
  }

  /** Giving up the open page drops the pointer's reference. */
  lemma MoveOnExact(s: State, stray: map<nat, nat>, m: nat)
    requires Inv(s) && Exact(s, stray) && m % PGSIZE == 0
    ensures Exact(State(Remaining(s), m, s.live), stray)
  {
    var p, s' := s.mptr / PGSIZE, State(Remaining(s), m, s.live);
    if s.mptr % PGSIZE != 0 {
      assert PageOk(s, p) && PageExact(s, stray, p);
    }
    forall q | q in s'.pages ensures PageExact(s', stray, q) {
      assert PageExact(s, stray, q);
    }
    forall q | q in stray ensures q in s'.pages && !s'.pages[q].cont {
      assert PageExact(s, stray, q);
    }
  }

  /** One more reference that is never dropped. */
  function Bump(stray: map<nat, nat>, p: nat): map<nat, nat> {
    stray[p := Extra(stray, p) + 1]
  }

  /** A chunk from the open page counts itself; an empty one counts for ever. */
  lemma SmallExact(s: State, stray: map<nat, nat>, n: nat)
    requires Inv(s) && Exact(s, stray) && Fits(s, n) && s.mptr / PGSIZE in s.pages
    ensures Exact(Small(s, n), if n == 0 then Bump(stray, s.mptr / PGSIZE) else stray)
  {
    var p, s' := s.mptr / PGSIZE, Small(s, n);
    var stray' := if n == 0 then Bump(stray, p) else stray;
    SmallFresh(s);
    FitsStays(s.mptr, n);
    forall q | q in s'.pages ensures PageExact(s', stray', q) {
      assert PageExact(s, stray, q);
      if n > 0 {
        UsersWith(s.live, s.mptr, n, q);
        assert s.pages[q].cont ==> forall v :: v in s.live ==> s'.live[v] == s.live[v];
      }
    }
  }

  /** New pages start with a count of two. One is the chunk's, the other the pointer's
      if the chunk ends inside its last page; else it is left behind. */
  function BigStray(stray: map<nat, nat>, v: nat, n: nat): map<nat, nat> {
    if n == 0 then stray[Last(v, n) := 2] else if (v + n) % PGSIZE == 0 then stray[Last(v, n) := 1] else stray
  }

  lemma NobodyEnds(t: State, q: nat)
    requires Inv(t) && q !in t.pages
    ensures Users(t.live, q) == {}
  {
    forall w | w in t.live ensures Last(w, t.live[w]) != q {
      assert ChunkOk(t, w);
    }
  }

  lemma BigPageExact(t: State, stray: map<nat, nat>, n: nat, q: nat)
    requires Inv(t) && Exact(t, stray) && Unmapped(t, n) && MBEGIN <= t.mptr && n % 4 == 0
    requires First(t.mptr) <= Last(t.mptr, n) && t.mptr !in t.live && q in Big(t, n).pages
    ensures PageExact(Big(t, n), BigStray(stray, t.mptr, n), q)
  {
    var s', stray' := Big(t, n), BigStray(stray, t.mptr, n);
    if n > 0 {
      BigPtr(t, n);
      UsersWith(t.live, t.mptr, n, q);
      assert s'.live[t.mptr] == n;
    }
    if q in t.pages {
      assert PageExact(t, stray, q);
      assert q != Last(t.mptr, n);
      assert t.pages[q].cont ==> forall v :: v in t.live ==> s'.live[v] == t.live[v];
    } else {
      NobodyEnds(t, q);
    }
  }

  lemma BigExact(t: State, stray: map<nat, nat>, n: nat)
    requires Inv(t) && Exact(t, stray) && Unmapped(t, n) && MBEGIN <= t.mptr && n % 4 == 0
    requires First(t.mptr) <= Last(t.mptr, n) && t.mptr !in t.live
    ensures Exact(Big(t, n), BigStray(stray, t.mptr, n))
  {
    forall q | q in Big(t, n).pages ensures PageExact(Big(t, n), BigStray(stray, t.mptr, n), q) {
      BigPageExact(t, stray, n, q);
    }
  }

  /** What a request of `n` bytes leaves behind: nothing if it gets no chunk. */
  function Strayed(stray: map<nat, nat>, s: State, n: nat, r: Result): map<nat, nat> {
    if !r.Chunk? then stray
    else if Fits(s, n) then if n == 0 then Bump(stray, s.mptr / PGSIZE) else stray
    else BigStray(stray, r.v, n)
  }

  lemma RestInv(s: State, m: nat)
    requires Inv(s) && m % PGSIZE == 0 && MBEGIN <= m <= MEND
    ensures Inv(State(Remaining(s), m, s.live))
  {
    if s.mptr % PGSIZE != 0 {
      var p := s.mptr / PGSIZE;
      MoveOnKeeps(s);
      Repoint(State(Dropped(s.pages, p, p), (p + 1) * PGSIZE, s.live), m);
    } else {
      Repoint(s, m);
    }
  }

  lemma PlaceInHeap(s: State, n: nat, avail: nat, r: Result, s': State)
    requires Served(s, n, avail, r, s') && r.Chunk? && !Fits(s, n)
    ensures var t := State(Remaining(s), r.v, s.live);
            && MBEGIN <= r.v < MEND && r.v % PGSIZE == 0 && Unmapped(t, n)
            && First(r.v) <= Last(r.v, n) && s' == Big(t, n)
  {
    var f, k, rest := First(r.v), (n + 3) / PGSIZE, Remaining(s);
    assert RoomAt(rest, f, k) && Last(r.v, n) == f + k;
    assert f !in rest;
  }

  lemma ServedBig(s: State, stray: map<nat, nat>, n: nat, avail: nat, r: Result, s': State)
    requires Inv(s) && Exact(s, stray) && n % 4 == 0 && Served(s, n, avail, r, s') && r.Chunk? && !Fits(s, n)
    ensures Exact(s', Strayed(stray, s, n, r))
  {
    var t := State(Remaining(s), r.v, s.live);
    ChunkFresh(s, n, avail, r, s');
    PlaceInHeap(s, n, avail, r, s');
    RestInv(s, r.v);
    MoveOnExact(s, stray, r.v);
    BigExact(t, stray, n);
  }

  lemma PointerOnly(s: State, stray: map<nat, nat>, m: nat)
    requires Exact(s, stray) && (m == s.mptr || (s.mptr == 0 && m == MBEGIN))
    ensures Exact(s.(mptr := m), stray)
  {
    forall q | q in s.pages ensures PageExact(s.(mptr := m), stray, q) {
      assert PageExact(s, stray, q);
    }
  }

  /** malloc leaves every count exact, with what it leaves behind. */
  lemma ServedExact(s: State, stray: map<nat, nat>, n: nat, avail: nat, r: Result, s': State)
    requires Inv(s) && Exact(s, stray) && n % 4 == 0 && Served(s, n, avail, r, s')
    ensures Exact(s', Strayed(stray, s, n, r))
  {
    hide Inv, Exact, FirstFit, NoRoom;
    if n >= MAXMALLOC {
      PointerOnly(s, stray, s'.mptr);
    } else if Fits(s, n) {
      SmallExact(s, stray, n);
    } else if r.Chunk? {
      ServedBig(s, stray, n, avail, r, s');
    } else {
      assert MEND % PGSIZE == 0;
      MoveOnExact(s, stray, s'.mptr);
    }
  }

  /** So a page is mapped exactly as long as a live chunk reaches into it, the pointer
      is in it, or a reference was left behind in it. */
  lemma MappedExactly(s: State, stray: map<nat, nat>, p: nat)
    requires Inv(s) && Exact(s, stray)
    ensures p in s.pages <==>
            || (exists v :: v in s.live && First(v) <= p <= Last(v, s.live[v]))
            || Open(s.mptr, p) || p in stray
  {
    if p in s.pages {
      assert PageExact(s, stray, p) && PageOk(s, p);
      if !s.pages[p].cont && Users(s.live, p) != {} {
        var v :| v in Users(s.live, p);
        assert ChunkOk(s, v);
      }
    }
    if v :| v in s.live && First(v) <= p <= Last(v, s.live[v]) {
      assert ChunkOk(s, v);
    }
  }

  /** The results of the requests of a run; free has none. */
  ghost predicate Answers(trace: seq<State>, calls: seq<Call>, rs: seq<Result>) {
    && |trace| == |calls| + 1 && |rs| == |calls|
    && forall i :: 0 <= i < |calls| && calls[i].Get? ==>
         Served(trace[i], RoundUp(calls[i].size), calls[i].avail, rs[i], trace[i + 1])
  }

  /** What the requests of a run have left behind. */
  ghost function Strays(trace: seq<State>, calls: seq<Call>, rs: seq<Result>): map<nat, nat>
    requires |trace| == |calls| + 1 && |rs| == |calls|
    decreases |calls|
  {
    if calls == [] then map[]
    else
      var n := |calls| - 1;
      var before := Strays(trace[..n + 1], calls[..n], rs[..n]);
      if calls[n].Get? then Strayed(before, trace[n], RoundUp(calls[n].size), rs[n]) else before
  }

  lemma CallExact(s: State, stray: map<nat, nat>, call: Call, r: Result, s': State)
    requires Inv(s) && Exact(s, stray) && Follows(s, call, s')
    requires call.Get? ==> Served(s, RoundUp(call.size), call.avail, r, s')
    ensures Exact(s', if call.Get? then Strayed(stray, s, RoundUp(call.size), r) else stray)
  {
    hide Inv, Exact, Served, Strayed;
    if call.Get? {
      RoundsUp(call.size);
      ServedExact(s, stray, RoundUp(call.size), call.avail, r, s');
    } else if call.v in s.live {
      FreeExact(s, stray, call.v);
    }
  }

  /** Over every run of calls from an empty heap every count is exact. */
  lemma {:induction false} CountsExact(trace: seq<State>, calls: seq<Call>, rs: seq<Result>)
    requires Trace(trace, calls) && Answers(trace, calls, rs) && trace[0].pages == map[]
    ensures Exact(trace[|calls|], Strays(trace, calls, rs))
    decreases |calls|
  {
    hide Inv, Follows, Served, Strayed, PageExact;
    if calls != [] {
      var n := |calls| - 1;
      var front, steps, results := trace[..n + 1], calls[..n], rs[..n];
      forall i | 0 <= i < n
        ensures Follows(front[i], steps[i], front[i + 1])
        ensures steps[i].Get? ==> Served(front[i], RoundUp(steps[i].size), steps[i].avail, results[i], front[i + 1])
      {
        assert Follows(trace[i], calls[i], trace[i + 1]);
        assert calls[i].Get? ==> Served(trace[i], RoundUp(calls[i].size), calls[i].avail, rs[i], trace[i + 1]);
      }
      CountsExact(front, steps, results);
      assert Follows(trace[n], calls[n], trace[n + 1]);
      CallExact(trace[n], Strays(front, steps, results), calls[n], rs[n], trace[n + 1]);
    }
  }

  lemma AtBoundary(s: State, n: nat, avail: nat, r: Result, s': State)
    requires Served(s, n, avail, r, s') && n % PGSIZE != 0
    ensures Strayed(map[], s, n, r) == map[]
  {
    if r.Chunk? && !Fits(s, n) {
      var f := First(r.v);
      assert r.v == f * PGSIZE;
      assert (f * PGSIZE + n) % PGSIZE == n % PGSIZE;
    }
  }

  /** Requests whose rounded size is not a multiple of the page size, 0 included, leave
      nothing behind. */
  lemma {:induction false} NothingStrays(trace: seq<State>, calls: seq<Call>, rs: seq<Result>)
    requires |trace| == |calls| + 1 && |rs| == |calls| && Answers(trace, calls, rs)
    requires forall i :: 0 <= i < |calls| && calls[i].Get? ==> RoundUp(calls[i].size) % PGSIZE != 0
    ensures Strays(trace, calls, rs) == map[]
    decreases |calls|
  {
    hide Served, RoundUp;
    if calls != [] {
      var n := |calls| - 1;
      var front, steps, results := trace[..n + 1], calls[..n], rs[..n];
      forall i | 0 <= i < n && steps[i].Get?
        ensures Served(front[i], RoundUp(steps[i].size), steps[i].avail, results[i], front[i + 1])
      {
        assert Served(trace[i], RoundUp(calls[i].size), calls[i].avail, rs[i], trace[i + 1]);
      }
      NothingStrays(front, steps, results);
      if calls[n].Get? {
        assert Served(trace[n], RoundUp(calls[n].size), calls[n].avail, rs[n], trace[n + 1]);
        AtBoundary(trace[n], RoundUp(calls[n].size), calls[n].avail, rs[n], trace[n + 1]);
      }
    }
  }

  /** After such requests, when everything has been freed, at most the open page is mapped. */
  lemma AllReturned(trace: seq<State>, calls: seq<Call>, rs: seq<Result>, p: nat)
    requires Trace(trace, calls) && Answers(trace, calls, rs) && trace[0].pages == map[]
    requires forall i :: 0 <= i < |calls| && calls[i].Get? ==> RoundUp(calls[i].size) % PGSIZE != 0
    requires trace[|calls|].live == map[]
    ensures p in trace[|calls|].pages <==> Open(trace[|calls|].mptr, p)
  {
    hide Inv, Follows, Served, PageExact, Exact;
    CountsExact(trace, calls, rs);
    NothingStrays(trace, calls, rs);
    MappedExactly(trace[|calls|], map[], p);
  }

  lemma FirstPageServed(s: State, r: Result, s': State)
    requires s.pages == map[] && s.mptr == 0 && s.live == map[] && Served(s, PGSIZE, 2, r, s')
    ensures r == Chunk(MBEGIN) && s' == Big(State(map[], MBEGIN, map[]), PGSIZE)
  {
    var f := MBEGIN / PGSIZE;
    assert Remaining(s) == map[] && First(Origin(s)) == f;
    assert RoomAt(map[], f, (PGSIZE + 3) / PGSIZE);
  }

  /** One page asked for and freed: the page after it stays mapped for good. */
  method PageLeaks() returns (a: Allocator)
    ensures fresh(a) && a.Valid() && a.live == map[] && MBEGIN / PGSIZE + 1 in a.pages && a.mptr % PGSIZE == 0
  {
    hide Inv, Served;
    a := new Allocator();
    ghost var s := a.Now();
    var r := a.Malloc(PGSIZE, 2);
    FirstPageServed(s, r, a.Now());
    a.Free(MBEGIN);
  }
}
