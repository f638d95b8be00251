/** Two runs from pipe() in which the end-of-file test is wrong (lab/lib/pipe.c:75-89,
lab/lib/fork.c:187-201): while a fork is half done, and for good after a fork
that lost a descriptor page. */
module PipeEofRuns {
  import opened PipeEof

  /** pipe() in environment 0: descriptor 0 reads, descriptor 1 writes. */
  function Pipe(): State {
    Opened(0, 0, 1)
  }

  ghost predicate Reached(s: State) {
    exists steps :: Possible(Pipe(), steps) && After(Pipe(), steps) == s
  }

  lemma {:induction false} Append(s: State, steps: seq<Step>, a: Step)
    requires Possible(s, steps) && Enabled(After(s, steps), a)
    ensures Possible(s, steps + [a]) && After(s, steps + [a]) == Do(After(s, steps), a)
    decreases |steps|
  {
    if steps == [] {
      assert Possible(Do(s, a), []);
      assert steps + [a] == [a] && [a][1..] == [];
    } else {
      Append(Do(s, steps[0]), steps[1..], a);
      assert (steps + [a])[1..] == steps[1..] + [a];
    }
  }

  lemma Take(s: State, a: Step) returns (t: State)
    requires Reached(s) && Enabled(s, a)
    ensures t == Do(s, a) && Reached(t)
  {
    var steps :| Possible(Pipe(), steps) && After(Pipe(), steps) == s;
    Append(Pipe(), steps, a);
    t := Do(s, a);
  }

  /** fork's loop over pages that the parent does not have. */
  lemma {:induction false} Skip(s: State, stop: nat) returns (t: State)
    requires Reached(s) && s.cur in s.pc && s.cur in s.runs && s.pc[s.cur].Forking?
    requires s.pc[s.cur].from <= s.pc[s.cur].k <= stop <= 2 * MAXFD
    requires forall k {:trigger HasPage(s, s.cur, k)} :: s.pc[s.cur].k <= k < stop ==> !HasPage(s, s.cur, k)
    ensures Reached(t)
    ensures var Forking(child, k, from) := s.pc[s.cur];
            t == s.(pc := s.pc[s.cur := Forking(child, stop, if from == k then stop else from)])
    decreases stop - s.pc[s.cur].k
  {
    hide Reached;
    var Forking(child, k, from) := s.pc[s.cur];
    if k == stop {
      t := s;
      assert s.pc == s.pc[s.cur := s.pc[s.cur]];
    } else {
      assert !HasPage(s, s.cur, k);
      var s1 := Take(s, Go);
      forall j | s1.pc[s.cur].k <= j < stop ensures !HasPage(s1, s1.cur, j) {
        assert !HasPage(s, s.cur, j);
      }
      t := Skip(s1, stop);
      assert t.pc == s.pc[s.cur := Forking(child, stop, if from == k then stop else from)];
    }
  }

  /** The data pages of descriptors 0 and 1, and the end of fork. */
  lemma Finish(s: State, from: nat) returns (t: State)
    requires Reached(s) && s.cur == 0 && 0 in s.runs && 0 in s.pc && s.pc[0] == Forking(1, 2, from) && from < 2
    requires s.data == {Slot(0, 0), Slot(0, 1)} && forall x :: x in s.fd && x.e == 0 ==> x.i < 2
    ensures Reached(t) && t.fd == s.fd && t.data == s.data + {Slot(1, 0), Slot(1, 1)}
    ensures t.parent == s.parent && t.cur == 0
    ensures t.pc == s.pc[0 := Idle][1 := Idle] && t.runs == s.runs[1 := 0] && t.lost == s.lost + Inherited(t, 1)
  {
    hide Reached;
    var s1 := Skip(s, MAXFD);
    var s2 := Take(s1, Go);
    var s3 := Take(s2, Go);
    var s4 := Skip(s3, 2 * MAXFD);
    t := Take(s4, Go);
    assert t.pc == s.pc[0 := Idle][1 := Idle];
  }

  /** A child with both ends. */
  lemma TwoProcesses() returns (s: State)
    ensures Reached(s) && s.cur == 0 && s.pc == map[0 := Idle, 1 := Idle] && s.runs == map[0 := 0, 1 := 0]
    ensures s.fd == map[Slot(0, 0) := Reading, Slot(0, 1) := Writing, Slot(1, 0) := Reading, Slot(1, 1) := Writing]
    ensures s.data == {Slot(0, 0), Slot(0, 1), Slot(1, 0), Slot(1, 1)} && s.lost == {} && s.parent == map[1 := 0]
  {
    assert Possible(Pipe(), []) && After(Pipe(), []) == Pipe();
    assert Reached(Pipe());
    hide Reached;
    var s1 := Take(Pipe(), Fork(1));
    var s2 := Take(s1, Go);
    var s3 := Take(s2, Go);
    s := Finish(s3, 0);
  }

  /** The child closes its reading end. */
  lemma ChildWrites() returns (s: State)
    ensures Reached(s) && s.cur == 1 && s.pc == map[0 := Idle, 1 := Idle] && s.runs == map[0 := 0, 1 := 1]
    ensures s.fd == map[Slot(0, 0) := Reading, Slot(0, 1) := Writing, Slot(1, 1) := Writing]
    ensures s.data == {Slot(0, 0), Slot(0, 1), Slot(1, 1)} && s.lost == {} && s.parent == map[1 := 0]
  {
    hide Reached;
    var s1 := TwoProcesses();
    var s2 := Take(s1, Switch(1));
    var s3 := Take(s2, Close(Slot(1, 0)));
    s := Take(s3, Go);
  }

  /** The parent has inherited both descriptor pages to a second child, no data page yet. */
  lemma HalfForked() returns (s: State)
    ensures Reached(s) && s.cur == 0 && s.pc == map[0 := Forking(2, 2, 0), 1 := Idle] && s.runs == map[0 := 1, 1 := 1]
    ensures s.fd == map[Slot(0, 0) := Reading, Slot(0, 1) := Writing, Slot(1, 1) := Writing,
                        Slot(2, 0) := Reading, Slot(2, 1) := Writing]
    ensures s.data == {Slot(0, 0), Slot(0, 1), Slot(1, 1)} && s.lost == {} && s.parent == map[1 := 0, 2 := 0]
  {
    hide Reached;
    var s1 := ChildWrites();
    var s2 := Take(s1, Switch(0));
    var s3 := Take(s2, Fork(2));
    var s4 := Take(s3, Go);
    s := Take(s4, Go);
  }

  /** The writer asks, up to the point where it has read both counts. */
  lemma Ask(s: State, x: Slot) returns (t: State)
    requires Reached(s) && s.cur == x.e && s.cur in s.pc && s.cur in s.runs && s.pc[s.cur].Idle? && x in s.fd
    ensures Reached(t) && t == s.(pc := s.pc[s.cur := Check3(x, s.runs[s.cur], FdRef(s, x), PipeRef(s))])
    ensures Answering(t)
  {
    hide Reached;
    var s1 := Take(s, Check(x));
    var s2 := Take(s1, Go);
    t := Take(s2, Go);
    assert Holders(s1, s.fd[x]) == Holders(s, s.fd[x]);
  }

  /** Writer 1 is told that nobody reads while 0 does and 2 is about to. */
  lemma UnsoundDuringFork() returns (s: State)
    ensures Reached(s) && Answering(s) && s.cur == 1 && s.pc[1].x == Slot(1, 1)
    ensures Slot(1, 1) in s.fd && s.fd[Slot(1, 1)] == Writing
    ensures Do(s, Go).pc[1] == Answered(Slot(1, 1), true) && Holders(s, Reading) == {Slot(0, 0), Slot(2, 0)}
  {
    hide Reached;
    var s1 := HalfForked();
    var s2 := Take(s1, Switch(1));
    s := Ask(s2, Slot(1, 1));
    assert Holders(s2, Writing) == {Slot(0, 1), Slot(1, 1), Slot(2, 1)};
    assert Holders(s, Reading) == {Slot(0, 0), Slot(2, 0)};
  }

  /** A child that has lost the descriptor page of the reading end. */
  lemma LostPage() returns (s: State)
    ensures Reached(s) && s.cur == 0 && s.pc == map[0 := Idle, 1 := Idle] && s.runs == map[0 := 0, 1 := 0]
    ensures s.fd == map[Slot(0, 0) := Reading, Slot(0, 1) := Writing, Slot(1, 1) := Writing]
    ensures s.data == {Slot(0, 0), Slot(0, 1), Slot(1, 0), Slot(1, 1)} && s.lost == {Slot(1, 0)}
  {
    assert Possible(Pipe(), []) && After(Pipe(), []) == Pipe();
    assert Reached(Pipe());
    hide Reached;
    var s1 := Take(Pipe(), Fork(1));
    var s2 := Take(s1, MapFails);
    var s3 := Take(s2, Go);
    s := Finish(s3, 1);
  }

  /** After the last reader has closed, with nobody in the middle of anything, the
      writer is still not told. */
  lemma InexactAfterLoss() returns (s: State)
    ensures Reached(s) && Answering(s) && Quiet(s) && s.cur == 0 && s.pc[0].x == Slot(0, 1) && Slot(0, 1) in s.fd
    ensures s.fd[Slot(0, 1)] == Writing && Holders(s, Reading) == {} && Do(s, Go).pc[0] == Answered(Slot(0, 1), false)
  {
    hide Reached;
    var s1 := LostPage();
    var s2 := Take(s1, Close(Slot(0, 0)));
    var s3 := Take(s2, Go);
    s := Ask(s3, Slot(0, 1));
    assert Holders(s3, Writing) == {Slot(0, 1), Slot(1, 1)};
    assert s3.data == {Slot(0, 1), Slot(1, 0), Slot(1, 1)};
  }
}
