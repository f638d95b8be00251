/** One reader and one writer of a pipe, interleaved at every test, every access
to the buffer and every increment (lab/lib/pipe.c:104-172). */
module Pipe {
  import opened Bytes

  const PIPEBUFSIZ: nat := 32
  const LIMIT: nat := 0x8000_0000

  /** `Outside` is a writer that has stored to an index outside the buffer. */
  datatype Writer = WIdle | WTest(b: Byte) | WStore(b: Byte) | WCount(b: Byte) | Outside(index: int)

  datatype Reader = RTest | RTake | RCount(b: Byte) | Strayed(index: int)

  /** The pipe page with both program counters; `sent` and `got` are the bytes
      that the writer has counted and the reader has counted. */
  datatype State = State(rpos: int, wpos: int, buf: seq<Byte>, w: Writer, r: Reader, sent: seq<Byte>, got: seq<Byte>)

  datatype Step = NextByte(b: Byte) | WriterMoves | ReaderMoves

  /** off_t is a signed 32-bit integer. */
  function Inc32(x: int): int {
    if x == 0x7fff_ffff then -0x8000_0000 else x + 1
  }

  /** Conversion to size_t in the comparison with sizeof. */
  function ToSize(x: int): int {
    if x < 0 then x + 0x1_0000_0000_0000_0000 else x
  }

  predicate Full(s: State) {
    ToSize(s.wpos) >= (ToSize(s.rpos) + PIPEBUFSIZ) % 0x1_0000_0000_0000_0000
  }

  /** The remainder of a signed division, which is negative for a negative position. */
  function Index(x: int): int {
    if x >= 0 then x % PIPEBUFSIZ else -((-x) % PIPEBUFSIZ)
  }

  /** One move. The writer starts on a byte only when done with the last; a
      process whose test fails stays where it is, and one that has left the buffer
      is not followed further. */
  function Do(s: State, a: Step): State
    requires |s.buf| == PIPEBUFSIZ
  {
    match a
    case NextByte(b) => if s.w.WIdle? then s.(w := WTest(b)) else s
    case WriterMoves =>
      (match s.w
       case WTest(b) => if Full(s) then s else s.(w := WStore(b))
       case WStore(b) =>
         if 0 <= Index(s.wpos) < PIPEBUFSIZ then s.(buf := s.buf[Index(s.wpos) := b], w := WCount(b))
         else s.(w := Outside(Index(s.wpos)))
       case WCount(b) => s.(wpos := Inc32(s.wpos), w := WIdle, sent := s.sent + [b])
       case _ => s)
    case ReaderMoves =>
      (match s.r
       case RTest => if s.rpos == s.wpos then s else s.(r := RTake)
       case RTake =>
         if 0 <= Index(s.rpos) < PIPEBUFSIZ then s.(r := RCount(s.buf[Index(s.rpos)]))
         else s.(r := Strayed(Index(s.rpos)))
       case RCount(b) => s.(rpos := Inc32(s.rpos), r := RTest, got := s.got + [b])
       case _ => s)
  }

  const Empty: State := State(0, 0, Zeros(PIPEBUFSIZ), WIdle, RTest, [], [])

  /** The position after `n` bytes. */
  function Position(n: nat): int {
    if n < LIMIT then n else n - 2 * LIMIT
  }

  /** One position has passed the overflow and the other has not. */
  predicate Split(s: State) {
    |s.got| < LIMIT <= |s.sent|
  }

  ghost predicate Inv(s: State) {
    && |s.buf| == PIPEBUFSIZ
    && |s.sent| <= LIMIT + 1
    && s.wpos == Position(|s.sent|) && s.rpos == Position(|s.got|)
    && 0 <= |s.sent| - |s.got| <= PIPEBUFSIZ
    && s.got == s.sent[..|s.got|]
    && (forall j :: |s.got| <= j < |s.sent| ==> s.buf[j % PIPEBUFSIZ] == s.sent[j])
    && (s.w.WStore? || s.w.WCount? ==> |s.sent| - |s.got| < PIPEBUFSIZ && !Split(s))
    && (Split(s) ==> |s.sent| == LIMIT)
    && (s.w.WCount? ==> |s.sent| <= LIMIT && s.buf[|s.sent| % PIPEBUFSIZ] == s.w.b)
    && (s.w.Outside? ==> |s.sent| == LIMIT + 1 && s.w.index == 1 - PIPEBUFSIZ)
    && (s.r.RTake? || s.r.RCount? ==> |s.got| < |s.sent|)
    && (s.r.RCount? ==> s.r.b == s.sent[|s.got|])
    && !s.r.Strayed?
  }

  /** Up to the first byte past the overflow the index is that of the byte's
      number; for the second it is negative. */
  lemma IndexOf(n: nat)
    requires n <= LIMIT + 1
    ensures Index(Position(n)) == if n <= LIMIT then n % PIPEBUFSIZ else 1 - PIPEBUFSIZ
  {
  }

  /** The writer's test: blocked by a full buffer, and while one position only has
      passed the overflow. */
  lemma FullExactly(s: State)
    requires Inv(s)
    ensures Full(s) <==> |s.sent| - |s.got| == PIPEBUFSIZ || Split(s)
  {
  }

  lemma Apart(i: int, j: int)
    requires 0 <= i < j < i + PIPEBUFSIZ
    ensures i % PIPEBUFSIZ != j % PIPEBUFSIZ
  {
  }

  lemma WriterKeeps(s: State)
    requires Inv(s)
    ensures Inv(Do(s, WriterMoves))
  {
    FullExactly(s);
    hide Full, Index;
    IndexOf(|s.sent|);
    if s.w.WStore? {
      forall j | |s.got| <= j < |s.sent| ensures j % PIPEBUFSIZ != |s.sent| % PIPEBUFSIZ {
        Apart(j, |s.sent|);
      }
    }
  }

  lemma ReaderKeeps(s: State)
    requires Inv(s)
    ensures Inv(Do(s, ReaderMoves))
  {
    hide Full, Index;
    IndexOf(|s.got|);
  }

  lemma StepKeeps(s: State, a: Step)
    requires Inv(s)
    ensures Inv(Do(s, a))
  {
    if a.WriterMoves? {
      WriterKeeps(s);
    } else if a.ReaderMoves? {
      ReaderKeeps(s);
    }
  }

  ghost function After(s: State, steps: seq<Step>): State
    requires |s.buf| == PIPEBUFSIZ
    decreases |steps|
  {
    if steps == [] then s else After(Do(s, steps[0]), steps[1..])
  }

  lemma {:induction false} RunKeeps(s: State, steps: seq<Step>)
    requires Inv(s)
    ensures Inv(After(s, steps))
    decreases |steps|
  {
    if steps != [] {
      StepKeeps(s, steps[0]);
      RunKeeps(Do(s, steps[0]), steps[1..]);
    }
  }

  /** In every interleaving, without a bound on its length, the bytes read are a
      prefix of the bytes written and at most 32 are in between. The difference of
      the positions says so exactly unless one only has passed the overflow, and
      the only access outside the buffer is the writer's after 2^31 + 1 bytes. */
  lemma Fifo(steps: seq<Step>)
    ensures var s := After(Empty, steps);
            && s.got <= s.sent && 0 <= |s.sent| - |s.got| <= PIPEBUFSIZ
            && (0 <= s.wpos - s.rpos <= PIPEBUFSIZ <==> !Split(s))
            && (!Split(s) ==> s.wpos - s.rpos == |s.sent| - |s.got|)
            && !s.r.Strayed? && (s.w.Outside? ==> |s.sent| == LIMIT + 1)
  {
    RunKeeps(Empty, steps);
  }

  ghost predicate Reached(s: State) {
    exists steps :: After(Empty, steps) == s
  }

  lemma {:induction false} Append(s: State, steps: seq<Step>, a: Step)
    requires |s.buf| == PIPEBUFSIZ && |After(s, steps).buf| == PIPEBUFSIZ
    ensures After(s, steps + [a]) == Do(After(s, steps), a)
    decreases |steps|
  {
    if steps == [] {
      assert steps + [a] == [a] && [a][1..] == [];
    } else {
      Append(Do(s, steps[0]), steps[1..], a);
      assert (steps + [a])[1..] == steps[1..] + [a];
    }
  }

  lemma Take(s: State, a: Step) returns (t: State)
    requires Reached(s)
    ensures Inv(s) && t == Do(s, a) && Reached(t)
  {
    var steps :| After(Empty, steps) == s;
    RunKeeps(Empty, steps);
    Append(Empty, steps, a);
    t := Do(s, a);
  }

  /** The writer sends a byte, when it may. */
  lemma Send(s: State, b: Byte) returns (t: State)
    requires Reached(s) && s.w.WIdle? && Inv(s) && |s.sent| - |s.got| < PIPEBUFSIZ && !Split(s) && |s.sent| <= LIMIT
    ensures Reached(t) && t.w.WIdle? && t.r == s.r && t.sent == s.sent + [b] && t.got == s.got
  {
    hide Reached;
    FullExactly(s);
    IndexOf(|s.sent|);
    var s1 := Take(s, NextByte(b));
    var s2 := Take(s1, WriterMoves);
    var s3 := Take(s2, WriterMoves);
    t := Take(s3, WriterMoves);
  }

  /** The reader takes one. */
  lemma Receive(s: State) returns (t: State)
    requires Reached(s) && s.r.RTest? && Inv(s) && |s.got| < |s.sent|
    ensures Reached(t) && t.r.RTest? && t.w == s.w && t.sent == s.sent && |t.got| == |s.got| + 1
  {
    hide Reached;
    IndexOf(|s.got|);
    var s1 := Take(s, ReaderMoves);
    var s2 := Take(s1, ReaderMoves);
    t := Take(s2, ReaderMoves);
  }

  lemma ReachedInv(s: State)
    requires Reached(s)
    ensures Inv(s)
  {
    var steps :| After(Empty, steps) == s;
    RunKeeps(Empty, steps);
  }

  /** Some run has written and read any given number of bytes up to the overflow
      and one more. */
  lemma {:induction false} AllRead(n: nat) returns (s: State)
    requires n <= LIMIT + 1
    ensures Reached(s) && s.w.WIdle? && s.r.RTest? && |s.sent| == |s.got| == n
    decreases n
  {
    if n == 0 {
      s := Empty;
      assert After(Empty, []) == s;
    } else {
      hide Reached;
      var s1 := AllRead(n - 1);
      ReachedInv(s1);
      var s2 := Send(s1, 0);
      ReachedInv(s2);
      s := Receive(s2);
    }
  }

  /** A run in which the difference of the positions is negative: 2^31 bytes
      written, one of them not read yet. */
  lemma DifferenceWraps() returns (s: State)
    ensures Reached(s) && |s.sent| == LIMIT && |s.got| == LIMIT - 1 && s.wpos - s.rpos < 0
  {
    hide Reached;
    var s1 := AllRead(LIMIT - 1);
    ReachedInv(s1);
    s := Send(s1, 0);
    ReachedInv(s);
  }

  /** A run in which the writer stores in front of the buffer. */
  lemma StoresOutside() returns (s: State)
    ensures Reached(s) && s.w == Outside(1 - PIPEBUFSIZ) && |s.sent| == LIMIT + 1
  {
    hide Reached;
    var s1 := AllRead(LIMIT + 1);
    ReachedInv(s1);
    FullExactly(s1);
    IndexOf(LIMIT + 1);
    var s2 := Take(s1, NextByte(0));
    var s3 := Take(s2, WriterMoves);
    s := Take(s3, WriterMoves);
  }

  /** The reader is not held up while there are bytes, nor the writer while there
      is room and the overflow is not between them: three moves of its own take or
      store the byte. */
  lemma Progress(s: State)
    requires Inv(s)
    ensures s.r.RTest? && |s.got| < |s.sent| ==>
              Do(Do(Do(s, ReaderMoves), ReaderMoves), ReaderMoves).got == s.got + [s.sent[|s.got|]]
    ensures s.w.WTest? && |s.sent| - |s.got| < PIPEBUFSIZ && !Split(s) && |s.sent| <= LIMIT ==>
              Do(Do(Do(s, WriterMoves), WriterMoves), WriterMoves).sent == s.sent + [s.w.b]
  {
    FullExactly(s);
    IndexOf(|s.sent|);
    IndexOf(|s.got|);
  }
}
