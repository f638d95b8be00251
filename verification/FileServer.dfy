/** The file system on top of the block cache: what file_flush and fs_sync put on
disk is the contents of the files, indirect blocks included (lab/fs/fs.c:535-580),
and it stays there until the file is changed (lab/fs/serv.c:174-325). */
module FileServer {
  import opened Bytes
  import opened Common
  import opened FileTree
  import opened FileSys
  import BlockCache

  /** The pages of the disk map region show what the file operations work on. */
  ghost predicate Shows(disk: seq<seq<Byte>>, cache: map<nat, BlockCache.Page>, blocks: seq<seq<Byte>>) {
    && |disk| == |blocks|
    && forall b :: 0 <= b < |blocks| ==> blocks[b] == if b in cache then cache[b].data else disk[b]
  }

  /** Block `b` is on disk as memory has it. */
  predicate Saved(s: Disk, disk: seq<seq<Byte>>, b: nat) {
    b < |disk| == |s.blocks| && disk[b] == s.blocks[b]
  }

  /** The block of slot `x`, if it has one, is saved. */
  predicate SlotSaved(s: Disk, disk: seq<seq<Byte>>, x: Slot)
    requires Shape(s)
  {
    Target(s, x) != 0 ==> Saved(s, disk, Target(s, x))
  }

  /** On disk the pointers of `f` up to `end`, and the bytes they lead to, are those in memory. */
  ghost predicate Durable(s: Disk, disk: seq<seq<Byte>>, f: nat, end: nat) {
    && Shape(s) && Shape(s.(blocks := disk))
    && (forall n: nat {:trigger Target(s, Data(f, n))} ::
          n < Blocks(end) ==> Target(s.(blocks := disk), Data(f, n)) == Target(s, Data(f, n)))
    && forall q: nat {:trigger ByteAt(s, f, q)} :: q < end ==> ByteAt(s.(blocks := disk), f, q) == ByteAt(s, f, q)
  }

  /** The whole of file `f` is on disk. */
  ghost predicate Safe(s: Disk, disk: seq<seq<Byte>>, f: nat) {
    f in s.files && Durable(s, disk, f, s.files[f].size)
  }

  /** Only blocks of file `f` differ on disk. */
  ghost predicate KeepsOffFile(owner: map<nat, Slot>, f: nat, disk: seq<seq<Byte>>, disk': seq<seq<Byte>>) {
    |disk'| == |disk| && forall b :: 0 <= b < |disk| && !(b in owner && owner[b].f == f) ==> disk'[b] == disk[b]
  }

  lemma HoldsOnDisk(s: Disk, disk: seq<seq<Byte>>, f: nat, end: nat, offset: nat, buf: seq<Byte>)
    requires Durable(s, disk, f, end) && Holds(s, f, offset, buf) && offset + |buf| <= end
    ensures Holds(s.(blocks := disk), f, offset, buf)
  {
    forall q: nat | offset <= q < offset + |buf| ensures ByteAt(s.(blocks := disk), f, q) == Some(buf[q - offset]) {
      assert ByteAt(s, f, q) == Some(buf[q - offset]);
    }
  }

  /** A change of another file in memory leaves a file that is on disk there. */
  lemma SafeBesideChange(s: Disk, s': Disk, disk: seq<seq<Byte>>, f: nat, g: nat)
    requires Safe(s, disk, g) && g != f && KeepsOthers(s, s', f) && Shape(s'.(blocks := disk))
    ensures Safe(s', disk, g)
  {
    forall n: nat ensures Target(s', Data(g, n)) == Target(s, Data(g, n)) {
    }
  }

  /** So does the flush of another file. */
  lemma SafeBesideFlush(s: Disk, owner: map<nat, Slot>, reserved: set<nat>,
                        disk: seq<seq<Byte>>, disk': seq<seq<Byte>>, f: nat, g: nat)
    requires Owned(s, owner, reserved) && Safe(s, disk, g) && g != f
    requires KeepsOffFile(owner, f, disk, disk') && Shape(s.(blocks := disk'))
    ensures Safe(s, disk', g)
  {
    var size := s.files[g].size;
    assert SlotOk(s, owner, Indirect(g));
    forall n: nat | n < Blocks(size)
      ensures Target(s.(blocks := disk'), Data(g, n)) == Target(s, Data(g, n))
      ensures var t := Target(s, Data(g, n)); 0 < t < |disk| ==> disk'[t] == disk[t]
    {
      assert SlotOk(s, owner, Data(g, n));
    }
    forall q: nat | q < size ensures ByteAt(s.(blocks := disk'), g, q) == ByteAt(s, g, q) {
      assert ByteAt(s.(blocks := disk), g, q) == ByteAt(s, g, q);
      assert q / BLKSIZE < Blocks(size);
    }
  }

  /** The data blocks of a file are no use on disk without its indirect block. */
  lemma SavedDurable(s: Disk, disk: seq<seq<Byte>>, f: nat, end: nat)
    requires Shape(s) && Shape(s.(blocks := disk))
    requires SlotSaved(s, disk, Indirect(f))
    requires forall n: nat {:trigger SlotSaved(s, disk, Data(f, n))} ::
               n < Blocks(end) ==> SlotSaved(s, disk, Data(f, n))
    ensures Durable(s, disk, f, end)
  {
    forall n: nat | n < Blocks(end) ensures Target(s.(blocks := disk), Data(f, n)) == Target(s, Data(f, n)) {
    }
    forall q: nat | q < end ensures ByteAt(s.(blocks := disk), f, q) == ByteAt(s, f, q) {
      assert SlotSaved(s, disk, Data(f, q / BLKSIZE));
    }
  }

  /** One more block on disk takes none away. */
  lemma SavedStays(s: Disk, disk: seq<seq<Byte>>, disk': seq<seq<Byte>>, t: nat, x: Slot)
    requires Shape(s) && |disk'| == |disk| && SlotSaved(s, disk, x) && Saved(s, disk', t)
    requires forall b :: 0 <= b < |disk| && b != t ==> disk'[b] == disk[b]
    ensures SlotSaved(s, disk', x)
  {
  }

  /** With every block but 0 on disk, every file is. */
  lemma SyncedDurable(s: Disk, owner: map<nat, Slot>, reserved: set<nat>, disk: seq<seq<Byte>>, f: nat, end: nat)
    requires Owned(s, owner, reserved) && Shape(s.(blocks := disk))
    requires forall b :: 0 < b < |disk| ==> disk[b] == s.blocks[b]
    ensures Durable(s, disk, f, end)
  {
    forall x: Slot ensures SlotSaved(s, disk, x) {
      assert SlotOk(s, owner, x);
      assert Target(s, x) != 0 ==> BlockOk(s, owner, reserved, Target(s, x));
    }
    SavedDurable(s, disk, f, end);
  }

  lemma LogDurable(s: Disk, disk: seq<seq<Byte>>, log: Log, f: nat, end: nat)
    requires Durable(s, disk, f, end) && Agrees(s, log)
    ensures forall q: nat :: (f, q) in log && q < end ==> ByteAt(s.(blocks := disk), f, q) == Some(log[(f, q)])
  {
  }

  datatype Change =
    | Read(count: nat, offset: nat)
    | Write(buf: seq<Byte>, offset: nat)
    | SetSize(size: nat)
    | Remove

  /** The requests that clients send (lab/fs/serv.c:174-325). Reading changes a
      file too: it allocates the blocks that are missing in the range. */
  datatype Call =
    | On(f: nat, change: Change)
    | Flush(f: nat)
    | SyncAll

  /** Between two requests: the files in memory, the disk, the bytes written and
      not cut off since, and the files flushed since they were last touched. */
  datatype Stage = Stage(mem: Disk, disk: seq<seq<Byte>>, log: Log, safe: set<nat>)

  ghost predicate Sound(st: Stage) {
    && Shape(st.mem) && Shape(st.mem.(blocks := st.disk)) && Agrees(st.mem, st.log)
    && forall f {:trigger Safe(st.mem, st.disk, f)} :: f in st.safe ==> Safe(st.mem, st.disk, f)
  }

  /** What a change of file `f` does to memory and log. */
  ghost predicate Changes(a: Stage, f: nat, x: Change, b: Stage)
    requires Sound(a) && f in a.mem.files
  {
    && KeepsOthers(a.mem, b.mem, f)
    && var size, size' := a.mem.files[f].size, b.mem.files[f].size;
    match x
    case Read(count, offset) => KeepsBytes(a.mem, b.mem) && b.log == a.log && size' == size
    case Write(buf, offset) =>
      && size' == Max(size, offset + |buf|)
      && b.log == if Available(a.mem, f, offset, |buf|) then LogWith(a.log, f, offset, buf)
                  else LogWithout(a.log, f, offset, |buf|)
    case SetSize(n) => size' == n && b.log == if n < size then LogBelow(a.log, f, n) else a.log
    case Remove => size' == 0 && b.log == LogBelow(a.log, f, 0)
  }

  /** What each request does. Those that change a file write nothing to disk, and
      those that write to disk change no file. */
  ghost predicate Follows(a: Stage, c: Call, b: Stage)
    requires Sound(a)
  {
    match c
    case On(f, x) =>
      if f in a.mem.files then Changes(a, f, x, b) && b.disk == a.disk && b.safe == a.safe - {f} else b == a
    case Flush(f) => b.mem == a.mem && b.log == a.log && b.safe == if f in a.mem.files then a.safe + {f} else a.safe
    case SyncAll => b.mem == a.mem && b.log == a.log && b.safe == a.mem.files.Keys
  }

  /** Every byte written to a file that has been flushed since is on disk. */
  lemma SafeLogOnDisk(st: Stage, f: nat, q: nat)
    requires Sound(st) && f in st.safe && (f, q) in st.log && q < st.mem.files[f].size
    ensures ByteAt(st.mem.(blocks := st.disk), f, q) == Some(st.log[(f, q)])
  {
    assert Safe(st.mem, st.disk, f);
    LogDurable(st.mem, st.disk, st.log, f, st.mem.files[f].size);
  }

  /** The stages of a run of requests. */
  ghost predicate Run(trace: seq<Stage>, calls: seq<Call>) {
    && |trace| == |calls| + 1
    && (forall i :: 0 <= i <= |calls| ==> Sound(trace[i]))
    && forall i :: 0 <= i < |calls| ==> Follows(trace[i], calls[i], trace[i + 1])
  }

  /** The request neither writes to position `q` of file `f` nor cuts the file off before it. */
  predicate Spares(c: Call, f: nat, q: nat) {
    c.On? && c.f == f ==>
      match c.change
      case Write(buf, offset) => !(offset <= q < offset + |buf|)
      case SetSize(n) => q < n
      case Remove => false
      case Read(_, _) => true
  }

  /** Byte `b` was written to position `q` of file `f` and is there. */
  predicate Stored(st: Stage, f: nat, q: nat, b: Byte) {
    f in st.mem.files && q < st.mem.files[f].size && (f, q) in st.log && st.log[(f, q)] == b
  }

  lemma WriteStores(a: Stage, f: nat, buf: seq<Byte>, offset: nat, b: Stage, q: nat)
    requires Sound(a) && Follows(a, On(f, Write(buf, offset)), b) && f in a.mem.files
    requires Available(a.mem, f, offset, |buf|) && offset <= q < offset + |buf|
    ensures Stored(b, f, q, buf[q - offset])
  {
  }

  lemma SpareStays(a: Stage, c: Call, b: Stage, f: nat, q: nat, x: Byte)
    requires Sound(a) && Follows(a, c, b) && Stored(a, f, q, x) && Spares(c, f, q)
    ensures Stored(b, f, q, x)
  {
  }

  /** A byte that a successful request wrote is in its place, in memory and, once the
      file was flushed after its last change, on disk, until a request writes there
      again or cuts the file off before it, whatever other requests come between. */
  lemma {:induction false} WrittenStays(trace: seq<Stage>, calls: seq<Call>, i: nat, n: nat, q: nat)
    requires Run(trace, calls) && i < n <= |calls| && calls[i].On? && calls[i].change.Write?
    requires calls[i].f in trace[i].mem.files
    requires var f, x := calls[i].f, calls[i].change;
             Available(trace[i].mem, f, x.offset, |x.buf|) && x.offset <= q < x.offset + |x.buf|
    requires forall j :: i < j < n ==> Spares(calls[j], calls[i].f, q)
    ensures var f, b, st := calls[i].f, calls[i].change.buf[q - calls[i].change.offset], trace[n];
            && Stored(st, f, q, b) && ByteAt(st.mem, f, q) == Some(b)
            && (f in st.safe ==> ByteAt(st.mem.(blocks := st.disk), f, q) == Some(b))
  {
    hide Follows, Available, Spares;
    var f, x := calls[i].f, calls[i].change;
    var b := x.buf[q - x.offset];
    assert calls[i] == On(f, Write(x.buf, x.offset));
    assert Follows(trace[n - 1], calls[n - 1], trace[n - 1 + 1]);
    if n == i + 1 {
      WriteStores(trace[i], f, x.buf, x.offset, trace[n], q);
    } else {
      WrittenStays(trace, calls, i, n - 1, q);
      SpareStays(trace[n - 1], calls[n - 1], trace[n], f, q, b);
    }
    if f in trace[n].safe {
      SafeLogOnDisk(trace[n], f, q);
    }
  }

  class Server {
    const fs: FileSystem
    const bc: BlockCache.Cache

    ghost predicate Valid()
      reads this, fs, bc
    {
      && fs.Valid() && fs.Remembers() && bc.Valid() && bc.nblocks == fs.nblocks
      && Shows(bc.disk, bc.cache, fs.blocks)
    }

    /** The state in which a restart would find the files. */
    ghost function OnDisk(): Disk
      reads this, fs, bc
    {
      fs.Now().(blocks := bc.disk)
    }

    /** A server on a disk of empty files, with nothing mapped. */
    constructor (disk: seq<seq<Byte>>, used: seq<bool>, ghost reserved: set<nat>, names: set<nat>)
      requires 0 < |disk| == |used| <= BlockCache.DISKSIZE / BLKSIZE
      requires forall b :: 0 <= b < |disk| ==> |disk[b]| == BLKSIZE
      requires 0 in reserved && forall b :: 0 <= b < |used| ==> (used[b] <==> b in reserved)
      ensures Valid() && fresh(fs) && fresh(bc) && fs.files.Keys == names && bc.disk == disk
    {
      fs := new FileSystem(disk, used, reserved, names);
      bc := new BlockCache.Cache(disk, seq(|used|, b requires 0 <= b < |used| => !used[b]));
    }

    /** The stores of a file operation, block by block: what changed is mapped and dirty. */
    method Absorb()
      requires fs.Valid() && fs.Remembers() && bc.Valid() && bc.nblocks == fs.nblocks
      modifies bc`cache
      ensures Valid()
      ensures forall b :: b in bc.cache ==> bc.cache[b].dirty || (b in old(bc.cache) && bc.cache[b] == old(bc.cache)[b])
    {
      var b := 0;
      while b < bc.nblocks
        invariant b <= bc.nblocks && bc.Valid()
        invariant forall c :: 0 <= c < b ==> fs.blocks[c] == if c in bc.cache then bc.cache[c].data else bc.disk[c]
        invariant forall c :: c in bc.cache ==>
                    bc.cache[c].dirty || (c in old(bc.cache) && bc.cache[c] == old(bc.cache)[c])
      {
        if (if b in bc.cache then bc.cache[b].data else bc.disk[b]) != fs.blocks[b] {
          bc.cache := bc.cache[b := BlockCache.Page(fs.blocks[b], true, true)];
        }
        b := b + 1;
      }
    }

    ghost function Now(safe: set<nat>): Stage
      reads this, fs, bc
    {
      Stage(fs.Now(), bc.disk, fs.log, safe)
    }

    /** A change of file `f` in memory only. */
    ghost predicate Changed(a: Stage, f: nat)
      requires Valid()
      reads this, fs, bc
    {
      f in fs.files && bc.disk == a.disk && KeepsOthers(a.mem, fs.Now(), f)
    }

    lemma ChangedSound(a: Stage, f: nat)
      requires Valid() && Sound(a) && Changed(a, f)
      ensures Sound(Now(a.safe - {f}))
    {
      forall g | g in a.safe - {f} ensures Safe(fs.Now(), bc.disk, g) {
        assert Safe(a.mem, a.disk, g);
        SafeBesideChange(a.mem, fs.Now(), a.disk, f, g);
      }
    }

    method Write(f: nat, buf: seq<Byte>, offset: nat) returns (r: int)
      requires Valid() && f in fs.files
      modifies fs, bc`cache
      ensures Valid() && Changed(old(Now({})), f)
      ensures r >= 0 <==> Available(old(fs.Now()), f, offset, |buf|)
      ensures r >= 0 ==> Holds(fs.Now(), f, offset, buf) && offset + |buf| <= fs.files[f].size
      ensures fs.files[f].size == Max(old(fs.files)[f].size, offset + |buf|)
      ensures fs.log == if r >= 0 then LogWith(old(fs.log), f, offset, buf)
                        else LogWithout(old(fs.log), f, offset, |buf|)
    {
      ghost var done;
      ghost var s := fs.Now();
      r, done := fs.FileWrite(f, buf, offset);
      if r >= 0 {
        WroteHolds(s, fs.Now(), f, offset, buf);
      }
      Absorb();
    }

    /** flush_block(diskaddr(t)). */
    method Flush(t: nat)
      requires Valid() && 0 < t < fs.nblocks
      modifies bc`cache, bc`disk
      ensures Valid() && Saved(fs.Now(), bc.disk, t)
      ensures forall b :: 0 <= b < |bc.disk| && b != t ==> bc.disk[b] == old(bc.disk)[b]
    {
      BlockCache.AddrRoundTrip(t, bc.nblocks, 0);
      ghost var before := fs.blocks;
      assert forall c :: 0 <= c < bc.nblocks ==> bc.Logical(c) == before[c];
      var a := BlockCache.DiskAddr(t, bc.nblocks);
      var r := bc.FlushBlock(a.value);
      assert forall c :: 0 <= c < bc.nblocks ==> bc.Logical(c) == before[c];
    }

    /** flush_block for the block of a file's slot. */
    method FlushSlot(t: nat, ghost x: Slot)
      requires Valid() && t != 0 && t == Target(fs.Now(), x)
      modifies bc`cache, bc`disk
      ensures Valid() && SlotSaved(fs.Now(), bc.disk, x)
      ensures forall y :: SlotSaved(fs.Now(), old(bc.disk), y) ==> SlotSaved(fs.Now(), bc.disk, y)
      ensures KeepsOffFile(fs.owner, x.f, old(bc.disk), bc.disk)
    {
      assert SlotOk(fs.Now(), fs.owner, x) && BlockOk(fs.Now(), fs.owner, fs.reserved, t);
      ghost var disk := bc.disk;
      Flush(t);
      forall y | SlotSaved(fs.Now(), disk, y) ensures SlotSaved(fs.Now(), bc.disk, y) {
        SavedStays(fs.Now(), disk, bc.disk, t, y);
      }
    }

    /** One turn of the loop of file_flush: entry `n` of the file. */
    method FlushEntry(f: nat, n: nat)
      requires Valid() && f in fs.files
      modifies fs, bc`cache, bc`disk
      ensures Valid() && fs.Now() == old(fs.Now()) && fs.owner == old(fs.owner) && fs.log == old(fs.log)
      ensures SlotSaved(fs.Now(), bc.disk, Data(f, n))
      ensures forall x :: SlotSaved(fs.Now(), old(bc.disk), x) ==> SlotSaved(fs.Now(), bc.disk, x)
      ensures KeepsOffFile(fs.owner, f, old(bc.disk), bc.disk)
    {
      ghost var disk := bc.disk;
      var r := fs.FileBlockWalk(f, n, false);
      if r < 0 {
        return;
      }
      var t := if n < NDIRECT then fs.files[f].direct[n] else Word(fs.blocks[fs.files[f].indirect], n - NDIRECT);
      if t != 0 {
        FlushSlot(t, Data(f, n));
      }
    }

    /** file_flush puts the file on disk up to its size, by way of its pointers, and
        writes no block of any other file. */
    method FileFlush(f: nat)
      requires Valid() && f in fs.files
      modifies fs, bc`cache, bc`disk
      ensures Valid() && fs.Now() == old(fs.Now()) && fs.owner == old(fs.owner) && fs.log == old(fs.log)
      ensures Durable(fs.Now(), bc.disk, f, fs.files[f].size)
      ensures forall q: nat ::
                (f, q) in fs.log && q < fs.files[f].size ==> ByteAt(OnDisk(), f, q) == Some(fs.log[(f, q)])
      ensures KeepsOffFile(fs.owner, f, old(bc.disk), bc.disk)
    {
      var i := 0;
      while i < Blocks(fs.files[f].size)
        invariant Valid() && fs.Now() == old(fs.Now()) && fs.owner == old(fs.owner) && fs.log == old(fs.log)
        invariant i <= Blocks(fs.files[f].size)
        invariant forall n: nat {:trigger SlotSaved(fs.Now(), bc.disk, Data(f, n))} ::
                    n < i ==> SlotSaved(fs.Now(), bc.disk, Data(f, n))
        invariant KeepsOffFile(fs.owner, f, old(bc.disk), bc.disk)
      {
        FlushEntry(f, i);
        i := i + 1;
      }
      if fs.files[f].indirect != 0 {
        FlushSlot(fs.files[f].indirect, Indirect(f));
      }
      SavedDurable(fs.Now(), bc.disk, f, fs.files[f].size);
      LogDurable(fs.Now(), bc.disk, fs.log, f, fs.files[f].size);
    }

    /** fs_sync puts every file on disk. */
    method Sync()
      requires Valid()
      modifies bc`cache, bc`disk
      ensures Valid()
      ensures forall f, end {:trigger Durable(fs.Now(), bc.disk, f, end)} :: Durable(fs.Now(), bc.disk, f, end)
      ensures forall f, q :: (f, q) in fs.log ==> ByteAt(OnDisk(), f, q) == Some(fs.log[(f, q)])
    {
      ghost var before := fs.blocks;
      assert forall c :: 0 <= c < bc.nblocks ==> bc.Logical(c) == before[c];
      var ok := bc.FsSync();
      assert forall c :: 0 <= c < bc.nblocks ==> bc.Logical(c) == before[c];
      forall f, end: nat ensures Durable(fs.Now(), bc.disk, f, end) {
        SyncedDurable(fs.Now(), fs.owner, fs.reserved, bc.disk, f, end);
      }
      forall f, q | (f, q) in fs.log ensures ByteAt(OnDisk(), f, q) == Some(fs.log[(f, q)]) {
        LogDurable(fs.Now(), bc.disk, fs.log, f, q + 1);
      }
    }

    /** A write that succeeds and the flush after it: the bytes are on disk. */
    method WriteAndFlush(f: nat, buf: seq<Byte>, offset: nat) returns (r: int)
      requires Valid() && f in fs.files
      modifies fs, bc`cache, bc`disk
      ensures Valid() && f in fs.files
      ensures r >= 0 <==> Available(old(fs.Now()), f, offset, |buf|)
      ensures r >= 0 ==> Holds(OnDisk(), f, offset, buf)
    {
      r := Write(f, buf, offset);
      FileFlush(f);
      if r >= 0 {
        HoldsOnDisk(fs.Now(), bc.disk, f, fs.files[f].size, offset, buf);
      }
    }

    /** The requests that change a file in memory. */
    method Alter(f: nat, x: Change, ghost safe: set<nat>)
      requires Valid() && Sound(Now(safe)) && f in fs.files
      modifies fs, bc`cache
      ensures Valid() && Sound(Now(safe - {f})) && Changes(old(Now(safe)), f, x, Now(safe - {f}))
    {
      ghost var a := Now(safe);
      match x {
        case Read(count, offset) =>
          var r, buf := fs.FileRead(f, count, offset);
          Absorb();
        case Write(buf, offset) =>
          var r := Write(f, buf, offset);
        case SetSize(n) =>
          fs.FileSetSize(f, n);
          Absorb();
        case Remove =>
          fs.FileRemove(f);
          Absorb();
      }
      ChangedSound(a, f);
    }

    method Perform(c: Call, ghost safe: set<nat>) returns (ghost safe': set<nat>)
      requires Valid() && Sound(Now(safe))
      modifies fs, bc`cache, bc`disk
      ensures Valid() && Sound(Now(safe')) && Follows(old(Now(safe)), c, Now(safe'))
    {
      ghost var s, disk := fs.Now(), bc.disk;
      safe' := safe;
      match c {
        case On(f, x) =>
          if f in fs.files {
            Alter(f, x, safe);
            safe' := safe - {f};
          }
        case Flush(f) =>
          if f in fs.files {
            FileFlush(f);
            forall g | g in safe && g != f ensures Safe(fs.Now(), bc.disk, g) {
              assert Safe(s, disk, g);
              SafeBesideFlush(s, fs.owner, fs.reserved, disk, bc.disk, f, g);
            }
            safe' := safe + {f};
          }
        case SyncAll =>
          Sync();
          safe' := fs.files.Keys;
      }
    }

    /** Over every run of requests, a file that was flushed, or synced, stays on
        disk byte for byte until a request names it. */
    method Serve(calls: seq<Call>) returns (ghost trace: seq<Stage>)
      requires Valid()
      modifies fs, bc`cache, bc`disk
      ensures Valid() && |trace| == |calls| + 1 && trace[0] == old(Now({}))
      ensures trace[|calls|] == Now(trace[|calls|].safe)
      ensures Run(trace, calls)
    {
      ghost var safe: set<nat> := {};
      trace := [Now(safe)];
      var i := 0;
      while i < |calls|
        invariant Valid() && i <= |calls| && |trace| == i + 1 && trace[0] == old(Now({})) && trace[i] == Now(safe)
        invariant forall k :: 0 <= k <= i ==> Sound(trace[k])
        invariant forall k :: 0 <= k < i ==> Follows(trace[k], calls[k], trace[k + 1])
      {
        safe := Perform(calls[i], safe);
        trace := trace + [Now(safe)];
        i := i + 1;
      }
    }
  }
}
