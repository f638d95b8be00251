/** Files on disk blocks: the block tree of each file, and what every operation
keeps about all of them (lab/fs/fs.c). Blocks are read and written through the
block cache, whose contents are what `blocks` holds. */
module FileTree {
  import opened Bytes
  import opened Common

  const BLKSIZE: nat := 4096
  const NDIRECT: nat := 10
  const NINDIRECT: nat := 1024
  const MAXBLOCKS: nat := NDIRECT + NINDIRECT

  /** The fields of struct File that this model keeps. */
  datatype Inode = Inode(size: nat, direct: seq<nat>, indirect: nat)

  datatype Disk = Disk(used: seq<bool>, blocks: seq<seq<Byte>>, files: map<nat, Inode>)

  /** A place that holds a block number: entry `n` of file `f`'s tree, or the
      file's pointer to its indirect block. */
  datatype Slot = Data(f: nat, n: nat) | Indirect(f: nat)

  predicate Shape(s: Disk) {
    && |s.blocks| == |s.used| < 0x1_0000_0000
    && (forall b :: 0 <= b < |s.blocks| ==> |s.blocks[b]| == BLKSIZE)
    && (forall f :: f in s.files ==> |s.files[f].direct| == NDIRECT && s.files[f].indirect < |s.blocks|)
  }

  /** The block number in a slot, 0 when there is none. */
  function Target(s: Disk, x: Slot): nat
    requires Shape(s)
  {
    if x.f !in s.files then 0
    else
      var ino := s.files[x.f];
      if x.Indirect? then ino.indirect
      else if x.n < NDIRECT then ino.direct[x.n]
      else if x.n < MAXBLOCKS && ino.indirect != 0 then Word(s.blocks[ino.indirect], x.n - NDIRECT)
      else 0
  }

  function Blocks(size: nat): nat {
    (size + BLKSIZE - 1) / BLKSIZE
  }

  /** These are the blocks that hold bytes below the size. */
  lemma BlocksExactly(size: nat, n: nat)
    ensures n < Blocks(size) <==> n * 4096 < size
  {
  }

  /** Every block number is in range and in use, and no two slots of any files
      hold the same one: `owner` names the only slot of each block. */
  ghost predicate SlotOk(s: Disk, owner: map<nat, Slot>, x: Slot)
    requires Shape(s)
  {
    Target(s, x) != 0 ==> Target(s, x) in owner && owner[Target(s, x)] == x
  }

  ghost predicate BlockOk(s: Disk, owner: map<nat, Slot>, reserved: set<nat>, b: nat)
    requires Shape(s) && b in owner
  {
    && 0 < b < |s.used| && s.used[b] && b !in reserved && Target(s, owner[b]) == b
  }

  ghost predicate Owned(s: Disk, owner: map<nat, Slot>, reserved: set<nat>) {
    && Shape(s)
    && 0 in reserved && (forall b :: b in reserved && b < |s.used| ==> s.used[b])
    && (forall x {:trigger SlotOk(s, owner, x)} :: SlotOk(s, owner, x))
    && (forall b {:trigger BlockOk(s, owner, reserved, b)} :: b in owner ==> BlockOk(s, owner, reserved, b))
  }

  /** No slot beyond the end of a file is set, and every block in use is either
      reserved or owned. */
  ghost predicate Tight(s: Disk, owner: map<nat, Slot>, reserved: set<nat>)
    requires Shape(s)
  {
    && (forall f, n {:trigger Target(s, Data(f, n))} ::
          f in s.files && n >= Blocks(s.files[f].size) ==> Target(s, Data(f, n)) == 0)
    && (forall f :: f in s.files && Blocks(s.files[f].size) <= NDIRECT ==> s.files[f].indirect == 0)
    && (forall b :: 0 <= b < |s.used| && s.used[b] ==> b in reserved || b in owner)
  }

  /** Two different slots never hold the same block. */
  lemma NoSharing(s: Disk, owner: map<nat, Slot>, reserved: set<nat>, x: Slot, y: Slot)
    requires Owned(s, owner, reserved) && x != y && Target(s, x) != 0
    ensures Target(s, x) != Target(s, y) && Target(s, x) < |s.used| && s.used[Target(s, x)] && Target(s, x) !in reserved
  {
    assert SlotOk(s, owner, x) && SlotOk(s, owner, y) && BlockOk(s, owner, reserved, Target(s, x));
  }

  /** The byte stored at a position of a file; None where no block was allocated. */
  function ByteAt(s: Disk, f: nat, pos: nat): Option<Byte>
    requires Shape(s)
  {
    var b := Target(s, Data(f, pos / BLKSIZE));
    if b == 0 || b >= |s.blocks| then None else Some(s.blocks[b][pos % BLKSIZE])
  }

  // The elementary updates.

  ghost function SetUsed(s: Disk, b: nat, u: bool): (r: Disk)
    requires Shape(s) && b < |s.used|
    ensures Shape(r)
  {
    s.(used := s.used[b := u])
  }

  ghost function SetBlock(s: Disk, b: nat, c: seq<Byte>): (r: Disk)
    requires Shape(s) && b < |s.blocks| && |c| == BLKSIZE
    ensures Shape(r)
  {
    s.(blocks := s.blocks[b := c])
  }

  ghost function SetInode(s: Disk, f: nat, ino: Inode): (r: Disk)
    requires Shape(s) && |ino.direct| == NDIRECT && ino.indirect < |s.blocks|
    ensures Shape(r)
  {
    s.(files := s.files[f := ino])
  }

  /** Writing `b` into slot `x`. */
  ghost function SetSlot(s: Disk, x: Slot, b: nat): (r: Disk)
    requires Shape(s) && x.f in s.files && b < |s.used|
    requires x.Data? ==> x.n < NDIRECT || (x.n < MAXBLOCKS && s.files[x.f].indirect != 0)
    ensures Shape(r) && r.used == s.used
  {
    var ino := s.files[x.f];
    if x.Indirect? then SetInode(s, x.f, ino.(indirect := b))
    else if x.n < NDIRECT then SetInode(s, x.f, ino.(direct := ino.direct[x.n := b]))
    else SetBlock(s, ino.indirect, PutWord(s.blocks[ino.indirect], x.n - NDIRECT, b))
  }

  /** Writing an entry of the tree changes that entry of that file only. */
  lemma SetData(s: Disk, owner: map<nat, Slot>, reserved: set<nat>, x: Slot, b: nat, y: Slot)
    requires Owned(s, owner, reserved) && x.Data? && x.f in s.files && b < |s.used|
    requires x.n < NDIRECT || (x.n < MAXBLOCKS && s.files[x.f].indirect != 0)
    ensures Target(SetSlot(s, x, b), y) == if y == x then b else Target(s, y)
  {
    var ind := s.files[x.f].indirect;
    if x.n >= NDIRECT && y.Data? && y.f in s.files && NDIRECT <= y.n < MAXBLOCKS && s.files[y.f].indirect != 0 {
      assert SlotOk(s, owner, Indirect(x.f)) && SlotOk(s, owner, Indirect(y.f));
      assert Target(s, Indirect(x.f)) == ind && Target(s, Indirect(y.f)) == s.files[y.f].indirect;
      WordPut(s.blocks[ind], x.n - NDIRECT, b, y.n - NDIRECT);
    }
  }

  /** The contents of a block that is no file's indirect block do not matter to the tree. */
  lemma SetContents(s: Disk, owner: map<nat, Slot>, reserved: set<nat>, b: nat, c: seq<Byte>, y: Slot)
    requires Owned(s, owner, reserved) && b < |s.blocks| && |c| == BLKSIZE && (b in owner ==> owner[b].Data?)
    ensures Target(SetBlock(s, b, c), y) == Target(s, y)
  {
    if y.f in s.files && s.files[y.f].indirect != 0 {
      assert SlotOk(s, owner, Indirect(y.f));
      assert Target(s, Indirect(y.f)) == s.files[y.f].indirect;
    }
  }

  ghost predicate Free(s: Disk, b: nat) {
    0 < b < |s.used| && !s.used[b]
  }

  ghost predicate Reachable(s: Disk, x: Slot) {
    x.Data? && x.f in s.files && (x.n < NDIRECT || (x.n < MAXBLOCKS && s.files[x.f].indirect != 0))
  }

  ghost function GiveData(s: Disk, x: Slot, b: nat): Disk
    requires Shape(s) && Reachable(s, x) && Free(s, b)
  {
    SetSlot(SetUsed(s, b, true), x, b)
  }

  lemma FreeNotOwned(s: Disk, owner: map<nat, Slot>, reserved: set<nat>, b: nat)
    requires Owned(s, owner, reserved) && Free(s, b)
    ensures b !in owner && b !in reserved
  {
    assert b in owner ==> BlockOk(s, owner, reserved, b);
  }

  lemma UsedOnly(s: Disk, owner: map<nat, Slot>, reserved: set<nat>, b: nat)
    requires Owned(s, owner, reserved) && b < |s.used|
    ensures Owned(SetUsed(s, b, true), owner, reserved)
    ensures forall y {:trigger Target(SetUsed(s, b, true), y)} :: Target(SetUsed(s, b, true), y) == Target(s, y)
  {
    var s' := SetUsed(s, b, true);
    forall y ensures SlotOk(s', owner, y) {
      assert SlotOk(s, owner, y);
    }
    forall c | c in owner ensures BlockOk(s', owner, reserved, c) {
      assert BlockOk(s, owner, reserved, c);
    }
  }

  /** A free block put into an empty entry of a file: ownership is kept and no
      other entry changes. */
  lemma GiveDataOwned(s: Disk, owner: map<nat, Slot>, reserved: set<nat>, x: Slot, b: nat)
    requires Owned(s, owner, reserved) && Reachable(s, x) && Free(s, b) && Target(s, x) == 0
    ensures Owned(GiveData(s, x, b), owner[b := x], reserved)
    ensures forall y {:trigger Target(GiveData(s, x, b), y)} ::
              Target(GiveData(s, x, b), y) == if y == x then b else Target(s, y)
  {
    FreeNotOwned(s, owner, reserved, b);
    var s1, s', owner' := SetUsed(s, b, true), GiveData(s, x, b), owner[b := x];
    assert Owned(s1, owner, reserved) by {
      UsedOnly(s, owner, reserved, b);
    }
    forall y ensures Target(s', y) == if y == x then b else Target(s, y) {
      SetData(s1, owner, reserved, x, b, y);
    }
    forall y ensures SlotOk(s', owner', y) {
      assert SlotOk(s, owner, y);
    }
    forall c | c in owner' ensures BlockOk(s', owner', reserved, c) {
      if c != b {
        assert BlockOk(s, owner, reserved, c);
      }
    }
  }

  ghost function GiveIndirect(s: Disk, f: nat, b: nat): Disk
    requires Shape(s) && f in s.files && Free(s, b)
  {
    SetBlock(SetSlot(SetUsed(s, b, true), Indirect(f), b), b, Zeros(BLKSIZE))
  }

  /** A cleared block becomes a file's indirect block: no entry of any file changes. */
  lemma GiveIndirectOwned(s: Disk, owner: map<nat, Slot>, reserved: set<nat>, f: nat, b: nat)
    requires Owned(s, owner, reserved) && f in s.files && s.files[f].indirect == 0 && Free(s, b)
    ensures Owned(GiveIndirect(s, f, b), owner[b := Indirect(f)], reserved)
    ensures forall y {:trigger Target(GiveIndirect(s, f, b), y)} ::
              Target(GiveIndirect(s, f, b), y) == if y == Indirect(f) then b else Target(s, y)
  {
    FreeNotOwned(s, owner, reserved, b);
    var s', owner' := GiveIndirect(s, f, b), owner[b := Indirect(f)];
    forall y ensures Target(s', y) == if y == Indirect(f) then b else Target(s, y) {
      if y.Data? && y.f == f && NDIRECT <= y.n < MAXBLOCKS {
        WordZero(Zeros(BLKSIZE), y.n - NDIRECT);
      } else if y.f in s.files && s.files[y.f].indirect != 0 {
        assert Target(s, Indirect(y.f)) == s.files[y.f].indirect;
        assert SlotOk(s, owner, Indirect(y.f));
      }
    }
    forall y ensures SlotOk(s', owner', y) {
      assert SlotOk(s, owner, y);
    }
    forall c | c in owner' ensures BlockOk(s', owner', reserved, c) {
      if c != b {
        assert BlockOk(s, owner, reserved, c);
      }
    }
  }

  ghost function DropData(s: Disk, x: Slot): Disk
    requires Shape(s) && Reachable(s, x) && Target(s, x) < |s.used|
  {
    SetSlot(SetUsed(s, Target(s, x), false), x, 0)
  }

  /** Freeing an entry's block. */
  lemma DropDataOwned(s: Disk, owner: map<nat, Slot>, reserved: set<nat>, x: Slot)
    requires Owned(s, owner, reserved) && Reachable(s, x) && Target(s, x) != 0
    ensures Target(s, x) < |s.used|
    ensures Owned(DropData(s, x), owner - {Target(s, x)}, reserved)
    ensures forall y {:trigger Target(DropData(s, x), y)} ::
              Target(DropData(s, x), y) == if y == x then 0 else Target(s, y)
  {
    var b := Target(s, x);
    assert SlotOk(s, owner, x) && BlockOk(s, owner, reserved, b);
    var s', owner' := DropData(s, x), owner - {b};
    forall y ensures Target(s', y) == if y == x then 0 else Target(s, y) {
      SetData(s, owner, reserved, x, 0, y);
      assert SetSlot(s, x, 0).blocks == s'.blocks && SetSlot(s, x, 0).files == s'.files;
    }
    forall y ensures SlotOk(s', owner', y) {
      assert SlotOk(s, owner, y);
    }
    forall c | c in owner' ensures BlockOk(s', owner', reserved, c) {
      assert BlockOk(s, owner, reserved, c);
    }
  }

  ghost function DropIndirect(s: Disk, f: nat): Disk
    requires Shape(s) && f in s.files
  {
    SetSlot(SetUsed(s, s.files[f].indirect, false), Indirect(f), 0)
  }

  /** The blocks that freeing the indirect block of `f` takes from the file. */
  ghost function WithoutIndirect(owner: map<nat, Slot>, f: nat): map<nat, Slot> {
    map b | b in owner && owner[b] != Indirect(f) && !(owner[b].f == f && owner[b].Data? && owner[b].n >= NDIRECT) ::
      owner[b]
  }

  lemma DropIndirectOwned(s: Disk, owner: map<nat, Slot>, reserved: set<nat>, f: nat)
    requires Owned(s, owner, reserved) && f in s.files && s.files[f].indirect != 0
    ensures Owned(DropIndirect(s, f), WithoutIndirect(owner, f), reserved)
    ensures forall y {:trigger Target(DropIndirect(s, f), y)} :: Target(DropIndirect(s, f), y) ==
              if y == Indirect(f) || (y.Data? && y.f == f && y.n >= NDIRECT) then 0 else Target(s, y)
  {
    var s', owner' := DropIndirect(s, f), WithoutIndirect(owner, f);
    assert Target(s, Indirect(f)) == s.files[f].indirect;
    assert SlotOk(s, owner, Indirect(f)) && BlockOk(s, owner, reserved, s.files[f].indirect);
    forall y ensures SlotOk(s', owner', y) {
      assert SlotOk(s, owner, y);
    }
    forall c | c in owner' ensures BlockOk(s', owner', reserved, c) {
      assert BlockOk(s, owner, reserved, c);
    }
  }

  /** New contents for a data block: the tree stays, and only that block's bytes change. */
  lemma WriteOwned(s: Disk, owner: map<nat, Slot>, reserved: set<nat>, b: nat, c: seq<Byte>)
    requires Owned(s, owner, reserved) && b in owner && owner[b].Data? && b < |s.blocks| && |c| == BLKSIZE
    ensures Owned(SetBlock(s, b, c), owner, reserved)
    ensures forall y {:trigger Target(SetBlock(s, b, c), y)} :: Target(SetBlock(s, b, c), y) == Target(s, y)
    ensures forall f, pos: nat {:trigger ByteAt(SetBlock(s, b, c), f, pos)} ::
              ByteAt(SetBlock(s, b, c), f, pos) ==
                if owner[b] == Data(f, pos / BLKSIZE) then Some(c[pos % BLKSIZE]) else ByteAt(s, f, pos)
  {
    var s' := SetBlock(s, b, c);
    forall y ensures Target(s', y) == Target(s, y) {
      SetContents(s, owner, reserved, b, c, y);
    }
    forall y ensures SlotOk(s', owner, y) {
      assert SlotOk(s, owner, y);
    }
    forall d | d in owner ensures BlockOk(s', owner, reserved, d) {
      assert BlockOk(s, owner, reserved, d);
    }
    assert BlockOk(s, owner, reserved, b);
    forall f, pos: nat ensures ByteAt(s', f, pos) ==
        if owner[b] == Data(f, pos / BLKSIZE) then Some(c[pos % BLKSIZE]) else ByteAt(s, f, pos)
    {
      assert SlotOk(s, owner, Data(f, pos / BLKSIZE));
    }
  }

  /** Bytes already stored, in any file, are still there. */
  ghost predicate KeepsBytes(s: Disk, s': Disk) {
    && Shape(s) && Shape(s') && s'.files.Keys == s.files.Keys
    && forall f, pos: nat {:trigger ByteAt(s', f, pos)} ::
         ByteAt(s, f, pos).Some? ==> ByteAt(s', f, pos) == ByteAt(s, f, pos)
  }

  /** File `f` holds `bytes` from position `pos` on. */
  ghost predicate Holds(s: Disk, f: nat, pos: nat, bytes: seq<Byte>) {
    && Shape(s)
    && forall q: nat {:trigger ByteAt(s, f, q)} :: pos <= q < pos + |bytes| ==> ByteAt(s, f, q) == Some(bytes[q - pos])
  }

  lemma HoldsMore(s: Disk, s': Disk, f: nat, pos: nat, bytes: seq<Byte>, more: seq<Byte>)
    requires KeepsBytes(s, s') && Holds(s, f, pos, bytes) && Holds(s', f, pos + |bytes|, more)
    ensures Holds(s', f, pos, bytes + more)
  {
  }

  /** Every file but `f` is as it was. */
  ghost predicate KeepsOthers(s: Disk, s': Disk, f: nat) {
    && Shape(s) && Shape(s') && s'.files.Keys == s.files.Keys
    && (forall g :: g in s.files && g != f ==> s'.files[g] == s.files[g])
    && (forall x: Slot {:trigger Target(s', x)} :: x.f != f ==> Target(s', x) == Target(s, x))
    && forall g, pos: nat {:trigger ByteAt(s', g, pos)} :: g != f ==> ByteAt(s', g, pos) == ByteAt(s, g, pos)
  }

  lemma KeepsTrans(s: Disk, s1: Disk, s2: Disk, f: nat)
    requires KeepsOthers(s, s1, f) && KeepsOthers(s1, s2, f)
    ensures KeepsOthers(s, s2, f)
    ensures KeepsBytes(s, s1) && KeepsBytes(s1, s2) ==> KeepsBytes(s, s2)
  {
  }

  lemma GiveDataByte(s: Disk, owner: map<nat, Slot>, reserved: set<nat>, x: Slot, b: nat, f: nat, pos: nat)
    requires Owned(s, owner, reserved) && Reachable(s, x) && Free(s, b) && Target(s, x) == 0
    requires f != x.f || ByteAt(s, f, pos).Some?
    ensures Shape(GiveData(s, x, b)) && ByteAt(GiveData(s, x, b), f, pos) == ByteAt(s, f, pos)
  {
    var y := Data(f, pos / BLKSIZE);
    GiveDataOwned(s, owner, reserved, x, b);
    assert SlotOk(s, owner, y) && SlotOk(s, owner, Indirect(x.f));
    assert Target(GiveData(s, x, b), y) == Target(s, y) && Target(s, Indirect(x.f)) == s.files[x.f].indirect;
  }

  lemma GiveDataBytes(s: Disk, owner: map<nat, Slot>, reserved: set<nat>, x: Slot, b: nat)
    requires Owned(s, owner, reserved) && Reachable(s, x) && Free(s, b) && Target(s, x) == 0
    ensures KeepsBytes(s, GiveData(s, x, b)) && KeepsOthers(s, GiveData(s, x, b), x.f)
  {
    var s' := GiveData(s, x, b);
    GiveDataOwned(s, owner, reserved, x, b);
    hide Owned;
    forall f, pos: nat | f != x.f || ByteAt(s, f, pos).Some? ensures ByteAt(s', f, pos) == ByteAt(s, f, pos) {
      GiveDataByte(s, owner, reserved, x, b, f, pos);
    }
  }

  lemma GiveDataTight(s: Disk, owner: map<nat, Slot>, reserved: set<nat>, x: Slot, b: nat)
    requires Owned(s, owner, reserved) && Reachable(s, x) && Free(s, b) && Target(s, x) == 0
    requires Tight(s, owner, reserved) && x.n < Blocks(s.files[x.f].size)
    ensures Shape(GiveData(s, x, b)) && Tight(GiveData(s, x, b), owner[b := x], reserved)
  {
    GiveDataOwned(s, owner, reserved, x, b);
  }

  lemma GiveIndirectBytes(s: Disk, owner: map<nat, Slot>, reserved: set<nat>, f: nat, b: nat)
    requires Owned(s, owner, reserved) && f in s.files && s.files[f].indirect == 0 && Free(s, b)
    ensures KeepsBytes(s, GiveIndirect(s, f, b)) && KeepsOthers(s, GiveIndirect(s, f, b), f)
    ensures Tight(s, owner, reserved) && NDIRECT < Blocks(s.files[f].size) ==>
              Tight(GiveIndirect(s, f, b), owner[b := Indirect(f)], reserved)
  {
    GiveIndirectOwned(s, owner, reserved, f, b);
    FreeNotOwned(s, owner, reserved, b);
    var s' := GiveIndirect(s, f, b);
    forall g, pos: nat ensures ByteAt(s', g, pos) == ByteAt(s, g, pos) {
      var y := Data(g, pos / BLKSIZE);
      assert SlotOk(s, owner, y);
      assert Target(s', y) == Target(s, y);
    }
  }

  lemma DropDataBytes(s: Disk, owner: map<nat, Slot>, reserved: set<nat>, x: Slot, f: nat, pos: nat)
    requires Owned(s, owner, reserved) && Reachable(s, x) && 0 < Target(s, x) < |s.used|
    ensures Shape(DropData(s, x))
    ensures ByteAt(DropData(s, x), f, pos) == if x == Data(f, pos / BLKSIZE) then None else ByteAt(s, f, pos)
  {
    DropDataOwned(s, owner, reserved, x);
    var y := Data(f, pos / BLKSIZE);
    assert SlotOk(s, owner, y) && SlotOk(s, owner, Indirect(x.f));
    assert Target(DropData(s, x), y) == if y == x then 0 else Target(s, y);
    assert Target(s, Indirect(x.f)) == s.files[x.f].indirect;
  }

  lemma DropIndirectBytes(s: Disk, owner: map<nat, Slot>, reserved: set<nat>, f: nat, g: nat, pos: nat)
    requires Owned(s, owner, reserved) && f in s.files && s.files[f].indirect != 0
    ensures Shape(DropIndirect(s, f))
    ensures ByteAt(DropIndirect(s, f), g, pos) == if f == g && pos / BLKSIZE >= NDIRECT then None else ByteAt(s, g, pos)
  {
    DropIndirectOwned(s, owner, reserved, f);
    assert Target(DropIndirect(s, f), Data(g, pos / BLKSIZE)) ==
           if f == g && pos / BLKSIZE >= NDIRECT then 0 else Target(s, Data(g, pos / BLKSIZE));
  }

  /** Entries `lo` up to `hi` of file `f`. */
  predicate InCut(y: Slot, f: nat, lo: nat, hi: nat) {
    y.Data? && y.f == f && lo <= y.n < hi
  }

  ghost function WithoutCut(owner: map<nat, Slot>, f: nat, lo: nat, hi: nat): map<nat, Slot> {
    map b | b in owner && !InCut(owner[b], f, lo, hi) :: owner[b]
  }

  ghost predicate CutSlot(s: Disk, f: nat, lo: nat, hi: nat, s': Disk, y: Slot)
    requires Shape(s) && Shape(s')
  {
    Target(s', y) == if InCut(y, f, lo, hi) then 0 else Target(s, y)
  }

  ghost predicate CutUsed(s: Disk, owner: map<nat, Slot>, f: nat, lo: nat, hi: nat, s': Disk, b: nat)
    requires b < |s.used| == |s'.used|
  {
    s'.used[b] == (s.used[b] && !(b in owner && InCut(owner[b], f, lo, hi)))
  }

  ghost predicate CutByte(s: Disk, f: nat, lo: nat, hi: nat, s': Disk, g: nat, pos: nat)
    requires Shape(s) && Shape(s')
  {
    ByteAt(s', g, pos) == if InCut(Data(g, pos / BLKSIZE), f, lo, hi) then None else ByteAt(s, g, pos)
  }

  /** The blocks of entries `lo` up to `hi` of file `f`, and nothing else, have been freed. */
  ghost predicate CutOff(s: Disk, owner: map<nat, Slot>, f: nat, lo: nat, hi: nat, s': Disk) {
    && Shape(s) && Shape(s') && |s'.used| == |s.used| && s'.files.Keys == s.files.Keys
    && (forall g :: g in s.files && g != f ==> s'.files[g] == s.files[g])
    && (f in s.files ==> s'.files[f].size == s.files[f].size && s'.files[f].indirect == s.files[f].indirect)
    && (forall y {:trigger CutSlot(s, f, lo, hi, s', y)} :: CutSlot(s, f, lo, hi, s', y))
    && (forall b {:trigger CutUsed(s, owner, f, lo, hi, s', b)} ::
          0 <= b < |s.used| ==> CutUsed(s, owner, f, lo, hi, s', b))
    && (forall g, pos: nat {:trigger CutByte(s, f, lo, hi, s', g, pos)} :: CutByte(s, f, lo, hi, s', g, pos))
  }

  lemma CutMore(s: Disk, owner: map<nat, Slot>, reserved: set<nat>, f: nat, lo: nat, hi: nat, s1: Disk)
    requires Owned(s, owner, reserved) && f in s.files && lo <= hi
    requires CutOff(s, owner, f, lo, hi, s1) && Owned(s1, WithoutCut(owner, f, lo, hi), reserved)
    requires Reachable(s1, Data(f, hi)) && Target(s1, Data(f, hi)) != 0
    ensures Target(s1, Data(f, hi)) < |s1.used|
    ensures CutOff(s, owner, f, lo, hi + 1, DropData(s1, Data(f, hi)))
    ensures WithoutCut(owner, f, lo, hi) - {Target(s1, Data(f, hi))} == WithoutCut(owner, f, lo, hi + 1)
    ensures Owned(DropData(s1, Data(f, hi)), WithoutCut(owner, f, lo, hi + 1), reserved)
  {
    var h := hi + 1;
    var x, own1 := Data(f, hi), WithoutCut(owner, f, lo, hi);
    DropDataOwned(s1, own1, reserved, x);
    var b, s2 := Target(s1, x), DropData(s1, x);
    assert SlotOk(s1, own1, x) && SlotOk(s, owner, x) && CutSlot(s, f, lo, hi, s1, x);
    forall c | c in owner && owner[c] == x ensures c == b {
      assert BlockOk(s, owner, reserved, c);
    }
    assert own1 - {b} == WithoutCut(owner, f, lo, h);
    forall y ensures CutSlot(s, f, lo, h, s2, y) {
      assert CutSlot(s, f, lo, hi, s1, y);
    }
    forall g, pos: nat ensures CutByte(s, f, lo, h, s2, g, pos) {
      DropDataBytes(s1, own1, reserved, x, g, pos);
      assert CutByte(s, f, lo, hi, s1, g, pos);
    }
    forall c | 0 <= c < |s.used| ensures CutUsed(s, owner, f, lo, h, s2, c) {
      assert CutUsed(s, owner, f, lo, hi, s1, c);
    }
  }

  lemma CutEmpty(s: Disk, owner: map<nat, Slot>, f: nat, lo: nat, hi: nat)
    requires Shape(s) && hi <= lo
    ensures CutOff(s, owner, f, lo, hi, s) && WithoutCut(owner, f, lo, hi) == owner
  {
    assert forall y :: CutSlot(s, f, lo, hi, s, y);
  }

  /** What file_truncate_blocks takes from file `f` when it goes from `was` blocks to `now`. */
  predicate Gone(y: Slot, f: nat, now: nat, was: nat) {
    y.f == f && match y
                case Indirect(_) => now <= NDIRECT
                case Data(_, n) => now <= n && (n < was || (now <= NDIRECT && NDIRECT <= n))
  }

  /** What it frees. The two differ only for entries beyond the old size. */
  predicate Freed(y: Slot, f: nat, now: nat, was: nat) {
    y.f == f && match y
                case Indirect(_) => now <= NDIRECT
                case Data(_, n) => now <= n < was
  }

  ghost function WithoutGone(owner: map<nat, Slot>, f: nat, now: nat, was: nat): map<nat, Slot> {
    map b | b in owner && !Gone(owner[b], f, now, was) :: owner[b]
  }

  ghost predicate GoneSlot(s: Disk, f: nat, now: nat, was: nat, s': Disk, y: Slot)
    requires Shape(s) && Shape(s')
  {
    Target(s', y) == if Gone(y, f, now, was) then 0 else Target(s, y)
  }

  ghost predicate FreedUsed(s: Disk, owner: map<nat, Slot>, f: nat, now: nat, was: nat, s': Disk, b: nat)
    requires b < |s.used| == |s'.used|
  {
    s'.used[b] == (s.used[b] && !(b in owner && Freed(owner[b], f, now, was)))
  }

  ghost predicate GoneByte(s: Disk, f: nat, now: nat, was: nat, s': Disk, g: nat, pos: nat)
    requires Shape(s) && Shape(s')
  {
    ByteAt(s', g, pos) == if Gone(Data(g, pos / BLKSIZE), f, now, was) then None else ByteAt(s, g, pos)
  }

  ghost predicate Truncated(s: Disk, owner: map<nat, Slot>, f: nat, now: nat, was: nat, s': Disk) {
    && Shape(s) && Shape(s') && |s'.used| == |s.used| && s'.files.Keys == s.files.Keys
    && (forall g :: g in s.files && g != f ==> s'.files[g] == s.files[g])
    && (f in s.files ==> s'.files[f].size == s.files[f].size)
    && (forall y {:trigger GoneSlot(s, f, now, was, s', y)} :: GoneSlot(s, f, now, was, s', y))
    && (forall b {:trigger FreedUsed(s, owner, f, now, was, s', b)} ::
          0 <= b < |s.used| ==> FreedUsed(s, owner, f, now, was, s', b))
    && (forall g, pos: nat {:trigger GoneByte(s, f, now, was, s', g, pos)} :: GoneByte(s, f, now, was, s', g, pos))
  }

  /** After the loop, with the indirect block kept or absent. */
  lemma TruncatedPlain(s: Disk, owner: map<nat, Slot>, reserved: set<nat>, f: nat, now: nat, was: nat, s1: Disk)
    requires Owned(s, owner, reserved) && f in s.files && CutOff(s, owner, f, now, was, s1)
    requires now > NDIRECT || s.files[f].indirect == 0
    ensures Truncated(s, owner, f, now, was, s1) && WithoutCut(owner, f, now, was) == WithoutGone(owner, f, now, was)
  {
    forall b | b in owner ensures InCut(owner[b], f, now, was) <==> Gone(owner[b], f, now, was) {
      assert BlockOk(s, owner, reserved, b);
    }
    assert WithoutCut(owner, f, now, was) == WithoutGone(owner, f, now, was);
    forall y ensures GoneSlot(s, f, now, was, s1, y) {
      assert CutSlot(s, f, now, was, s1, y);
    }
    forall b | 0 <= b < |s.used| ensures FreedUsed(s, owner, f, now, was, s1, b) {
      assert CutUsed(s, owner, f, now, was, s1, b);
    }
    forall g, pos: nat ensures GoneByte(s, f, now, was, s1, g, pos) {
      assert CutByte(s, f, now, was, s1, g, pos);
    }
  }

  /** After the loop and the freeing of the indirect block. */
  lemma TruncatedFully(s: Disk, owner: map<nat, Slot>, reserved: set<nat>, f: nat, now: nat, was: nat, s1: Disk)
    requires Owned(s, owner, reserved) && f in s.files && CutOff(s, owner, f, now, was, s1)
    requires Owned(s1, WithoutCut(owner, f, now, was), reserved) && now <= NDIRECT && s.files[f].indirect != 0
    ensures Truncated(s, owner, f, now, was, DropIndirect(s1, f))
    ensures Owned(DropIndirect(s1, f), WithoutGone(owner, f, now, was), reserved)
  {
    var own1, s2 := WithoutCut(owner, f, now, was), DropIndirect(s1, f);
    DropIndirectOwned(s1, own1, reserved, f);
    assert WithoutIndirect(own1, f) == WithoutGone(owner, f, now, was);
    forall y ensures GoneSlot(s, f, now, was, s2, y) {
      assert CutSlot(s, f, now, was, s1, y);
    }
    forall g, pos: nat ensures GoneByte(s, f, now, was, s2, g, pos) {
      assert CutByte(s, f, now, was, s1, g, pos);
      DropIndirectBytes(s1, own1, reserved, f, g, pos);
    }
    assert Target(s, Indirect(f)) == s.files[f].indirect && SlotOk(s, owner, Indirect(f));
    forall b | 0 <= b < |s.used| ensures FreedUsed(s, owner, f, now, was, s2, b) {
      assert CutUsed(s, owner, f, now, was, s1, b);
      if b in owner && owner[b] == Indirect(f) {
        assert BlockOk(s, owner, reserved, b);
      }
    }
  }

  ghost function FreeSet(s: Disk): set<nat> {
    set b | 0 <= b < |s.used| && !s.used[b]
  }

  ghost function Released(owner: map<nat, Slot>, f: nat, now: nat, was: nat): set<nat> {
    set b | b in owner && Gone(owner[b], f, now, was)
  }

  /** In a tight file system truncation frees exactly the blocks it takes away,
      and with the size set it leaves a tight file system. */
  lemma TruncationAccounts(s: Disk, owner: map<nat, Slot>, reserved: set<nat>, f: nat, newsize: nat, s': Disk)
    requires Owned(s, owner, reserved) && Tight(s, owner, reserved) && f in s.files && newsize < s.files[f].size
    requires Truncated(s, owner, f, Blocks(newsize), Blocks(s.files[f].size), s')
    ensures var now, was := Blocks(newsize), Blocks(s.files[f].size);
            && FreeSet(s') == FreeSet(s) + Released(owner, f, now, was)
            && |FreeSet(s')| == |FreeSet(s)| + |Released(owner, f, now, was)|
            && Tight(SetInode(s', f, s'.files[f].(size := newsize)), WithoutGone(owner, f, now, was), reserved)
  {
    var now, was := Blocks(newsize), Blocks(s.files[f].size);
    var rel := Released(owner, f, now, was);
    forall b | b in owner
      ensures 0 < b < |s.used| && s.used[b] && (Gone(owner[b], f, now, was) <==> Freed(owner[b], f, now, was))
    {
      assert BlockOk(s, owner, reserved, b);
    }
    forall b | 0 <= b < |s.used| ensures b in FreeSet(s') <==> b in FreeSet(s) || b in rel {
      assert FreedUsed(s, owner, f, now, was, s', b);
    }
    assert FreeSet(s') == FreeSet(s) + rel;
    assert FreeSet(s) !! rel;
    var s2 := SetInode(s', f, s'.files[f].(size := newsize));
    forall g, n: nat | g in s2.files && n >= Blocks(s2.files[g].size) ensures Target(s2, Data(g, n)) == 0 {
      assert Target(s2, Data(g, n)) == Target(s', Data(g, n));
      assert GoneSlot(s, f, now, was, s', Data(g, n));
    }
    forall g | g in s2.files && Blocks(s2.files[g].size) <= NDIRECT ensures s2.files[g].indirect == 0 {
      assert Target(s', Indirect(g)) == s'.files[g].indirect;
      assert GoneSlot(s, f, now, was, s', Indirect(g));
    }
    forall b | 0 <= b < |s2.used| && s2.used[b] ensures b in reserved || b in WithoutGone(owner, f, now, was) {
      assert FreedUsed(s, owner, f, now, was, s', b);
    }
  }

  /** The recorded size does not matter to the tree or the bytes. */
  lemma SizeOnly(s: Disk, owner: map<nat, Slot>, reserved: set<nat>, f: nat, newsize: nat)
    requires Owned(s, owner, reserved) && f in s.files
    ensures var s' := SetInode(s, f, s.files[f].(size := newsize));
            && Owned(s', owner, reserved)
            && (forall y {:trigger Target(s', y)} :: Target(s', y) == Target(s, y))
            && (forall g, pos: nat {:trigger ByteAt(s', g, pos)} :: ByteAt(s', g, pos) == ByteAt(s, g, pos))
            && (newsize >= s.files[f].size && Tight(s, owner, reserved) ==> Tight(s', owner, reserved))
  {
    var s' := SetInode(s, f, s.files[f].(size := newsize));
    forall y ensures Target(s', y) == Target(s, y) {
    }
    forall y ensures SlotOk(s', owner, y) {
      assert SlotOk(s, owner, y);
    }
    forall b | b in owner ensures BlockOk(s', owner, reserved, b) {
      assert BlockOk(s, owner, reserved, b);
    }
  }

  /** Truncation keeps other files and every byte before the new size. */
  lemma ResizeAfterCut(s: Disk, owner: map<nat, Slot>, f: nat, newsize: nat, s': Disk)
    requires f in s.files && Truncated(s, owner, f, Blocks(newsize), Blocks(s.files[f].size), s')
    ensures KeepsOthers(s, s', f)
    ensures forall g, pos: nat {:trigger ByteAt(s', g, pos)} ::
              g != f || pos < newsize ==> ByteAt(s', g, pos) == ByteAt(s, g, pos)
    ensures forall n: nat {:trigger Target(s', Data(f, n))} :: Target(s', Data(f, n)) ==
              if Gone(Data(f, n), f, Blocks(newsize), Blocks(s.files[f].size)) then 0 else Target(s, Data(f, n))
  {
    var now, was := Blocks(newsize), Blocks(s.files[f].size);
    forall g, pos: nat | g != f || pos < newsize ensures ByteAt(s', g, pos) == ByteAt(s, g, pos) {
      assert GoneByte(s, f, now, was, s', g, pos);
    }
    forall x: Slot ensures Target(s', x) == if Gone(x, f, now, was) then 0 else Target(s, x) {
      assert GoneSlot(s, f, now, was, s', x);
    }
  }

  lemma RemoveTight(s: Disk, owner: map<nat, Slot>, reserved: set<nat>, f: nat, s': Disk)
    requires Owned(s, owner, reserved) && Tight(s, owner, reserved) && f in s.files
    requires Truncated(s, owner, f, 0, Blocks(s.files[f].size), s')
    ensures Tight(SetInode(s', f, s'.files[f].(size := 0)), WithoutGone(owner, f, 0, Blocks(s.files[f].size)), reserved)
  {
    var was, s2 := Blocks(s.files[f].size), SetInode(s', f, s'.files[f].(size := 0));
    forall g, n: nat | g in s2.files && n >= Blocks(s2.files[g].size) ensures Target(s2, Data(g, n)) == 0 {
      assert Target(s2, Data(g, n)) == Target(s', Data(g, n));
      assert GoneSlot(s, f, 0, was, s', Data(g, n));
    }
    forall g | g in s2.files && Blocks(s2.files[g].size) <= NDIRECT ensures s2.files[g].indirect == 0 {
      assert Target(s', Indirect(g)) == s'.files[g].indirect;
      assert GoneSlot(s, f, 0, was, s', Indirect(g));
    }
    forall b | 0 <= b < |s2.used| && s2.used[b] ensures b in reserved || b in WithoutGone(owner, f, 0, was) {
      assert FreedUsed(s, owner, f, 0, was, s', b);
      assert b in owner ==> BlockOk(s, owner, reserved, b);
    }
  }

  /** Removing a file of a tight file system gives back everything it owned. */
  lemma RemoveAccounts(s: Disk, owner: map<nat, Slot>, reserved: set<nat>, f: nat, s': Disk)
    requires Owned(s, owner, reserved) && f in s.files
    requires Truncated(s, owner, f, 0, Blocks(s.files[f].size), s')
    ensures Tight(s, owner, reserved) ==>
              && (forall x: Slot {:trigger Target(s', x)} :: x.f == f ==> Target(s', x) == 0)
              && FreeSet(s') == FreeSet(s) + (set b | b in owner && owner[b].f == f)
              && Tight(SetInode(s', f, s'.files[f].(size := 0)),
                       WithoutGone(owner, f, 0, Blocks(s.files[f].size)), reserved)
  {
    var was := Blocks(s.files[f].size);
    if Tight(s, owner, reserved) {
      forall x: Slot | x.f == f ensures Target(s', x) == 0 {
        assert GoneSlot(s, f, 0, was, s', x);
        if x.Data? {
          assert x.n >= was ==> Target(s, Data(f, x.n)) == 0;
        }
      }
      forall b | 0 <= b < |s.used| ensures b in FreeSet(s') <==> b in FreeSet(s) || (b in owner && owner[b].f == f) {
        assert FreedUsed(s, owner, f, 0, was, s', b);
        if b in owner {
          assert BlockOk(s, owner, reserved, b);
        }
      }
      forall b | b in owner ensures b < |s.used| {
        assert BlockOk(s, owner, reserved, b);
      }
      RemoveTight(s, owner, reserved, f, s');
    }
  }

  lemma CutNothing(s: Disk, owner: map<nat, Slot>, reserved: set<nat>, f: nat, lo: nat, hi: nat, s1: Disk)
    requires Owned(s, owner, reserved) && f in s.files && lo <= hi
    requires CutOff(s, owner, f, lo, hi, s1) && Target(s1, Data(f, hi)) == 0
    ensures CutOff(s, owner, f, lo, hi + 1, s1) && WithoutCut(owner, f, lo, hi + 1) == WithoutCut(owner, f, lo, hi)
  {
    var h := hi + 1;
    var x := Data(f, hi);
    assert CutSlot(s, f, lo, hi, s1, x);
    forall c | c in owner ensures owner[c] != x {
      assert BlockOk(s, owner, reserved, c);
    }
    forall y ensures CutSlot(s, f, lo, h, s1, y) {
      assert CutSlot(s, f, lo, hi, s1, y);
    }
    forall c | 0 <= c < |s.used| ensures CutUsed(s, owner, f, lo, h, s1, c) {
      assert CutUsed(s, owner, f, lo, hi, s1, c);
    }
    forall g, pos: nat ensures CutByte(s, f, lo, h, s1, g, pos) {
      assert CutByte(s, f, lo, hi, s1, g, pos);
    }
  }
}

module FileSys {
  import opened Bytes
  import opened Common
  import opened FileTree

  // How many blocks an operation still has to allocate.

  ghost predicate NoIndirect(s: Disk, f: nat) {
    f !in s.files || s.files[f].indirect == 0
  }

  /** The blocks that making entry `n` present takes: its own and perhaps the indirect one. */
  ghost function Lack(s: Disk, f: nat, n: nat): nat
    requires Shape(s)
  {
    (if Target(s, Data(f, n)) == 0 then 1 else 0) + (if n >= NDIRECT && NoIndirect(s, f) then 1 else 0)
  }

  /** Entries without a block from `lo` up to `hi`. */
  ghost function Lacking(s: Disk, f: nat, lo: nat, hi: nat): nat
    requires Shape(s)
    decreases hi - lo
  {
    if lo >= hi then 0 else (if Target(s, Data(f, lo)) == 0 then 1 else 0) + Lacking(s, f, lo + 1, hi)
  }

  /** The blocks that making all of them present takes. */
  ghost function Needs(s: Disk, f: nat, lo: nat, hi: nat): nat
    requires Shape(s)
  {
    Lacking(s, f, lo, hi) + (if lo < hi && hi > NDIRECT && NoIndirect(s, f) then 1 else 0)
  }

  /** The entry after the last that a range of bytes touches. */
  function EndBlock(offset: nat, n: nat): nat {
    if n == 0 then offset / BLKSIZE else (offset + n - 1) / BLKSIZE + 1
  }

  /** A file can hold the range, and there are free blocks for what is missing in it. */
  ghost predicate Available(s: Disk, f: nat, offset: nat, n: nat)
    requires Shape(s)
  {
    var lo, hi := offset / BLKSIZE, EndBlock(offset, n);
    n == 0 || (hi <= MAXBLOCKS && Needs(s, f, lo, hi) <= |FreeSet(s)|)
  }

  ghost function Absent(s: Disk, f: nat, lo: nat, hi: nat): set<nat>
    requires Shape(s)
  {
    set k: nat | lo <= k < hi && Target(s, Data(f, k)) == 0
  }

  lemma {:induction false} LackingCounts(s: Disk, f: nat, lo: nat, hi: nat)
    requires Shape(s)
    ensures Lacking(s, f, lo, hi) == |Absent(s, f, lo, hi)|
    decreases hi - lo
  {
    if lo < hi {
      LackingCounts(s, f, lo + 1, hi);
      var rest := Absent(s, f, lo + 1, hi);
      if Target(s, Data(f, lo)) == 0 {
        assert Absent(s, f, lo, hi) == rest + {lo};
      } else {
        assert Absent(s, f, lo, hi) == rest;
      }
    } else {
      assert Absent(s, f, lo, hi) == {};
    }
  }

  /** The blocks of file `f` that hold bytes of the range and do not exist. */
  ghost function Holes(s: Disk, f: nat, offset: nat, n: nat): set<nat>
    requires Shape(s)
  {
    set k: nat | k < offset + n && k * BLKSIZE < offset + n && offset < (k + 1) * BLKSIZE && Target(s, Data(f, k)) == 0
  }

  lemma Touches(offset: nat, n: nat, k: nat)
    requires n > 0
    ensures k * BLKSIZE < offset + n && offset < (k + 1) * BLKSIZE <==> offset / BLKSIZE <= k < EndBlock(offset, n)
    ensures EndBlock(offset, n) <= 1034 <==> offset + n <= 1034 * 4096
    ensures EndBlock(offset, n) > 10 <==> offset + n > 10 * 4096
    ensures k * BLKSIZE < offset + n ==> k < offset + n
  {
  }

  /** What the condition on a range of bytes means: it ends within the 1034 blocks of
      a file, and the free blocks are as many as the blocks of the range that do not
      exist, and one more if the range goes past the tenth and there is no indirect block. */
  lemma AvailableExactly(s: Disk, f: nat, offset: nat, n: nat)
    requires Shape(s) && n > 0
    ensures Available(s, f, offset, n) <==>
            && offset + n <= 1034 * 4096
            && |Holes(s, f, offset, n)| + (if offset + n > 10 * 4096 && NoIndirect(s, f) then 1 else 0) <= |FreeSet(s)|
  {
    var lo, hi := offset / BLKSIZE, EndBlock(offset, n);
    LackingCounts(s, f, lo, hi);
    forall k: nat ensures k in Holes(s, f, offset, n) <==> k in Absent(s, f, lo, hi) {
      Touches(offset, n, k);
    }
    assert Holes(s, f, offset, n) == Absent(s, f, lo, hi);
  }

  lemma {:induction false} LackingFrame(s: Disk, s': Disk, f: nat, lo: nat, hi: nat)
    requires Shape(s) && Shape(s') && forall n: nat {:trigger Target(s', Data(f, n))} ::
               lo <= n < hi ==> (Target(s', Data(f, n)) == 0 <==> Target(s, Data(f, n)) == 0)
    ensures Lacking(s', f, lo, hi) == Lacking(s, f, lo, hi)
    decreases hi - lo
  {
    if lo < hi {
      assert Target(s', Data(f, lo)) == 0 <==> Target(s, Data(f, lo)) == 0;
      LackingFrame(s, s', f, lo + 1, hi);
    }
  }

  /** Once entry `lo` is present, the rest takes what is left of the whole. */
  lemma NeedsStep(s: Disk, s': Disk, f: nat, lo: nat, hi: nat)
    requires Shape(s) && Shape(s') && lo < hi && Target(s', Data(f, lo)) != 0
    requires NoIndirect(s', f) <==> NoIndirect(s, f) && lo < NDIRECT
    requires forall n: nat {:trigger Target(s', Data(f, n))} ::
               n != lo ==> Target(s', Data(f, n)) == Target(s, Data(f, n))
    ensures Needs(s', f, lo + 1, hi) + Lack(s, f, lo) == Needs(s, f, lo, hi)
  {
    LackingFrame(s, s', f, lo + 1, hi);
  }

  /** Free blocks that remain when all entries from `lo` up to `hi` are present. */
  ghost function Left(s: Disk, f: nat, lo: nat, hi: nat): int
    requires Shape(s)
  {
    |FreeSet(s)| - Needs(s, f, lo, hi)
  }

  /** Storing into a block leaves that as it is, and so does the size of a file. */
  lemma LeftFrame(s: Disk, s': Disk, f: nat, lo: nat, hi: nat)
    requires Shape(s) && Shape(s') && s'.used == s.used && (NoIndirect(s', f) <==> NoIndirect(s, f))
    requires forall y {:trigger Target(s', y)} :: Target(s', y) == Target(s, y)
    ensures Left(s', f, lo, hi) == Left(s, f, lo, hi)
  {
    LackingFrame(s, s', f, lo, hi);
    assert FreeSet(s') == FreeSet(s);
  }

  function Min(a: nat, b: nat): nat {
    if a <= b then a else b
  }

  /** Where a turn of the loops leaves off: in the next block, or at the end. */
  lemma ChunkEnds(pos: nat, end: nat)
    requires pos < end
    ensures var n := Min(BLKSIZE - pos % BLKSIZE, end - pos);
            && 0 < n && (pos + n < end ==> (pos + n) / BLKSIZE == pos / BLKSIZE + 1)
            && (pos + n == end ==> (end - 1) / BLKSIZE == pos / BLKSIZE)
  {
    var b, o := pos / BLKSIZE, pos % BLKSIZE;
    assert pos == b * BLKSIZE + o;
    if BLKSIZE - o < end - pos {
      assert pos + (BLKSIZE - o) == (b + 1) * BLKSIZE;
    } else {
      assert end - 1 == b * BLKSIZE + (o + (end - pos) - 1);
    }
  }

  /** Making entry `n` of a range that ends at `hi` present: when it works, the range
      costs no more than before; when it does not, it never could. */
  ghost predicate Spends(s: Disk, s': Disk, f: nat, n: nat, hi: nat, ok: bool) {
    && Shape(s) && Shape(s')
    && (ok ==> n < MAXBLOCKS && Left(s', f, n + 1, hi) == Left(s, f, n, hi))
    && (!ok ==> n >= MAXBLOCKS || Left(s, f, n, hi) < 0)
  }

  /** A loop over the range from `offset` to `end` has come to `pos`, from state `s0`
      to `s`, with as many free blocks to spare as at its start. */
  ghost predicate OnTrack(s0: Disk, s: Disk, f: nat, offset: nat, pos: nat, end: nat) {
    && Shape(s0) && Shape(s) && offset <= pos <= end && (pos < end ==> pos == offset || pos % BLKSIZE == 0)
    && var lo, hi := EndBlock(offset, pos - offset), EndBlock(offset, end - offset);
    && Left(s, f, lo, hi) == Left(s0, f, offset / BLKSIZE, hi) && (pos > offset ==> lo <= MAXBLOCKS)
  }

  lemma TrackStart(s: Disk, f: nat, offset: nat, end: nat)
    requires Shape(s) && offset <= end
    ensures OnTrack(s, s, f, offset, offset, end)
  {
  }

  /** A loop that has done nothing yet. */
  lemma LoopStart(s: Disk, owner: map<nat, Slot>, reserved: set<nat>, f: nat, offset: nat, end: nat)
    requires Owned(s, owner, reserved) && offset <= end
    ensures Shape(s) && OnTrack(s, s, f, offset, offset, end)
    ensures KeepsBytes(s, s) && KeepsOthers(s, s, f) && Holds(s, f, offset, [])
  {
    TrackStart(s, f, offset, end);
  }

  lemma TrackInside(offset: nat, pos: nat, end: nat)
    requires offset <= pos < end
    ensures pos / BLKSIZE < EndBlock(offset, end - offset)
  {
    assert pos / BLKSIZE <= (end - 1) / BLKSIZE;
  }

  lemma BlockOf(offset: nat, pos: nat)
    requires pos == offset || (pos > offset && pos % BLKSIZE == 0)
    ensures EndBlock(offset, pos - offset) == pos / BLKSIZE
  {
    if pos > offset {
      var b := pos / BLKSIZE;
      assert pos - 1 == (b - 1) * BLKSIZE + (BLKSIZE - 1);
    }
  }

  lemma TrackStep(s0: Disk, s: Disk, s': Disk, f: nat, offset: nat, pos: nat, end: nat, ok: bool)
    requires OnTrack(s0, s, f, offset, pos, end) && pos < end
    requires Spends(s, s', f, pos / BLKSIZE, EndBlock(offset, end - offset), ok)
    ensures ok ==> OnTrack(s0, s', f, offset, pos + Min(BLKSIZE - pos % BLKSIZE, end - pos), end)
    ensures !ok ==> !Available(s0, f, offset, end - offset)
  {
    var n := Min(BLKSIZE - pos % BLKSIZE, end - pos);
    BlockOf(offset, pos);
    ChunkEnds(pos, end);
    TrackInside(offset, pos, end);
    if pos + n < end {
      assert (pos + n) % BLKSIZE == 0;
      BlockOf(offset, pos + n);
    }
  }

  lemma TrackEnd(s0: Disk, s: Disk, f: nat, offset: nat, end: nat)
    requires OnTrack(s0, s, f, offset, end, end)
    ensures Available(s0, f, offset, end - offset)
  {
  }

  lemma LackWithin(s: Disk, f: nat, lo: nat, hi: nat)
    requires Shape(s) && lo < hi
    ensures Lack(s, f, lo) <= Needs(s, f, lo, hi)
  {
  }

  lemma {:induction false} NoneLacking(s: Disk, f: nat, lo: nat, hi: nat)
    requires Shape(s) && forall k: nat {:trigger Target(s, Data(f, k))} :: lo <= k < hi ==> Target(s, Data(f, k)) != 0
    ensures Lacking(s, f, lo, hi) == 0
    decreases hi - lo
  {
    if lo < hi {
      NoneLacking(s, f, lo + 1, hi);
    }
  }

  /** Stored bytes are always available. */
  lemma StoredAvailable(s: Disk, f: nat, offset: nat, n: nat)
    requires Shape(s) && forall q: nat {:trigger ByteAt(s, f, q)} :: offset <= q < offset + n ==> ByteAt(s, f, q).Some?
    ensures Available(s, f, offset, n)
  {
    if n > 0 {
      var lo, hi := offset / BLKSIZE, EndBlock(offset, n);
      assert ByteAt(s, f, offset + n - 1).Some?;
      forall k: nat | lo <= k < hi ensures Target(s, Data(f, k)) != 0 {
        var q := if k == lo then offset else k * BLKSIZE;
        assert q / BLKSIZE == k && offset <= q < offset + n;
        assert ByteAt(s, f, q).Some?;
      }
      NoneLacking(s, f, lo, hi);
    }
  }

  type Log = map<(nat, nat), Byte>

  /** Every byte in the log is what its file holds at that position. */
  ghost predicate Agrees(s: Disk, log: Log)
    requires Shape(s)
  {
    forall f, pos :: (f, pos) in log ==> ByteAt(s, f, pos) == Some(log[(f, pos)])
  }

  lemma LogAvailable(s: Disk, log: Log, f: nat, offset: nat, n: nat)
    requires Shape(s) && Agrees(s, log)
    ensures (forall q: nat :: offset <= q < offset + n ==> (f, q) in log) ==> Available(s, f, offset, n)
  {
    if forall q: nat :: offset <= q < offset + n ==> (f, q) in log {
      StoredAvailable(s, f, offset, n);
    }
  }

  /** Taking a free block. */
  lemma TakeFree(used: seq<bool>, b: nat, s: Disk, s': Disk)
    requires b < |used| && !used[b] && s.used == used && s'.used == used[b := true]
    ensures FreeSet(s') == FreeSet(s) - {b} && |FreeSet(s')| == |FreeSet(s)| - 1
  {
    assert FreeSet(s') == FreeSet(s) - {b};
  }

  function Max(a: nat, b: nat): nat {
    if a >= b then a else b
  }

  /** How much of `count` bytes from `offset` a file of this size has. */
  function ReadSize(size: nat, count: nat, offset: nat): nat {
    if offset >= size then 0 else Min(count, size - offset)
  }

  /** The bytes from `pos` to at most the end of its block lie side by side in that block. */
  lemma BlockBytes(s: Disk, f: nat, pos: nat, n: nat)
    requires Shape(s) && pos % BLKSIZE + n <= BLKSIZE
    requires 0 < Target(s, Data(f, pos / BLKSIZE)) < |s.blocks|
    ensures forall q: nat {:trigger ByteAt(s, f, q)} :: pos <= q < pos + n ==>
              && q / BLKSIZE == pos / BLKSIZE
              && q % BLKSIZE == pos % BLKSIZE + (q - pos)
              && ByteAt(s, f, q) == Some(s.blocks[Target(s, Data(f, pos / BLKSIZE))][pos % BLKSIZE + (q - pos)])
  {
  }

  ghost predicate WroteAt(s: Disk, s': Disk, f: nat, offset: nat, done: nat, buf: seq<Byte>, q: nat)
    requires Shape(s) && Shape(s') && done <= |buf|
  {
    if offset <= q < offset + done then ByteAt(s', f, q) == Some(buf[q - offset])
    else !(offset <= q < offset + |buf|) && ByteAt(s, f, q).Some? ==> ByteAt(s', f, q) == ByteAt(s, f, q)
  }

  /** The first `done` bytes of `buf` are stored at `offset`, and nothing outside the range of `buf` was lost. */
  ghost predicate Wrote(s: Disk, s': Disk, f: nat, offset: nat, done: nat, buf: seq<Byte>)
  {
    Shape(s) && Shape(s') && done <= |buf| &&
    forall q: nat {:trigger WroteAt(s, s', f, offset, done, buf, q)} :: WroteAt(s, s', f, offset, done, buf, q)
  }

  lemma WroteNothing(s: Disk, f: nat, offset: nat, buf: seq<Byte>)
    requires Shape(s)
    ensures Wrote(s, s, f, offset, 0, buf)
  {
  }

  lemma WroteHolds(s: Disk, s': Disk, f: nat, offset: nat, buf: seq<Byte>)
    requires Wrote(s, s', f, offset, |buf|, buf)
    ensures Holds(s', f, offset, buf)
  {
    forall q: nat | offset <= q < offset + |buf| ensures ByteAt(s', f, q) == Some(buf[q - offset]) {
      assert WroteAt(s, s', f, offset, |buf|, buf, q);
    }
  }

  lemma WroteMore(s: Disk, s1: Disk, s2: Disk, f: nat, offset: nat, was: nat, done: nat, buf: seq<Byte>)
    requires Wrote(s, s1, f, offset, was, buf) && was + done <= |buf|
    requires Wrote(s1, s2, f, offset + was, done, buf[was..][..done])
    ensures Wrote(s, s2, f, offset, was + done, buf)
  {
    var all, from, part := was + done, offset + was, buf[was..][..done];
    forall q: nat ensures WroteAt(s, s2, f, offset, all, buf, q) {
      assert WroteAt(s, s1, f, offset, was, buf, q) && WroteAt(s1, s2, f, from, done, part, q);
    }
  }

  lemma WroteNoMore(s: Disk, s1: Disk, s2: Disk, f: nat, offset: nat, was: nat, buf: seq<Byte>)
    requires Wrote(s, s1, f, offset, was, buf) && KeepsBytes(s1, s2)
    ensures Wrote(s, s2, f, offset, was, buf)
  {
    forall q: nat ensures WroteAt(s, s2, f, offset, was, buf, q) {
      assert WroteAt(s, s1, f, offset, was, buf, q);
    }
  }

  lemma WroteAfterGrowth(s: Disk, s1: Disk, s2: Disk, f: nat, offset: nat, done: nat, buf: seq<Byte>)
    requires Shape(s) && Shape(s1) && Wrote(s1, s2, f, offset, done, buf)
    requires forall q: nat {:trigger ByteAt(s1, f, q)} :: ByteAt(s1, f, q) == ByteAt(s, f, q)
    ensures Wrote(s, s2, f, offset, done, buf)
  {
    forall q: nat ensures WroteAt(s, s2, f, offset, done, buf, q) {
      assert WroteAt(s1, s2, f, offset, done, buf, q);
      assert ByteAt(s1, f, q) == ByteAt(s, f, q);
    }
  }

  /** Bytes of the log that a file of size `newsize` still has. */
  ghost function LogBelow(log: Log, f: nat, newsize: nat): Log {
    map k | k in log && (k.0 != f || k.1 < newsize) :: log[k]
  }

  /** The log with `buf` stored at `offset` of file `f`. */
  ghost function LogWith(log: Log, f: nat, offset: nat, buf: seq<Byte>): Log {
    map k: (nat, nat) | k in log.Keys + (set q: nat | offset <= q < offset + |buf| :: (f, q)) ::
      if k.0 == f && offset <= k.1 < offset + |buf| then buf[k.1 - offset] else log[k]
  }

  ghost function LogWithout(log: Log, f: nat, offset: nat, n: nat): Log {
    map k | k in log && !(k.0 == f && offset <= k.1 < offset + n) :: log[k]
  }

  lemma LogAfterWrite(s: Disk, s': Disk, f: nat, offset: nat, done: nat, buf: seq<Byte>, log: Log)
    requires Wrote(s, s', f, offset, done, buf) && KeepsOthers(s, s', f) && Agrees(s, log)
    ensures Agrees(s', LogWithout(log, f, offset, |buf|))
    ensures done == |buf| ==> Agrees(s', LogWith(log, f, offset, buf))
  {
    var out, with := LogWithout(log, f, offset, |buf|), LogWith(log, f, offset, buf);
    forall g, pos | (g, pos) in out ensures ByteAt(s', g, pos) == Some(out[(g, pos)]) {
      assert WroteAt(s, s', f, offset, done, buf, pos);
      assert ByteAt(s, g, pos) == Some(log[(g, pos)]);
    }
    if done == |buf| {
      forall g, pos | (g, pos) in with ensures ByteAt(s', g, pos) == Some(with[(g, pos)]) {
        assert WroteAt(s, s', f, offset, done, buf, pos);
        if !(g == f && offset <= pos < offset + |buf|) {
          assert (g, pos) in out;
        }
      }
    }
  }

  class FileSystem {
    const nblocks: nat
    var used: seq<bool>           // the bitmap, bit clear = in use
    var blocks: seq<seq<Byte>>    // the disk map region
    var files: map<nat, Inode>
    ghost var owner: map<nat, Slot>
    ghost var log: map<(nat, nat), Byte>    // bytes written and not truncated since
    ghost const reserved: set<nat>

    ghost function Now(): Disk
      reads this
    {
      Disk(used, blocks, files)
    }

    ghost predicate Valid()
      reads this
    {
      |used| == nblocks && Owned(Now(), owner, reserved)
    }

    ghost predicate Remembers()
      requires Valid()
      reads this
    {
      Agrees(Now(), log)
    }

    ghost predicate IsTight()
      requires Valid()
      reads this
    {
      Tight(Now(), owner, reserved)
    }

    /** A file system in which the blocks `reserved`, block 0 among them, are in
        use and every file is empty. */
    constructor (data: seq<seq<Byte>>, bitmap: seq<bool>, ghost reserved: set<nat>, names: set<nat>)
      requires |data| == |bitmap| < 0x1_0000_0000 && forall b :: 0 <= b < |data| ==> |data[b]| == BLKSIZE
      requires 0 in reserved && forall b :: 0 <= b < |bitmap| ==> (bitmap[b] <==> b in reserved)
      requires |data| > 0
      ensures Valid() && IsTight() && Remembers() && files.Keys == names && nblocks == |data| && blocks == data
    {
      nblocks, used, blocks, this.reserved := |data|, bitmap, data, reserved;
      files := map f | f in names :: Inode(0, seq(NDIRECT, _ => 0), 0);
      owner, log := map[], map[];
      new;
      forall x ensures Target(Now(), x) == 0 {
      }
    }

    /** The lowest free block, or -E_NO_DISK exactly when there is none. */
    method AllocBlock() returns (r: int)
      requires Valid()
      modifies this`used
      ensures r == -E_NO_DISK || r > 0
      ensures r < 0 ==> used == old(used) && forall b :: !Free(Now(), b)
      ensures r > 0 ==>
                && Free(old(Now()), r) && (forall b :: 0 < b < r ==> old(used)[b])
                && used == old(used)[r := true]
      ensures |FreeSet(Now())| == |FreeSet(old(Now()))| - (if r > 0 then 1 else 0) && (r < 0 ==> FreeSet(Now()) == {})
    {
      var b := 1;
      while b < nblocks
        invariant 1 <= b && (nblocks >= 1 ==> b <= nblocks)
        invariant forall c :: 0 < c < b && c < nblocks ==> used[c]
      {
        if !used[b] {
          ghost var s := Now();
          used := used[b := !used[b]];
          TakeFree(s.used, b, s, Now());
          return b;
        }
        b := b + 1;
      }
      assert FreeSet(Now()) == {};
      r := -E_NO_DISK;
    }

    /** Makes entry `n` of file `f` reachable, allocating the indirect block if asked. */
    method FileBlockWalk(f: nat, n: nat, alloc: bool) returns (r: int)
      requires Valid() && f in files
      modifies this`used, this`blocks, this`files, this`owner
      ensures Valid()
      ensures r == 0 <==> Reachable(Now(), Data(f, n))
      ensures r == -E_INVAL <==> n >= MAXBLOCKS
      ensures r == -E_NOT_FOUND <==> NDIRECT <= n < MAXBLOCKS && !alloc && old(files)[f].indirect == 0
      ensures r in {0, -E_INVAL, -E_NOT_FOUND, -E_NO_DISK}
      ensures r == -E_NO_DISK ==> NDIRECT <= n && old(files)[f].indirect == 0 && FreeSet(Now()) == {}
      ensures r == 0 ==>
                |FreeSet(Now())| == |FreeSet(old(Now()))| - if n >= NDIRECT && old(files)[f].indirect == 0 then 1 else 0
      ensures r != 0 || n < NDIRECT || !alloc || old(files)[f].indirect != 0 ==>
                Now() == old(Now()) && owner == old(owner)
      ensures KeepsBytes(old(Now()), Now()) && KeepsOthers(old(Now()), Now(), f)
      ensures files[f] == old(files)[f].(indirect := files[f].indirect)
      ensures forall y :: y != Indirect(f) ==> Target(Now(), y) == Target(old(Now()), y)
      ensures old(IsTight()) && n < Blocks(old(files)[f].size) ==> IsTight()
    {
      if n >= MAXBLOCKS {
        return -E_INVAL;
      }
      if n < NDIRECT {
        return 0;
      }
      if files[f].indirect == 0 && !alloc {
        return -E_NOT_FOUND;
      }
      if files[f].indirect == 0 {
        ghost var s := Now();
        var b := AllocBlock();
        if b < 0 {
          return b;
        }
        GiveIndirectOwned(s, owner, reserved, f, b);
        GiveIndirectBytes(s, owner, reserved, f, b);
        files := files[f := files[f].(indirect := b)];
        blocks := blocks[b := Zeros(BLKSIZE)];
        owner := owner[b := Indirect(f)];
        assert Now() == GiveIndirect(s, f, b);
      }
      r := 0;
    }

    /** The store through the pointer that the walk returns. */
    method SetPointer(f: nat, n: nat, b: nat)
      requires Shape(Now()) && Reachable(Now(), Data(f, n)) && b < |used|
      modifies this`blocks, this`files
      ensures Now() == SetSlot(old(Now()), Data(f, n), b)
    {
      var ino := files[f];
      if n < NDIRECT {
        files := files[f := ino.(direct := ino.direct[n := b])];
      } else {
        blocks := blocks[ino.indirect := PutWord(blocks[ino.indirect], n - NDIRECT, b)];
      }
    }

    /** The allocating step of file_get_block, for an entry that is empty. */
    method AllocData(f: nat, n: nat) returns (r: int)
      requires Valid() && Reachable(Now(), Data(f, n)) && Target(Now(), Data(f, n)) == 0
      modifies this`used, this`blocks, this`files, this`owner
      ensures Valid()
      ensures r == -E_NO_DISK || r > 0
      ensures r < 0 ==> Now() == old(Now()) && owner == old(owner) && FreeSet(Now()) == {}
      ensures r > 0 ==>
                && |FreeSet(Now())| == |FreeSet(old(Now()))| - 1
                && f in files && files[f].indirect == old(files)[f].indirect
      ensures r > 0 ==> Free(old(Now()), r) && owner == old(owner)[r := Data(f, n)]
      ensures KeepsBytes(old(Now()), Now()) && KeepsOthers(old(Now()), Now(), f) && files[f].size == old(files)[f].size
      ensures r > 0 ==> forall y {:trigger Target(Now(), y)} ::
                Target(Now(), y) == if y == Data(f, n) then r else Target(old(Now()), y)
      ensures old(IsTight()) && n < Blocks(old(files)[f].size) ==> IsTight()
    {
      ghost var s, own, x := Now(), owner, Data(f, n);
      r := AllocBlock();
      if r > 0 {
        GiveDataOwned(s, own, reserved, x, r);
        GiveDataBytes(s, own, reserved, x, r);
        if Tight(s, own, reserved) && n < Blocks(s.files[f].size) {
          GiveDataTight(s, own, reserved, x, r);
        }
        ghost var s1 := Now();
        SetPointer(f, n, r);
        owner := owner[r := x];
        assert FreeSet(Now()) == FreeSet(s1);
      }
    }

    /** Block `n` of file `f`, allocated if there was none. It is returned exactly if
        the file can have it and there are free blocks for what is missing. Its old
        contents stay. */
    method FileGetBlock(f: nat, n: nat) returns (r: int, b: nat)
      requires Valid() && f in files
      modifies this`used, this`blocks, this`files, this`owner
      ensures Valid()
      ensures r == 0 ==> 0 < b < |blocks| && b == Target(Now(), Data(f, n)) && b in owner && owner[b] == Data(f, n)
      // The first ten block numbers are in the file, the others are words of its indirect block.
      ensures r == 0 ==>
                && (n < 10 ==> b == files[f].direct[n])
                && (n >= 10 ==> 0 < files[f].indirect < |blocks| && b == Word(blocks[files[f].indirect], n - 10))
      ensures r in {0, -E_INVAL, -E_NO_DISK} && (r == -E_INVAL <==> n >= MAXBLOCKS)
      ensures r == 0 <==> n < MAXBLOCKS && Lack(old(Now()), f, n) <= |FreeSet(old(Now()))|
      ensures r == 0 ==>
                && |FreeSet(Now())| == |FreeSet(old(Now()))| - Lack(old(Now()), f, n)
                && (NoIndirect(Now(), f) <==> NoIndirect(old(Now()), f) && n < NDIRECT)
      ensures r == -E_NO_DISK ==> FreeSet(Now()) == {}
      ensures KeepsBytes(old(Now()), Now()) && KeepsOthers(old(Now()), Now(), f) && files[f].size == old(files)[f].size
      ensures forall m :: m != n ==> Target(Now(), Data(f, m)) == Target(old(Now()), Data(f, m))
      ensures old(IsTight()) && n < Blocks(old(files)[f].size) ==> IsTight()
    {
      hide KeepsBytes, KeepsOthers, Tight;
      b := 0;
      ghost var s := Now();
      r := FileBlockWalk(f, n, true);
      if r < 0 {
        return;
      }
      ghost var s1 := Now();
      b := if n < NDIRECT then files[f].direct[n] else Word(blocks[files[f].indirect], n - NDIRECT);
      if b == 0 {
        var nb := AllocData(f, n);
        KeepsTrans(s, s1, Now(), f);
        if nb < 0 {
          return -E_NO_DISK, 0;
        }
        b := nb;
      }
      assert SlotOk(Now(), owner, Data(f, n)) && BlockOk(Now(), owner, reserved, b);
    }

    /** The copy into one block of a file. */
    method Fill(ghost f: nat, ghost n: nat, b: nat, o: nat, chunk: seq<Byte>)
      requires Valid() && b in owner && owner[b] == Data(f, n) && b < |blocks| && o + |chunk| <= BLKSIZE
      modifies this`blocks
      ensures Valid() && (old(IsTight()) ==> IsTight())
      ensures forall y :: Target(Now(), y) == Target(old(Now()), y)
      ensures forall g, pos: nat {:trigger ByteAt(Now(), g, pos)} :: ByteAt(Now(), g, pos) ==
                if g == f && pos / BLKSIZE == n && o <= pos % BLKSIZE < o + |chunk| then Some(chunk[pos % BLKSIZE - o])
                else ByteAt(old(Now()), g, pos)
    {
      var c := blocks[b];
      assert SlotOk(Now(), owner, Data(f, n)) && BlockOk(Now(), owner, reserved, b);
      var c' := c[..o] + chunk + c[o + |chunk|..];
      WriteOwned(Now(), owner, reserved, b, c');
      blocks := blocks[b := c'];
    }

    /** file_get_block as the loops call it, with what it spends of the free blocks. */
    method TouchBlock(f: nat, n: nat, ghost hi: nat) returns (r: int, b: nat)
      requires Valid() && f in files && n < hi
      modifies this`used, this`blocks, this`files, this`owner
      ensures Valid()
      ensures r == 0 ==> 0 < b < |blocks| && b == Target(Now(), Data(f, n)) && b in owner && owner[b] == Data(f, n)
      ensures r in {0, -E_INVAL, -E_NO_DISK}
      ensures Spends(old(Now()), Now(), f, n, hi, r == 0)
      ensures KeepsBytes(old(Now()), Now()) && KeepsOthers(old(Now()), Now(), f) && files[f].size == old(files)[f].size
      ensures old(IsTight()) && n < Blocks(old(files)[f].size) ==> IsTight()
    {
      r, b := FileGetBlock(f, n);
      LackWithin(old(Now()), f, n, hi);
      if r == 0 {
        NeedsStep(old(Now()), Now(), f, n, hi);
      }
    }

    /** One turn of the reading loop: the bytes from `pos` to `end` or the end of the block. */
    method ReadChunk(f: nat, pos: nat, end: nat, ghost hi: nat) returns (r: int, chunk: seq<Byte>)
      requires Valid() && f in files && pos < end <= files[f].size && pos / BLKSIZE < hi
      modifies this`used, this`blocks, this`files, this`owner
      ensures Valid() && (old(IsTight()) ==> IsTight())
      ensures r in {0, -E_INVAL, -E_NO_DISK}
      ensures KeepsBytes(old(Now()), Now()) && KeepsOthers(old(Now()), Now(), f) && files[f].size == old(files)[f].size
      ensures r == 0 ==> 0 < |chunk| == Min(BLKSIZE - pos % BLKSIZE, end - pos)
      ensures Spends(old(Now()), Now(), f, pos / BLKSIZE, hi, r == 0)
      ensures r == 0 ==> Holds(Now(), f, pos, chunk)
    {
      var b;
      chunk := [];
      r, b := TouchBlock(f, pos / BLKSIZE, hi);
      if r < 0 {
        return;
      }
      var o := pos % BLKSIZE;
      var bn := Min(BLKSIZE - o, end - pos);
      BlockBytes(Now(), f, pos, bn);
      chunk := blocks[b][o..o + bn];
    }

    method ReadMore(ghost s: Disk, f: nat, ghost offset: nat, pos: nat, end: nat) returns (r: int, chunk: seq<Byte>)
      requires Valid() && f in files && offset <= pos < end <= files[f].size && OnTrack(s, Now(), f, offset, pos, end)
      requires KeepsBytes(s, Now()) && KeepsOthers(s, Now(), f)
      modifies this`used, this`blocks, this`files, this`owner
      ensures Valid() && f in files && (old(IsTight()) ==> IsTight()) && r in {0, -E_INVAL, -E_NO_DISK}
      ensures KeepsBytes(s, Now()) && KeepsOthers(s, Now(), f)
      ensures files[f].size == old(files)[f].size && KeepsBytes(old(Now()), Now())
      ensures r == 0 ==> 0 < |chunk| <= end - pos && OnTrack(s, Now(), f, offset, pos + |chunk|, end)
      ensures r != 0 ==> !Available(s, f, offset, end - offset)
      ensures r == 0 ==> Holds(Now(), f, pos, chunk)
    {
      hide OnTrack, Spends, Available, Tight;
      ghost var s1 := Now();
      TrackInside(offset, pos, end);
      r, chunk := ReadChunk(f, pos, end, EndBlock(offset, end - offset));
      KeepsTrans(s, s1, Now(), f);
      TrackStep(s, s1, Now(), f, offset, pos, end, r == 0);
    }

    /** The reading loop. */
    method ReadLoop(f: nat, offset: nat, end: nat) returns (r: int, buf: seq<Byte>)
      requires Valid() && f in files && offset <= end <= files[f].size
      modifies this`used, this`blocks, this`files, this`owner
      ensures Valid() && f in files && (old(IsTight()) ==> IsTight())
      ensures r in {end - offset, -E_INVAL, -E_NO_DISK} && (r >= 0 <==> Available(old(Now()), f, offset, end - offset))
      ensures r >= 0 ==> |buf| == end - offset && Holds(Now(), f, offset, buf)
      ensures KeepsBytes(old(Now()), Now()) && KeepsOthers(old(Now()), Now(), f) && files[f].size == old(files)[f].size
    {
      hide OnTrack, Available, Tight, Owned, KeepsBytes, KeepsOthers, Holds;
      buf := [];
      var pos := offset;
      ghost var s := Now();
      LoopStart(s, owner, reserved, f, offset, end);
      while pos < end
        invariant Valid() && f in files && (old(IsTight()) ==> IsTight())
        invariant offset <= pos <= end <= files[f].size && |buf| == pos - offset
        invariant OnTrack(s, Now(), f, offset, pos, end)
        invariant KeepsBytes(s, Now()) && KeepsOthers(s, Now(), f) && files[f].size == s.files[f].size
        invariant Holds(Now(), f, offset, buf)
      {
        var chunk;
        ghost var s1 := Now();
        r, chunk := ReadMore(s, f, offset, pos, end);
        if r < 0 {
          return;
        }
        HoldsMore(s1, Now(), f, offset, buf, chunk);
        buf := buf + chunk;
        pos := pos + |chunk|;
      }
      TrackEnd(s, Now(), f, offset, end);
      r := end - offset;
    }

    method FileRead(f: nat, count: nat, offset: nat) returns (r: int, buf: seq<Byte>)
      requires Valid() && Remembers() && f in files
      modifies this`used, this`blocks, this`files, this`owner
      ensures Valid() && Remembers() && (old(IsTight()) ==> IsTight())
      ensures r < 0 ==> r in {-E_INVAL, -E_NO_DISK}
      // It succeeds exactly if the range can be had, as it always can where every byte was written.
      ensures r >= 0 <==> Available(old(Now()), f, offset, ReadSize(old(files)[f].size, count, offset))
      ensures (forall q: nat ::
                 offset <= q < offset + ReadSize(old(files)[f].size, count, offset) ==> (f, q) in log) ==> r >= 0
      ensures r >= 0 ==>
                && r == |buf| == ReadSize(old(files)[f].size, count, offset)
                && Holds(Now(), f, offset, buf)
      // As much as was asked for, or all there is up to the end of the file.
      ensures r >= 0 ==>
                && r <= count && (offset >= old(files)[f].size ==> r == 0)
                && (offset < old(files)[f].size ==>
                      offset + r <= old(files)[f].size && (r == count || offset + r == old(files)[f].size))
      // What was stored is what is read, and reading stores nothing over it.
      ensures KeepsBytes(old(Now()), Now()) && KeepsOthers(old(Now()), Now(), f) && files[f].size == old(files)[f].size
      ensures forall q: nat :: offset <= q < offset + r && (f, q) in log ==> buf[q - offset] == log[(f, q)]
    {
      if offset >= files[f].size {
        return 0, [];
      }
      LogAvailable(Now(), log, f, offset, Min(count, files[f].size - offset));
      hide Available;
      r, buf := ReadLoop(f, offset, offset + Min(count, files[f].size - offset));
    }

    /** Frees the block of entry `n`, if there is one. */
    method FileFreeBlock(f: nat, n: nat) returns (r: int)
      requires Valid() && f in files
      modifies this`used, this`blocks, this`files, this`owner
      ensures Valid()
      ensures r == 0 <==> Reachable(old(Now()), Data(f, n))
      ensures var t := Target(old(Now()), Data(f, n));
              if t == 0 then Now() == old(Now()) && owner == old(owner)
              else
                && Reachable(old(Now()), Data(f, n)) && t < |used|
                && Now() == DropData(old(Now()), Data(f, n)) && owner == old(owner) - {t}
    {
      r := FileBlockWalk(f, n, false);
      if r < 0 {
        return;
      }
      ghost var s := Now();
      var t := if n < NDIRECT then files[f].direct[n] else Word(blocks[files[f].indirect], n - NDIRECT);
      if t != 0 {
        DropDataOwned(s, owner, reserved, Data(f, n));
        used := used[t := false];
        SetPointer(f, n, 0);
        owner := owner - {t};
      }
    }

    /** One turn of the loop of file_truncate_blocks. */
    method FreeOne(f: nat, ghost lo: nat, bno: nat, ghost s: Disk, ghost own: map<nat, Slot>)
      requires Valid() && f in files && Owned(s, own, reserved) && f in s.files && lo <= bno
      requires CutOff(s, own, f, lo, bno, Now()) && owner == WithoutCut(own, f, lo, bno)
      modifies this`used, this`blocks, this`files, this`owner
      ensures Valid() && f in files
      ensures CutOff(s, own, f, lo, bno + 1, Now()) && owner == WithoutCut(own, f, lo, bno + 1)
    {
      ghost var s1, t := Now(), Target(Now(), Data(f, bno));
      if t == 0 {
        CutNothing(s, own, reserved, f, lo, bno, s1);
      } else {
        assert Reachable(s1, Data(f, bno));
        CutMore(s, own, reserved, f, lo, bno, s1);
      }
      var r := FileFreeBlock(f, bno);
      assert Now() == if t == 0 then s1 else DropData(s1, Data(f, bno));
    }

    /** The loop of file_truncate_blocks. */
    method FreeEntries(f: nat, lo: nat, hi: nat)
      requires Valid() && f in files
      modifies this`used, this`blocks, this`files, this`owner
      ensures Valid() && f in files
      ensures CutOff(old(Now()), old(owner), f, lo, hi, Now()) && owner == WithoutCut(old(owner), f, lo, hi)
    {
      var bno := lo;
      ghost var s, own := Now(), owner;
      CutEmpty(s, own, f, lo, lo);
      if hi <= lo {
        CutEmpty(s, own, f, lo, hi);
        return;
      }
      while bno < hi
        invariant Valid() && f in files && lo <= bno <= hi
        invariant CutOff(s, own, f, lo, bno, Now()) && owner == WithoutCut(own, f, lo, bno)
      {
        FreeOne(f, lo, bno, s, own);
        bno := bno + 1;
      }
    }

    method FreeIndirect(f: nat)
      requires Shape(Now()) && f in files
      modifies this`used, this`files
      ensures Now() == DropIndirect(old(Now()), f)
    {
      used := used[files[f].indirect := false];
      files := files[f := files[f].(indirect := 0)];
    }

    method TruncateTo(f: nat, now: nat, was: nat)
      requires Valid() && f in files
      modifies this`used, this`blocks, this`files, this`owner
      ensures Valid() && f in files
      ensures Truncated(old(Now()), old(owner), f, now, was, Now()) && owner == WithoutGone(old(owner), f, now, was)
    {
      ghost var s, own := Now(), owner;
      FreeEntries(f, now, was);
      if now <= NDIRECT && files[f].indirect != 0 {
        TruncatedFully(s, own, reserved, f, now, was, Now());
        FreeIndirect(f);
      } else {
        TruncatedPlain(s, own, reserved, f, now, was, Now());
      }
      owner := WithoutGone(own, f, now, was);
    }

    method FileTruncateBlocks(f: nat, newsize: nat)
      requires Valid() && f in files
      modifies this`used, this`blocks, this`files, this`owner
      ensures Valid() && f in files
      ensures Truncated(old(Now()), old(owner), f, Blocks(newsize), Blocks(old(files)[f].size), Now())
      ensures owner == WithoutGone(old(owner), f, Blocks(newsize), Blocks(old(files)[f].size))
    {
      var was, now := (files[f].size + BLKSIZE - 1) / BLKSIZE, (newsize + BLKSIZE - 1) / BLKSIZE;
      TruncateTo(f, now, was);
    }

    /** file_truncate_blocks as file_set_size calls it, before the size is stored. */
    method CutTo(f: nat, newsize: nat)
      requires Valid() && Remembers() && f in files && newsize < files[f].size
      modifies this`used, this`blocks, this`files, this`owner, this`log
      ensures Valid() && Remembers() && f in files && files[f].size == old(files)[f].size
      ensures KeepsOthers(old(Now()), Now(), f)
      ensures log == LogBelow(old(log), f, newsize)
      ensures forall n: nat {:trigger Target(Now(), Data(f, n))} :: Target(Now(), Data(f, n)) ==
                if Gone(Data(f, n), f, Blocks(newsize), Blocks(old(files)[f].size)) then 0
                else Target(old(Now()), Data(f, n))
      ensures old(IsTight()) ==>
                var freed := Released(old(owner), f, Blocks(newsize), Blocks(old(files)[f].size));
                && Tight(SetInode(Now(), f, files[f].(size := newsize)), owner, reserved)
                && FreeSet(Now()) == FreeSet(old(Now())) + freed
                && |FreeSet(Now())| == |FreeSet(old(Now()))| + |freed|
    {
      ghost var s, own := Now(), owner;
      FileTruncateBlocks(f, newsize);
      if Tight(s, own, reserved) {
        TruncationAccounts(s, own, reserved, f, newsize, Now());
      }
      ResizeAfterCut(s, own, f, newsize, Now());
      log := LogBelow(log, f, newsize);
    }

    /** file_set_size; its return value is always 0. */
    method FileSetSize(f: nat, newsize: nat)
      requires Valid() && Remembers() && f in files
      modifies this`used, this`blocks, this`files, this`owner, this`log
      ensures Valid() && Remembers() && (old(IsTight()) ==> IsTight())
      ensures files.Keys == old(files).Keys && files[f].size == newsize
      ensures KeepsOthers(old(Now()), Now(), f)
      // Growing stores nothing; shrinking takes away whole blocks past the new end and frees exactly those.
      ensures newsize >= old(files)[f].size ==>
                && used == old(used) && blocks == old(blocks) && owner == old(owner) && log == old(log)
                && files == old(files)[f := old(files)[f].(size := newsize)]
      ensures newsize < old(files)[f].size ==> log == LogBelow(old(log), f, newsize)
      ensures newsize < old(files)[f].size ==>
                forall n: nat {:trigger Target(Now(), Data(f, n))} :: Target(Now(), Data(f, n)) ==
                  if Gone(Data(f, n), f, Blocks(newsize), Blocks(old(files)[f].size)) then 0
                  else Target(old(Now()), Data(f, n))
      ensures newsize < old(files)[f].size && old(IsTight()) ==>
                var freed := Released(old(owner), f, Blocks(newsize), Blocks(old(files)[f].size));
                && FreeSet(Now()) == FreeSet(old(Now())) + freed
                && |FreeSet(Now())| == |FreeSet(old(Now()))| + |freed|
    {
      if files[f].size > newsize {
        CutTo(f, newsize);
      }
      SizeOnly(Now(), owner, reserved, f, newsize);
      files := files[f := files[f].(size := newsize)];
    }

    /** One turn of the writing loop. */
    method WriteChunk(f: nat, pos: nat, data: seq<Byte>, ghost hi: nat) returns (r: int, done: nat)
      requires Valid() && f in files && |data| > 0 && pos / BLKSIZE < hi
      modifies this`used, this`blocks, this`files, this`owner
      ensures Valid() && f in files && (old(IsTight()) && pos < files[f].size ==> IsTight())
      ensures r in {0, -E_INVAL, -E_NO_DISK}
      ensures files.Keys == old(files).Keys && files[f].size == old(files)[f].size && KeepsOthers(old(Now()), Now(), f)
      ensures r == 0 ==> 0 < done == Min(BLKSIZE - pos % BLKSIZE, |data|) <= |data|
      ensures Spends(old(Now()), Now(), f, pos / BLKSIZE, hi, r == 0)
      ensures r != 0 ==> KeepsBytes(old(Now()), Now())
      ensures r == 0 ==> Wrote(old(Now()), Now(), f, pos, done, data[..done])
    {
      var b;
      done := 0;
      r, b := TouchBlock(f, pos / BLKSIZE, hi);
      if r < 0 {
        return;
      }
      var o := pos % BLKSIZE;
      done := Min(BLKSIZE - o, |data|);
      BlockBytes(Now(), f, pos, done);
      ghost var s := Now();
      Fill(f, pos / BLKSIZE, b, o, data[..done]);
      LeftFrame(s, Now(), f, pos / BLKSIZE + 1, hi);
      forall q: nat ensures WroteAt(old(Now()), Now(), f, pos, done, data[..done], q) {
        assert pos <= q < pos + done ==> ByteAt(s, f, q).Some?;
      }
    }

    method WriteMore(ghost s: Disk, f: nat, buf: seq<Byte>, offset: nat, pos: nat) returns (r: int, n: nat)
      requires Valid() && f in files && offset <= pos < offset + |buf| <= files[f].size
      requires OnTrack(s, Now(), f, offset, pos, offset + |buf|)
      requires KeepsOthers(s, Now(), f) && Wrote(s, Now(), f, offset, pos - offset, buf)
      modifies this`used, this`blocks, this`files, this`owner
      ensures Valid() && f in files && (old(IsTight()) ==> IsTight()) && r in {0, -E_INVAL, -E_NO_DISK}
      ensures files[f].size == old(files)[f].size && KeepsOthers(s, Now(), f)
      ensures r != 0 ==> Wrote(s, Now(), f, offset, pos - offset, buf) && !Available(s, f, offset, |buf|)
      ensures r == 0 ==> 0 < n && pos + n <= offset + |buf| && Wrote(s, Now(), f, offset, pos + n - offset, buf)
      ensures r == 0 ==> OnTrack(s, Now(), f, offset, pos + n, offset + |buf|)
    {
      hide OnTrack, Spends, Available, Wrote, Tight;
      ghost var s1, done, end := Now(), pos - offset, offset + |buf|;
      TrackInside(offset, pos, end);
      r, n := WriteChunk(f, pos, buf[pos - offset..], EndBlock(offset, end - offset));
      KeepsTrans(s, s1, Now(), f);
      TrackStep(s, s1, Now(), f, offset, pos, end, r == 0);
      if r < 0 {
        WroteNoMore(s, s1, Now(), f, offset, done, buf);
      } else {
        WroteMore(s, s1, Now(), f, offset, done, n, buf);
      }
    }

    /** The writing loop; the file is already long enough. */
    method WriteLoop(f: nat, buf: seq<Byte>, offset: nat) returns (r: int, ghost done: nat)
      requires Valid() && f in files && offset + |buf| <= files[f].size
      modifies this`used, this`blocks, this`files, this`owner
      ensures Valid() && f in files && (old(IsTight()) ==> IsTight())
      ensures r in {0, -E_INVAL, -E_NO_DISK} && (r == 0 <==> Available(old(Now()), f, offset, |buf|))
      ensures files[f].size == old(files)[f].size && KeepsOthers(old(Now()), Now(), f)
      ensures done <= |buf| && (r == 0 ==> done == |buf|) && Wrote(old(Now()), Now(), f, offset, done, buf)
    {
      hide OnTrack, Available, Wrote, Tight, KeepsOthers, Owned;
      ghost var s := Now();
      var pos, end := offset, offset + |buf|;
      r, done := 0, 0;
      LoopStart(s, owner, reserved, f, offset, end);
      WroteNothing(s, f, offset, buf);
      while pos < end
        invariant Valid() && f in files && (old(IsTight()) ==> IsTight())
        invariant offset <= pos <= end <= files[f].size && r == 0
        invariant files[f].size == old(files)[f].size && KeepsOthers(s, Now(), f)
        invariant done == pos - offset && Wrote(s, Now(), f, offset, done, buf)
        invariant OnTrack(s, Now(), f, offset, pos, end)
      {
        var n;
        r, n := WriteMore(s, f, buf, offset, pos);
        if r < 0 {
          return;
        }
        pos := pos + n;
        done := done + n;
      }
      TrackEnd(s, Now(), f, offset, end);
    }

    /** The growing step of file_write. */
    method GrowTo(f: nat, end: nat)
      requires Valid() && Remembers() && f in files
      modifies this`used, this`blocks, this`files, this`owner, this`log
      ensures Valid() && Remembers() && f in files && (old(IsTight()) ==> IsTight()) && log == old(log)
      ensures files[f].size == Max(old(files)[f].size, end) && KeepsOthers(old(Now()), Now(), f)
      ensures forall q: nat {:trigger ByteAt(Now(), f, q)} :: ByteAt(Now(), f, q) == ByteAt(old(Now()), f, q)
      ensures used == old(used) && blocks == old(blocks)
      ensures files == old(files)[f := old(files)[f].(size := files[f].size)]
    {
      if end > files[f].size {
        FileSetSize(f, end);
      }
    }

    method FileWrite(f: nat, buf: seq<Byte>, offset: nat) returns (r: int, ghost done: nat)
      requires Valid() && Remembers() && f in files
      modifies this`used, this`blocks, this`files, this`owner, this`log
      ensures Valid() && Remembers() && f in files && (old(IsTight()) ==> IsTight())
      ensures r in {|buf|, -E_INVAL, -E_NO_DISK}
      // It succeeds exactly if the file can hold the range and there are free blocks for what is missing in it.
      ensures r >= 0 <==> Available(old(Now()), f, offset, |buf|)
      ensures files[f].size == Max(old(files)[f].size, offset + |buf|)
      // Exactly the bytes of this range of this file change; on failure, a first part of them.
      ensures KeepsOthers(old(Now()), Now(), f)
      ensures done <= |buf| && (r >= 0 ==> done == |buf|) && Wrote(old(Now()), Now(), f, offset, done, buf)
      ensures log == if r >= 0 then LogWith(old(log), f, offset, buf) else LogWithout(old(log), f, offset, |buf|)
    {
      ghost var s := Now();
      GrowTo(f, offset + |buf|);
      ghost var s1 := Now();
      LeftFrame(s, s1, f, offset / BLKSIZE, EndBlock(offset, |buf|));
      r, done := WriteLoop(f, buf, offset);
      WroteAfterGrowth(s, s1, Now(), f, offset, done, buf);
      LogAfterWrite(s, Now(), f, offset, done, buf, log);
      if r < 0 {
        log := LogWithout(log, f, offset, |buf|);
        return;
      }
      log := LogWith(log, f, offset, buf);
      r := |buf|;
    }

    /** A write that succeeds, read back: what comes first is what was written, and a
        read of just that range always succeeds. */
    method WriteThenRead(f: nat, buf: seq<Byte>, offset: nat, count: nat) returns (w: int, r: int, back: seq<Byte>)
      requires Valid() && Remembers() && f in files && count >= |buf|
      modifies this`used, this`blocks, this`files, this`owner, this`log
      ensures Valid() && Remembers() && f in files
      ensures w >= 0 <==> Available(old(Now()), f, offset, |buf|)
      ensures w >= 0 ==> w == |buf|
      ensures w >= 0 && r >= 0 ==> r == |back| && buf <= back && (count == |buf| ==> back == buf)
      ensures w >= 0 && count == |buf| ==> r >= 0
    {
      hide Available, Wrote, KeepsBytes, Holds, Owned, Tight, Agrees;
      ghost var done;
      w, done := FileWrite(f, buf, offset);
      ghost var size, log1 := files[f].size, log;
      r, back := FileRead(f, count, offset);
      if w >= 0 && r >= 0 {
        forall i | 0 <= i < |buf| ensures i < |back| && back[i] == buf[i] {
          assert (f, offset + i) in log1 && log1[(f, offset + i)] == buf[i];
        }
        assert back[..|buf|] == buf;
      }
    }

    /** The truncation that file_remove begins with. */
    method CutAll(f: nat)
      requires Valid() && Remembers() && f in files
      modifies this`used, this`blocks, this`files, this`owner, this`log
      ensures Valid() && Remembers() && f in files && KeepsOthers(old(Now()), Now(), f)
      ensures log == LogBelow(old(log), f, 0)
      ensures old(IsTight()) ==>
                && Tight(SetInode(Now(), f, files[f].(size := 0)), owner, reserved)
                && (forall x: Slot {:trigger Target(Now(), x)} :: x.f == f ==> Target(Now(), x) == 0)
                && FreeSet(Now()) == FreeSet(old(Now())) + (set b | b in old(owner) && old(owner)[b].f == f)
    {
      ghost var s, own := Now(), owner;
      FileTruncateBlocks(f, 0);
      ResizeAfterCut(s, own, f, 0, Now());
      RemoveAccounts(s, own, reserved, f, Now());
      log := LogBelow(log, f, 0);
    }

    method StoreSize(f: nat, newsize: nat)
      requires Valid() && f in files
      modifies this`files
      ensures Valid() && f in files && Now() == SetInode(old(Now()), f, old(files)[f].(size := newsize))
      ensures forall y {:trigger Target(Now(), y)} :: Target(Now(), y) == Target(old(Now()), y)
      ensures forall g, pos: nat {:trigger ByteAt(Now(), g, pos)} :: ByteAt(Now(), g, pos) == ByteAt(old(Now()), g, pos)
    {
      SizeOnly(Now(), owner, reserved, f, newsize);
      files := files[f := files[f].(size := newsize)];
    }

    /** file_remove, once the path has been resolved to file `f`. */
    method FileRemove(f: nat)
      requires Valid() && Remembers() && f in files
      modifies this`used, this`blocks, this`files, this`owner, this`log
      ensures Valid() && Remembers() && f in files && (old(IsTight()) ==> IsTight())
      ensures KeepsOthers(old(Now()), Now(), f) && files[f].size == 0
      ensures old(IsTight()) ==>
                && (forall x: Slot {:trigger Target(Now(), x)} :: x.f == f ==> Target(Now(), x) == 0)
                && FreeSet(Now()) == FreeSet(old(Now())) + (set b | b in old(owner) && old(owner)[b].f == f)
      ensures log == LogBelow(old(log), f, 0)
    {
      CutAll(f);
      StoreSize(f, 0);
    }
  }
}
