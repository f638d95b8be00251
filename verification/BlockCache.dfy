/** The write-back cache of disk blocks in the file server's memory (lab/fs/bc.c). */
module BlockCache {
  import opened Bytes

  const BLKSIZE: nat := 4096
  const DISKMAP: nat := 0x1000_0000
  const DISKSIZE: nat := 0xc000_0000

  /** A block in memory, with the bits PTE_D and PTE_A of its page-table entry. */
  datatype Page = Page(data: seq<Byte>, dirty: bool, accessed: bool)

  datatype Result<+T> = Ok(value: T) | Panic

  /** diskaddr: the address of a block, a panic for block 0 and past the end. */
  function DiskAddr(b: nat, nblocks: nat): Result<nat> {
    if b == 0 || b >= nblocks then Panic else Ok(DISKMAP + b * BLKSIZE)
  }

  /** The block that an address of the disk map falls in. */
  function BlockOf(addr: nat): Result<nat> {
    if DISKMAP <= addr < DISKMAP + DISKSIZE then Ok((addr - DISKMAP) / BLKSIZE) else Panic
  }

  /** Every address in a block's page leads back to the block, on every disk that
      fits the map region. */
  lemma AddrRoundTrip(b: nat, nblocks: nat, o: nat)
    requires nblocks <= DISKSIZE / BLKSIZE && o < BLKSIZE
    ensures DiskAddr(b, nblocks).Ok? <==> 0 < b < nblocks
    ensures DiskAddr(b, nblocks).Ok? ==> BlockOf(DiskAddr(b, nblocks).value + o) == Ok(b)
  {
  }

  class Cache {
    const nblocks: nat
    var disk: seq<seq<Byte>>
    var cache: map<nat, Page>
    var free: seq<bool>

    ghost predicate Valid()
      reads this
    {
      && |disk| == |free| == nblocks <= DISKSIZE / BLKSIZE
      && (forall b :: 0 <= b < nblocks ==> |disk[b]| == BLKSIZE)
      && (forall b :: b in cache ==> b < nblocks && |cache[b].data| == BLKSIZE)
      && (forall b :: b in cache && !cache[b].dirty ==> cache[b].data == disk[b])
    }

    /** What a block holds for its readers, in memory or not. */
    ghost function Logical(b: nat): seq<Byte>
      requires Valid() && b < nblocks
      reads this
    {
      if b in cache then cache[b].data else disk[b]
    }

    /** Before the first fault nothing is mapped. */
    constructor (disk: seq<seq<Byte>>, free: seq<bool>)
      requires |disk| == |free| <= DISKSIZE / BLKSIZE && forall b :: 0 <= b < |disk| ==> |disk[b]| == BLKSIZE
      ensures Valid() && this.disk == disk && this.free == free && cache == map[]
    {
      nblocks, this.disk, this.free, cache := |disk|, disk, free, map[];
    }

    /** bc_pgfault for a block that is not mapped. Reading it in sets both bits. */
    method Fault(addr: nat) returns (r: Result<nat>)
      requires Valid() && (BlockOf(addr).Ok? ==> BlockOf(addr).value !in cache)
      modifies this`cache
      ensures Valid()
      ensures forall b :: 0 <= b < nblocks ==> Logical(b) == old(Logical(b))
      ensures r.Ok? ==>
                BlockOf(addr) == r && r.value in cache && cache.Keys == old(cache).Keys + {r.value} && !free[r.value]
      ensures r.Panic? <==> BlockOf(addr).Panic? || BlockOf(addr).value >= nblocks || free[BlockOf(addr).value]
    {
      if addr < DISKMAP || addr >= DISKMAP + DISKSIZE {
        return Panic;
      }
      var b := (addr - DISKMAP) / BLKSIZE;
      if b >= nblocks {
        return Panic;
      }
      cache := cache[b := Page(disk[b], true, true)];
      if free[b] {
        return Panic;
      }
      r := Ok(b);
    }

    /** A store into a mapped block; the processor sets both bits. */
    method Store(b: nat, o: nat, v: Byte)
      requires Valid() && b in cache && o < BLKSIZE
      modifies this`cache
      ensures Valid() && cache.Keys == old(cache).Keys
      ensures Logical(b) == old(Logical(b))[o := v]
      ensures forall c :: 0 <= c < nblocks && c != b ==> Logical(c) == old(Logical(c))
    {
      cache := cache[b := Page(cache[b].data[o := v], true, true)];
    }

    /** A load from a mapped block. */
    method Load(b: nat, o: nat) returns (v: Byte)
      requires Valid() && b in cache && o < BLKSIZE
      modifies this`cache
      ensures Valid() && cache.Keys == old(cache).Keys && v == old(Logical(b))[o]
      ensures forall c :: 0 <= c < nblocks ==> Logical(c) == old(Logical(c))
    {
      v := cache[b].data[o];
      cache := cache[b := cache[b].(accessed := true)];
    }

    /** flush_block writes out a mapped block that is dirty or accessed and clears both bits. */
    method FlushBlock(addr: nat) returns (r: Result<nat>)
      requires Valid()
      modifies this`cache, this`disk
      ensures Valid() && cache.Keys == old(cache).Keys
      ensures r == BlockOf(addr)
      ensures forall c :: 0 <= c < nblocks ==> Logical(c) == old(Logical(c))
      ensures r.Panic? ==> disk == old(disk) && cache == old(cache)
      ensures r.Ok? ==>
                && (r.value < nblocks ==> disk[r.value] == Logical(r.value))
                && (r.value in cache ==> !cache[r.value].dirty && !cache[r.value].accessed)
                && (forall c :: 0 <= c < nblocks && c != r.value ==> disk[c] == old(disk)[c])
                && (forall c :: c in cache && c != r.value ==> cache[c] == old(cache)[c])
    {
      r := BlockOf(addr);
      if r.Panic? {
        return;
      }
      var b := r.value;
      if b in cache && (cache[b].dirty || cache[b].accessed) {
        disk := disk[b := cache[b].data];
        cache := cache[b := Page(cache[b].data, false, false)];
      }
    }

    /** fs_sync: afterwards every block but 0 is on disk as its readers see it. */
    method FsSync() returns (ok: bool)
      requires Valid()
      modifies this`cache, this`disk
      ensures Valid() && cache.Keys == old(cache).Keys && ok
      ensures forall c :: 0 <= c < nblocks ==> Logical(c) == old(Logical(c))
      ensures forall c :: 1 <= c < nblocks ==> disk[c] == Logical(c)
      ensures forall c :: c in cache && c != 0 ==> !cache[c].dirty && !cache[c].accessed
    {
      ok := true;
      var i := 1;
      while i < nblocks
        invariant Valid() && 1 <= i && (nblocks > 0 ==> i <= nblocks) && cache.Keys == old(cache).Keys && ok
        invariant forall c :: 0 <= c < nblocks ==> Logical(c) == old(Logical(c))
        invariant forall c :: 1 <= c < i && c < nblocks ==> disk[c] == Logical(c)
        invariant forall c :: c in cache && 0 < c < i ==> !cache[c].dirty && !cache[c].accessed
      {
        AddrRoundTrip(i, nblocks, 0);
        var a := DiskAddr(i, nblocks);
        var r := FlushBlock(a.value);
        ok := ok && r.Ok?;
        i := i + 1;
      }
    }

    /** Unmapping a block, as check_bc does after flushing it, keeps its contents
        exactly if memory and disk agree; a clear dirty bit guarantees that. */
    method Unmap(b: nat)
      requires Valid() && b < nblocks
      modifies this`cache
      ensures Valid() && cache.Keys == old(cache).Keys - {b}
      ensures Logical(b) == old(Logical(b)) <==> b !in old(cache) || old(cache)[b].data == disk[b]
      ensures b in old(cache) && !old(cache)[b].dirty ==> Logical(b) == old(Logical(b))
      ensures forall c :: 0 <= c < nblocks && c != b ==> Logical(c) == old(Logical(c))
    {
      cache := cache - {b};
    }
  }
}
