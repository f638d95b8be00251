/** Linear addresses and page-table entries (lab/inc/mmu.h, lab/inc/memlayout.h).

Shifts and masks on the unsigned 64-bit address are written as division and
remainder by the corresponding powers of two. */
module Mmu {
  import opened Common

  const NENTRIES: nat := 512

  /** The twelve flag bits of a table entry, lowest first; the last three are
      PTE_AVAIL. A flag word is the set of its bits. */
  datatype Flag = P | W | U | PWT | PCD | A | D | PS | G | Avail0 | Avail1 | Avail2

  type Perm = set<Flag>

  const PTE_SYSCALL: Perm := {Avail0, Avail1, Avail2, P, W, U}

  function Weight(f: Flag): nat {
    match f
    case P => 1 case W => 2 case U => 4 case PWT => 8 case PCD => 16 case A => 32
    case D => 64 case PS => 128 case G => 256 case Avail0 => 512 case Avail1 => 1024 case Avail2 => 2048
  }

  /** A permission argument as it is or-ed into an entry: its low twelve bits as
      flags, and the bits above them, which fall on the frame number. */
  datatype PermWord = PermWord(high: nat, flags: Perm)

  predicate IsInt(x: int) {
    -0x8000_0000 <= x < 0x8000_0000
  }

  /** The argument is a 32-bit int; the entry is 64 bits wide, so its sign is
      extended. Division rounds down, as shifting a negative number does. */
  function FromInt(perm: int): PermWord
    requires IsInt(perm)
  {
    PermWord(perm / 4096 + (if perm < 0 then 0x10_0000_0000_0000 else 0), set f: Flag | perm / Weight(f) % 2 == 1)
  }

  /** The value of a flag in a word. */
  function Part(word: PermWord, f: Flag): nat {
    if f in word.flags then Weight(f) else 0
  }

  /** The 64-bit number that a permission word stands for. */
  function Total(word: PermWord): nat {
    4096 * word.high + Part(word, P) + Part(word, W) + Part(word, U) + Part(word, PWT) + Part(word, PCD) +
    Part(word, A) + Part(word, D) + Part(word, PS) + Part(word, G) +
    Part(word, Avail0) + Part(word, Avail1) + Part(word, Avail2)
  }

  lemma Ordered(p: int, a: int, b: int)
    requires p > 0 && a < b
    ensures p * a + p <= p * b
  {
    assert p * (b - a - 1) >= 0;
    assert p * (b - a - 1) == p * b - p * a - p;
  }

  lemma Unique(p: int, d: int, r: int, e: int, t: int)
    requires 0 <= r < p && 0 <= t < p && p * d + r == p * e + t
    ensures d == e
  {
    if d < e {
      Ordered(p, d, e);
    } else if e < d {
      Ordered(p, e, d);
    }
  }

  /** The multiple of `p` at or below `x`. */
  function Floor(x: int, p: int): int
    requires p > 0
  {
    p * (x / p)
  }

  /** It is one of `2 * p`, or `p` more. */
  lemma Halved(x: int, p: int)
    requires p > 0
    ensures Floor(x, p) == Floor(x, 2 * p) + if x / p % 2 == 1 then p else 0
  {
    var q, r := x / p, x % p;
    var h, b := q / 2, q % 2;
    assert x == p * q + r && q == 2 * h + b;
    assert p * q == 2 * p * h + p * b;
    Unique(2 * p, h, p * b + r, x / (2 * p), x % (2 * p));
  }

  lemma PartIs(perm: int, f: Flag)
    requires IsInt(perm)
    ensures Part(FromInt(perm), f) == Floor(perm, Weight(f)) - Floor(perm, 2 * Weight(f))
  {
    hide Floor;
    Halved(perm, Weight(f));
  }

  lemma Ends(perm: int)
    requires IsInt(perm)
    ensures Floor(perm, 1) == perm
    ensures 4096 * FromInt(perm).high == Floor(perm, 4096) + if perm >= 0 then 0 else 0x1_0000_0000_0000_0000
  {
  }

  lemma LowBits(perm: int)
    requires IsInt(perm)
    ensures var word := FromInt(perm);
            && (P in word.flags <==> perm % 2 == 1)
            && (W in word.flags <==> perm / 2 % 2 == 1)
            && (U in word.flags <==> perm / 4 % 2 == 1)
  {
    assert perm / Weight(P) == perm && Weight(W) == 2 && Weight(U) == 4;
  }

  /** The flags and the rest are the argument, its sign extended to 64 bits, with
      PTE_P, PTE_W and PTE_U its lowest three bits. */
  lemma FromIntExactly(perm: int)
    requires IsInt(perm)
    ensures var word := FromInt(perm);
            && (P in word.flags <==> perm % 2 == 1)
            && (W in word.flags <==> perm / 2 % 2 == 1)
            && (U in word.flags <==> perm / 4 % 2 == 1)
            && Total(word) == if perm >= 0 then perm else perm + 0x1_0000_0000_0000_0000
  {
    hide Floor, FromInt, Part;
    LowBits(perm);
    Ends(perm);
    PartIs(perm, P);
    PartIs(perm, W);
    PartIs(perm, U);
    PartIs(perm, PWT);
    PartIs(perm, PCD);
    PartIs(perm, A);
    PartIs(perm, D);
    PartIs(perm, PS);
    PartIs(perm, G);
    PartIs(perm, Avail0);
    PartIs(perm, Avail1);
    PartIs(perm, Avail2);
  }

  lemma BelowNine(perm: int)
    ensures Floor(perm, 1) == perm && perm - Floor(perm, 512) == perm % 512
  {
  }

  /** The nine flags below PTE_AVAIL. */
  lemma LowFlags(perm: int)
    requires IsInt(perm)
    ensures var word := FromInt(perm);
            Part(word, P) + Part(word, W) + Part(word, U) + Part(word, PWT) + Part(word, PCD) +
            Part(word, A) + Part(word, D) + Part(word, PS) + Part(word, G) == perm % 512
  {
    hide Floor, FromInt, Part;
    BelowNine(perm);
    PartIs(perm, P);
    PartIs(perm, W);
    PartIs(perm, U);
    PartIs(perm, PWT);
    PartIs(perm, PCD);
    PartIs(perm, A);
    PartIs(perm, D);
    PartIs(perm, PS);
    PartIs(perm, G);
  }

  lemma NoHighBits(perm: int)
    requires IsInt(perm)
    ensures FromInt(perm).high == 0 <==> 0 <= perm < 4096
  {
  }

  /** Bitwise or. */
  function Or(a: nat, b: nat): (r: nat)
    ensures r >= a && r >= b && (b == 0 ==> r == a)
    decreases a + b
  {
    if a == 0 || b == 0 then a + b else (if a % 2 == 1 || b % 2 == 1 then 1 else 0) + 2 * Or(a / 2, b / 2)
  }

  predicate Bit(n: nat, k: nat)
    decreases k
  {
    if k == 0 then n % 2 == 1 else Bit(n / 2, k - 1)
  }

  lemma {:induction false} NoBits(k: nat)
    ensures !Bit(0, k)
  {
    if k > 0 {
      NoBits(k - 1);
    }
  }

  /** A bit is set in it exactly if it is in one of the numbers. */
  lemma {:induction false} OrBit(a: nat, b: nat, k: nat)
    ensures Bit(Or(a, b), k) <==> Bit(a, k) || Bit(b, k)
    decreases a + b, k
  {
    if a == 0 || b == 0 {
      NoBits(k);
    } else if k > 0 {
      OrBit(a / 2, b / 2, k - 1);
      assert Or(a, b) / 2 == Or(a / 2, b / 2);
    }
  }

  /** Every bit of `b` is set in `a`. */
  predicate Contains(a: nat, b: nat) {
    b == 0 || (b % 2 <= a % 2 && Contains(a / 2, b / 2))
  }

  lemma {:induction false} ContainsZero(b: nat)
    requires b > 0
    ensures !Contains(0, b)
  {
    if b % 2 == 0 {
      ContainsZero(b / 2);
    }
  }

  lemma {:induction false} OrKeeps(a: nat, b: nat)
    ensures Or(a, b) == a <==> Contains(a, b)
    decreases a + b
  {
    if a == 0 && b > 0 {
      ContainsZero(b);
    } else if b > 0 {
      OrKeeps(a / 2, b / 2);
    }
  }

  // Levels: 4 = page map level 4, 3 = page directory pointers, 2 = page
  // directory, 1 = page table, 0 = the mapped page itself.

  /** The address with the low bits that a table of this level does not look at
      dropped: the page number at level 0, VPD at 1, VPDPE at 2, VPML4E at 3. */
  function Prefix(level: nat, va: nat): nat {
    if level == 0 then va / 0x1000
    else if level == 1 then va / 0x20_0000
    else if level == 2 then va / 0x4000_0000
    else if level == 3 then va / 0x80_0000_0000
    else va / 0x1_0000_0000_0000
  }

  /** PTX, PDX, PDPE and PML4: the slot that a table of this level uses for `va`. */
  function Index(level: nat, va: nat): nat
    requires 1 <= level
  {
    Prefix(level - 1, va) % NENTRIES
  }

  function PgOff(va: nat): nat {
    va % PGSIZE
  }

  /** PGADDR: the address rebuilt from its five fields. */
  function PgAddr(m: nat, p: nat, d: nat, t: nat, o: nat): nat {
    m * 0x80_0000_0000 + p * 0x4000_0000 + d * 0x20_0000 + t * 0x1000 + o
  }

  /** Prefixes below this bound cover only user addresses. */
  function UserLimit(level: nat): nat {
    if level == 0 then 0xef800 else if level == 1 then 0x77c else if level == 2 then 4 else 1
  }

  lemma Nest(va: nat)
    ensures va / 0x20_0000 == va / 0x1000 / 512
    ensures va / 0x4000_0000 == va / 0x20_0000 / 512
    ensures va / 0x80_0000_0000 == va / 0x4000_0000 / 512
    ensures va / 0x1_0000_0000_0000 == va / 0x80_0000_0000 / 512
  {
  }

  lemma Append(a: nat, i: nat)
    requires i < 512
    ensures (a * 512 + i) / 512 == a && (a * 512 + i) % 512 == i
  {
  }

  /** Splitting a canonical address and rebuilding it is the identity. */
  lemma SplitRebuild(va: nat)
    requires va < 0x1_0000_0000_0000
    ensures PgAddr(Index(4, va), Index(3, va), Index(2, va), Index(1, va), PgOff(va)) == va
  {
    Nest(va);
  }

  /** The fields of a rebuilt address are the ones it was built from. */
  lemma RebuildSplit(m: nat, p: nat, d: nat, t: nat, o: nat)
    requires m < 512 && p < 512 && d < 512 && t < 512 && o < 4096
    ensures var va := PgAddr(m, p, d, t, o);
            && Index(4, va) == m && Index(3, va) == p && Index(2, va) == d
            && Index(1, va) == t && PgOff(va) == o
  {
    var va := PgAddr(m, p, d, t, o);
    Nest(va);
    assert va / 4096 == ((m * 512 + p) * 512 + d) * 512 + t;
    Append((m * 512 + p) * 512 + d, t);
    Append(m * 512 + p, d);
    Append(m, p);
  }

  /** Descending one level appends that level's index to the prefix, and a user
      address only meets prefixes inside the user bound. */
  lemma Descend(level: nat, va: nat)
    requires 1 <= level <= 4 && va < UTOP
    ensures Prefix(level - 1, va) == Prefix(level, va) * NENTRIES + Index(level, va)
    ensures Prefix(level - 1, va) < UserLimit(level - 1)
    ensures Prefix(4, va) == 0
  {
    Nest(va);
  }
}
