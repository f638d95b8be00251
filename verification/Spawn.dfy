/** The page that a new program finds its arguments in, and how the program
decodes it (lab/lib/spawn.c:185-260). */
module Arguments {
  import opened Bytes
  import opened Common

  const UTEMP := 0x40_0000
  const STACKPAGE := 0xef7f_d000     // USTACKTOP - PGSIZE

  type Str = seq<Byte>

  // Little-endian words.

  function Pow256(n: nat): nat {
    if n == 0 then 1 else 256 * Pow256(n - 1)
  }

  function Encode(w: nat, n: nat): (b: seq<Byte>)
    ensures |b| == n
  {
    if n == 0 then [] else [(w % 256) as Byte] + Encode(w / 256, n - 1)
  }

  function Value(b: seq<Byte>): nat {
    if |b| == 0 then 0 else b[0] as nat + 256 * Value(b[1..])
  }

  lemma {:induction false} ValueEncode(w: nat, n: nat)
    requires w < Pow256(n)
    ensures Value(Encode(w, n)) == w
    ensures n > 0 ==> Encode(w, n)[0] as nat == w % 256
  {
    if n > 0 {
      var b := Encode(w, n);
      assert b[1..] == Encode(w / 256, n - 1);
      ValueEncode(w / 256, n - 1);
    }
  }

  // What the child reads.

  function WordAt(page: seq<Byte>, o: int): Option<nat> {
    if 0 <= o && o + 8 <= |page| then Some(Value(page[o..o + 8])) else None
  }

  /** The string at an offset, up to its first NUL byte. */
  function StringAt(page: seq<Byte>, o: int): Option<Str>
    decreases |page| - o
  {
    if o < 0 || o >= |page| then None
    else if page[o] == 0 then Some([])
    else
      var rest := StringAt(page, o + 1);
      if rest.None? then None else Some([page[o]] + rest.value)
  }

  /** The `n` strings that a null-terminated pointer array at an offset leads to. */
  function ArgsAt(page: seq<Byte>, o: int, n: nat): Option<seq<Str>>
    decreases n
  {
    var w := WordAt(page, o);
    if w.None? then None
    else if n == 0 then if w.value == 0 then Some([]) else None
    else
      var s, rest := StringAt(page, w.value - STACKPAGE), ArgsAt(page, o + 8, n - 1);
      if s.None? || rest.None? then None else Some([s.value] + rest.value)
  }

  /** argc and argv as the program takes them from its first two stack words. */
  function Decode(page: seq<Byte>, esp: nat): Option<seq<Str>> {
    var argc, argv := WordAt(page, esp - STACKPAGE), WordAt(page, esp - STACKPAGE + 8);
    if argc.None? || argv.None? then None else ArgsAt(page, argv.value - STACKPAGE, argc.value)
  }

  // What the parent writes.

  predicate At(page: seq<Byte>, o: int, b: seq<Byte>) {
    0 <= o && o + |b| <= |page| && page[o..o + |b|] == b
  }

  function Put(page: seq<Byte>, o: nat, b: seq<Byte>): (r: seq<Byte>)
    requires o + |b| <= |page|
    ensures |r| == |page| && At(r, o, b)
  {
    page[..o] + b + page[o + |b|..]
  }

  lemma PutKeeps(page: seq<Byte>, o: nat, b: seq<Byte>, p: nat, c: seq<Byte>)
    requires o + |b| <= |page| && At(page, p, c) && (p + |c| <= o || o + |b| <= p)
    ensures At(Put(page, o, b), p, c)
  {
    var r := Put(page, o, b);
    forall k | 0 <= k < |c| ensures r[p + k] == c[k] {
      assert page[p..p + |c|][k] == c[k];
    }
    assert r[p..p + |c|] == c;
  }

  lemma WordThere(page: seq<Byte>, o: nat, w: nat)
    requires At(page, o, Encode(w, 8)) && w < 0x1_0000_0000_0000_0000
    ensures WordAt(page, o) == Some(w)
  {
    assert Pow256(8) == 0x1_0000_0000_0000_0000 by {
      assert Pow256(2) == 0x1_0000 && Pow256(4) == 0x1_0000_0000 && Pow256(6) == 0x1_0000_0000_0000;
    }
    ValueEncode(w, 8);
  }

  lemma {:induction false} StringThere(page: seq<Byte>, o: nat, s: Str)
    requires At(page, o, s + [0]) && 0 !in s
    ensures StringAt(page, o) == Some(s)
    decreases |s|
  {
    var t := s + [0];
    assert page[o] == page[o..o + |t|][0] == t[0];
    if |s| > 0 {
      assert s[0] in s;
      assert s == [s[0]] + s[1..];
      assert page[o + 1..o + 1 + |s|] == page[o..o + |t|][1..] == s[1..] + [0];
      StringThere(page, o + 1, s[1..]);
    }
  }

  /** The bytes the strings need, each with its NUL. */
  function Size(argv: seq<Str>): nat {
    if |argv| == 0 then 0 else Size(argv[..|argv| - 1]) + |argv[|argv| - 1]| + 1
  }

  lemma SizeNext(argv: seq<Str>, i: nat)
    requires i < |argv|
    ensures Size(argv[..i + 1]) == Size(argv[..i]) + |argv[i]| + 1
  {
    assert argv[..i + 1][..i] == argv[..i];
  }

  lemma {:induction false} SizeGrows(argv: seq<Str>, i: nat, j: nat)
    requires i <= j <= |argv|
    ensures Size(argv[..i]) <= Size(argv[..j])
    decreases j
  {
    if i < j {
      SizeNext(argv, j - 1);
      SizeGrows(argv, i, j - 1);
    }
  }

  /** Argument `i` is in place: its string at its offset from `s`, its child address in the array at `a`. */
  predicate Stored(page: seq<Byte>, a: nat, s: nat, argv: seq<Str>, i: nat)
    requires i < |argv|
  {
    && At(page, a + 8 * i, Encode(STACKPAGE + s + Size(argv[..i]), 8))
    && At(page, s + Size(argv[..i]), argv[i] + [0])
  }

  lemma StoredKept(page: seq<Byte>, a: nat, s: nat, argv: seq<Str>, i: nat, o: nat, b: seq<Byte>)
    requires i < |argv| && Stored(page, a, s, argv, i) && o + |b| <= |page| && a + 8 * (i + 1) <= s
    requires
      || o + |b| <= a
      || (a + 8 * (i + 1) <= o && o + |b| <= s)
      || s + Size(argv[..i + 1]) <= o
    ensures Stored(Put(page, o, b), a, s, argv, i)
  {
    SizeNext(argv, i);
    PutKeeps(page, o, b, a + 8 * i, Encode(STACKPAGE + s + Size(argv[..i]), 8));
    PutKeeps(page, o, b, s + Size(argv[..i]), argv[i] + [0]);
  }

  lemma ArgThere(page: seq<Byte>, a: nat, s: nat, argv: seq<Str>, i: nat)
    requires i < |argv| && |page| == PGSIZE && 0 !in argv[i] && Stored(page, a, s, argv, i)
    ensures WordAt(page, a + 8 * i).Some? && StringAt(page, WordAt(page, a + 8 * i).value - STACKPAGE) == Some(argv[i])
  {
    WordThere(page, a + 8 * i, STACKPAGE + s + Size(argv[..i]));
    StringThere(page, s + Size(argv[..i]), argv[i]);
  }

  /** When every argument is stored, decoding gives them back. */
  lemma {:induction false} ArgsThere(page: seq<Byte>, a: nat, s: nat, argv: seq<Str>, i: nat)
    requires i <= |argv| && |page| == PGSIZE && forall j :: 0 <= j < |argv| ==> 0 !in argv[j]
    requires forall j {:trigger Stored(page, a, s, argv, j)} :: i <= j < |argv| ==> Stored(page, a, s, argv, j)
    requires At(page, a + 8 * |argv|, Encode(0, 8))
    ensures ArgsAt(page, a + 8 * i, |argv| - i) == Some(argv[i..])
    decreases |argv| - i
  {
    if i == |argv| {
      WordThere(page, a + 8 * i, 0);
    } else {
      assert Stored(page, a, s, argv, i);
      ArgThere(page, a, s, argv, i);
      ArgsThere(page, a, s, argv, i + 1);
      assert argv[i..] == [argv[i]] + argv[i + 1..];
      assert a + 8 * i + 8 == a + 8 * (i + 1);
    }
  }

  /** The page with the end of the array and the two words below it added. */
  function Framed(page: seq<Byte>, a: nat, argc: nat): (r: seq<Byte>)
    requires |page| == PGSIZE && 16 <= a && a + 8 * (argc + 1) <= PGSIZE
    ensures |r| == PGSIZE
  {
    Put(Put(Put(page, a + 8 * argc, Encode(0, 8)), a - 8, Encode(STACKPAGE + a, 8)), a - 16, Encode(argc, 8))
  }

  lemma FramedKeeps(page: seq<Byte>, argv: seq<Str>, s: nat, a: nat, j: nat)
    requires |page| == PGSIZE && 16 <= a && a + 8 * (|argv| + 1) <= s <= PGSIZE
    requires j < |argv| && Stored(page, a, s, argv, j)
    ensures Stored(Framed(page, a, |argv|), a, s, argv, j)
  {
    var t1 := Put(page, a + 8 * |argv|, Encode(0, 8));
    var t2 := Put(t1, a - 8, Encode(STACKPAGE + a, 8));
    StoredKept(page, a, s, argv, j, a + 8 * |argv|, Encode(0, 8));
    StoredKept(t1, a, s, argv, j, a - 8, Encode(STACKPAGE + a, 8));
    StoredKept(t2, a, s, argv, j, a - 16, Encode(|argv|, 8));
  }

  lemma FramedWords(page: seq<Byte>, a: nat, argc: nat)
    requires |page| == PGSIZE && 16 <= a && a + 8 * (argc + 1) <= PGSIZE
    ensures At(Framed(page, a, argc), a + 8 * argc, Encode(0, 8))
    ensures WordAt(Framed(page, a, argc), a - 16) == Some(argc)
    ensures WordAt(Framed(page, a, argc), a - 8) == Some(STACKPAGE + a)
  {
    var t1 := Put(page, a + 8 * argc, Encode(0, 8));
    var t2 := Put(t1, a - 8, Encode(STACKPAGE + a, 8));
    var t3 := Framed(page, a, argc);
    PutKeeps(t1, a - 8, Encode(STACKPAGE + a, 8), a + 8 * argc, Encode(0, 8));
    PutKeeps(t2, a - 16, Encode(argc, 8), a + 8 * argc, Encode(0, 8));
    PutKeeps(t2, a - 16, Encode(argc, 8), a - 8, Encode(STACKPAGE + a, 8));
    WordThere(t3, a - 16, argc);
    WordThere(t3, a - 8, STACKPAGE + a);
  }

  /** Once every argument is stored and framed, the child decodes exactly argv. */
  lemma FramedDecodes(page: seq<Byte>, argv: seq<Str>, s: nat, a: nat)
    requires |page| == PGSIZE && 16 <= a && a + 8 * (|argv| + 1) <= s <= PGSIZE
    requires forall j :: 0 <= j < |argv| ==> 0 !in argv[j]
    requires forall j {:trigger Stored(page, a, s, argv, j)} :: 0 <= j < |argv| ==> Stored(page, a, s, argv, j)
    ensures Decode(Framed(page, a, |argv|), STACKPAGE + a - 16) == Some(argv)
  {
    var t := Framed(page, a, |argv|);
    forall j | 0 <= j < |argv| ensures Stored(t, a, s, argv, j) {
      FramedKeeps(page, argv, s, a, j);
    }
    FramedWords(page, a, |argv|);
    ArgsThere(t, a, s, argv, 0);
    assert argv[0..] == argv;
  }

  // The layout, on unsigned 64-bit addresses.

  const TWO64 := 0x1_0000_0000_0000_0000

  function Sub64(x: nat, y: int): (d: nat)
    requires x < TWO64 && -TWO64 <= y <= TWO64
    ensures d < TWO64 && (d == x - y || d == x - y + TWO64 || d == x - y - TWO64)
  {
    if y > x then x - y + TWO64 else if x - y >= TWO64 then x - y - TWO64 else x - y
  }

  /** The size of the pointer array, which the code computes as an int. */
  function ArraySize(argc: nat): int {
    (8 * (argc + 1) + 0x8000_0000) % 0x1_0000_0000 - 0x8000_0000
  }

  function Up8(n: nat): nat {
    (n + 7) / 8 * 8
  }

  /** What strings, array and two words take, with the padding below the strings. */
  function Need(argv: seq<Str>): nat {
    Up8(Size(argv)) + 8 * (|argv| + 1) + 16
  }

  /** What the code takes that to be. */
  function Reckoned(argv: seq<Str>): int {
    Up8(Size(argv)) + ArraySize(|argv|) + 16
  }

  lemma {:induction false} SizeAtLeast(argv: seq<Str>)
    ensures Size(argv) >= |argv|
    decreases |argv|
  {
    if |argv| > 0 {
      SizeAtLeast(argv[..|argv| - 1]);
    }
  }

  /** Both agree up to 2^28 - 2 arguments, and more do not fit a page. */
  lemma ReckonedRight(argv: seq<Str>)
    ensures |argv| < 0xfff_ffff ==> Reckoned(argv) == Need(argv)
    ensures Need(argv) <= PGSIZE ==> |argv| < 0xfff_ffff
    ensures -0x8000_0000 <= ArraySize(|argv|) < 0x8000_0000 && Size(argv) <= Up8(Size(argv))
  {
    SizeAtLeast(argv);
  }

  lemma Rest(q: int, r: nat)
    requires r < 8
    ensures (8 * q + r) % 8 == r
  {
  }

  lemma StringsDown(size: nat)
    requires size <= TWO64 / 2
    ensures var s := Sub64(UTEMP + PGSIZE, size); s - s % 8 == Sub64(UTEMP + PGSIZE, Up8(size))
  {
    var s := Sub64(UTEMP + PGSIZE, size);
    var k := (size + 7) / 8;
    var top := if size <= UTEMP + PGSIZE then (UTEMP + PGSIZE) / 8 else (UTEMP + PGSIZE + TWO64) / 8;
    assert 8 * k - 7 <= size <= 8 * k;
    assert s == 8 * (top - k) + (8 * k - size);
    Rest(top - k, 8 * k - size);
  }

  /** The same in numbers: `up` bytes of strings with their padding, and `ptrs` of pointers. */
  lemma LowestAddress(up: nat, ptrs: int)
    requires up <= TWO64 / 2 && -0x8000_0000 <= ptrs < 0x8000_0000
    ensures var a := Sub64(Sub64(UTEMP + PGSIZE, up), ptrs);
            && (Sub64(a, 16) < UTEMP <==> PGSIZE < up + ptrs + 16 <= UTEMP + PGSIZE)
            && (up + ptrs + 16 <= PGSIZE && ptrs >= 0 ==> a == UTEMP + PGSIZE - up - ptrs)
  {
  }

  /** The lowest address the layout uses is below UTEMP, and so refused, exactly for
      what the code reckons to be more than a page and at most 4 MB more; when
      everything fits, it lies in the page. */
  lemma Lowest(argv: seq<Str>)
    requires Need(argv) <= TWO64 / 2
    ensures -TWO64 <= ArraySize(|argv|) <= TWO64
    ensures var s := Sub64(UTEMP + PGSIZE, Size(argv));
            var a := Sub64(s - s % 8, ArraySize(|argv|));
            && (Sub64(a, 16) < UTEMP <==> PGSIZE < Reckoned(argv) <= UTEMP + PGSIZE)
            && (Need(argv) <= PGSIZE ==>
                  s == UTEMP + PGSIZE - Size(argv) && UTEMP + 16 <= a && a + 8 * (|argv| + 1) <= s)
  {
    hide ArraySize, Up8, Size;
    ReckonedRight(argv);
    StringsDown(Size(argv));
    LowestAddress(Up8(Size(argv)), ArraySize(|argv|));
  }
}

/** Building a child's memory: the argument page and the program segments
(lab/lib/spawn.c:185-297). */
module Spawn {
  import opened Arguments
  import opened Bytes
  import opened Common

  const STACK := 0xef7fd           // the page number of STACKPAGE

  /** What a call comes to: success, an error code of its own or of the file
      server, a panic, or stores to addresses that wrapped round. */
  datatype Outcome = Done | NoMem | Inval | FileError | Panic | Wild

  /** A page mapped in the child, with the bit PTE_W. */
  datatype Page = Page(data: seq<Byte>, writable: bool)

  /** The byte that a segment puts at address `a`: from the file below `va + filesz`,
      zero above it and past the end of the file. */
  function SegmentByte(file: seq<Byte>, va: nat, filesz: nat, offset: nat, a: nat): Byte {
    var pos := a - va + offset;
    if a < va + filesz && 0 <= pos < |file| then file[pos] else 0
  }

  /** A page that holds a segment's bytes for its addresses. */
  predicate Loaded(child: map<nat, Page>, p: nat, writable: bool, file: seq<Byte>, va: nat, filesz: nat, offset: nat) {
    && p in child && |child[p].data| == PGSIZE && child[p].writable == writable
    && forall k :: 0 <= k < PGSIZE ==> child[p].data[k] == SegmentByte(file, va, filesz, offset, p * PGSIZE + k)
  }

  /** A zeroed page after `n` bytes were asked for from position `pos` of a file. */
  function ReadPage(file: seq<Byte>, pos: nat, n: nat): (page: seq<Byte>)
    requires n <= PGSIZE
    ensures |page| == PGSIZE
    ensures forall k :: 0 <= k < PGSIZE ==> page[k] == if k < n && pos + k < |file| then file[pos + k] else 0
  {
    var m := if pos + n <= |file| then n else if pos <= |file| then |file| - pos else 0;
    var data := if pos <= |file| then file[pos..pos + m] else [];
    data + Zeros(PGSIZE - m)
  }

  /** The child has pages `first` up to `c` of the segment and is otherwise as before. */
  ghost predicate Partly(child: map<nat, Page>, before: map<nat, Page>, first: nat, c: nat, writable: bool,
                         file: seq<Byte>, va: nat, filesz: nat, offset: nat)
  {
    && (forall p {:trigger Loaded(child, p, writable, file, va, filesz, offset)} :: first <= p < c ==>
          Loaded(child, p, writable, file, va, filesz, offset))
    && (forall p :: p < first || c <= p ==> (p in child <==> p in before) && (p in before ==> child[p] == before[p]))
  }

  function Pages(va: nat, memsz: nat): nat {
    (va % PGSIZE + memsz + PGSIZE - 1) / PGSIZE
  }

  lemma PageBelow(c: nat, n: nat)
    ensures c * PGSIZE < n <==> c < (n + PGSIZE - 1) / PGSIZE
  {
  }

  /** The pages of a segment that begin below the end of its part in the file. */
  function FilePages(va: nat, memsz: nat, filesz: nat): nat {
    if Pages(va, filesz) <= Pages(va, memsz) then Pages(va, filesz) else Pages(va, memsz)
  }

  /** A loaded segment read at its own addresses. */
  lemma SegmentRead(child: map<nat, Page>, before: map<nat, Page>, writable: bool,
                    file: seq<Byte>, va: nat, memsz: nat, filesz: nat, offset: nat, k: nat)
    requires Partly(child, before, va / PGSIZE, va / PGSIZE + Pages(va, memsz), writable, file, va, filesz, offset)
    requires k < memsz
    ensures var p, o := (va + k) / PGSIZE, (va + k) % PGSIZE;
            && p in child && |child[p].data| == PGSIZE
            && child[p].data[o] == if k < filesz && offset + k < |file| then file[offset + k] else 0
  {
    var p, o := (va + k) / PGSIZE, (va + k) % PGSIZE;
    assert va / PGSIZE <= p < va / PGSIZE + Pages(va, memsz);
    assert Loaded(child, p, writable, file, va, filesz, offset);
    assert va + k == p * PGSIZE + o;
  }

  /** `page` holds a segment's bytes for page number `p`. */
  ghost predicate Right(page: seq<Byte>, p: nat, file: seq<Byte>, va: nat, filesz: nat, offset: nat) {
    |page| == PGSIZE && forall k :: 0 <= k < PGSIZE ==> page[k] == SegmentByte(file, va, filesz, offset, p * PGSIZE + k)
  }

  /** What map_segment reads, or leaves blank, for its page `c`. */
  lemma ReadRight(file: seq<Byte>, va: nat, filesz: nat, offset: nat, c: nat)
    requires va % PGSIZE == offset % PGSIZE
    ensures var i, n := c * PGSIZE, filesz + va % PGSIZE;
            if n <= i then Right(Zeros(PGSIZE), va / PGSIZE + c, file, va, filesz, offset)
            else Right(ReadPage(file, offset - va % PGSIZE + i, if PGSIZE <= n - i then PGSIZE else n - i),
                       va / PGSIZE + c, file, va, filesz, offset)
  {
    assert (va / PGSIZE + c) * PGSIZE == va - va % PGSIZE + c * PGSIZE;
  }

  lemma PartlyNone(child: map<nat, Page>, first: nat, writable: bool,
                   file: seq<Byte>, va: nat, filesz: nat, offset: nat)
    ensures Partly(child, child, first, first, writable, file, va, filesz, offset)
  {
  }

  lemma PageLoaded(child: map<nat, Page>, before: map<nat, Page>, page: seq<Byte>, writable: bool,
                   file: seq<Byte>, va: nat, filesz: nat, offset: nat, c: nat)
    requires Partly(child, before, va / PGSIZE, va / PGSIZE + c, writable, file, va, filesz, offset)
    requires Right(page, va / PGSIZE + c, file, va, filesz, offset)
    ensures var p := va / PGSIZE + c;
            Partly(child[p := Page(page, writable)], before, va / PGSIZE, va / PGSIZE + c + 1, writable,
                   file, va, filesz, offset)
  {
    var q := va / PGSIZE + c;
    var child' := child[q := Page(page, writable)];
    forall p | va / PGSIZE <= p < q + 1 ensures Loaded(child', p, writable, file, va, filesz, offset) {
      assert p != q ==> Loaded(child, p, writable, file, va, filesz, offset);
    }
  }

  class Loader {
    var temp: seq<Byte>              // the page at UTEMP, or []
    var child: map<nat, Page>

    /** map_segment, when `allocs` calls of sys_page_alloc, `maps` calls of
        sys_page_map and `reads` reads of the file succeed before one fails: `c`
        pages of the segment are mapped, all of them exactly if no call fails and
        the segment ends below UTOP. */
    method MapSegment(va: nat, memsz: nat, file: seq<Byte>, filesz: nat, offset: nat, writable: bool,
                      allocs: nat, reads': nat, maps: nat)
      returns (r: Outcome, ghost c: nat)
      requires va % PGSIZE == offset % PGSIZE && memsz + va % PGSIZE <= 0x7fff_f000 && temp == []
      modifies this
      ensures Partly(child, old(child), va / PGSIZE, va / PGSIZE + c, writable, file, va, filesz, offset)
      ensures r == Done ==> c == Pages(va, memsz)
      ensures r == Done <==>
                && Pages(va, memsz) <= allocs
                && FilePages(va, memsz, filesz) <= reads' && FilePages(va, memsz, filesz) <= maps
                && (Pages(va, memsz) == 0 || va / PGSIZE + Pages(va, memsz) <= UTOP / PGSIZE)
      ensures r == NoMem ==> c == allocs
      ensures r == FileError ==> c == reads'
      ensures r == Inval ==> va / PGSIZE + c >= UTOP / PGSIZE
      ensures r == Panic ==> c == maps || va / PGSIZE + c >= UTOP / PGSIZE
      ensures r != Wild && (r == Done ==> temp == [])
    {
      hide Partly, Right, ReadPage;
      PartlyNone(child, va / PGSIZE, writable, file, va, filesz, offset);
      var i := va % PGSIZE;
      var va0, memsz0, filesz0, offset0 := va - i, memsz + i, filesz + i, offset - i;
      ghost var fromFile := FilePages(va, memsz, filesz);
      i := 0;
      c := 0;
      while i < memsz0
        invariant i == c * PGSIZE && c <= allocs && c <= Pages(va, memsz)
        invariant c <= fromFile ==> c <= reads' && c <= maps
        invariant fromFile <= c ==> fromFile <= reads' && fromFile <= maps
        invariant temp == []
        invariant c > 0 ==> va / PGSIZE + c <= UTOP / PGSIZE
        invariant Partly(child, old(child), va / PGSIZE, va / PGSIZE + c, writable, file, va, filesz, offset)
      {
        var a, page := va0 + i, Zeros(PGSIZE);
        assert a == (va / PGSIZE + c) * PGSIZE;
        ReadRight(file, va, filesz, offset, c);
        PageBelow(c, memsz0);
        PageBelow(c, filesz0);
        if i >= filesz0 {
          if a >= UTOP {
            return Inval, c;
          }
          if i / PGSIZE == allocs {
            return NoMem, c;
          }
        } else {
          if i / PGSIZE == allocs {
            return NoMem, c;
          }
          temp := Zeros(PGSIZE);
          if i / PGSIZE == reads' {
            return FileError, c;
          }
          temp := ReadPage(file, offset0 + i, if PGSIZE <= filesz0 - i then PGSIZE else filesz0 - i);
          if a >= UTOP || i / PGSIZE == maps {
            return Panic, c;
          }
          page, temp := temp, [];
        }
        PageLoaded(child, old(child), page, writable, file, va, filesz, offset, c);
        child := child[a / PGSIZE := Page(page, writable)];
        i := i + PGSIZE;
        c := c + 1;
      }
      r := Done;
    }

    method StoreArg(argv: seq<Str>, ghost s: nat, a: nat, i: nat, store: nat)
      requires |temp| == PGSIZE && i < |argv| && a + 8 * (|argv| + 1) <= s
      requires store == s + Size(argv[..i]) && store + |argv[i]| + 1 <= PGSIZE
      requires forall j {:trigger Stored(temp, a, s, argv, j)} :: 0 <= j < i ==> Stored(temp, a, s, argv, j)
      modifies this`temp
      ensures |temp| == PGSIZE
      ensures forall j {:trigger Stored(temp, a, s, argv, j)} :: 0 <= j <= i ==> Stored(temp, a, s, argv, j)
    {
      var p, w, b := a + 8 * i, Encode(STACKPAGE + store, 8), argv[i] + [0];
      ghost var t0 := temp;
      temp := Put(temp, p, w);
      ghost var t1 := temp;
      temp := Put(temp, store, b);
      PutKeeps(t1, store, b, p, w);
      forall j | 0 <= j < i ensures Stored(temp, a, s, argv, j) {
        SizeGrows(argv, j + 1, i);
        StoredKept(t0, a, s, argv, j, p, w);
        StoredKept(t1, a, s, argv, j, store, b);
      }
    }

    /** The loop of init_stack that copies the strings to `s` and their child
        addresses to the array at `a`, offsets in the page at UTEMP. */
    method StoreArgs(argv: seq<Str>, s: nat, a: nat)
      requires |temp| == PGSIZE && s + Size(argv) == PGSIZE && a + 8 * (|argv| + 1) <= s
      modifies this`temp
      ensures |temp| == PGSIZE
      ensures forall j {:trigger Stored(temp, a, s, argv, j)} :: 0 <= j < |argv| ==> Stored(temp, a, s, argv, j)
    {
      var i, store := 0, s;
      assert argv[..0] == [] && argv[..|argv|] == argv;
      while i < |argv|
        invariant i <= |argv| && store == s + Size(argv[..i]) && |temp| == PGSIZE
        invariant forall j {:trigger Stored(temp, a, s, argv, j)} :: 0 <= j < i ==> Stored(temp, a, s, argv, j)
      {
        SizeNext(argv, i);
        SizeGrows(argv, i + 1, |argv|);
        StoreArg(argv, s, a, i, store);
        store := store + |argv[i]| + 1;
        i := i + 1;
      }
    }

    /** Where init_stack would put the strings and the pointer array, as addresses. */
    method Layout(argv: seq<Str>) returns (store: nat, pointers: nat)
      requires Need(argv) <= TWO64 / 2
      ensures store < TWO64 && pointers < TWO64
      ensures Sub64(pointers, 16) < UTEMP <==> PGSIZE < Reckoned(argv) <= UTEMP + PGSIZE
      ensures Need(argv) <= PGSIZE ==>
                && store + Size(argv) == UTEMP + PGSIZE
                && UTEMP + 16 <= pointers && pointers + 8 * (|argv| + 1) <= store
    {
      var argc, size := 0, 0;
      while argc < |argv|
        invariant argc <= |argv| && size == Size(argv[..argc])
      {
        SizeNext(argv, argc);
        size := size + |argv[argc]| + 1;
        argc := argc + 1;
      }
      assert argv[..argc] == argv;
      Lowest(argv);
      store := Sub64(UTEMP + PGSIZE, size);
      pointers := Sub64(store - store % 8, ArraySize(argc));
    }

    /** The stores of init_stack, once the offsets are known to lie in the page. */
    method Finish(argv: seq<Str>, s: nat, a: nat) returns (esp: nat)
      requires |temp| == PGSIZE && s + Size(argv) == PGSIZE && 16 <= a && a + 8 * (|argv| + 1) <= s
      requires forall i :: 0 <= i < |argv| ==> 0 !in argv[i]
      modifies this`temp
      ensures |temp| == PGSIZE && Decode(temp, esp) == Some(argv)
    {
      StoreArgs(argv, s, a);
      FramedDecodes(temp, argv, s, a);
      temp := Put(temp, a + 8 * |argv|, Encode(0, 8));
      temp := Put(temp, a - 8, Encode(STACKPAGE + a, 8));
      temp := Put(temp, a - 16, Encode(|argv|, 8));
      esp := STACKPAGE + a - 16;
    }

    /** init_stack, when sys_page_alloc and sys_page_map succeed or not. The child
        decodes exactly the arguments if they fit a page and both do. They are
        refused exactly if the code reckons that they need more, short of the
        wrap-around of addresses; all others are stored outside the page. */
    method InitStack(argv: seq<Str>, alloc: bool, map': bool) returns (r: Outcome, esp: nat)
      requires forall i :: 0 <= i < |argv| ==> 0 !in argv[i]
      requires Need(argv) <= TWO64 / 2 && temp == []
      modifies this
      ensures r == Done ==>
                && STACK in child && child == old(child)[STACK := child[STACK]]
                && child[STACK].writable && Decode(child[STACK].data, esp) == Some(argv)
      ensures r != Done ==> child == old(child)
      ensures r == Done <==> Need(argv) <= PGSIZE && alloc && map'
      ensures r == NoMem <==>
                PGSIZE < Reckoned(argv) <= UTEMP + PGSIZE || !alloc || (Need(argv) <= PGSIZE && !map')
      ensures r in {Done, NoMem, Wild} && (r != Wild ==> temp == [])
      ensures |argv| < 0xfff_ffff ==> Reckoned(argv) == Need(argv)
    {
      ReckonedRight(argv);
      var store, pointers := Layout(argv);
      if Sub64(pointers, 16) < UTEMP || !alloc {
        return NoMem, 0;
      }
      temp := Zeros(PGSIZE);
      if Need(argv) > PGSIZE {
        return Wild, 0;
      }
      esp := Finish(argv, store - UTEMP, pointers - UTEMP);
      if !map' {
        temp := [];
        return NoMem, esp;
      }
      child, temp := child[STACK := Page(temp, true)], [];
      r := Done;
    }
  }
}
