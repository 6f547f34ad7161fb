/**
 * The explicit free-list allocator of lab03 (mm.c).
 *
 * Every block starts with a 4-byte header and ends with a 4-byte footer, both
 * holding PACK(size, alloc); a free block keeps, in the two words after its
 * header, the signed offsets to the previous and the next block of the free
 * list (0 for none).  The free list is last-in first-out, allocation is first
 * fit, and freeing coalesces with free physical neighbours.
 *
 * The heap is a map from byte offsets to the 4-byte word stored there.  Offsets
 * are counted from `mem_heap_lo()`, which memlib aligns to 8, so the prologue
 * word sits at 0, `heap_initp` is 4 and NULL is 0.  `mem_sbrk` becomes a bump of
 * `brk` bounded by `maxHeap`.  Ghost state records the block sequence and the
 * free list; the invariant ties them to the words in the heap.
 */
module ExplicitList {
  import Alu
  import opened Seqs

  const WSize: int := 4
  const Alignment: int := 8
  /** MIN_SIZE: header, footer and the two list offsets. */
  const MinSize: int := 2 * WSize + 2 * WSize
  /** `heap_initp`: the first block starts after the prologue word. */
  const HeapStart: int := WSize
  const Null: int := 0
  /** PACK(0, 1), the prologue header written by `mm_init`. */
  const PrologueTag: int := 1
  const WordRange: int := 0x1_0000_0000

  // ---------------------------------------------------------------------------
  // The bit-level macros

  /** Bitwise OR of two non-negative integers. */
  function Or(a: nat, b: nat): nat
    decreases a + b
  {
    if a == 0 then b
    else if b == 0 then a
    else 2 * Or(a / 2, b / 2) + (if a % 2 == 1 || b % 2 == 1 then 1 else 0)
  }

  /** `w & ~0x7` on an unsigned word: its low three bits cleared. */
  function MaskSize(w: nat): nat
  {
    w - w % 8
  }

  /** `w & 0x7` on an unsigned word. */
  function MaskAlloc(w: nat): nat
  {
    w % 8
  }

  /** PACK(size, alloc). */
  function Pack(size: nat, alloc: nat): nat
  {
    Or(size, alloc)
  }

  /** ALIGN(size): `size` rounded up to the next multiple of 8. */
  function Align(size: nat): (r: nat)
    ensures r % Alignment == 0 && size <= r < size + Alignment
  {
    MaskSize(size + (Alignment - 1))
  }

  // ---------------------------------------------------------------------------
  // The padded request size in size_t arithmetic

  /** size_t is 64 bits wide: its arithmetic is modulo 2^64. */
  const SizeRange: int := 0x1_0000_0000_0000_0000

  /**
   * ALIGN(size + MIN_SIZE) as `malloc` and `realloc` compute it: both
   * additions wrap around modulo 2^64 before the low three bits are cleared.
   */
  function PaddedAsWritten(size: nat): (r: nat)
    requires size < SizeRange
    ensures r % Alignment == 0 && r < SizeRange
  {
    MaskSize(((size + MinSize) % SizeRange + (Alignment - 1)) % SizeRange)
  }

  /** Away from the top of the size_t range, nothing wraps and the padded size is ALIGN(size + MIN_SIZE). */
  lemma PaddedAgrees(size: nat)
    requires size + MinSize + Alignment - 1 < SizeRange
    ensures PaddedAsWritten(size) == Align(size + MinSize)
  {
    var w := size + MinSize + (Alignment - 1);
    assert (size + MinSize) % SizeRange == size + MinSize;
    assert w % SizeRange == w;
  }

  /** The 23 largest requests wrap around to a padded size of at most MIN_SIZE bytes. */
  lemma PaddedWraps(size: nat)
    requires SizeRange - MinSize - (Alignment - 1) <= size < SizeRange
    ensures PaddedAsWritten(size) <= MinSize < size
  {
  }

  /**
   * `malloc(2^64 - 16)` as written: the padded size wraps to 0, so `find_fit`
   * takes the first free block and, when more than MIN_SIZE bytes are left,
   * cuts a 0-byte block from it; the pointer returned has no room at all.
   */
  lemma MallocWrapAsWritten(b: Block)
    requires BlockOk(b) && b.size > MinSize
    ensures PaddedAsWritten(SizeRange - MinSize) == 0
    ensures Fit(b.size, PaddedAsWritten(SizeRange - MinSize)) == 0
  {
  }

  /**
   * `realloc(p, 2^64 - 16)` as written: the padded size wraps to 0, every
   * block passes `GET_SIZE(newptr) >= asize`, and p comes back in place
   * although its payload is far smaller than the request.
   */
  lemma ReallocWrapAsWritten(b: Block)
    requires BlockOk(b) && b.size < 0x8000_0000
    ensures b.size >= PaddedAsWritten(SizeRange - MinSize)
    ensures b.size - 2 * WSize < SizeRange - MinSize
  {
  }

  /**
   * The size of the block `find_fit` hands out from a free block of `size`
   * bytes for a request of `newsize`: just `newsize` when more than MIN_SIZE
   * bytes would be left over (they are split off), else the whole block.
   */
  function Fit(size: int, newsize: int): int
  {
    if size - newsize > MinSize then newsize else size
  }

  /** Or-ing a value below 2^k into a multiple of 2^k is adding it. */
  lemma {:induction false} OrLow(h: nat, a: nat, k: nat)
    requires a < Alu.Pow2(k)
    ensures Or(h * Alu.Pow2(k), a) == h * Alu.Pow2(k) + a
    decreases k
  {
    if h != 0 && a != 0 {
      var s := h * Alu.Pow2(k - 1);
      assert h * Alu.Pow2(k) == 2 * s;
      OrLow(h, a / 2, k - 1);
      assert Or(2 * s, a) == 2 * Or(s, a / 2) + a % 2;
    }
  }

  /**
   * For a size that is a multiple of 8 and an alloc field below 8, PACK is
   * addition, and GET_SIZE and GET_ALLOC recover the two fields.
   */
  lemma PackFields(size: nat, alloc: nat)
    requires size % Alignment == 0 && alloc < Alignment
    ensures Pack(size, alloc) == size + alloc
    ensures MaskSize(size + alloc) == size && MaskAlloc(size + alloc) == alloc
  {
    var h := size / 8;
    assert h * Alu.Pow2(3) == size by {
      assert Alu.Pow2(1) == 2 && Alu.Pow2(2) == 4 && Alu.Pow2(3) == 8;
    }
    OrLow(h, alloc, 3);
    LowBits(h, alloc);
  }

  /** The low three bits of a multiple of 8 plus a value below 8 are that value. */
  lemma LowBits(h: nat, alloc: nat)
    requires alloc < 8
    ensures (h * 8 + alloc) % 8 == alloc && MaskSize(h * 8 + alloc) == h * 8
  {
  }

  // ---------------------------------------------------------------------------
  // Reading the heap

  /** The 4-byte word at offset `a`. */
  function Word(mem: map<int, int>, a: int): int
  {
    if a in mem then mem[a] else 0
  }

  /** The word at `a` read through an `unsigned int *`. */
  function Unsigned(mem: map<int, int>, a: int): nat
  {
    Word(mem, a) % WordRange
  }

  /** GET_SIZE(p): the size in the header of the block at p. */
  function GetSize(mem: map<int, int>, p: int): nat
  {
    MaskSize(Unsigned(mem, p))
  }

  /** GET_ALLOC(p): the alloc field in the header of the block at p. */
  function GetAlloc(mem: map<int, int>, p: int): nat
  {
    MaskAlloc(Unsigned(mem, p))
  }

  /** GET_B_SIZE(p): the size in the word just before p, the previous block's footer. */
  function GetBSize(mem: map<int, int>, p: int): nat
  {
    MaskSize(Unsigned(mem, p - WSize))
  }

  /** GET_B_ALLOC(p). */
  function GetBAlloc(mem: map<int, int>, p: int): nat
  {
    MaskAlloc(Unsigned(mem, p - WSize))
  }

  /** GET_F_SIZE(p): the size in the footer that the header of the block at p points to. */
  function GetFSize(mem: map<int, int>, p: int): nat
  {
    MaskSize(Unsigned(mem, p + GetSize(mem, p) - WSize))
  }

  /** get_prev: the previous free block, found through the stored offset. */
  function GetPrev(mem: map<int, int>, p: int): int
  {
    if Word(mem, p + WSize) == 0 then Null else p + Word(mem, p + WSize)
  }

  /** get_next: the next free block, found through the stored offset. */
  function GetNext(mem: map<int, int>, p: int): int
  {
    if Word(mem, p + 2 * WSize) == 0 then Null else p + Word(mem, p + 2 * WSize)
  }

  /** The offset set_prev and set_next store for a link from p to q. */
  function Offset(p: int, q: int): int
  {
    if q == Null then 0 else q - p
  }

  /** Storing a link and reading it back gives the linked block (or NULL). */
  lemma LinkRoundTrip(mem: map<int, int>, p: int, q: int)
    requires q != p
    ensures GetPrev(mem[p + WSize := Offset(p, q)], p) == q
    ensures GetNext(mem[p + 2 * WSize := Offset(p, q)], p) == q
  {
  }

  // ---------------------------------------------------------------------------
  // Blocks and the heap invariant that mm_checkheap checks

  /** A block of the heap: where its header is, its size, and whether it is free. */
  datatype Block = Block(start: int, size: int, free: bool)

  function End(b: Block): int
  {
    b.start + b.size
  }

  function AllocBit(b: Block): nat
  {
    if b.free then 0 else 1
  }

  /** The word held by the header and the footer of a block. */
  function Tag(b: Block): int
  {
    b.size + AllocBit(b)
  }

  /** The payload is 8-aligned, and the block is a multiple of 8 large enough for two links. */
  ghost predicate BlockOk(b: Block)
  {
    (b.start + WSize) % Alignment == 0 && b.size >= MinSize && b.size % Alignment == 0
  }

  /** The blocks lie end to end from `a` to `e`. */
  ghost predicate TilesRange(bs: seq<Block>, a: int, e: int)
  {
    && (forall i :: 0 <= i < |bs| ==> BlockOk(bs[i]))
    && (forall i :: 0 <= i < |bs| - 1 ==> bs[i + 1].start == End(bs[i]))
    && (if bs == [] then a == e else bs[0].start == a && End(bs[|bs| - 1]) == e)
  }

  /** The blocks tile the heap from `heap_initp` to the break. */
  ghost predicate Tiling(bs: seq<Block>, brk: int)
  {
    TilesRange(bs, HeapStart, brk)
  }

  /** Every block's header and footer hold its tag. */
  ghost predicate TagsOf(mem: map<int, int>, bs: seq<Block>)
  {
    forall i :: 0 <= i < |bs| ==>
      Word(mem, bs[i].start) == Tag(bs[i]) && Word(mem, End(bs[i]) - WSize) == Tag(bs[i])
  }

  /** The prologue is in place and every block is tagged. */
  ghost predicate Tags(mem: map<int, int>, bs: seq<Block>)
  {
    Word(mem, 0) == PrologueTag && TagsOf(mem, bs)
  }

  /**
   * `fl` is the free list read from `head`: distinct blocks with aligned
   * payloads, and every stored previous/next offset leads to the neighbour in
   * `fl` (NULL at the ends).
   */
  ghost predicate Listed(mem: map<int, int>, head: int, fl: seq<int>)
  {
    && head == (if fl == [] then Null else fl[0])
    && (forall k :: 0 <= k < |fl| ==> (fl[k] + WSize) % Alignment == 0)
    && (forall k, m :: 0 <= k < m < |fl| ==> fl[k] != fl[m])
    && (forall k :: 0 <= k < |fl| ==> LinksAt(mem, fl, k))
  }

  /** The list neighbours of the k-th free block, NULL past either end. */
  function PrevOf(fl: seq<int>, k: nat): int
    requires k < |fl|
  {
    if k == 0 then Null else fl[k - 1]
  }

  function NextOf(fl: seq<int>, k: nat): int
    requires k < |fl|
  {
    if k == |fl| - 1 then Null else fl[k + 1]
  }

  /** The stored links of the k-th free block lead to its list neighbours. */
  ghost predicate LinksAt(mem: map<int, int>, fl: seq<int>, k: nat)
    requires k < |fl|
  {
    GetPrev(mem, fl[k]) == PrevOf(fl, k) && GetNext(mem, fl[k]) == NextOf(fl, k)
  }

  ghost function Starts(bs: seq<Block>): set<int>
  {
    set b | b in bs :: b.start
  }

  ghost function FreeStarts(bs: seq<Block>): set<int>
  {
    set b | b in bs && b.free :: b.start
  }

  ghost function Allocated(bs: seq<Block>): set<Block>
  {
    set b | b in bs && !b.free
  }

  /** The blocks on a free list, as a set. */
  ghost function Listing(fl: seq<int>): set<int>
  {
    set x | x in fl
  }

  /** The free list holds exactly the free blocks. */
  ghost predicate FreeExact(bs: seq<Block>, fl: seq<int>)
  {
    Listing(fl) == FreeStarts(bs)
  }

  /** The free list holds exactly the free blocks, leaving aside the block at p. */
  ghost predicate ExactExcept(bs: seq<Block>, fl: seq<int>, p: int)
  {
    Listing(fl) - {p} == FreeStarts(bs) - {p}
  }


  // ---------------------------------------------------------------------------
  // Lemmas about the tiling

  /** Tiling blocks come in address order and do not overlap. */
  lemma {:induction false} Ordered(bs: seq<Block>, a: int, e: int, i: nat, j: nat)
    requires TilesRange(bs, a, e) && i < j < |bs|
    ensures End(bs[i]) <= bs[j].start
    decreases j - i
  {
    if j > i + 1 {
      Ordered(bs, a, e, i, j - 1);
    }
  }

  /** Every tiling block lies inside the tiled range. */
  lemma Within(bs: seq<Block>, a: int, e: int, i: nat)
    requires TilesRange(bs, a, e) && i < |bs|
    ensures a <= bs[i].start && End(bs[i]) <= e
  {
    if i > 0 {
      Ordered(bs, a, e, 0, i);
    }
    if i < |bs| - 1 {
      Ordered(bs, a, e, i, |bs| - 1);
    }
  }

  /** The block with a given start is unique. */
  lemma StartUnique(bs: seq<Block>, a: int, e: int, i: nat, j: nat)
    requires TilesRange(bs, a, e) && i < |bs| && j < |bs| && bs[i].start == bs[j].start
    ensures i == j
  {
    if i < j {
      Ordered(bs, a, e, i, j);
    } else if j < i {
      Ordered(bs, a, e, j, i);
    }
  }

  /** Blocks with different starts have payload words at different offsets. */
  lemma StartsInStarts(bs: seq<Block>, i: nat)
    requires i < |bs|
    ensures bs[i].start in Starts(bs) && (bs[i].free ==> bs[i].start in FreeStarts(bs))
  {
    assert bs[i] in bs;
  }

  /** The index of the block with a given start. */
  lemma IndexOfStart(bs: seq<Block>, x: int) returns (i: nat)
    requires x in Starts(bs)
    ensures i < |bs| && bs[i].start == x
  {
    var b :| b in bs && b.start == x;
    var j :| 0 <= j < |bs| && bs[j] == b;
    i := j;
  }

  // ---------------------------------------------------------------------------
  // Frame lemmas: which writes keep which part of the invariant

  /** The free list survives any change that leaves the link words of its blocks alone. */
  lemma SameLinks(mem: map<int, int>, mem': map<int, int>, head: int, fl: seq<int>)
    requires Listed(mem, head, fl)
    requires forall k :: 0 <= k < |fl| ==>
               Word(mem', fl[k] + WSize) == Word(mem, fl[k] + WSize) &&
               Word(mem', fl[k] + 2 * WSize) == Word(mem, fl[k] + 2 * WSize)
    ensures Listed(mem', head, fl)
  {
    forall k | 0 <= k < |fl|
      ensures LinksAt(mem', fl, k)
    {
      assert LinksAt(mem, fl, k);
    }
  }

  /**
   * A write inside block j keeps the free list, provided it misses block j's
   * own link words when block j is on the list.
   */
  lemma WriteKeepsListed(mem: map<int, int>, bs: seq<Block>, brk: int, head: int, fl: seq<int>, j: nat, x: int, v: int)
    requires Tiling(bs, brk) && Listed(mem, head, fl)
    requires forall k :: 0 <= k < |fl| ==> fl[k] in Starts(bs)
    requires j < |bs| && bs[j].start <= x < End(bs[j])
    requires bs[j].start in fl ==> x != bs[j].start + WSize && x != bs[j].start + 2 * WSize
    ensures Listed(mem[x := v], head, fl)
  {
    forall k | 0 <= k < |fl|
      ensures x != fl[k] + WSize && x != fl[k] + 2 * WSize
    {
      var m := IndexOfStart(bs, fl[k]);
      if m < j {
        Ordered(bs, HeapStart, brk, m, j);
      } else if m > j {
        Ordered(bs, HeapStart, brk, j, m);
      } else {
        assert bs[j].start in fl;
      }
    }
    SameLinks(mem, mem[x := v], head, fl);
  }

  /** Writing a link word of block j keeps every header, footer and the prologue. */
  lemma LinkWriteKeepsTags(mem: map<int, int>, bs: seq<Block>, brk: int, j: nat, x: int, v: int)
    requires Tiling(bs, brk) && Tags(mem, bs)
    requires j < |bs| && (x == bs[j].start + WSize || x == bs[j].start + 2 * WSize)
    ensures Tags(mem[x := v], bs)
  {
    Within(bs, HeapStart, brk, j);
    forall m | 0 <= m < |bs|
      ensures x != bs[m].start && x != End(bs[m]) - WSize
    {
      if m < j {
        Ordered(bs, HeapStart, brk, m, j);
      } else if m > j {
        Ordered(bs, HeapStart, brk, j, m);
      }
    }
  }

  /** The position of an element in a sequence. */
  lemma PositionOf<T>(s: seq<T>, x: T) returns (m: nat)
    requires x in s
    ensures m < |s| && s[m] == x
  {
    m :| 0 <= m < |s| && s[m] == x;
  }

  /** Replacing the blocks i..j by blocks `ns` that tile the same range keeps the tiling. */
  lemma ReplaceTiles(bs: seq<Block>, brk: int, i: nat, j: nat, ns: seq<Block>)
    requires Tiling(bs, brk) && i <= j < |bs| && TilesRange(ns, bs[i].start, End(bs[j]))
    ensures Tiling(bs[..i] + ns + bs[j + 1..], brk)
  {
    var t := bs[..i] + ns + bs[j + 1..];
    if i < j {
      Ordered(bs, HeapStart, brk, i, j);
    }
    assert ns != [];
    forall m | 0 <= m < |t|
      ensures BlockOk(t[m])
    {
      if m < i {
        assert t[m] == bs[m];
      } else if m < i + |ns| {
        assert t[m] == ns[m - i];
      } else {
        assert t[m] == bs[m - i - |ns| + j + 1];
      }
    }
    forall m | 0 <= m < |t| - 1
      ensures t[m + 1].start == End(t[m])
    {
      if m < i - 1 {
        assert t[m] == bs[m] && t[m + 1] == bs[m + 1];
      } else if m == i - 1 {
        assert t[m] == bs[i - 1] && t[m + 1] == ns[0];
      } else if m < i + |ns| - 1 {
        assert t[m] == ns[m - i] && t[m + 1] == ns[m - i + 1];
      } else if m == i + |ns| - 1 {
        assert t[m] == ns[|ns| - 1] && t[m + 1] == bs[j + 1];
      } else {
        var o := m - i - |ns| + j + 1;
        assert t[m] == bs[o] && t[m + 1] == bs[o + 1];
      }
    }
    assert t[0] == if i == 0 then ns[0] else bs[0];
    assert t[|t| - 1] == if j == |bs| - 1 then ns[|ns| - 1] else bs[|bs| - 1];
  }

  /**
   * Replacing the blocks i..j by tagged blocks `ns`, in a heap that changed
   * only inside their range, keeps every block tagged.
   */
  lemma ReplaceTags(mem: map<int, int>, bs: seq<Block>, brk: int, i: nat, j: nat, ns: seq<Block>, mem': map<int, int>)
    requires Tiling(bs, brk) && Tags(mem, bs) && i <= j < |bs| && TagsOf(mem', ns)
    requires forall x :: x < bs[i].start || End(bs[j]) <= x ==> Word(mem', x) == Word(mem, x)
    ensures Tags(mem', bs[..i] + ns + bs[j + 1..])
  {
    var t := bs[..i] + ns + bs[j + 1..];
    Within(bs, HeapStart, brk, i);
    forall m | 0 <= m < |t|
      ensures Word(mem', t[m].start) == Tag(t[m]) && Word(mem', End(t[m]) - WSize) == Tag(t[m])
    {
      if m < i {
        assert t[m] == bs[m];
        Ordered(bs, HeapStart, brk, m, i);
      } else if m < i + |ns| {
        assert t[m] == ns[m - i];
      } else {
        var o := m - i - |ns| + j + 1;
        assert t[m] == bs[o];
        Ordered(bs, HeapStart, brk, j, o);
      }
    }
  }

  /**
   * Replacing the blocks i..j by blocks tiling the same range keeps the blocks
   * outside that range and adds exactly the new ones.
   */
  lemma ReplaceBlocks(bs: seq<Block>, brk: int, i: nat, j: nat, ns: seq<Block>)
    requires Tiling(bs, brk) && i <= j < |bs| && TilesRange(ns, bs[i].start, End(bs[j]))
    ensures forall b :: b in bs[..i] + ns + bs[j + 1..] <==>
              (b in bs && (b.start < bs[i].start || End(bs[j]) <= b.start)) || b in ns
  {
    ReplacedFrom(bs, brk, i, j, ns);
    ReplacedInto(bs, brk, i, j, ns);
  }

  /** Every block after the replacement is a block outside the range or a new one. */
  lemma ReplacedFrom(bs: seq<Block>, brk: int, i: nat, j: nat, ns: seq<Block>)
    requires Tiling(bs, brk) && i <= j < |bs|
    ensures forall b :: b in bs[..i] + ns + bs[j + 1..] ==>
              (b in bs && (b.start < bs[i].start || End(bs[j]) <= b.start)) || b in ns
  {
    var t := bs[..i] + ns + bs[j + 1..];
    var lo, hi := bs[i].start, End(bs[j]);
    forall b | b in t
      ensures (b in bs && (b.start < lo || hi <= b.start)) || b in ns
    {
      var m := PositionOf(t, b);
      if m < i {
        assert b == bs[m];
        Ordered(bs, HeapStart, brk, m, i);
      } else if m >= i + |ns| {
        var o := m - i - |ns| + j + 1;
        assert b == bs[o];
        Ordered(bs, HeapStart, brk, j, o);
      } else {
        assert b == ns[m - i];
      }
    }
  }

  /** Every block outside the range, and every new block, is there after the replacement. */
  lemma ReplacedInto(bs: seq<Block>, brk: int, i: nat, j: nat, ns: seq<Block>)
    requires Tiling(bs, brk) && i <= j < |bs| && TilesRange(ns, bs[i].start, End(bs[j]))
    ensures forall b :: (b in bs && (b.start < bs[i].start || End(bs[j]) <= b.start)) || b in ns ==>
              b in bs[..i] + ns + bs[j + 1..]
  {
    var t := bs[..i] + ns + bs[j + 1..];
    var lo, hi := bs[i].start, End(bs[j]);
    forall b | (b in bs && (b.start < lo || hi <= b.start)) || b in ns
      ensures b in t
    {
      if b in ns {
        var m := PositionOf(ns, b);
        assert t[i + m] == b;
      } else {
        var m := PositionOf(bs, b);
        if m < i {
          assert t[m] == b;
        } else if m > j {
          assert t[m - j - 1 + i + |ns|] == b;
        } else {
          if m > i {
            Ordered(bs, HeapStart, brk, i, m);
          }
          if m < j {
            Ordered(bs, HeapStart, brk, m, j);
          }
        }
      }
    }
  }

  /**
   * Replacing the blocks i and j (j at most i + 1) by `ns` keeps every other
   * block and adds exactly the new ones.
   */
  lemma Replaced(bs: seq<Block>, brk: int, i: nat, j: nat, ns: seq<Block>)
    requires Tiling(bs, brk) && i <= j <= i + 1 && j < |bs| && TilesRange(ns, bs[i].start, End(bs[j]))
    ensures bs[i] in bs && bs[j] in bs
    ensures forall b :: b in bs[..i] + ns + bs[j + 1..] <==> (b in bs && b != bs[i] && b != bs[j]) || b in ns
    ensures forall b :: b in bs && (b.start == bs[i].start || b.start == bs[j].start) ==> b == bs[i] || b == bs[j]
  {
    Within(bs, HeapStart, brk, j);
    if i < j {
      Ordered(bs, HeapStart, brk, i, j);
    }
    ReplaceBlocks(bs, brk, i, j, ns);
    OnlyInRange(bs, brk, i, j);
  }

  /** A block is followed by another exactly when it ends before the break. */
  lemma Successor(bs: seq<Block>, brk: int, i: nat)
    requires Tiling(bs, brk) && i < |bs|
    ensures i + 1 < |bs| <==> End(bs[i]) < brk
    ensures i + 1 < |bs| ==> bs[i + 1].start == End(bs[i]) && End(bs[i + 1]) <= brk
  {
    if i + 1 < |bs| {
      Within(bs, HeapStart, brk, i + 1);
    }
  }

  /** Only the blocks i and j (j at most i + 1) start inside the range they cover. */
  lemma OnlyInRange(bs: seq<Block>, brk: int, i: nat, j: nat)
    requires Tiling(bs, brk) && i <= j <= i + 1 && j < |bs|
    ensures forall b :: b in bs && bs[i].start <= b.start < End(bs[j]) ==> b == bs[i] || b == bs[j]
  {
    forall b | b in bs && bs[i].start <= b.start < End(bs[j])
      ensures b == bs[i] || b == bs[j]
    {
      var m := PositionOf(bs, b);
      if m < i {
        Ordered(bs, HeapStart, brk, m, i);
      } else if m > j {
        Ordered(bs, HeapStart, brk, j, m);
      }
    }
  }

  // ---------------------------------------------------------------------------
  // Block transitions: the tag writes of each operation and what they keep

  /** SET_HEADER(p, size, alloc) followed by SET_FOOTER(p, size, alloc). */
  function Retag(mem: map<int, int>, p: int, size: nat, alloc: nat): map<int, int>
  {
    mem[p := Pack(size, alloc)][p + size - WSize := Pack(size, alloc)]
  }

  /**
   * GET_SIZE and GET_ALLOC at a block read its fields, and so do GET_B_SIZE and
   * GET_B_ALLOC at the address just past it.
   */
  lemma ReadTag(mem: map<int, int>, bs: seq<Block>, brk: int, i: nat)
    requires Tiling(bs, brk) && Tags(mem, bs) && brk < 0x8000_0000 && i < |bs|
    ensures GetSize(mem, bs[i].start) == bs[i].size && GetAlloc(mem, bs[i].start) == AllocBit(bs[i])
    ensures GetBSize(mem, End(bs[i])) == bs[i].size && GetBAlloc(mem, End(bs[i])) == AllocBit(bs[i])
  {
    Within(bs, HeapStart, brk, i);
    PackFields(bs[i].size, AllocBit(bs[i]));
  }

  /**
   * GET_B_SIZE and GET_B_ALLOC at block i read the footer of block i - 1, or
   * the prologue, PACK(0, 1), at the first block.
   */
  lemma ReadBefore(mem: map<int, int>, bs: seq<Block>, brk: int, i: nat)
    requires Tiling(bs, brk) && Tags(mem, bs) && brk < 0x8000_0000 && i < |bs|
    ensures i == 0 ==> bs[i].start == HeapStart && GetBSize(mem, bs[i].start) == 0 && GetBAlloc(mem, bs[i].start) == 1
    ensures 0 < i ==> && bs[i].start - GetBSize(mem, bs[i].start) == bs[i - 1].start
                      && GetBAlloc(mem, bs[i].start) == AllocBit(bs[i - 1])
                      && HeapStart <= bs[i - 1].start
  {
    if i == 0 {
      PackFields(0, 1);
      assert Unsigned(mem, bs[i].start - WSize) == 1;
    } else {
      ReadTag(mem, bs, brk, i - 1);
      Within(bs, HeapStart, brk, i - 1);
      assert End(bs[i - 1]) == bs[i].start;
    }
  }

  /** Block i with its alloc bit changed. */
  ghost function Flip(bs: seq<Block>, i: nat, free: bool): seq<Block>
    requires i < |bs|
  {
    bs[..i] + [Block(bs[i].start, bs[i].size, free)] + bs[i + 1..]
  }

  /** Rewriting the tags of block i with a new alloc bit keeps the tiling and the tags. */
  lemma FlipShape(mem: map<int, int>, bs: seq<Block>, brk: int, i: nat, free: bool, size: int, alloc: nat)
    requires Tiling(bs, brk) && Tags(mem, bs) && i < |bs|
    requires size == bs[i].size && alloc == (if free then 0 else 1)
    ensures Tiling(Flip(bs, i, free), brk) && Tags(Retag(mem, bs[i].start, size, alloc), Flip(bs, i, free))
  {
    var p := bs[i].start;
    var b := Block(p, size, free);
    assert BlockOk(bs[i]);
    ReplaceTiles(bs, brk, i, i, [b]);
    OneTag(mem, p, size, free, alloc);
    ReplaceTags(mem, bs, brk, i, i, [b], Retag(mem, p, size, alloc));
    assert Flip(bs, i, free) == bs[..i] + [b] + bs[i + 1..];
  }

  /** Header and footer writes of block i keep the free list. */
  lemma RetagListed(mem: map<int, int>, bs: seq<Block>, brk: int, head: int, fl: seq<int>, i: nat, size: int, alloc: nat)
    requires Tiling(bs, brk) && Listed(mem, head, fl)
    requires forall k :: 0 <= k < |fl| ==> fl[k] in Starts(bs)
    requires i < |bs| && MinSize <= size && bs[i].start + size <= End(bs[i])
    ensures Listed(Retag(mem, bs[i].start, size, alloc), head, fl)
  {
    var p := bs[i].start;
    WriteKeepsListed(mem, bs, brk, head, fl, i, p, Pack(size, alloc));
    WriteKeepsListed(mem[p := Pack(size, alloc)], bs, brk, head, fl, i, p + size - WSize, Pack(size, alloc));
  }

  /** The sets of blocks after block i changes its alloc bit. */
  lemma FlipSets(bs: seq<Block>, brk: int, i: nat, free: bool)
    requires Tiling(bs, brk) && i < |bs|
    ensures var b := Block(bs[i].start, bs[i].size, free);
            var t := Flip(bs, i, free);
            && Starts(t) == Starts(bs)
            && FreeStarts(t) == (if free then FreeStarts(bs) + {b.start} else FreeStarts(bs) - {b.start})
            && Allocated(t) == (if free then Allocated(bs) - {bs[i]} else Allocated(bs) - {bs[i]} + {b})
  {
    FlipStarts(bs, brk, i, free);
    FlipFree(bs, brk, i, free);
    FlipAllocated(bs, brk, i, free);
  }

  lemma FlipStarts(bs: seq<Block>, brk: int, i: nat, free: bool)
    requires Tiling(bs, brk) && i < |bs|
    ensures Starts(Flip(bs, i, free)) == Starts(bs)
  {
    Replaced(bs, brk, i, i, [Block(bs[i].start, bs[i].size, free)]);
  }

  lemma FlipFree(bs: seq<Block>, brk: int, i: nat, free: bool)
    requires Tiling(bs, brk) && i < |bs|
    ensures FreeStarts(Flip(bs, i, free)) == if free then FreeStarts(bs) + {bs[i].start} else FreeStarts(bs) - {bs[i].start}
  {
    Replaced(bs, brk, i, i, [Block(bs[i].start, bs[i].size, free)]);
  }

  lemma FlipAllocated(bs: seq<Block>, brk: int, i: nat, free: bool)
    requires Tiling(bs, brk) && i < |bs|
    ensures var b := Block(bs[i].start, bs[i].size, free);
            Allocated(Flip(bs, i, free)) == if free then Allocated(bs) - {bs[i]} else Allocated(bs) - {bs[i]} + {b}
  {
    Replaced(bs, brk, i, i, [Block(bs[i].start, bs[i].size, free)]);
  }


  /** Blocks i and i + 1 made into one block. */
  ghost function Merge(bs: seq<Block>, i: nat, free: bool): seq<Block>
    requires i + 1 < |bs|
  {
    bs[..i] + [Block(bs[i].start, bs[i].size + bs[i + 1].size, free)] + bs[i + 2..]
  }

  /** Tagging blocks i and i + 1 as one block keeps the tiling and the tags. */
  lemma MergeShape(mem: map<int, int>, bs: seq<Block>, brk: int, i: nat, free: bool, size: int, alloc: nat)
    requires Tiling(bs, brk) && Tags(mem, bs) && i + 1 < |bs|
    requires size == bs[i].size + bs[i + 1].size && alloc == (if free then 0 else 1)
    ensures Tiling(Merge(bs, i, free), brk) && Tags(Retag(mem, bs[i].start, size, alloc), Merge(bs, i, free))
  {
    var b := Block(bs[i].start, size, free);
    assert Merge(bs, i, free) == bs[..i] + [b] + bs[i + 2..];
    MergeTiles(bs, brk, i, b);
    MergeTags(mem, bs, brk, i, b, alloc);
  }

  /** Blocks i and i + 1 replaced by one block b covering both keep the tiling. */
  lemma MergeTiles(bs: seq<Block>, brk: int, i: nat, b: Block)
    requires Tiling(bs, brk) && i + 1 < |bs|
    requires b.start == bs[i].start && b.size == bs[i].size + bs[i + 1].size
    ensures Tiling(bs[..i] + [b] + bs[i + 2..], brk)
  {
    assert BlockOk(b) && End(b) == End(bs[i + 1]) by {
      assert BlockOk(bs[i]) && BlockOk(bs[i + 1]) && bs[i + 1].start == End(bs[i]);
    }
    var ns := [b];
    assert ns[0] == b && ns[|ns| - 1] == b;
    assert TilesRange(ns, bs[i].start, End(bs[i + 1]));
    ReplaceTiles(bs, brk, i, i + 1, ns);
  }

  /** The tag writes of one block b covering blocks i and i + 1 keep every block tagged. */
  lemma MergeTags(mem: map<int, int>, bs: seq<Block>, brk: int, i: nat, b: Block, alloc: nat)
    requires Tiling(bs, brk) && Tags(mem, bs) && i + 1 < |bs|
    requires b.start == bs[i].start && b.size == bs[i].size + bs[i + 1].size && alloc == AllocBit(b)
    ensures Tags(Retag(mem, b.start, b.size, alloc), bs[..i] + [b] + bs[i + 2..])
  {
    assert b.size >= MinSize && b.size % Alignment == 0 && End(b) == End(bs[i + 1]) by {
      assert BlockOk(bs[i]) && BlockOk(bs[i + 1]) && bs[i + 1].start == End(bs[i]);
    }
    OneTag(mem, b.start, b.size, b.free, alloc);
    ReplaceTags(mem, bs, brk, i, i + 1, [b], Retag(mem, b.start, b.size, alloc));
  }

  /** The tag writes of one block of `size` bytes at p tag it and touch nothing outside it. */
  lemma OneTag(mem: map<int, int>, p: int, size: int, free: bool, alloc: nat)
    requires size >= MinSize && size % Alignment == 0 && alloc == (if free then 0 else 1)
    ensures var mem' := Retag(mem, p, size, alloc);
            && TagsOf(mem', [Block(p, size, free)])
            && forall x :: x < p || p + size <= x ==> Word(mem', x) == Word(mem, x)
  {
    var b := Block(p, size, free);
    PackFields(size, alloc);
    var mem' := Retag(mem, p, size, alloc);
    assert Word(mem', b.start) == Tag(b) && Word(mem', End(b) - WSize) == Tag(b);
    assert [b][0] == b;
  }

  /** The merged header and footer writes keep the free list. */
  lemma MergeListed(mem: map<int, int>, bs: seq<Block>, brk: int, head: int, fl: seq<int>, i: nat, size: int, alloc: nat)
    requires Tiling(bs, brk) && Listed(mem, head, fl)
    requires forall k :: 0 <= k < |fl| ==> fl[k] in Starts(bs)
    requires i + 1 < |bs| && size == bs[i].size + bs[i + 1].size
    ensures Listed(Retag(mem, bs[i].start, size, alloc), head, fl)
  {
    var p := bs[i].start;
    var v := Pack(size, alloc);
    WriteKeepsListed(mem, bs, brk, head, fl, i, p, v);
    WriteKeepsListed(mem[p := v], bs, brk, head, fl, i + 1, p + size - WSize, v);
  }

  /** The sets of blocks after blocks i and i + 1, the second free, merge. */
  lemma MergeSets(bs: seq<Block>, brk: int, i: nat, free: bool)
    requires Tiling(bs, brk) && i + 1 < |bs| && bs[i + 1].free
    ensures var b := Block(bs[i].start, bs[i].size + bs[i + 1].size, free);
            var t := Merge(bs, i, free);
            && Starts(t) == Starts(bs) - {bs[i + 1].start}
            && FreeStarts(t) == FreeStarts(bs) - {bs[i].start, bs[i + 1].start} + (if free then {b.start} else {})
            && Allocated(t) == Allocated(bs) - {bs[i]} + (if free then {} else {b})
  {
    MergeStarts(bs, brk, i, free);
    MergeFree(bs, brk, i, free);
    MergeAllocated(bs, brk, i, free);
  }

  lemma MergeStarts(bs: seq<Block>, brk: int, i: nat, free: bool)
    requires Tiling(bs, brk) && i + 1 < |bs|
    ensures Starts(Merge(bs, i, free)) == Starts(bs) - {bs[i + 1].start}
  {
    MergedStartsKept(bs, brk, i, free);
    KeptStartsMerged(bs, brk, i, free);
  }

  /** Every start after the merge was a start before, and not that of block i + 1. */
  lemma MergedStartsKept(bs: seq<Block>, brk: int, i: nat, free: bool)
    requires Tiling(bs, brk) && i + 1 < |bs|
    ensures forall x :: x in Starts(Merge(bs, i, free)) ==> x in Starts(bs) && x != bs[i + 1].start
  {
    var t := Merge(bs, i, free);
    forall x | x in Starts(t)
      ensures x in Starts(bs) && x != bs[i + 1].start
    {
      var c :| c in t && c.start == x;
      var m :| 0 <= m < |t| && t[m] == c;
      MergedStartAt(bs, brk, i, free, m);
    }
  }

  /** The m-th block after the merge starts where a block other than i + 1 started. */
  lemma MergedStartAt(bs: seq<Block>, brk: int, i: nat, free: bool, m: nat)
    requires Tiling(bs, brk) && i + 1 < |bs| && m + 1 < |bs|
    ensures var x := Merge(bs, i, free)[m].start; x in Starts(bs) && x != bs[i + 1].start
  {
    var t := Merge(bs, i, free);
    var k := if m <= i then m else m + 1;
    assert t[m].start == bs[k].start && bs[k] in bs;
    if k <= i {
      StartsIncrease(bs, brk, k, i + 1);
    } else {
      StartsIncrease(bs, brk, i + 1, k);
    }
  }

  /** Every start before the merge but that of block i + 1 is a start after it. */
  lemma KeptStartsMerged(bs: seq<Block>, brk: int, i: nat, free: bool)
    requires Tiling(bs, brk) && i + 1 < |bs|
    ensures forall x :: x in Starts(bs) && x != bs[i + 1].start ==> x in Starts(Merge(bs, i, free))
  {
    var b := Block(bs[i].start, bs[i].size + bs[i + 1].size, free);
    var t := Merge(bs, i, free);
    forall x | x in Starts(bs) && x != bs[i + 1].start
      ensures x in Starts(t)
    {
      var c :| c in bs && c.start == x;
      var m :| 0 <= m < |bs| && bs[m] == c;
      if m < i {
        assert t[m] == c;
      } else if m == i {
        assert t[i] == b;
      } else {
        assert t[m - 1] == c;
      }
    }
  }

  /** Tiling blocks start at increasing addresses. */
  lemma StartsIncrease(bs: seq<Block>, brk: int, m: nat, j: nat)
    requires Tiling(bs, brk) && m < j < |bs|
    ensures bs[m].start < bs[j].start
  {
    assert BlockOk(bs[m]);
    Ordered(bs, HeapStart, brk, m, j);
  }

  lemma MergeFree(bs: seq<Block>, brk: int, i: nat, free: bool)
    requires Tiling(bs, brk) && i + 1 < |bs|
    ensures FreeStarts(Merge(bs, i, free)) ==
            FreeStarts(bs) - {bs[i].start, bs[i + 1].start} + (if free then {bs[i].start} else {})
  {
    var b := Block(bs[i].start, bs[i].size + bs[i + 1].size, free);
    var t := Merge(bs, i, free);
    var want := FreeStarts(bs) - {bs[i].start, bs[i + 1].start} + (if free then {bs[i].start} else {});
    MergedMembers(bs, brk, i, free);
    forall x | x in FreeStarts(t)
      ensures x in want
    {
      var c :| c in t && c.free && c.start == x;
      if c != b {
        assert c in bs && c != bs[i] && c != bs[i + 1];
        assert x != bs[i].start && x != bs[i + 1].start;
      }
    }
    forall x | x in want
      ensures x in FreeStarts(t)
    {
      if free && x == bs[i].start {
        assert b in t && b.free;
      } else {
        var c :| c in bs && c.free && c.start == x;
        assert c != bs[i] && c != bs[i + 1];
        assert c in t;
      }
    }
  }

  /** The blocks after a merge: all but blocks i and i + 1, and the merged block. */
  lemma MergedMembers(bs: seq<Block>, brk: int, i: nat, free: bool)
    requires Tiling(bs, brk) && i + 1 < |bs|
    ensures var b := Block(bs[i].start, bs[i].size + bs[i + 1].size, free);
            forall x :: x in Merge(bs, i, free) <==> (x in bs && x != bs[i] && x != bs[i + 1]) || x == b
    ensures forall x :: x in bs && (x.start == bs[i].start || x.start == bs[i + 1].start) ==> x == bs[i] || x == bs[i + 1]
  {
    Ordered(bs, HeapStart, brk, i, i + 1);
    Replaced(bs, brk, i, i + 1, [Block(bs[i].start, bs[i].size + bs[i + 1].size, free)]);
  }

  /** Merging free block i + 1 into block i trades block i for the merged block among the blocks in use. */
  lemma MergeAllocated(bs: seq<Block>, brk: int, i: nat, free: bool)
    requires Tiling(bs, brk) && i + 1 < |bs| && bs[i + 1].free
    ensures var b := Block(bs[i].start, bs[i].size + bs[i + 1].size, free);
            Allocated(Merge(bs, i, free)) == Allocated(bs) - {bs[i]} + (if free then {} else {b})
  {
    var b := Block(bs[i].start, bs[i].size + bs[i + 1].size, free);
    var merged := Merge(bs, i, free);
    var want := Allocated(bs) - {bs[i]} + (if free then {} else {b});
    MergedMembers(bs, brk, i, free);
    forall x | x in Allocated(merged)
      ensures x in want
    {
      if x != b {
        assert x in bs && x != bs[i] && !x.free;
      }
    }
    forall x | x in want
      ensures x in Allocated(merged)
    {
      if x != b {
        assert x in bs && x != bs[i + 1];
      }
    }
  }

  /** Every list entry other than block i + 1 is still a block start once block i + 1 is merged away. */
  lemma OthersStay(mem: map<int, int>, bs: seq<Block>, brk: int, head: int, fl: seq<int>, i: nat, k: nat, free: bool)
    requires Tiling(bs, brk) && Listed(mem, head, fl) && i + 1 < |bs|
    requires forall j :: 0 <= j < |fl| ==> fl[j] in Starts(bs)
    requires k < |fl| && fl[k] == bs[i + 1].start
    ensures forall j :: 0 <= j < |fl| && j != k ==> fl[j] in Starts(Merge(bs, i, free))
  {
    MergeStarts(bs, brk, i, free);
  }

  /** After a merge into block i and the removal of block i + 1 from the list, the list still matches up to block i. */
  lemma MergedExact(bs: seq<Block>, brk: int, fl: seq<int>, fl': seq<int>, i: nat, free: bool)
    requires Tiling(bs, brk) && i + 1 < |bs| && bs[i + 1].free
    requires ExactExcept(bs, fl, bs[i].start)
    requires Listing(fl') == Listing(fl) - {bs[i + 1].start}
    ensures ExactExcept(Merge(bs, i, free), fl', bs[i].start)
    ensures Listing(fl') == Listing(fl) - (Starts(bs) - Starts(Merge(bs, i, free)))
  {
    var s, n := bs[i].start, bs[i + 1].start;
    Ordered(bs, HeapStart, brk, i, i + 1);
    assert BlockOk(bs[i]) && s != n;
    MergeStarts(bs, brk, i, free);
    MergeFree(bs, brk, i, free);
    assert FreeStarts(Merge(bs, i, free)) - {s} == FreeStarts(bs) - {s} - {n};
    assert Listing(fl') - {s} == Listing(fl) - {s} - {n};
  }

  /** Merging free block j + 1, which is off the list, into free block j leaves the list exact. */
  lemma MergedLeft(bs: seq<Block>, brk: int, fl: seq<int>, j: nat)
    requires Tiling(bs, brk) && j + 1 < |bs| && bs[j].free && bs[j + 1].free
    requires ExactExcept(bs, fl, bs[j + 1].start) && bs[j + 1].start !in fl
    requires forall k :: 0 <= k < |fl| ==> fl[k] in Starts(bs)
    ensures FreeExact(Merge(bs, j, true), fl)
    ensures forall k :: 0 <= k < |fl| ==> fl[k] in Starts(Merge(bs, j, true))
    ensures Allocated(Merge(bs, j, true)) == Allocated(bs)
  {
    var s, n := bs[j].start, bs[j + 1].start;
    Ordered(bs, HeapStart, brk, j, j + 1);
    assert BlockOk(bs[j]) && s != n;
    StartsInStarts(bs, j);
    MergeStarts(bs, brk, j, true);
    MergeFree(bs, brk, j, true);
    MergeAllocated(bs, brk, j, true);
    assert n !in Listing(fl);
    assert Listing(fl) == FreeStarts(bs) - {n};
    assert FreeStarts(Merge(bs, j, true)) == FreeStarts(bs) - {n};
    assert bs[j] !in Allocated(bs);
  }

  /** Block i cut into an allocated block of `asize` bytes and a free remainder. */
  ghost function Split(bs: seq<Block>, i: nat, asize: int): seq<Block>
    requires i < |bs|
  {
    bs[..i] + [Block(bs[i].start, asize, false), Block(bs[i].start + asize, bs[i].size - asize, true)] + bs[i + 1..]
  }

  /** Where the two halves of a split sit. */
  lemma SplitBlocks(bs: seq<Block>, i: nat, asize: int, fsize: int)
    requires i < |bs| && fsize == bs[i].size - asize
    ensures |Split(bs, i, asize)| == |bs| + 1
    ensures Split(bs, i, asize)[i + 1] == Block(bs[i].start + asize, fsize, true)
  {
    var t := Split(bs, i, asize);
    assert t[i + 1] == [Block(bs[i].start, asize, false), Block(bs[i].start + asize, fsize, true)][1];
  }

  /** The four tag writes of `split_explicit` keep the tiling and the tags. */
  lemma SplitShape(mem: map<int, int>, bs: seq<Block>, brk: int, i: nat, p: int, asize: int, fsize: int)
    requires Tiling(bs, brk) && Tags(mem, bs) && i < |bs| && bs[i].start == p
    requires asize % Alignment == 0 && asize >= MinSize && fsize == bs[i].size - asize && fsize >= MinSize
    ensures Tiling(Split(bs, i, asize), brk)
    ensures Tags(Retag(Retag(mem, p, asize, 1), p + asize, fsize, 0), Split(bs, i, asize))
  {
    var a := Block(p, asize, false);
    var f := Block(p + asize, fsize, true);
    var mem' := Retag(Retag(mem, p, asize, 1), p + asize, fsize, 0);
    assert bs[..i] + [a, f] + bs[i + 1..] == Split(bs, i, asize);
    Halves(bs, brk, i, asize);
    ReplaceTiles(bs, brk, i, i, [a, f]);
    assert BlockOk(bs[i]);
    SplitTags(mem, p, bs[i].size, asize, fsize);
    ReplaceTags(mem, bs, brk, i, i, [a, f], mem');
  }

  /** The split writes tag both halves and touch nothing outside block i. */
  lemma SplitTags(mem: map<int, int>, p: int, size: int, asize: int, fsize: int)
    requires (p + WSize) % Alignment == 0 && size % Alignment == 0
    requires asize % Alignment == 0 && asize >= MinSize && fsize == size - asize && fsize >= MinSize
    ensures var mem' := Retag(Retag(mem, p, asize, 1), p + asize, fsize, 0);
            && TagsOf(mem', [Block(p, asize, false), Block(p + asize, fsize, true)])
            && forall x :: x < p || p + size <= x ==> Word(mem', x) == Word(mem, x)
  {
    var a := Block(p, asize, false);
    var f := Block(p + asize, fsize, true);
    PackFields(asize, 1);
    PackFields(fsize, 0);
    var mem' := Retag(Retag(mem, p, asize, 1), p + asize, fsize, 0);
    assert Word(mem', a.start) == Tag(a) && Word(mem', End(a) - WSize) == Tag(a);
    assert Word(mem', f.start) == Tag(f) && Word(mem', End(f) - WSize) == Tag(f);
    var t := [a, f];
    assert t[0] == a && t[1] == f;
  }

  /** The split writes land in block i, which is off the free list, so they keep it. */
  lemma SplitListed(mem: map<int, int>, bs: seq<Block>, brk: int, head: int, fl: seq<int>, i: nat,
                    p: int, asize: int, fsize: int)
    requires Tiling(bs, brk) && Listed(mem, head, fl)
    requires forall k :: 0 <= k < |fl| ==> fl[k] in Starts(bs)
    requires i < |bs| && bs[i].start == p && p !in fl
    requires asize >= MinSize && fsize == bs[i].size - asize && fsize >= MinSize
    ensures Listed(Retag(Retag(mem, p, asize, 1), p + asize, fsize, 0), head, fl)
  {
    var m2 := Retag(mem, p, asize, 1);
    RetagListed(mem, bs, brk, head, fl, i, asize, 1);
    WriteKeepsListed(m2, bs, brk, head, fl, i, p + asize, Pack(fsize, 0));
    WriteKeepsListed(m2[p + asize := Pack(fsize, 0)], bs, brk, head, fl, i, p + asize + fsize - WSize, Pack(fsize, 0));
  }

  /** The sets of blocks after block i is split. */
  lemma SplitSets(bs: seq<Block>, brk: int, i: nat, asize: int)
    requires Tiling(bs, brk) && i < |bs| && asize % Alignment == 0
    requires MinSize <= asize && bs[i].size - asize >= MinSize
    ensures var a := Block(bs[i].start, asize, false);
            var f := Block(bs[i].start + asize, bs[i].size - asize, true);
            var t := Split(bs, i, asize);
            && f.start !in Starts(bs)
            && Starts(t) == Starts(bs) + {f.start}
            && FreeStarts(t) == FreeStarts(bs) - {a.start} + {f.start}
            && Allocated(t) == Allocated(bs) - {bs[i]} + {a}
  {
    SplitStarts(bs, brk, i, asize);
    SplitFree(bs, brk, i, asize);
    SplitAllocated(bs, brk, i, asize);
  }

  /** The two halves of a split block tile its range. */
  lemma Halves(bs: seq<Block>, brk: int, i: nat, asize: int)
    requires Tiling(bs, brk) && i < |bs| && asize % Alignment == 0
    requires MinSize <= asize && bs[i].size - asize >= MinSize
    ensures TilesRange([Block(bs[i].start, asize, false), Block(bs[i].start + asize, bs[i].size - asize, true)],
                       bs[i].start, End(bs[i]))
  {
    var b := bs[i];
    assert BlockOk(b);
    CutTiles(b.start, b.size, asize);
  }

  /** A block of `size` bytes at p cut after `asize` bytes. */
  lemma CutTiles(p: int, size: int, asize: int)
    requires (p + WSize) % Alignment == 0 && size % Alignment == 0
    requires asize % Alignment == 0 && MinSize <= asize && size - asize >= MinSize
    ensures TilesRange([Block(p, asize, false), Block(p + asize, size - asize, true)], p, p + size)
  {
    var t := [Block(p, asize, false), Block(p + asize, size - asize, true)];
    assert (p + asize + WSize) % Alignment == 0;
    assert BlockOk(t[0]) && BlockOk(t[1]) && t[1].start == End(t[0]);
  }

  lemma SplitStarts(bs: seq<Block>, brk: int, i: nat, asize: int)
    requires Tiling(bs, brk) && i < |bs| && asize % Alignment == 0
    requires MinSize <= asize && bs[i].size - asize >= MinSize
    ensures bs[i].start + asize !in Starts(bs)
    ensures Starts(Split(bs, i, asize)) == Starts(bs) + {bs[i].start + asize}
  {
    Halves(bs, brk, i, asize);
    Replaced(bs, brk, i, i, [Block(bs[i].start, asize, false), Block(bs[i].start + asize, bs[i].size - asize, true)]);
    OnlyInRange(bs, brk, i, i);
  }

  lemma SplitFree(bs: seq<Block>, brk: int, i: nat, asize: int)
    requires Tiling(bs, brk) && i < |bs| && asize % Alignment == 0
    requires MinSize <= asize && bs[i].size - asize >= MinSize
    ensures FreeStarts(Split(bs, i, asize)) == FreeStarts(bs) - {bs[i].start} + {bs[i].start + asize}
  {
    Halves(bs, brk, i, asize);
    Replaced(bs, brk, i, i, [Block(bs[i].start, asize, false), Block(bs[i].start + asize, bs[i].size - asize, true)]);
    OnlyInRange(bs, brk, i, i);
  }

  lemma SplitAllocated(bs: seq<Block>, brk: int, i: nat, asize: int)
    requires Tiling(bs, brk) && i < |bs| && asize % Alignment == 0
    requires MinSize <= asize && bs[i].size - asize >= MinSize
    ensures Allocated(Split(bs, i, asize)) == Allocated(bs) - {bs[i]} + {Block(bs[i].start, asize, false)}
  {
    Halves(bs, brk, i, asize);
    Replaced(bs, brk, i, i, [Block(bs[i].start, asize, false), Block(bs[i].start + asize, bs[i].size - asize, true)]);
  }


  /** The block `find_fit` tags at the old break, after `mem_sbrk` succeeds, keeps the tiling and the tags. */
  lemma GrowShape(mem: map<int, int>, bs: seq<Block>, brk: int, size: int)
    requires HeapStart <= brk && Tiling(bs, brk) && Tags(mem, bs)
    requires size % Alignment == 0 && size >= MinSize && (brk + WSize) % Alignment == 0
    ensures Tiling(bs + [Block(brk, size, false)], brk + size)
    ensures Tags(Retag(mem, brk, size, 1), bs + [Block(brk, size, false)])
  {
    var b := Block(brk, size, false);
    var t := bs + [b];
    var mem' := Retag(mem, brk, size, 1);
    PackFields(size, 1);
    assert Word(mem', 0) == Word(mem, 0);
    forall m | 0 <= m < |t|
      ensures BlockOk(t[m])
      ensures Word(mem', t[m].start) == Tag(t[m]) && Word(mem', End(t[m]) - WSize) == Tag(t[m])
    {
      if m < |bs| {
        assert t[m] == bs[m];
        Within(bs, HeapStart, brk, m);
      }
    }
    forall m | 0 <= m < |t| - 1
      ensures t[m + 1].start == End(t[m])
    {
      assert t[m] == bs[m];
    }
  }

  /** The new block lies past every list block, so the free list is kept. */
  lemma GrowListed(mem: map<int, int>, bs: seq<Block>, brk: int, head: int, fl: seq<int>, size: int)
    requires Tiling(bs, brk) && Listed(mem, head, fl)
    requires forall k :: 0 <= k < |fl| ==> fl[k] in Starts(bs)
    requires size >= MinSize
    ensures Listed(Retag(mem, brk, size, 1), head, fl)
  {
    var mem' := Retag(mem, brk, size, 1);
    forall k | 0 <= k < |fl|
      ensures Word(mem', fl[k] + WSize) == Word(mem, fl[k] + WSize)
      ensures Word(mem', fl[k] + 2 * WSize) == Word(mem, fl[k] + 2 * WSize)
    {
      var m := IndexOfStart(bs, fl[k]);
      Within(bs, HeapStart, brk, m);
    }
    SameLinks(mem, mem', head, fl);
  }

  /** The sets of blocks after the new allocated block b is appended at the old break. */
  lemma GrowSets(bs: seq<Block>, brk: int, fl: seq<int>, b: Block)
    requires Tiling(bs, brk) && b.start == brk && !b.free
    requires FreeExact(bs, fl) && forall k :: 0 <= k < |fl| ==> fl[k] in Starts(bs)
    ensures FreeExact(bs + [b], fl) && forall k :: 0 <= k < |fl| ==> fl[k] in Starts(bs + [b])
    ensures Allocated(bs + [b]) == Allocated(bs) + {b} && b !in Allocated(bs)
  {
    if b in bs {
      var m := PositionOf(bs, b);
      Within(bs, HeapStart, brk, m);
    }
    assert FreeStarts(bs + [b]) == FreeStarts(bs);
    assert Starts(bs + [b]) == Starts(bs) + {brk};
  }

  // ---------------------------------------------------------------------------
  // Boundary-tag coalescing: no two free blocks side by side

  /** Blocks k and k + 1 are not both free. */
  ghost predicate Apart(bs: seq<Block>, k: nat)
    requires k + 1 < |bs|
  {
    !bs[k].free || !bs[k + 1].free
  }

  /** Every free block lies between allocated blocks (or the ends of the heap). */
  ghost predicate NoAdjacentFree(bs: seq<Block>)
  {
    forall k :: 0 <= k < |bs| - 1 ==> Apart(bs, k)
  }

  /** `coalesce_right` on free block i: it absorbs the next block when that one is free. */
  ghost function RightCoalesced(bs: seq<Block>, i: nat): seq<Block>
    requires i < |bs|
  {
    if i + 1 < |bs| && bs[i + 1].free then Merge(bs, i, true) else bs
  }

  /** `coalesce_left` on free block i: the previous block absorbs it when that one is free. */
  ghost function LeftCoalesced(bs: seq<Block>, i: nat): seq<Block>
    requires i < |bs|
  {
    if 0 < i && bs[i - 1].free then Merge(bs, i - 1, true) else bs
  }

  /** `coalesce` on free block i: first to the right, then to the left. */
  ghost function Coalesced(bs: seq<Block>, i: nat): seq<Block>
    requires i < |bs|
  {
    LeftCoalesced(RightCoalesced(bs, i), i)
  }

  /** The blocks after `free` of block i: it is marked free and coalesced. */
  ghost function Freed(bs: seq<Block>, i: nat): seq<Block>
    requires i < |bs|
  {
    Coalesced(Flip(bs, i, true), i)
  }

  // ---------------------------------------------------------------------------
  // The order of the free list (LIFO: add_front pushes, remove_free unlinks)

  /** The free list without its first entry x, the others in their order. */
  ghost function Drop(fl: seq<int>, x: int): seq<int>
  {
    if fl == [] then []
    else if fl[0] == x then fl[1..]
    else [fl[0]] + Drop(fl[1..], x)
  }

  /** On a list of distinct blocks, unlinking entry k is dropping the block it holds. */
  lemma {:induction false} DropAt(fl: seq<int>, k: nat)
    requires k < |fl| && forall a, b :: 0 <= a < b < |fl| ==> fl[a] != fl[b]
    ensures Drop(fl, fl[k]) == RemoveAt(fl, k)
  {
    if k > 0 {
      assert fl[0] != fl[k];
      assert fl[1..][k - 1] == fl[k];
      DropAt(fl[1..], k - 1);
      assert RemoveAt(fl, k) == [fl[0]] + RemoveAt(fl[1..], k - 1);
    }
  }

  /** The free list after `coalesce_right` on block i: a free successor leaves it. */
  ghost function RightUnlisted(bs: seq<Block>, fl: seq<int>, i: nat): seq<int>
  {
    if i + 1 < |bs| && bs[i + 1].free then Drop(fl, bs[i + 1].start) else fl
  }

  /**
   * The free list after `free` of block i: a free successor leaves it, and
   * the freed block is pushed at the head unless a free predecessor absorbs it.
   */
  ghost function FreedList(bs: seq<Block>, fl: seq<int>, i: nat): seq<int>
    requires i < |bs|
  {
    var t := RightUnlisted(bs, fl, i);
    if 0 < i && bs[i - 1].free then t else [bs[i].start] + t
  }

  /** Marking block i free first changes neither neighbour, so FreedList reads as the steps of `free`. */
  lemma FreedListSteps(bs: seq<Block>, fl: seq<int>, i: nat, fl': seq<int>, r: int, p: int)
    requires i < |bs| && p == bs[i].start
    requires fl' == RightUnlisted(Flip(bs, i, true), fl, i)
    requires r == p <==> !(0 < i && Flip(bs, i, true)[i - 1].free)
    ensures FreedList(bs, fl, i) == if r == p then [p] + fl' else fl'
  {
    var g := Flip(bs, i, true);
    assert i + 1 < |bs| ==> g[i + 1] == bs[i + 1];
    assert 0 < i ==> g[i - 1] == bs[i - 1];
  }

  /**
   * The free list after `find_fit` takes list block p of `size` bytes for a
   * request of `newsize`: p leaves it, and a remainder of more than MIN_SIZE
   * bytes is pushed at the head.
   */
  ghost function FitList(fl: seq<int>, p: int, size: int, newsize: int): seq<int>
  {
    var t := Drop(fl, p);
    if size - newsize > MinSize then [p + newsize] + t else t
  }

  /**
   * Blocks i..j replaced by the blocks ns keep free blocks apart, when ns
   * does and no free end of ns meets a free neighbour.
   */
  lemma ReplaceApart(bs: seq<Block>, i: nat, j: nat, ns: seq<Block>)
    requires i <= j < |bs| && ns != [] && NoAdjacentFree(bs) && NoAdjacentFree(ns)
    requires 0 < i && ns[0].free ==> !bs[i - 1].free
    requires j + 1 < |bs| && ns[|ns| - 1].free ==> !bs[j + 1].free
    ensures NoAdjacentFree(bs[..i] + ns + bs[j + 1..])
  {
    var t := bs[..i] + ns + bs[j + 1..];
    var n := |ns|;
    forall k | 0 <= k < |t| - 1
      ensures Apart(t, k)
    {
      if k + 1 < i {
        assert t[k] == bs[k] && t[k + 1] == bs[k + 1] && Apart(bs, k);
      } else if k + 1 == i {
        assert t[k] == bs[k] && t[k + 1] == ns[0];
      } else if k + 1 < i + n {
        assert t[k] == ns[k - i] && t[k + 1] == ns[k - i + 1] && Apart(ns, k - i);
      } else if k + 1 == i + n {
        assert t[k] == ns[n - 1] && t[k + 1] == bs[j + 1];
      } else {
        var d := k - i - n + j + 1;
        assert t[k] == bs[d] && t[k + 1] == bs[d + 1] && Apart(bs, d);
      }
    }
  }

  /** An allocated block appended at the break keeps free blocks apart. */
  lemma AppendApart(bs: seq<Block>, b: Block)
    requires NoAdjacentFree(bs) && !b.free
    ensures NoAdjacentFree(bs + [b])
  {
    var t := bs + [b];
    forall k | 0 <= k < |t| - 1
      ensures Apart(t, k)
    {
      if k + 1 < |bs| {
        assert t[k] == bs[k] && t[k + 1] == bs[k + 1] && Apart(bs, k);
      }
    }
  }

  /** Marking block i allocated keeps free blocks apart. */
  lemma TakeApart(bs: seq<Block>, i: nat)
    requires NoAdjacentFree(bs) && i < |bs|
    ensures NoAdjacentFree(Flip(bs, i, false))
  {
    ReplaceApart(bs, i, i, [Block(bs[i].start, bs[i].size, false)]);
  }

  /** Allocated block i growing over block i + 1 keeps free blocks apart. */
  lemma ExpandApart(bs: seq<Block>, i: nat)
    requires NoAdjacentFree(bs) && i + 1 < |bs|
    ensures NoAdjacentFree(Merge(bs, i, false))
  {
    ReplaceApart(bs, i, i + 1, [Block(bs[i].start, bs[i].size + bs[i + 1].size, false)]);
  }

  /**
   * Cutting free block i into an allocated block and a free remainder keeps
   * free blocks apart: the block after the remainder was already allocated.
   */
  lemma SplitApart(bs: seq<Block>, i: nat, asize: int)
    requires NoAdjacentFree(bs) && i < |bs| && bs[i].free
    ensures NoAdjacentFree(Split(bs, i, asize))
  {
    var ns := [Block(bs[i].start, asize, false), Block(bs[i].start + asize, bs[i].size - asize, true)];
    assert Apart(ns, 0);
    if i + 1 < |bs| {
      assert Apart(bs, i);
    }
    ReplaceApart(bs, i, i, ns);
    assert Split(bs, i, asize) == bs[..i] + ns + bs[i + 1..];
  }

  /**
   * Freeing block i and coalescing it replaces the run of free blocks around
   * it by one free block whose neighbours are allocated: free blocks stay apart.
   */
  lemma FreedApart(bs: seq<Block>, i: nat)
    requires NoAdjacentFree(bs) && i < |bs|
    ensures NoAdjacentFree(Freed(bs, i))
  {
    var hi := FreedRight(bs, i);
    var g := RightCoalesced(Flip(bs, i, true), i);
    var lo := FreedLeft(bs, g, i, hi);
    var h := LeftCoalesced(g, i);
    RunEnds(bs, i, lo, hi);
    ReplaceApart(bs, lo, hi, [h[lo]]);
  }

  /** The blocks just outside the run of free blocks around block i are allocated. */
  lemma RunEnds(bs: seq<Block>, i: nat, lo: nat, hi: nat)
    requires NoAdjacentFree(bs) && i < |bs|
    requires lo == if 0 < i && bs[i - 1].free then i - 1 else i
    requires hi == if i + 1 < |bs| && bs[i + 1].free then i + 1 else i
    ensures 0 < lo ==> !bs[lo - 1].free
    ensures hi + 1 < |bs| ==> !bs[hi + 1].free
  {
    if 0 < lo && lo < i {
      assert Apart(bs, i - 2);
    }
    if hi + 1 < |bs| && i < hi {
      assert Apart(bs, i + 1);
    }
  }

  /** The blocks after marking block i free and coalescing it are Freed(bs, i), with free blocks apart. */
  lemma CoalescedApart(bs: seq<Block>, i: nat, g: seq<Block>)
    requires NoAdjacentFree(bs) && i < |bs| && g == Coalesced(Flip(bs, i, true), i)
    ensures NoAdjacentFree(g) && g == Freed(bs, i)
  {
    FreedApart(bs, i);
  }

  /** After the flip and `coalesce_right`, block i is free and covers blocks i..hi. */
  lemma FreedRight(bs: seq<Block>, i: nat) returns (hi: nat)
    requires i < |bs|
    ensures hi == if i + 1 < |bs| && bs[i + 1].free then i + 1 else i
    ensures var g := RightCoalesced(Flip(bs, i, true), i);
            hi < |bs| && i < |g| && g[..i] == bs[..i] && g[i].free && g[i + 1..] == bs[hi + 1..]
  {
    var f := Flip(bs, i, true);
    assert f[..i] == bs[..i] && f[i].free && f[i + 1..] == bs[i + 1..];
    if i + 1 < |bs| && bs[i + 1].free {
      hi := i + 1;
      assert f[i + 2..] == bs[i + 2..];
    } else {
      hi := i;
    }
  }

  /** `coalesce_left` then leaves one free block in place of blocks lo..hi. */
  lemma FreedLeft(bs: seq<Block>, g: seq<Block>, i: nat, hi: nat) returns (lo: nat)
    requires i <= hi < |bs| && i < |g| && g[..i] == bs[..i] && g[i].free && g[i + 1..] == bs[hi + 1..]
    ensures lo == if 0 < i && bs[i - 1].free then i - 1 else i
    ensures var h := LeftCoalesced(g, i);
            lo < |h| && h == bs[..lo] + [h[lo]] + bs[hi + 1..] && h[lo].free
  {
    lo := if 0 < i && bs[i - 1].free then i - 1 else i;
    if 0 < i && bs[i - 1].free {
      assert g[i - 1] == bs[i - 1];
      assert g[..i - 1] == bs[..i - 1];
    } else {
      assert g == g[..i] + [g[i]] + g[i + 1..];
    }
  }

  /** The free list holds block starts only, so never the break. */
  lemma BreakNotListed(bs: seq<Block>, brk: int, fl: seq<int>)
    requires Tiling(bs, brk) && forall k :: 0 <= k < |fl| ==> fl[k] in Starts(bs)
    ensures brk !in fl
  {
    if brk in fl {
      var k := PositionOf(fl, brk);
      var i := IndexOfStart(bs, fl[k]);
      Within(bs, HeapStart, brk, i);
    }
  }

  // ---------------------------------------------------------------------------
  // The allocator

  class Allocator {
    /** The heap words, by offset from `mem_heap_lo()`. */
    var mem: map<int, int>
    /** The bytes obtained from `mem_sbrk` so far: `mem_heap_hi()` is `brk - 1`. */
    var brk: int
    /** `free_initp`: the first block of the free list, or NULL. */
    var freeHead: int
    /** The most memlib will hand out. */
    const maxHeap: int
    /** The blocks of the heap in address order. */
    ghost var blocks: seq<Block>
    /** The free list, as block starts in list order. */
    ghost var flist: seq<int>

    /** The heap is tiled by tagged blocks, within memlib's limit. */
    ghost predicate Shape()
      reads this
    {
      && HeapStart <= brk <= maxHeap < 0x8000_0000
      && Tiling(blocks, brk) && Tags(mem, blocks)
    }

    /** The free list is linked through the heap and holds blocks of the heap. */
    ghost predicate Chain()
      reads this
    {
      && Listed(mem, freeHead, flist)
      && forall k :: 0 <= k < |flist| ==> flist[k] in Starts(blocks)
    }

    /**
     * The invariant: the checks of mm_checkheap, every free block on the free
     * list, and no two free blocks side by side (boundary-tag coalescing).
     */
    ghost predicate Valid()
      reads this
    {
      Shape() && Chain() && FreeExact(blocks, flist) && NoAdjacentFree(blocks)
    }

    /** `mm_init`: an empty heap holding only the prologue. */
    constructor (maxHeap: int)
      requires HeapStart <= maxHeap < 0x8000_0000
      ensures Valid()
      ensures this.maxHeap == maxHeap && brk == HeapStart && blocks == [] && flist == []
    {
      this.maxHeap := maxHeap;
      PackFields(0, 1);
      mem := map[0 := Pack(0, 1)];
      brk := HeapStart;
      freeHead := Null;
      blocks, flist := [], [];
    }

    /** `set_prev`: p's previous-offset word now leads to q. */
    method SetPrev(p: int, q: int)
      modifies this`mem
      ensures mem == old(mem)[p + WSize := Offset(p, q)]
      ensures q != p ==> GetPrev(mem, p) == q
    {
      if q == Null {
        mem := mem[p + WSize := 0];
      } else {
        mem := mem[p + WSize := q - p];
      }
    }

    /** `set_next`: p's next-offset word now leads to q. */
    method SetNext(p: int, q: int)
      modifies this`mem
      ensures mem == old(mem)[p + 2 * WSize := Offset(p, q)]
      ensures q != p ==> GetNext(mem, p) == q
    {
      if q == Null {
        mem := mem[p + 2 * WSize := 0];
      } else {
        mem := mem[p + 2 * WSize := q - p];
      }
    }

    /** `add_front`: block i, a block not on the free list, becomes its head. */
    method AddFront(p: int, ghost i: nat)
      requires Shape() && Chain()
      requires i < |blocks| && blocks[i].start == p && p !in flist
      modifies this`mem, this`freeHead, this`flist
      ensures Shape() && Chain()
      ensures flist == [p] + old(flist)
    {
      PushedKeepsTags(mem, blocks, brk, freeHead, i);
      PushedKeepsListed(mem, blocks, brk, freeHead, flist, i);
      Push(p);
      flist := [p] + flist;
    }

    /** SET_HEADER(p, size, alloc). */
    method SetHeader(p: int, size: nat, alloc: nat)
      modifies this`mem
      ensures mem == old(mem)[p := Pack(size, alloc)]
    {
      mem := mem[p := Pack(size, alloc)];
    }

    /** SET_FOOTER(p, size, alloc): the last word of a block of `size` bytes at p. */
    method SetFooter(p: int, size: nat, alloc: nat)
      modifies this`mem
      ensures mem == old(mem)[p + size - WSize := Pack(size, alloc)]
    {
      mem := mem[p + size - WSize := Pack(size, alloc)];
    }

    /** SET_HEADER(p, GET_SIZE(p), alloc) then SET_FOOTER(p, GET_SIZE(p), alloc), for a header holding `size`. */
    method Restamp(p: int, ghost size: nat, alloc: nat)
      requires GetSize(mem, p) == size && size % Alignment == 0 && size < 0x8000_0000 && alloc < Alignment
      modifies this`mem
      ensures mem == Retag(old(mem), p, size, alloc)
    {
      var s := GetSize(mem, p);
      ReadBack(mem, p, s, alloc);
      SetHeader(p, s, alloc);
      s := GetSize(mem, p);
      assert s == size;
      SetFooter(p, s, alloc);
    }

    /** SET_HEADER(p, size, alloc) then SET_FOOTER(p, size, alloc). */
    method Stamp(p: int, size: nat, alloc: nat)
      modifies this`mem
      ensures mem == Retag(old(mem), p, size, alloc)
    {
      SetHeader(p, size, alloc);
      SetFooter(p, size, alloc);
    }

    /**
     * `coalesce_right`: when the block after free block i is free, the two
     * become one free block at curr and the second leaves the free list.
     * Block i itself may or may not be on the list; that does not change.
     */
    method CoalesceRight(curr: int, ghost i: nat)
      requires Shape() && Chain() && ExactExcept(blocks, flist, curr)
      requires i < |blocks| && blocks[i].start == curr && blocks[i].free
      modifies this`mem, this`freeHead, this`flist, this`blocks
      ensures Shape() && Chain() && ExactExcept(blocks, flist, curr)
      ensures Listing(flist) == Listing(old(flist)) - (Starts(old(blocks)) - Starts(blocks))
      ensures blocks == RightCoalesced(old(blocks), i) && flist == RightUnlisted(old(blocks), old(flist), i)
      ensures i < |blocks| && blocks[i].start == curr && blocks[i].free
      ensures Allocated(blocks) == Allocated(old(blocks)) && (curr !in old(flist) ==> curr !in flist)
    {
      ReadTag(mem, blocks, brk, i);
      Successor(blocks, brk, i);
      if curr + GetSize(mem, curr) > brk - 1 {
        return;
      }
      var size := GetSize(mem, curr);
      var next := curr + size;
      ReadTag(mem, blocks, brk, i + 1);
      var nextAlloc := GetAlloc(mem, next);
      if nextAlloc == 0 {
        size := size + GetSize(mem, next);
        ghost var bs, fl := blocks, flist;
        AbsorbNext(curr, next, size, true, 0, i);
        MergeAllocated(bs, brk, i, true);
        assert bs[i] !in Allocated(bs);
        assert curr in flist ==> curr in Listing(flist) && curr in Listing(fl);
      }
    }

    /**
     * Free block i + 1 joins block i and leaves the list: the merging branch of
     * `coalesce_right` (free) and of `expand_right` (allocated).
     */
    method AbsorbNext(curr: int, next: int, size: int, free: bool, alloc: nat, ghost i: nat)
      requires Shape() && Chain() && ExactExcept(blocks, flist, curr)
      requires i + 1 < |blocks| && blocks[i].start == curr && blocks[i].free == free && blocks[i + 1].free
      requires next == blocks[i + 1].start && size == blocks[i].size + blocks[i + 1].size
      requires alloc == (if free then 0 else 1)
      modifies this`mem, this`freeHead, this`flist, this`blocks
      ensures Shape() && Chain() && ExactExcept(blocks, flist, curr)
      ensures Listing(flist) == Listing(old(flist)) - (Starts(old(blocks)) - Starts(blocks))
      ensures blocks == Merge(old(blocks), i, free) && flist == Drop(old(flist), next)
    {
      ghost var k := NextOnList(i);
      MergeListed(mem, blocks, brk, freeHead, flist, i, size, alloc);
      OthersStay(mem, blocks, brk, freeHead, flist, i, k, free);
      ghost var bs, fl := blocks, flist;
      Retagged(curr, i, free, size, alloc);
      RemoveFree(next, k);
      MergedExact(bs, brk, fl, flist, i, free);
    }

    /** Blocks i and i + 1 become one block: its header and footer are written. */
    method Retagged(p: int, ghost i: nat, free: bool, size: int, alloc: nat)
      requires Shape() && i + 1 < |blocks| && blocks[i].start == p
      requires size == blocks[i].size + blocks[i + 1].size && alloc == (if free then 0 else 1)
      modifies this`mem, this`blocks
      ensures Shape()
      ensures blocks == Merge(old(blocks), i, free) && mem == Retag(old(mem), p, size, alloc)
    {
      MergeShape(mem, blocks, brk, i, free, size, alloc);
      Stamp(p, size, alloc);
      blocks := Merge(blocks, i, free);
    }

    /**
     * `coalesce_left`: when the block before free block i is free, it absorbs
     * block i (which is off the list) and the merged block is returned.
     */
    method CoalesceLeft(curr: int, ghost i: nat) returns (r: int, ghost j: nat)
      requires Shape() && Chain() && ExactExcept(blocks, flist, curr)
      requires i < |blocks| && blocks[i].start == curr && blocks[i].free && curr !in flist
      modifies this`mem, this`blocks
      ensures Shape() && Chain() && flist == old(flist) && Allocated(blocks) == Allocated(old(blocks))
      ensures blocks == LeftCoalesced(old(blocks), i)
      ensures j < |blocks| && blocks[j].start == r && blocks[j].free
      ensures if 0 < i && old(blocks)[i - 1].free
              then r != curr && j == i - 1 && blocks == Merge(old(blocks), i - 1, true) && FreeExact(blocks, flist)
              else r == curr && j == i && blocks == old(blocks) && ExactExcept(blocks, flist, curr)
    {
      ReadBefore(mem, blocks, brk, i);
      if curr - GetBSize(mem, curr) < HeapStart {
        return curr, i;
      }
      var size := GetSize(mem, curr);
      var prevAlloc := GetBAlloc(mem, curr);
      var prev := curr - GetBSize(mem, curr);
      if prev != Null && prevAlloc == 0 {
        ghost var h: nat := i - 1;
        assert h + 1 == i;
        ReadTag(mem, blocks, brk, i);
        ReadTag(mem, blocks, brk, h);
        size := size + GetSize(mem, prev);
        AbsorbPrev(prev, size, h);
        return prev, h;
      }
      return curr, i;
    }

    /** The merging branch of `coalesce_left`: free block h absorbs free block h + 1, which is off the list. */
    method AbsorbPrev(prev: int, size: int, ghost h: nat)
      requires Shape() && Chain() && h + 1 < |blocks| && ExactExcept(blocks, flist, blocks[h + 1].start)
      requires blocks[h].start == prev && blocks[h].free && blocks[h + 1].free
      requires blocks[h + 1].start !in flist && size == blocks[h].size + blocks[h + 1].size
      modifies this`mem, this`blocks
      ensures Shape() && Chain() && FreeExact(blocks, flist)
      ensures blocks == Merge(old(blocks), h, true) && Allocated(blocks) == Allocated(old(blocks))
    {
      MergedLeft(blocks, brk, flist, h);
      MergeListed(mem, blocks, brk, freeHead, flist, h, size, 0);
      Retagged(prev, h, true, size, 0);
    }

    /**
     * `coalesce`: block i, free and off the list, merges with the next block
     * and then the previous block when they are free; the result is the
     * merged block, on the list unless it is still the block at curr.
     */
    method Coalesce(curr: int, ghost i: nat) returns (r: int, ghost j: nat)
      requires Shape() && Chain() && ExactExcept(blocks, flist, curr)
      requires i < |blocks| && blocks[i].start == curr && blocks[i].free && curr !in flist
      modifies this`mem, this`freeHead, this`flist, this`blocks
      ensures Shape() && Chain() && Allocated(blocks) == Allocated(old(blocks))
      ensures blocks == Coalesced(old(blocks), i) && flist == RightUnlisted(old(blocks), old(flist), i)
      ensures j < |blocks| && blocks[j].start == r && blocks[j].free
      ensures r == curr <==> !(0 < i && old(blocks)[i - 1].free)
      ensures r == curr ==> curr !in flist && ExactExcept(blocks, flist, curr)
      ensures r != curr ==> FreeExact(blocks, flist)
    {
      ghost var bs := blocks;
      CoalesceRight(curr, i);
      assert 0 < i ==> blocks[i - 1] == bs[i - 1];
      r, j := CoalesceLeft(curr, i);
    }

    /**
     * `free`: the allocated block behind the payload pointer becomes free and is
     * coalesced with its free neighbours; the block that results is on the
     * free list exactly once, and no two free blocks are side by side.
     * Pointers below the first payload are ignored.
     */
    method Free(ptr: int, ghost i: nat)
      requires Valid()
      requires ptr - WSize < HeapStart || (i < |blocks| && blocks[i].start == ptr - WSize && !blocks[i].free)
      modifies this`mem, this`freeHead, this`flist, this`blocks
      ensures Valid()
      ensures ptr - WSize < HeapStart ==> mem == old(mem) && blocks == old(blocks) && flist == old(flist)
      ensures HeapStart <= ptr - WSize ==> blocks == Freed(old(blocks), i) && flist == FreedList(old(blocks), old(flist), i)
      ensures HeapStart <= ptr - WSize ==> Allocated(blocks) == Allocated(old(blocks)) - {old(blocks)[i]}
    {
      assert HeapStart != brk - 1 by {
        BreakAligned(blocks, brk);
      }
      if HeapStart == brk - 1 {
        return;
      }
      if ptr == Null || ptr - WSize < HeapStart {
        return;
      }
      var pos := ptr - WSize;
      FreeBlock(pos, i);
    }

    /** `free` past its pointer checks: block i is marked free, coalesced, and listed when still at pos. */
    method FreeBlock(pos: int, ghost i: nat)
      requires Valid() && i < |blocks| && blocks[i].start == pos && !blocks[i].free
      modifies this`mem, this`freeHead, this`flist, this`blocks
      ensures Valid() && blocks == Freed(old(blocks), i) && flist == FreedList(old(blocks), old(flist), i)
      ensures Allocated(blocks) == Allocated(old(blocks)) - {old(blocks)[i]}
    {
      ghost var bs0 := blocks;
      Release(pos, i);
      Rejoin(pos, i, bs0);
    }

    /** `coalesce` and the final `add_front` of `free`, for block i just marked free. */
    method Rejoin(pos: int, ghost i: nat, ghost bs0: seq<Block>)
      requires Shape() && Chain() && ExactExcept(blocks, flist, pos) && pos !in flist
      requires NoAdjacentFree(bs0) && i < |bs0| && blocks == Flip(bs0, i, true)
      requires i < |blocks| && blocks[i].start == pos && blocks[i].free
      modifies this`mem, this`freeHead, this`flist, this`blocks
      ensures Valid() && blocks == Freed(bs0, i) && Allocated(blocks) == Allocated(old(blocks))
      ensures flist == FreedList(bs0, old(flist), i)
    {
      var oldpos := pos;
      var newpos;
      ghost var j;
      newpos, j := Gather(pos, i, bs0);
      Relist(oldpos, newpos, j);
    }

    /** The `coalesce` call of `free`, for block i just marked free: the list misses at most the merged block. */
    method Gather(pos: int, ghost i: nat, ghost bs0: seq<Block>) returns (newpos: int, ghost j: nat)
      requires Shape() && Chain() && ExactExcept(blocks, flist, pos) && pos !in flist
      requires NoAdjacentFree(bs0) && i < |bs0| && blocks == Flip(bs0, i, true)
      requires i < |blocks| && blocks[i].start == pos && blocks[i].free
      modifies this`mem, this`freeHead, this`flist, this`blocks
      ensures Coalescing(pos, newpos, j)
      ensures blocks == Freed(bs0, i) && Allocated(blocks) == Allocated(old(blocks))
      ensures FreedList(bs0, old(flist), i) == if newpos == pos then [pos] + flist else flist
    {
      ghost var fl0 := flist;
      newpos, j := Coalesce(pos, i);
      CoalescedApart(bs0, i, blocks);
      FreedListSteps(bs0, fl0, i, flist, newpos, pos);
    }

    /**
     * Between `coalesce` and the final `add_front` of `free`: block j at p is
     * the merged free block, and it is the one free block off the list exactly
     * when it still starts at the freed block's position.
     */
    ghost predicate Coalescing(oldpos: int, p: int, j: nat)
      reads this
    {
      && Shape() && Chain() && NoAdjacentFree(blocks)
      && j < |blocks| && blocks[j].start == p && blocks[j].free
      && (p == oldpos ==> p !in flist && ExactExcept(blocks, flist, p))
      && (p != oldpos ==> FreeExact(blocks, flist))
    }

    /**
     * The last step of `free`: when coalescing left the freed block where it
     * was, it is the one free block off the list, and it is pushed onto it.
     */
    method Relist(oldpos: int, p: int, ghost j: nat)
      requires Coalescing(oldpos, p, j)
      modifies this`mem, this`freeHead, this`flist
      ensures Valid() && flist == if p == oldpos then [p] + old(flist) else old(flist)
    {
      if oldpos == p {
        Completed(blocks, flist, j);
        AddFront(p, j);
      }
    }

    /** The header and footer writes of `free`: block i becomes free, still off the list. */
    method Release(pos: int, ghost i: nat)
      requires Valid() && i < |blocks| && blocks[i].start == pos && !blocks[i].free
      modifies this`mem, this`blocks
      ensures Shape() && Chain() && flist == old(flist)
      ensures ExactExcept(blocks, flist, pos) && pos !in flist
      ensures blocks == Flip(old(blocks), i, true)
      ensures Allocated(blocks) == Allocated(old(blocks)) - {old(blocks)[i]}
    {
      Released(blocks, brk, flist, i);
      RetagListed(mem, blocks, brk, freeHead, flist, i, blocks[i].size, 0);
      Flipped(pos, i, true, 0);
    }

    /**
     * SET_HEADER(p, GET_SIZE(p), alloc) then SET_FOOTER(p, GET_SIZE(p), alloc):
     * block i keeps its size and takes the alloc field.
     */
    method Flipped(p: int, ghost i: nat, free: bool, alloc: nat)
      requires Shape() && i < |blocks| && blocks[i].start == p && alloc == (if free then 0 else 1)
      modifies this`mem, this`blocks
      ensures Shape()
      ensures blocks == Flip(old(blocks), i, free) && mem == Retag(old(mem), p, old(blocks)[i].size, alloc)
    {
      ghost var b := blocks[i];
      ReadTag(mem, blocks, brk, i);
      assert BlockOk(b);
      PackFields(b.size, alloc);
      Within(blocks, HeapStart, brk, i);
      FlipShape(mem, blocks, brk, i, free, b.size, alloc);
      Restamp(p, b.size, alloc);
      blocks := Flip(blocks, i, free);
    }

    /**
     * `mem_sbrk` of memlib: the break moves up by `incr` and the old break is
     * returned, or -1 when `incr` is negative or the break would pass the limit.
     */
    method Sbrk(incr: int) returns (p: int)
      modifies this`brk
      ensures if incr < 0 || old(brk) + incr > maxHeap then p == -1 && brk == old(brk)
              else p == old(brk) && brk == old(brk) + incr
    {
      if incr < 0 || brk + incr > maxHeap {
        return -1;
      }
      p := brk;
      brk := brk + incr;
    }

    /**
     * `find_fit`: the first block of the free list, in list order, with room
     * for `newsize` bytes is taken, split when more than MIN_SIZE bytes would
     * be left over; when none has room the heap grows by `newsize`.  The ghost
     * k is how far the search went down the list.
     */
    method FindFit(newsize: int) returns (r: int, ghost nb: Block, ghost k: nat)
      requires Valid() && newsize % Alignment == 0 && newsize >= MinSize
      modifies this`mem, this`brk, this`freeHead, this`flist, this`blocks
      ensures Valid()
      ensures r == Null ==> && mem == old(mem) && brk == old(brk) && freeHead == old(freeHead)
                            && blocks == old(blocks) && flist == old(flist)
                            && old(brk) + newsize > maxHeap
                            && forall j :: 0 <= j < |blocks| && blocks[j].free ==> blocks[j].size < newsize
      ensures r != Null ==> && r == nb.start + WSize && newsize <= nb.size <= newsize + MinSize
                            && Allocated(blocks) == Allocated(old(blocks)) + {nb} && nb !in Allocated(old(blocks))
      ensures k <= |old(flist)| && forall m :: 0 <= m < k ==> GetSize(old(mem), old(flist)[m]) < newsize
      ensures k < |old(flist)| ==> r != Null && nb.start == old(flist)[k] && nb.size == Fit(GetSize(old(mem), nb.start), newsize)
      ensures k < |old(flist)| ==> brk == old(brk) && flist == FitList(old(flist), nb.start, GetSize(old(mem), nb.start), newsize)
      ensures k == |old(flist)| ==> old(brk) !in old(flist) && flist == old(flist)
      ensures k == |old(flist)| && r != Null ==>
                nb == Block(old(brk), newsize, false) && brk == old(brk) + newsize && blocks == old(blocks) + [nb]
    {
      var curr := freeHead;
      k := 0;
      while curr != Null && GetSize(mem, curr) < newsize
        invariant k <= |flist| && curr == if k < |flist| then flist[k] else Null
        invariant forall m :: 0 <= m < k ==> GetSize(mem, flist[m]) < newsize
        decreases |flist| - k
      {
        assert LinksAt(mem, flist, k);
        curr := GetNext(mem, curr);
        k := k + 1;
      }
      if curr == Null {
        NoFit(mem, blocks, brk, flist, newsize);
        BreakNotListed(blocks, brk, flist);
        r, nb := Extend(newsize);
        return;
      }
      r, nb := Allocate(curr, newsize, k);
    }

    /** The found branch of `find_fit`: the k-th list block, which has room, is split or taken whole. */
    method Allocate(curr: int, newsize: int, ghost k: nat) returns (r: int, ghost nb: Block)
      requires Valid() && newsize % Alignment == 0 && newsize >= MinSize
      requires k < |flist| && flist[k] == curr && GetSize(mem, curr) >= newsize
      modifies this`mem, this`freeHead, this`flist, this`blocks
      ensures Valid()
      ensures r != Null && r == nb.start + WSize && nb.start == curr && newsize <= nb.size <= newsize + MinSize
      ensures nb.size == Fit(GetSize(old(mem), curr), newsize)
      ensures flist == FitList(old(flist), curr, GetSize(old(mem), curr), newsize)
      ensures Allocated(blocks) == Allocated(old(blocks)) + {nb} && nb !in Allocated(old(blocks))
    {
      ghost var j := FreeIndex(blocks, flist, k);
      ReadTag(mem, blocks, brk, j);
      Within(blocks, HeapStart, brk, j);
      var freesize := GetSize(mem, curr) - newsize;
      if freesize > MinSize {
        r, nb := SplitExplicit(curr, newsize, freesize, j, k);
      } else {
        nb := Take(curr, j, k);
        r := curr + WSize;
      }
    }

    /** The `mem_sbrk` branch of `find_fit`: a new allocated block of `newsize` bytes at the old break. */
    method Extend(newsize: int) returns (r: int, ghost nb: Block)
      requires Valid() && newsize % Alignment == 0 && newsize >= MinSize
      modifies this`mem, this`brk, this`blocks
      ensures Valid()
      ensures if old(brk) + newsize > maxHeap
              then r == Null && mem == old(mem) && brk == old(brk) && blocks == old(blocks)
              else && r == old(brk) + WSize && nb == Block(old(brk), newsize, false)
                   && brk == old(brk) + newsize && blocks == old(blocks) + [nb]
                   && Allocated(blocks) == Allocated(old(blocks)) + {nb} && nb !in Allocated(old(blocks))
    {
      BreakAligned(blocks, brk);
      var p := Sbrk(newsize);
      if p < 0 {
        return Null, Block(0, 0, false);
      }
      nb := Block(p, newsize, false);
      GrowShape(mem, blocks, p, newsize);
      GrowListed(mem, blocks, p, freeHead, flist, newsize);
      GrowSets(blocks, p, flist, nb);
      AppendApart(blocks, nb);
      Stamp(p, newsize, 1);
      blocks := blocks + [nb];
      r := p + WSize;
    }

    /** The exact-fit branch of `find_fit`: free block j, k-th on the list, is marked allocated and leaves the list. */
    method Take(curr: int, ghost j: nat, ghost k: nat) returns (ghost nb: Block)
      requires Valid() && j < |blocks| && blocks[j].start == curr && blocks[j].free
      requires k < |flist| && flist[k] == curr
      modifies this`mem, this`freeHead, this`flist, this`blocks
      ensures Valid()
      ensures nb == Block(curr, old(blocks)[j].size, false) && blocks == Flip(old(blocks), j, false)
      ensures flist == Drop(old(flist), curr)
      ensures Allocated(blocks) == Allocated(old(blocks)) + {nb} && nb !in Allocated(old(blocks))
    {
      ghost var bs, fl := blocks, flist;
      TakeApart(blocks, j);
      nb := Block(curr, blocks[j].size, false);
      RetagListed(mem, blocks, brk, freeHead, flist, j, blocks[j].size, 1);
      FlipStarts(blocks, brk, j, false);
      Flipped(curr, j, false, 1);
      RemoveFree(curr, k);
      Taken(bs, brk, fl, flist, j);
    }

    /**
     * `split_explicit`: free block i, k-th on the list, leaves the list and is
     * cut into an allocated block of `allocsize` bytes and a free block of
     * `freesize` bytes, which is pushed onto the list and coalesced to the
     * right.  The block after it is allocated (free blocks are never side by
     * side), so that coalescing leaves the two halves as cut.
     */
    method SplitExplicit(curr: int, allocsize: int, freesize: int, ghost i: nat, ghost k: nat)
      returns (r: int, ghost nb: Block)
      requires Valid() && i < |blocks| && blocks[i].start == curr && blocks[i].free
      requires k < |flist| && flist[k] == curr
      requires allocsize % Alignment == 0 && allocsize >= MinSize
      requires freesize == blocks[i].size - allocsize && freesize >= MinSize
      modifies this`mem, this`freeHead, this`flist, this`blocks
      ensures Valid()
      ensures r == curr + WSize && nb == Block(curr, allocsize, false) && blocks == Split(old(blocks), i, allocsize)
      ensures flist == [curr + allocsize] + Drop(old(flist), curr)
      ensures Allocated(blocks) == Allocated(old(blocks)) + {nb} && nb !in Allocated(old(blocks))
    {
      nb := Block(curr, allocsize, false);
      ghost var bs, fl := blocks, flist;
      Carve(curr, allocsize, freesize, i, k);
      Settle(curr, allocsize, freesize, i, bs, fl);
      r := curr + WSize;
    }

    /** `split_explicit` up to its tag writes: block i leaves the list and is cut in two. */
    method Carve(curr: int, allocsize: int, freesize: int, ghost i: nat, ghost k: nat)
      requires Valid() && i < |blocks| && blocks[i].start == curr && blocks[i].free
      requires k < |flist| && flist[k] == curr
      requires allocsize % Alignment == 0 && allocsize >= MinSize
      requires freesize == blocks[i].size - allocsize && freesize >= MinSize
      modifies this`mem, this`freeHead, this`flist, this`blocks
      ensures Shape() && Listed(mem, freeHead, flist) && blocks == Split(old(blocks), i, allocsize)
      ensures Listing(flist) == Listing(old(flist)) - {curr} && flist == Drop(old(flist), curr)
      ensures forall m :: 0 <= m < |flist| ==> flist[m] in Starts(old(blocks))
    {
      RemoveFree(curr, k);
      SplitListed(mem, blocks, brk, freeHead, flist, i, curr, allocsize, freesize);
      Divide(curr, allocsize, freesize, i);
    }

    /**
     * The rest of `split_explicit`: block i of `bs` has been cut, and its free
     * half is pushed onto the list and coalesced to the right.
     */
    method Settle(curr: int, allocsize: int, freesize: int, ghost i: nat, ghost bs: seq<Block>, ghost fl: seq<int>)
      requires Shape() && Listed(mem, freeHead, flist)
      requires FreeExact(bs, fl) && i < |bs| && bs[i].free && bs[i].start == curr
      requires allocsize % Alignment == 0 && allocsize >= MinSize
      requires freesize == bs[i].size - allocsize && freesize >= MinSize
      requires blocks == Split(bs, i, allocsize) && Tiling(bs, brk)
      requires Listing(flist) == Listing(fl) - {curr}
      requires forall m :: 0 <= m < |flist| ==> flist[m] in Starts(bs)
      requires NoAdjacentFree(bs)
      modifies this`mem, this`freeHead, this`flist, this`blocks
      ensures Valid() && blocks == old(blocks) && flist == [curr + allocsize] + old(flist)
      ensures Allocated(blocks) == Allocated(bs) + {Block(curr, allocsize, false)}
      ensures Block(curr, allocsize, false) !in Allocated(bs)
    {
      var newblock := curr + allocsize;
      ghost var t, fl' := blocks, flist;
      SplitReady(bs, brk, fl, fl', i, curr, allocsize, freesize, t);
      SplitApart(bs, i, allocsize);
      Requeue(newblock, i + 1);
    }

    /**
     * Free block j, the only free block off the list, is pushed onto it and
     * coalesced to the right, where the block is allocated: the blocks stay.
     */
    method Requeue(newblock: int, ghost j: nat)
      requires Shape() && Chain() && j < |blocks| && blocks[j].start == newblock && blocks[j].free
      requires newblock !in flist && FreeExact(blocks, [newblock] + flist) && NoAdjacentFree(blocks)
      modifies this`mem, this`freeHead, this`flist, this`blocks
      ensures Valid() && blocks == old(blocks) && flist == [newblock] + old(flist)
    {
      if j + 1 < |blocks| {
        assert Apart(blocks, j);
      }
      AddFront(newblock, j);
      ghost var bs1, fl1 := blocks, flist;
      CoalesceRight(newblock, j);
      Rejoined(bs1, fl1, blocks, flist, j);
    }

    /** The four tag writes of `split_explicit`. */
    method Divide(curr: int, allocsize: int, freesize: int, ghost i: nat)
      requires Shape() && i < |blocks| && blocks[i].start == curr
      requires allocsize % Alignment == 0 && allocsize >= MinSize
      requires freesize == blocks[i].size - allocsize && freesize >= MinSize
      modifies this`mem, this`blocks
      ensures Shape() && blocks == Split(old(blocks), i, allocsize)
      ensures mem == Retag(Retag(old(mem), curr, allocsize, 1), curr + allocsize, freesize, 0)
      ensures i + 1 < |blocks| && blocks[i + 1] == Block(curr + allocsize, freesize, true)
    {
      ghost var m0, bs := mem, blocks;
      SplitShape(m0, bs, brk, i, curr, allocsize, freesize);
      SplitBlocks(bs, i, allocsize, freesize);
      StampHalves(curr, allocsize, freesize);
      blocks := Split(bs, i, allocsize);
    }

    /** The tags of the allocated half at curr, then those of the free half after it. */
    method StampHalves(curr: int, allocsize: nat, freesize: nat)
      modifies this`mem
      ensures mem == Retag(Retag(old(mem), curr, allocsize, 1), curr + allocsize, freesize, 0)
    {
      Stamp(curr, allocsize, 1);
      var newblock := curr + allocsize;
      Stamp(newblock, freesize, 0);
    }

    /**
     * `expand_right`: allocated block i grows in place over the block after it
     * when that block is free and the two together hold `asize` bytes; the
     * absorbed block leaves the free list.  Otherwise nothing changes.
     */
    method ExpandRight(curr: int, asize: int, ghost i: nat) returns (r: int)
      requires Valid() && i < |blocks| && blocks[i].start == curr && !blocks[i].free
      modifies this`mem, this`freeHead, this`flist, this`blocks
      ensures Valid() && r == curr
      ensures blocks == if Absorbs(old(blocks), i, asize) then Merge(old(blocks), i, false) else old(blocks)
      ensures flist == if Absorbs(old(blocks), i, asize) then Drop(old(flist), old(blocks)[i + 1].start) else old(flist)
      ensures blocks == old(blocks) ==> mem == old(mem) && flist == old(flist)
      ensures i < |blocks| && blocks[i].start == curr && !blocks[i].free
      ensures Allocated(blocks) == Allocated(old(blocks)) - {old(blocks)[i]} + {blocks[i]}
    {
      ReadTag(mem, blocks, brk, i);
      Successor(blocks, brk, i);
      r := curr;
      if curr + GetSize(mem, curr) > brk - 1 {
        return;
      }
      var next := curr + GetSize(mem, curr);
      ReadTag(mem, blocks, brk, i + 1);
      var nextAlloc := GetAlloc(mem, next);
      var size := GetSize(mem, curr) + GetSize(mem, next);
      if nextAlloc == 0 && size >= asize {
        ghost var bs, fl := blocks, flist;
        ExpandApart(bs, i);
        AbsorbNext(curr, next, size, false, 1, i);
        MergeAllocated(bs, brk, i, false);
        Grown(bs, brk, fl, flist, i);
        assert blocks[i] == Block(curr, size, false);
      }
    }

    /**
     * `realloc`: a size of 0 frees the block and gives NULL, a NULL pointer
     * mallocs; otherwise the block grows in place when it has room or can absorb
     * a free successor, and else its data moves to a newly malloced block and the
     * old one is freed.  When that malloc fails, nothing has changed.  For a
     * move, `mid` and `midList` are the blocks and the free list between the
     * malloc and the free, and m is the old block's place in `mid`.
     */
    method Realloc(oldptr: int, size: nat, ghost i: nat)
      returns (r: int, ghost nb: Block, ghost mid: seq<Block>, ghost midList: seq<int>, ghost m: nat)
      requires Valid()
      requires oldptr == Null || (i < |blocks| && blocks[i].start == oldptr - WSize && !blocks[i].free)
      modifies this`mem, this`brk, this`freeHead, this`flist, this`blocks
      ensures Valid()
      ensures size == 0 ==> r == Null && brk == old(brk)
      ensures size == 0 && oldptr != Null ==> && Allocated(blocks) == Allocated(old(blocks)) - {old(blocks)[i]}
                                              && blocks == Freed(old(blocks), i) && flist == FreedList(old(blocks), old(flist), i)
      ensures (size == 0 && oldptr == Null) || (size != 0 && r == Null) ==>
                mem == old(mem) && brk == old(brk) && blocks == old(blocks) && flist == old(flist)
      ensures size != 0 && r != Null ==> r == nb.start + WSize && r % Alignment == 0 && nb.size - 2 * WSize >= size
      ensures size != 0 && r != Null && oldptr == Null ==>
                && Allocated(blocks) == Allocated(old(blocks)) + {nb} && nb !in Allocated(old(blocks))
                && brk == BreakAfter(old(brk), old(flist), nb.start, Align(size + MinSize))
                && flist == MallocList(old(flist), old(mem), nb.start, Align(size + MinSize))
      ensures size != 0 && r != Null && oldptr != Null ==>
                Allocated(blocks) == Allocated(old(blocks)) - {old(blocks)[i]} + {nb}
      ensures size != 0 && oldptr != Null ==> (r == oldptr <==> Grows(old(blocks), i, Align(size + MinSize)))
      ensures size != 0 && oldptr != Null && r == oldptr ==> InPlace(old(blocks), old(flist), i, Align(size + MinSize), blocks, flist)
      ensures size != 0 && oldptr != Null && r == oldptr ==> brk == old(brk)
      ensures size != 0 && oldptr != Null && r != oldptr && r != Null ==>
                Moved(old(blocks), old(flist), old(mem), old(brk), i, nb, Align(size + MinSize), mid, midList, m, blocks, flist, brk)
    {
      if size == 0 {
        if oldptr != Null {
          Within(blocks, HeapStart, brk, i);
        }
        Free(oldptr, i);
        return Null, Block(0, 0, false), [], [], 0;
      }
      if oldptr == Null {
        r, nb := Malloc(size);
        return r, nb, [], [], 0;
      }
      r, nb, mid, midList, m := Resize(oldptr, size, i);
    }

    /**
     * `realloc` of a block in use to a nonzero size: grow in place when the
     * block has room or can absorb a free successor, else move.
     */
    method Resize(oldptr: int, size: nat, ghost i: nat)
      returns (r: int, ghost nb: Block, ghost mid: seq<Block>, ghost midList: seq<int>, ghost m: nat)
      requires Valid() && size != 0 && oldptr != Null && i < |blocks| && blocks[i].start == oldptr - WSize && !blocks[i].free
      modifies this`mem, this`brk, this`freeHead, this`flist, this`blocks
      ensures Valid()
      ensures r == Null ==> mem == old(mem) && brk == old(brk) && blocks == old(blocks) && flist == old(flist)
      ensures r != Null ==> && r == nb.start + WSize && r % Alignment == 0 && nb.size - 2 * WSize >= size
                            && Allocated(blocks) == Allocated(old(blocks)) - {old(blocks)[i]} + {nb}
      ensures r == oldptr <==> Grows(old(blocks), i, Align(size + MinSize))
      ensures r == oldptr ==> InPlace(old(blocks), old(flist), i, Align(size + MinSize), blocks, flist) && brk == old(brk)
      ensures r != oldptr && r != Null ==>
                Moved(old(blocks), old(flist), old(mem), old(brk), i, nb, Align(size + MinSize), mid, midList, m, blocks, flist, brk)
    {
      var asize := Align(size + MinSize);
      var grown;
      grown, nb := TryGrow(oldptr - WSize, asize, i);
      if grown {
        return oldptr, nb, [], [], 0;
      }
      r, nb, mid, midList, m := Relocate(oldptr, size, i);
    }

    /**
     * The in-place part of `realloc`: `expand_right`, then the test whether
     * block i now holds `asize` bytes.  When it does not, nothing changed.
     */
    method TryGrow(curr: int, asize: int, ghost i: nat) returns (grown: bool, ghost nb: Block)
      requires Valid() && i < |blocks| && blocks[i].start == curr && !blocks[i].free
      modifies this`mem, this`freeHead, this`flist, this`blocks
      ensures Valid() && brk == old(brk)
      ensures grown <==> Grows(old(blocks), i, asize)
      ensures grown ==> && InPlace(old(blocks), old(flist), i, asize, blocks, flist)
                        && nb.start == curr && nb.size >= asize && (curr + WSize) % Alignment == 0
                        && Allocated(blocks) == Allocated(old(blocks)) - {old(blocks)[i]} + {nb}
      ensures !grown ==> mem == old(mem) && blocks == old(blocks) && flist == old(flist)
    {
      var newptr := ExpandRight(curr, asize, i);
      ReadTag(mem, blocks, brk, i);
      grown := GetSize(mem, newptr) >= asize;
      nb := blocks[i];
      if grown {
        BreakAligned(blocks, brk);
        assert BlockOk(nb);
      }
    }

    /**
     * The moving branch of `realloc`: a new block is malloced and the old
     * block i freed; when malloc fails nothing changes.
     */
    method Relocate(oldptr: int, size: nat, ghost i: nat)
      returns (r: int, ghost nb: Block, ghost mid: seq<Block>, ghost midList: seq<int>, ghost m: nat)
      requires Valid() && size != 0 && i < |blocks| && blocks[i].start == oldptr - WSize && !blocks[i].free
      modifies this`mem, this`brk, this`freeHead, this`flist, this`blocks
      ensures Valid() && r != oldptr
      ensures r == Null ==> mem == old(mem) && brk == old(brk) && blocks == old(blocks) && flist == old(flist)
      ensures r != Null ==> && r == nb.start + WSize && r % Alignment == 0 && nb.size - 2 * WSize >= size
                            && Allocated(blocks) == Allocated(old(blocks)) - {old(blocks)[i]} + {nb}
      ensures r != Null ==>
                Moved(old(blocks), old(flist), old(mem), old(brk), i, nb, Align(size + MinSize), mid, midList, m, blocks, flist, brk)
    {
      ghost var a0, ob := Allocated(blocks), blocks[i];
      r, nb, m := MallocAside(oldptr, size, i);
      if r == Null {
        return r, nb, [], [], 0;
      }
      mid, midList := blocks, flist;
      Within(blocks, HeapStart, brk, m);
      Free(oldptr, m);
      Exchanged(a0, ob, nb);
    }

    /** The `malloc` of a moving `realloc`: the old block i stays allocated, at m among the new blocks. */
    method MallocAside(oldptr: int, size: nat, ghost i: nat) returns (r: int, ghost nb: Block, ghost m: nat)
      requires Valid() && size != 0 && i < |blocks| && blocks[i].start == oldptr - WSize && !blocks[i].free
      modifies this`mem, this`brk, this`freeHead, this`flist, this`blocks
      ensures Valid() && r != oldptr
      ensures r == Null ==> mem == old(mem) && brk == old(brk) && blocks == old(blocks) && flist == old(flist)
      ensures r != Null ==> && r == nb.start + WSize && r % Alignment == 0 && nb.size - 2 * WSize >= size
                            && m < |blocks| && blocks[m] == old(blocks)[i] && nb != old(blocks)[i]
                            && Allocated(blocks) == Allocated(old(blocks)) + {nb}
                            && flist == MallocList(old(flist), old(mem), nb.start, Align(size + MinSize))
                            && brk == BreakAfter(old(brk), old(flist), nb.start, Align(size + MinSize))
    {
      ghost var ob := blocks[i];
      ghost var a0 := Allocated(blocks);
      assert ob in a0;
      Within(blocks, HeapStart, brk, i);
      r, nb := Malloc(size);
      if r == Null {
        return r, nb, 0;
      }
      AllocatedOk(blocks, brk, nb);
      assert ob in Allocated(blocks) && nb != ob;
      if nb.start == ob.start {
        AllocatedApart(blocks, brk, nb, ob);
      }
      m := PositionOf(blocks, ob);
    }

    /**
     * `mm_checkheap`: checks the prologue, walks the free list checking that
     * each block's previous block links back to it and that no allocated
     * block is on it, then walks the heap checking payload alignment and that
     * each footer repeats its header, and that the walk ends at the break.
     * Every heap the allocator keeps passes all of these.
     */
    method CheckHeap() returns (ok: bool)
      requires Valid()
      ensures ok
    {
      ok := true;
      if PrologueReported(mem) {
        ok := false;
      }
      var listOk, linked := CheckList();
      ok := ok && listOk;
      if !linked {
        ok := false;
        return;
      }
      var heapOk := CheckBlocks();
      ok := ok && heapOk;
    }

    /**
     * The free-list walk of `mm_checkheap`: `linked` is false when a block's
     * previous block does not link back to it, which ends the check, and
     * `ok` is false when an allocated block is on the list.
     */
    method CheckList() returns (ok: bool, linked: bool)
      requires Valid()
      ensures ok && linked
    {
      ok, linked := true, true;
      var listp := freeHead;
      ghost var k: nat := 0;
      while listp != Null
        invariant ok && k <= |flist| && listp == if k < |flist| then flist[k] else Null
        decreases |flist| - k
      {
        assert LinksAt(mem, flist, k);
        var prev := GetPrev(mem, listp);
        if prev != Null {
          assert LinksAt(mem, flist, k - 1);
          if listp != GetNext(mem, prev) {
            linked := false;
            return;
          }
        }
        ghost var j := FreeIndex(blocks, flist, k);
        ReadTag(mem, blocks, brk, j);
        if GetAlloc(mem, listp) != 0 {
          ok := false;
        }
        listp := GetNext(mem, listp);
        k := k + 1;
      }
    }

    /**
     * The heap walk of `mm_checkheap`, from the first block to the break:
     * every payload is 8-aligned, every footer repeats its header, and the
     * walk ends exactly at the break.
     */
    method CheckBlocks() returns (ok: bool)
      requires Valid()
      ensures ok
    {
      ok := true;
      var curr := HeapStart;
      if blocks != [] {
        ReadTag(mem, blocks, brk, 0);
      }
      var blocksize := GetSize(mem, curr);
      ghost var j: nat := 0;
      while curr < brk - 1
        invariant ok && j <= |blocks| && curr == if j < |blocks| then blocks[j].start else brk
        invariant j < |blocks| ==> blocksize == blocks[j].size
        decreases |blocks| - j
      {
        if j == |blocks| {
          assert false;
        }
        assert BlockOk(blocks[j]);
        if (curr + WSize) % Alignment != 0 {
          ok := false;
          return;
        }
        ReadFooter(mem, blocks, brk, j);
        var footer := GetFSize(mem, curr);
        if footer != blocksize {
          ok := false;
          return;
        }
        curr := curr + blocksize;
        blocksize := GetSize(mem, curr);
        j := j + 1;
        if j < |blocks| {
          assert curr == blocks[j].start;
          ReadTag(mem, blocks, brk, j);
        }
      }
      if j < |blocks| {
        Within(blocks, HeapStart, brk, j);
      }
      if curr != brk - 1 + 1 {
        ok := false;
        return;
      }
    }

    /**
     * `malloc`: a request of 0 bytes gives NULL; otherwise a block of
     * ALIGN(size + MIN_SIZE) bytes is found or made, and its payload returned.
     */
    method Malloc(size: nat) returns (r: int, ghost nb: Block)
      requires Valid()
      modifies this`mem, this`brk, this`freeHead, this`flist, this`blocks
      ensures Valid()
      ensures r == Null ==> mem == old(mem) && brk == old(brk) && blocks == old(blocks) && flist == old(flist)
      ensures r == Null && size != 0 ==> && old(brk) + Align(size + MinSize) > maxHeap
                                         && forall j :: 0 <= j < |blocks| && blocks[j].free ==> blocks[j].size < Align(size + MinSize)
      ensures r != Null ==> && size != 0 && r == nb.start + WSize && r % Alignment == 0
                            && nb.size - 2 * WSize >= size && Align(size + MinSize) <= nb.size <= Align(size + MinSize) + MinSize
      ensures r != Null ==> if nb.start in old(flist)
                            then && nb.size == Fit(GetSize(old(mem), nb.start), Align(size + MinSize)) && brk == old(brk)
                                 && flist == FitList(old(flist), nb.start, GetSize(old(mem), nb.start), Align(size + MinSize))
                            else && nb == Block(old(brk), Align(size + MinSize), false) && brk == old(brk) + Align(size + MinSize)
                                 && blocks == old(blocks) + [nb] && flist == old(flist)
      ensures r != Null ==> Allocated(blocks) == Allocated(old(blocks)) + {nb} && nb !in Allocated(old(blocks))
    {
      if size == 0 {
        return Null, Block(0, 0, false);
      }
      var newsize := Align(size + MinSize);
      ghost var k;
      r, nb, k := FindFit(newsize);
      if r != Null {
        AllocatedOk(blocks, brk, nb);
      }
    }

    /** The free block after block i, when it is not block i's own start, is on the list. */
    lemma NextOnList(i: nat) returns (k: nat)
      requires i + 1 < |blocks| && blocks[i + 1].free
      requires Shape() && Chain() && ExactExcept(blocks, flist, blocks[i].start)
      ensures k < |flist| && flist[k] == blocks[i + 1].start
      ensures forall j :: 0 <= j < |flist| ==> flist[j] in Starts(blocks)
    {
      Ordered(blocks, HeapStart, brk, i, i + 1);
      StartsInStarts(blocks, i + 1);
      assert blocks[i + 1].start in FreeStarts(blocks) - {blocks[i].start};
      assert blocks[i + 1].start in Listing(flist);
      k := PositionOf(flist, blocks[i + 1].start);
    }

    /** The link writes of `add_front`. */
    method Push(p: int)
      requires p != Null
      modifies this`mem, this`freeHead
      ensures mem == Pushed(old(mem), p, old(freeHead)) && freeHead == p
    {
      SetPrev(p, Null);
      SetNext(p, freeHead);
      if freeHead != Null {
        SetPrev(freeHead, p);
      }
      freeHead := p;
    }

    /**
     * `remove_free`: the k-th block of the free list leaves it; its list
     * neighbours are linked to each other (the head moves when it was first).
     * The block itself need not be a block start any more (expand_right merges it first).
     */
    method RemoveFree(p: int, ghost k: nat)
      requires Shape() && Listed(mem, freeHead, flist)
      requires k < |flist| && flist[k] == p
      requires forall j :: 0 <= j < |flist| && j != k ==> flist[j] in Starts(blocks)
      modifies this`mem, this`freeHead, this`flist
      ensures Shape() && Chain()
      ensures flist == RemoveAt(old(flist), k) && Listing(flist) == Listing(old(flist)) - {p}
      ensures flist == Drop(old(flist), p)
      ensures mem == Unlinked(old(mem), old(flist), k)
    {
      ghost var m0, fl := mem, flist;
      DropAt(fl, k);
      RemoveAtListing(fl, k);
      UnlinkedKeepsTags(m0, blocks, brk, fl, k);
      UnlinkedKeepsListed(m0, freeHead, fl, k);
      RemoveAtWithin(fl, k, Starts(blocks));
      Relink(p, k);
      flist := RemoveAt(flist, k);
    }

    /** The case analysis of `remove_free` on the stored links of p. */
    method Relink(p: int, ghost k: nat)
      requires Listed(mem, freeHead, flist) && k < |flist| && flist[k] == p
      modifies this`mem, this`freeHead
      ensures mem == Unlinked(old(mem), flist, k)
      ensures freeHead == if PrevOf(flist, k) == Null then NextOf(flist, k) else old(freeHead)
    {
      assert LinksAt(mem, flist, k);
      if GetPrev(mem, p) == Null && GetNext(mem, p) == Null {
        freeHead := Null;
      } else if GetPrev(mem, p) == Null {
        var next := GetNext(mem, p);
        SetPrev(next, Null);
        freeHead := next;
      } else if GetNext(mem, p) == Null {
        var prev := GetPrev(mem, p);
        SetNext(prev, Null);
      } else {
        var prev := GetPrev(mem, p);
        var next := GetNext(mem, p);
        SetNext(prev, next);
        SetPrev(next, prev);
      }
    }
  }

  /** The heap after `add_front` links p in before the list head. */
  function Pushed(mem: map<int, int>, p: int, head: int): map<int, int>
  {
    var m := mem[p + WSize := 0][p + 2 * WSize := Offset(p, head)];
    if head == Null then m else m[head + WSize := p - head]
  }

  /** The three link writes of `add_front` keep every tag. */
  lemma PushedKeepsTags(mem: map<int, int>, bs: seq<Block>, brk: int, head: int, i: nat)
    requires Tiling(bs, brk) && Tags(mem, bs)
    requires i < |bs| && (head == Null || head in Starts(bs))
    ensures Tags(Pushed(mem, bs[i].start, head), bs)
  {
    var p := bs[i].start;
    var m1 := mem[p + WSize := 0];
    LinkWriteKeepsTags(mem, bs, brk, i, p + WSize, 0);
    LinkWriteKeepsTags(m1, bs, brk, i, p + 2 * WSize, Offset(p, head));
    var m2 := m1[p + 2 * WSize := Offset(p, head)];
    if head != Null {
      var h := IndexOfStart(bs, head);
      LinkWriteKeepsTags(m2, bs, brk, h, head + WSize, p - head);
    }
  }

  /** The three link writes of `add_front` push block i onto the list. */
  lemma PushedKeepsListed(mem: map<int, int>, bs: seq<Block>, brk: int, head: int, fl: seq<int>, i: nat)
    requires Tiling(bs, brk) && Listed(mem, head, fl)
    requires forall k :: 0 <= k < |fl| ==> fl[k] in Starts(bs)
    requires i < |bs| && bs[i].start !in fl
    ensures Listed(Pushed(mem, bs[i].start, head), bs[i].start, [bs[i].start] + fl)
    ensures forall k :: 0 <= k < |[bs[i].start] + fl| ==> ([bs[i].start] + fl)[k] in Starts(bs)
  {
    var p := bs[i].start;
    Within(bs, HeapStart, brk, i);
    PushKeepsListed(mem, head, fl, p, Pushed(mem, p, head));
    StartsInStarts(bs, i);
    var t := [p] + fl;
    forall k | 0 <= k < |t|
      ensures t[k] in Starts(bs)
    {
      if k > 0 {
        assert t[k] == fl[k - 1];
      }
    }
  }

  /** The heap after `remove_free` takes the k-th block out of the list. */
  function Unlinked(mem: map<int, int>, fl: seq<int>, k: nat): map<int, int>
    requires k < |fl|
  {
    var prev, next := PrevOf(fl, k), NextOf(fl, k);
    var m := if prev == Null then mem else mem[prev + 2 * WSize := Offset(prev, next)];
    if next == Null then m else m[next + WSize := Offset(next, prev)]
  }

  /** The link writes of `remove_free` land on list blocks, so they keep every tag. */
  lemma UnlinkedKeepsTags(mem: map<int, int>, bs: seq<Block>, brk: int, fl: seq<int>, k: nat)
    requires Tiling(bs, brk) && Tags(mem, bs) && k < |fl|
    requires forall j :: 0 <= j < |fl| && j != k ==> fl[j] in Starts(bs)
    requires forall j, m :: 0 <= j < m < |fl| ==> fl[j] != fl[m]
    ensures Tags(Unlinked(mem, fl, k), bs)
  {
    var prev, next := PrevOf(fl, k), NextOf(fl, k);
    var m := if prev == Null then mem else mem[prev + 2 * WSize := Offset(prev, next)];
    if prev != Null {
      var h := IndexOfStart(bs, fl[k - 1]);
      LinkWriteKeepsTags(mem, bs, brk, h, prev + 2 * WSize, Offset(prev, next));
    }
    if next != Null {
      var h := IndexOfStart(bs, fl[k + 1]);
      LinkWriteKeepsTags(m, bs, brk, h, next + WSize, Offset(next, prev));
    }
  }

  /** After `remove_free` the stored links read as the list without its k-th block. */
  lemma UnlinkedKeepsListed(mem: map<int, int>, head: int, fl: seq<int>, k: nat)
    requires k < |fl| && Listed(mem, head, fl)
    ensures Listed(Unlinked(mem, fl, k), if PrevOf(fl, k) == Null then NextOf(fl, k) else head, RemoveAt(fl, k))
  {
    var t := RemoveAt(fl, k);
    forall j | 0 <= j < |t|
      ensures LinksAt(Unlinked(mem, fl, k), t, j)
    {
      UnlinkedLinksAt(mem, head, fl, k, j);
    }
    forall j, m | 0 <= j < m < |t|
      ensures t[j] != t[m]
    {
    }
    if t != [] {
      assert PrevOf(fl, k) == Null ==> k == 0 && t[0] == fl[1];
      assert PrevOf(fl, k) != Null ==> k > 0 && t[0] == fl[0];
    }
  }

  /** One block of the shortened list: its stored links after `remove_free`. */
  lemma UnlinkedLinksAt(mem: map<int, int>, head: int, fl: seq<int>, k: nat, j: nat)
    requires k < |fl| && Listed(mem, head, fl) && j < |fl| - 1
    ensures LinksAt(Unlinked(mem, fl, k), RemoveAt(fl, k), j)
  {
    UnlinkedPrevAt(mem, head, fl, k, j);
    UnlinkedNextAt(mem, head, fl, k, j);
  }

  /** The previous link of the j-th block of the shortened list. */
  lemma UnlinkedPrevAt(mem: map<int, int>, head: int, fl: seq<int>, k: nat, j: nat)
    requires k < |fl| && Listed(mem, head, fl) && j < |fl| - 1
    ensures GetPrev(Unlinked(mem, fl, k), RemoveAt(fl, k)[j]) == PrevOf(RemoveAt(fl, k), j)
  {
    var t := RemoveAt(fl, k);
    var o := if j < k then j else j + 1;
    var q := fl[o];
    assert t[j] == q && LinksAt(mem, fl, o);
    UnlinkedWords(mem, head, fl, k, o);
    if j == k {
      if k > 0 {
        assert t[j - 1] == fl[k - 1] && fl[k - 1] != q;
      }
    } else if j < k {
      if j > 0 {
        assert t[j - 1] == fl[j - 1];
      }
    } else {
      assert t[j - 1] == fl[j];
    }
  }

  /** The next link of the j-th block of the shortened list. */
  lemma UnlinkedNextAt(mem: map<int, int>, head: int, fl: seq<int>, k: nat, j: nat)
    requires k < |fl| && Listed(mem, head, fl) && j < |fl| - 1
    ensures GetNext(Unlinked(mem, fl, k), RemoveAt(fl, k)[j]) == NextOf(RemoveAt(fl, k), j)
  {
    var t := RemoveAt(fl, k);
    var o := if j < k then j else j + 1;
    var q := fl[o];
    assert t[j] == q && LinksAt(mem, fl, o);
    UnlinkedWords(mem, head, fl, k, o);
    if j + 1 == k {
      if k < |fl| - 1 {
        assert t[j + 1] == fl[k + 1] && fl[k + 1] != q;
      }
    } else if j + 1 < k {
      assert t[j + 1] == fl[j + 1];
    } else if j < |t| - 1 {
      assert t[j + 1] == fl[j + 2];
    }
  }

  /** The link words of the o-th list block after `remove_free` takes out the k-th. */
  lemma UnlinkedWords(mem: map<int, int>, head: int, fl: seq<int>, k: nat, o: nat)
    requires k < |fl| && Listed(mem, head, fl) && o < |fl| && o != k
    ensures var mem', q := Unlinked(mem, fl, k), fl[o];
            && Word(mem', q + WSize) == (if o == k + 1 then Offset(q, PrevOf(fl, k)) else Word(mem, q + WSize))
            && Word(mem', q + 2 * WSize) == (if o == k - 1 then Offset(q, NextOf(fl, k)) else Word(mem, q + 2 * WSize))
  {
    var prev, next := PrevOf(fl, k), NextOf(fl, k);
    var q := fl[o];
    if prev != Null {
      LinkWordsApart(q, prev);
      assert o != k - 1 ==> q != prev;
    }
    if next != Null {
      LinkWordsApart(next, q);
      assert o != k + 1 ==> q != next;
    }
  }

  /** Dropping the k-th entry of a list without repeats drops exactly that block. */
  lemma RemoveAtListing(fl: seq<int>, k: nat)
    requires k < |fl| && forall j, m :: 0 <= j < m < |fl| ==> fl[j] != fl[m]
    ensures Listing(RemoveAt(fl, k)) == Listing(fl) - {fl[k]}
  {
    var t := RemoveAt(fl, k);
    forall x | x in Listing(fl) - {fl[k]}
      ensures x in Listing(t)
    {
      var m := PositionOf(fl, x);
      if m < k {
        assert t[m] == x;
      } else {
        assert t[m - 1] == x;
      }
    }
  }

  /** Dropping the k-th entry keeps a property every other entry has. */
  lemma RemoveAtWithin(fl: seq<int>, k: nat, s: set<int>)
    requires k < |fl| && forall j :: 0 <= j < |fl| && j != k ==> fl[j] in s
    ensures forall j :: 0 <= j < |RemoveAt(fl, k)| ==> RemoveAt(fl, k)[j] in s
  {
  }

  /** A previous-link word never sits where a next-link word of an aligned block does. */
  lemma LinkWordsApart(x: int, y: int)
    requires (x + WSize) % Alignment == 0 && (y + WSize) % Alignment == 0
    ensures x + WSize != y + 2 * WSize
  {
  }

  /** Pushing a block onto the front of the list with the three link writes of `add_front`. */
  lemma PushKeepsListed(mem: map<int, int>, head: int, fl: seq<int>, p: int, mem': map<int, int>)
    requires Listed(mem, head, fl)
    requires (p + WSize) % Alignment == 0 && p !in fl
    requires Word(mem', p + WSize) == 0 && Word(mem', p + 2 * WSize) == Offset(p, head)
    requires fl != [] ==> Word(mem', head + WSize) == p - head
    requires forall x :: x != p + WSize && x != p + 2 * WSize && x != head + WSize ==> Word(mem', x) == Word(mem, x)
    ensures Listed(mem', p, [p] + fl)
  {
    var t := [p] + fl;
    forall k | 0 <= k < |t|
      ensures LinksAt(mem', t, k)
    {
      if k == 0 {
        if fl != [] {
          assert t[1] == head && head != p && head != Null;
        }
      } else {
        var q := fl[k - 1];
        assert t[k] == q && LinksAt(mem, fl, k - 1);
        LinkWordsApart(p, q);
        LinkWordsApart(q, p);
        LinkWordsApart(head, q);
        assert q != p;
        assert Word(mem', q + 2 * WSize) == Word(mem, q + 2 * WSize);
        if k > 1 {
          assert q != head;
          assert Word(mem', q + WSize) == Word(mem, q + WSize);
        }
      }
    }
    forall k, m | 0 <= k < m < |t|
      ensures t[k] != t[m]
    {
      assert t[m] == fl[m - 1];
      if k > 0 {
        assert t[k] == fl[k - 1];
      }
    }
  }

  /** Allocated block i reaches `asize` bytes by absorbing the free block after it (`expand_right`). */
  ghost predicate Absorbs(bs: seq<Block>, i: nat, asize: int)
    requires i < |bs|
  {
    i + 1 < |bs| && bs[i + 1].free && bs[i].size + bs[i + 1].size >= asize
  }

  /** The break after `malloc` of `asize` bytes placed at p: it moves only when p was not on the list. */
  ghost function BreakAfter(brk: int, fl: seq<int>, p: int, asize: int): int
  {
    if p in fl then brk else brk + asize
  }

  /** The free list after `malloc` of `asize` bytes placed at p: FitList when p came off the list, unchanged after sbrk. */
  ghost function MallocList(fl: seq<int>, mem: map<int, int>, p: int, asize: int): seq<int>
  {
    if p in fl then FitList(fl, p, GetSize(mem, p), asize) else fl
  }

  /** `realloc` in place: block i absorbed its free successor, which left the list, or nothing changed. */
  ghost predicate InPlace(bs: seq<Block>, fl: seq<int>, i: nat, asize: int, bs': seq<Block>, fl': seq<int>)
    requires i < |bs|
  {
    if Absorbs(bs, i, asize) then bs' == Merge(bs, i, false) && fl' == Drop(fl, bs[i + 1].start)
    else bs' == bs && fl' == fl
  }

  /**
   * A moving `realloc` of block i: `malloc` of `asize` bytes placed nb, giving
   * the blocks `mid` and the list `midList`, and then `free` of the old block,
   * at m in `mid`, gave `bs'` and `fl'`.
   */
  ghost predicate Moved(bs: seq<Block>, fl: seq<int>, mem: map<int, int>, brk: int, i: nat, nb: Block, asize: int,
                        mid: seq<Block>, midList: seq<int>, m: nat, bs': seq<Block>, fl': seq<int>, brk': int)
    requires i < |bs|
  {
    && m < |mid| && mid[m] == bs[i] && Allocated(mid) == Allocated(bs) + {nb}
    && midList == MallocList(fl, mem, nb.start, asize) && brk' == BreakAfter(brk, fl, nb.start, asize)
    && bs' == Freed(mid, m) && fl' == FreedList(mid, midList, m)
  }

  /** Block i holds `asize` bytes already, or does once it absorbs the free block after it. */
  ghost predicate Grows(bs: seq<Block>, i: nat, asize: int)
    requires i < |bs|
  {
    bs[i].size >= asize || (i + 1 < |bs| && bs[i + 1].free && bs[i].size + bs[i + 1].size >= asize)
  }

  /** Adding one block and removing another, in either order, gives the same set. */
  lemma Exchanged(a: set<Block>, x: Block, y: Block)
    requires x != y
    ensures a + {y} - {x} == a - {x} + {y}
  {
  }

  /** Two allocated blocks with the same start are the same block. */
  lemma AllocatedApart(bs: seq<Block>, brk: int, a: Block, b: Block)
    requires Tiling(bs, brk) && a in Allocated(bs) && b in Allocated(bs) && a.start == b.start
    ensures a == b
  {
    var m := PositionOf(bs, a);
    var n := PositionOf(bs, b);
    StartUnique(bs, HeapStart, brk, m, n);
  }

  /** GET_F_SIZE at a block reads the size in its footer. */
  lemma ReadFooter(mem: map<int, int>, bs: seq<Block>, brk: int, i: nat)
    requires Tiling(bs, brk) && Tags(mem, bs) && brk < 0x8000_0000 && i < |bs|
    ensures GetFSize(mem, bs[i].start) == bs[i].size
  {
    ReadTag(mem, bs, brk, i);
    assert bs[i].start + GetSize(mem, bs[i].start) - WSize == End(bs[i]) - WSize;
  }

  /**
   * The prologue test of `mm_checkheap` as written: it reports only when both
   * fields are wrong, so only words the intended test also reports.
   */
  function PrologueReportedAsWritten(mem: map<int, int>): (r: bool)
    ensures r ==> PrologueReported(mem)
  {
    GetSize(mem, 0) != 0 && GetAlloc(mem, 0) != 1
  }

  /** A zeroed prologue word, size 0 and alloc 0, passes the test as written. */
  lemma ZeroPrologueNotReported()
    ensures !PrologueReportedAsWritten(map[0 := 0]) && Unsigned(map[0 := 0], 0) != PrologueTag
  {
  }

  /** The prologue test as intended: it reports when either field is wrong. */
  function PrologueReported(mem: map<int, int>): (r: bool)
    ensures r <==> Unsigned(mem, 0) != PrologueTag
  {
    GetSize(mem, 0) != 0 || GetAlloc(mem, 0) != 1
  }

  /** No free block starts where an allocated block does. */
  lemma NotFree(bs: seq<Block>, brk: int, i: nat)
    requires Tiling(bs, brk) && i < |bs| && !bs[i].free
    ensures bs[i].start !in FreeStarts(bs)
  {
    var p := bs[i].start;
    if p in FreeStarts(bs) {
      var b :| b in bs && b.free && b.start == p;
      var m := PositionOf(bs, b);
      StartUnique(bs, HeapStart, brk, i, m);
    }
  }

  /**
   * An allocated block i that absorbs the free block after it, which leaves the
   * list, keeps the list exact.
   */
  lemma Grown(bs: seq<Block>, brk: int, fl: seq<int>, fl': seq<int>, i: nat)
    requires Tiling(bs, brk) && FreeExact(bs, fl) && i + 1 < |bs| && !bs[i].free
    requires Tiling(Merge(bs, i, false), brk)
    requires ExactExcept(Merge(bs, i, false), fl', bs[i].start) && Listing(fl') <= Listing(fl)
    ensures FreeExact(Merge(bs, i, false), fl')
  {
    var t := Merge(bs, i, false);
    var p := bs[i].start;
    NotFree(bs, brk, i);
    assert t[i] == Block(p, bs[i].size + bs[i + 1].size, false);
    NotFree(t, brk, i);
    assert p !in Listing(fl');
    calc {
      Listing(fl');
      Listing(fl') - {p};
      FreeStarts(t) - {p};
      FreeStarts(t);
    }
  }

  /** An allocated block is not on an exact free list; freeing it leaves the list exact but for it. */
  lemma Released(bs: seq<Block>, brk: int, fl: seq<int>, i: nat)
    requires Tiling(bs, brk) && FreeExact(bs, fl) && i < |bs| && !bs[i].free
    ensures bs[i].start !in fl
    ensures ExactExcept(Flip(bs, i, true), fl, bs[i].start)
    ensures Allocated(Flip(bs, i, true)) == Allocated(bs) - {bs[i]}
  {
    var p := bs[i].start;
    if p in FreeStarts(bs) {
      var b :| b in bs && b.free && b.start == p;
      var m := PositionOf(bs, b);
      StartUnique(bs, HeapStart, brk, i, m);
    }
    assert p !in Listing(fl);
    FlipFree(bs, brk, i, true);
    FlipAllocated(bs, brk, i, true);
  }

  /** A header just written reads back the size it was given. */
  lemma ReadBack(mem: map<int, int>, p: int, size: nat, alloc: nat)
    requires size % Alignment == 0 && alloc < Alignment && size < 0x8000_0000
    ensures GetSize(mem[p := Pack(size, alloc)], p) == size
  {
    PackFields(size, alloc);
    var w := size + alloc;
    assert Word(mem[p := Pack(size, alloc)], p) == w;
    assert 0 <= w < WordRange;
    assert w % WordRange == w;
  }

  /** The break sits 4 bytes short of an 8-byte boundary, like every block start. */
  lemma BreakAligned(bs: seq<Block>, brk: int)
    requires Tiling(bs, brk)
    ensures (brk + WSize) % Alignment == 0
  {
    if bs != [] {
      assert BlockOk(bs[|bs| - 1]);
    }
  }

  /** Pushing the one free block missing from the list completes it. */
  lemma Completed(bs: seq<Block>, fl: seq<int>, j: nat)
    requires j < |bs| && bs[j].free && ExactExcept(bs, fl, bs[j].start)
    ensures FreeExact(bs, [bs[j].start] + fl)
  {
    StartsInStarts(bs, j);
    var t := [bs[j].start] + fl;
    var p := bs[j].start;
    assert forall x :: x in t <==> x == p || x in fl;
    calc {
      Listing(t);
      Listing(fl) + {p};
      (Listing(fl) - {p}) + {p};
      (FreeStarts(bs) - {p}) + {p};
      FreeStarts(bs);
    }
  }
  /** When every list block is too small, so is every free block. */
  lemma NoFit(mem: map<int, int>, bs: seq<Block>, brk: int, fl: seq<int>, newsize: int)
    requires Tiling(bs, brk) && Tags(mem, bs) && brk < 0x8000_0000 && FreeExact(bs, fl)
    requires forall m :: 0 <= m < |fl| ==> GetSize(mem, fl[m]) < newsize
    ensures forall j :: 0 <= j < |bs| && bs[j].free ==> bs[j].size < newsize
  {
    forall j | 0 <= j < |bs| && bs[j].free
      ensures bs[j].size < newsize
    {
      StartsInStarts(bs, j);
      assert bs[j].start in Listing(fl);
      var m := PositionOf(fl, bs[j].start);
      ReadTag(mem, bs, brk, j);
    }
  }

  /** The block of the k-th list entry is a free block. */
  lemma FreeIndex(bs: seq<Block>, fl: seq<int>, k: nat) returns (j: nat)
    requires FreeExact(bs, fl) && k < |fl|
    ensures j < |bs| && bs[j].start == fl[k] && bs[j].free
  {
    assert fl[k] in Listing(fl);
    var b :| b in bs && b.free && b.start == fl[k];
    j := PositionOf(bs, b);
  }

  /** Every block of the heap, allocated ones included, is well formed. */
  lemma AllocatedOk(bs: seq<Block>, brk: int, b: Block)
    requires Tiling(bs, brk) && b in Allocated(bs)
    ensures BlockOk(b) && !b.free
  {
    var j := PositionOf(bs, b);
  }

  /** Marking free block j allocated and taking it off the list keeps the list exact. */
  lemma Taken(bs: seq<Block>, brk: int, fl: seq<int>, fl': seq<int>, j: nat)
    requires Tiling(bs, brk) && FreeExact(bs, fl) && j < |bs| && bs[j].free
    requires Listing(fl') == Listing(fl) - {bs[j].start}
    ensures FreeExact(Flip(bs, j, false), fl')
    ensures var b := Block(bs[j].start, bs[j].size, false);
            Allocated(Flip(bs, j, false)) == Allocated(bs) + {b} && b !in Allocated(bs)
  {
    FlipFree(bs, brk, j, false);
    FlipAllocated(bs, brk, j, false);
    NotAllocated(bs, brk, j);
  }

  /** No allocated block shares its start with free block j. */
  lemma NotAllocated(bs: seq<Block>, brk: int, j: nat)
    requires Tiling(bs, brk) && j < |bs| && bs[j].free
    ensures forall b :: b in Allocated(bs) ==> b.start != bs[j].start
    ensures bs[j] !in Allocated(bs)
  {
    forall b | b in Allocated(bs)
      ensures b.start != bs[j].start
    {
      var m := PositionOf(bs, b);
      if b.start == bs[j].start {
        StartUnique(bs, HeapStart, brk, m, j);
      }
    }
  }

  /** What `split_explicit` needs once block i is cut: its free half is the one free block off the list. */
  lemma SplitReady(bs: seq<Block>, brk: int, fl: seq<int>, fl': seq<int>, i: nat, p: int, asize: int, fsize: int, t: seq<Block>)
    requires Tiling(bs, brk) && FreeExact(bs, fl) && i < |bs| && bs[i].free && bs[i].start == p
    requires asize % Alignment == 0 && MinSize <= asize && fsize == bs[i].size - asize && fsize >= MinSize
    requires Listing(fl') == Listing(fl) - {p} && t == Split(bs, i, asize)
    requires forall k :: 0 <= k < |fl'| ==> fl'[k] in Starts(bs)
    ensures p + asize !in fl' && FreeExact(t, [p + asize] + fl')
    ensures forall k :: 0 <= k < |fl'| ==> fl'[k] in Starts(t)
    ensures i + 1 < |t| && t[i + 1] == Block(p + asize, fsize, true)
    ensures Allocated(t) == Allocated(bs) + {Block(p, asize, false)} && Block(p, asize, false) !in Allocated(bs)
  {
    SplitExact(bs, brk, fl, fl', i, p, asize, t);
    SplitBlocks(bs, i, asize, fsize);
  }

  /**
   * After free block i leaves the list and is split, pushing the free half
   * completes the list again.
   */
  lemma SplitExact(bs: seq<Block>, brk: int, fl: seq<int>, fl': seq<int>, i: nat, p: int, asize: int, t: seq<Block>)
    requires Tiling(bs, brk) && FreeExact(bs, fl) && i < |bs| && bs[i].free && bs[i].start == p
    requires asize % Alignment == 0 && MinSize <= asize && bs[i].size - asize >= MinSize
    requires Listing(fl') == Listing(fl) - {p} && t == Split(bs, i, asize)
    requires forall k :: 0 <= k < |fl'| ==> fl'[k] in Starts(bs)
    ensures p + asize !in fl' && FreeExact(t, [p + asize] + fl')
    ensures forall k :: 0 <= k < |fl'| ==> fl'[k] in Starts(t)
    ensures Allocated(t) == Allocated(bs) + {Block(p, asize, false)}
    ensures Block(p, asize, false) !in Allocated(bs)
  {
    var f := p + asize;
    SplitSets(bs, brk, i, asize);
    NotAllocated(bs, brk, i);
    assert bs[i] !in Allocated(bs);
    if f in fl' {
      var k := PositionOf(fl', f);
    }
    var t := [f] + fl';
    assert forall x :: x in t <==> x == f || x in fl';
    assert Listing(t) == Listing(fl') + {f};
  }

  /** A free block that is back on the list makes the list exact. */
  lemma Rejoined(bs0: seq<Block>, fl0: seq<int>, bs: seq<Block>, fl: seq<int>, j: nat)
    requires j < |bs| && bs[j].free && ExactExcept(bs, fl, bs[j].start)
    requires bs[j].start in fl0 && Listing(fl) == Listing(fl0) - (Starts(bs0) - Starts(bs))
    ensures FreeExact(bs, fl)
  {
    var p := bs[j].start;
    StartsInStarts(bs, j);
    assert p in Listing(fl0);
    assert p in Listing(fl);
    calc {
      Listing(fl);
      (Listing(fl) - {p}) + {p};
      (FreeStarts(bs) - {p}) + {p};
      FreeStarts(bs);
    }
  }
}
