/**
 * The small-object allocator (soalloc/smallobj.c).
 *
 * A pool hands out objects of one fixed size from a singly linked list of
 * chunks.  Each chunk has room for `objectsPerChunk` objects starting at the
 * address `mem`, an occupancy array `freeArr` (0 free, 1 in use), a cursor
 * `nextAvailable` and a count `numFreed` of free slots.  Addresses are
 * integers; the address of a new chunk's memory comes from `malloc`, which is
 * outside the model, and is passed in by the caller.
 *
 * The pool keeps the ghost sequence `Chunks` of its chunks in list order and
 * `Occupancy`, the contents of each chunk's occupancy array.
 */
module SmallObj {
  import opened Seqs

  /** `sizeof(smallobj_pool_t)` on a 64-bit target: two ints and a pointer. */
  const PoolStructSize: nat := 16
  /** `sizeof(chunk_t)`: a pointer, two ints and two pointers; `mem` adds nothing. */
  const ChunkStructSize: nat := 32
  /** `sizeof(int)`, the size of one `free_arr` entry. */
  const IntSize: nat := 4
  /** `sizeof(intptr_t)`, the smallest object size a pool accepts. */
  const PointerSize: nat := 8

  /** The number of free (0) entries of an occupancy array. */
  function Zeros(s: seq<int>): (r: nat)
    ensures r <= |s|
  {
    if s == [] then 0 else Zeros(s[..|s| - 1]) + (if s[|s| - 1] == 0 then 1 else 0)
  }

  /** Setting entry i to v changes the number of free entries by what was there and what is put. */
  lemma {:induction false} ZerosUpdate(s: seq<int>, i: nat, v: int)
    requires i < |s|
    ensures Zeros(s[i := v]) == Zeros(s) - (if s[i] == 0 then 1 else 0) + (if v == 0 then 1 else 0)
  {
    var n := |s| - 1;
    if i < n {
      assert s[i := v][..n] == s[..n][i := v];
      ZerosUpdate(s[..n], i, v);
    } else {
      assert s[i := v][..n] == s[..n];
    }
  }

  /** There is a free entry exactly when the count of free entries is positive. */
  lemma {:induction false} ZerosPositive(s: seq<int>)
    ensures Zeros(s) > 0 <==> exists i :: 0 <= i < |s| && s[i] == 0
  {
    if s != [] {
      var n := |s| - 1;
      ZerosPositive(s[..n]);
      if Zeros(s[..n]) > 0 {
        var i :| 0 <= i < n && s[..n][i] == 0;
        assert s[i] == 0;
      }
      forall i | 0 <= i < n && s[i] == 0
        ensures Zeros(s[..n]) > 0
      {
        assert s[..n][i] == 0;
      }
    }
  }

  /** Every entry is free exactly when the count of free entries is the length. */
  lemma {:induction false} ZerosFull(s: seq<int>)
    ensures Zeros(s) == |s| <==> forall i :: 0 <= i < |s| ==> s[i] == 0
  {
    if s != [] {
      var n := |s| - 1;
      ZerosFull(s[..n]);
      if Zeros(s) == |s| {
        forall i | 0 <= i < |s|
          ensures s[i] == 0
        {
          if i < n {
            assert s[..n][i] == 0;
          }
        }
      }
      if forall i :: 0 <= i < |s| ==> s[i] == 0 {
        assert forall i :: 0 <= i < n ==> s[..n][i] == 0;
      }
    }
  }

  /** A fresh occupancy array: n free entries. */
  lemma {:induction false} ZerosAllFree(n: nat)
    ensures Zeros(seq(n, _ => 0)) == n
  {
    if n > 0 {
      assert seq(n, _ => 0)[..n - 1] == seq(n - 1, _ => 0);
      ZerosAllFree(n - 1);
    }
  }

  /** The first free entry at or after `from`, or |s| when there is none. */
  function FirstFree(s: seq<int>, from: nat): (r: nat)
    ensures from <= |s| ==> from <= r <= |s|
    ensures from > |s| ==> r == from
    ensures r < |s| ==> s[r] == 0
    ensures forall i :: from <= i < r && i < |s| ==> s[i] != 0
    decreases |s| - from
  {
    if from >= |s| then from
    else if s[from] == 0 then from
    else FirstFree(s, from + 1)
  }

  /** The slot `get_nonfull_chunk` and `alloc_object_from_chunk` use: the cursor, or the first free entry once the cursor has run off the end. */
  function NextSlot(s: seq<int>, cursor: nat): nat
  {
    if cursor < |s| then cursor else FirstFree(s, 0)
  }

  /** Multiplying by a non-negative number is monotone. */
  lemma MulMono(a: int, b: int, c: nat)
    requires a <= b
    ensures a * c <= b * c
  {
    assert b * c - a * c == (b - a) * c;
  }

  /** The index computed for any address inside a chunk's memory is a valid slot. */
  lemma IndexInRange(offset: nat, n: int, size: nat)
    requires size > 0 && offset < n * size
    ensures offset / size < n
  {
    if offset / size >= n {
      MulMono(n, offset / size, size);
    }
  }

  /**
   * Object i of a chunk lies inside the chunk's memory, and the index that
   * `free_object_in_chunk` computes from its address is i again.
   */
  lemma ObjectAddress(mem: int, i: nat, n: nat, size: nat)
    requires i < n && size > 0
    ensures mem <= mem + i * size < mem + n * size
    ensures (mem + i * size - mem) / size == i
  {
    MulMono(i + 1, n, size);
    assert (i + 1) * size == i * size + size;
    var r := (i * size) / size;
    IndexInRange(i * size, i + 1, size);
    if r < i {
      MulMono(r + 1, i, size);
    }
  }

  /** No chunk, and no occupancy array, appears twice. */
  ghost predicate Distinct(cs: seq<Chunk>)
  {
    forall i, j :: 0 <= i < j < |cs| ==> cs[i] != cs[j] && cs[i].freeArr != cs[j].freeArr
  }

  /** Cutting one chunk out of the list keeps the rest distinct. */
  lemma CutKeepsDistinct(cs: seq<Chunk>, k: nat)
    requires Distinct(cs) && k < |cs|
    ensures Distinct(RemoveAt(cs, k))
  {
    var t := RemoveAt(cs, k);
    forall i, j | 0 <= i < j < |t|
      ensures t[i] != t[j] && t[i].freeArr != t[j].freeArr
    {
      var i' := if i < k then i else i + 1;
      var j' := if j < k then j else j + 1;
      assert t[i] == cs[i'] && t[j] == cs[j'];
    }
  }

  /**
   * The bookkeeping of a chunk with occupancy `occ`: entries are 0 (free) or
   * 1 (in use), `numFreed` counts the free ones, and the cursor is at the end
   * or on a free entry.
   */
  ghost predicate SlotsOk(occ: seq<int>, numFreed: int, cursor: int)
  {
    && (forall i :: 0 <= i < |occ| ==> occ[i] == 0 || occ[i] == 1)
    && numFreed == Zeros(occ)
    && 0 <= cursor <= |occ|
    && (cursor < |occ| ==> occ[cursor] == 0)
  }

  /**
   * The chunks belong to `pool`, they and their occupancy arrays are in
   * `repr`, and every occupancy array has one entry per object of the pool.
   */
  ghost predicate Owned(cs: seq<Chunk>, os: seq<seq<int>>, repr: set<object>, pool: Pool)
    requires |cs| == |os|
  {
    forall i :: 0 <= i < |cs| ==>
      && cs[i] in repr && cs[i].freeArr in repr && cs[i].pool == pool
      && cs[i].freeArr.Length == |os[i]| == pool.objectsPerChunk
  }

  /** A chunk's counters, cursor and occupancy array agree with the occupancy and cursor recorded for it. */
  ghost predicate Agrees(c: Chunk, occ: seq<int>, cursor: int)
    reads c`numFreed, c`nextAvailable, c.freeArr
  {
    SlotsOk(occ, c.numFreed, cursor) && c.nextAvailable == cursor && c.freeArr[..] == occ
  }

  /** Each chunk agrees with its recorded occupancy and cursor. */
  ghost predicate Matched(cs: seq<Chunk>, os: seq<seq<int>>, cus: seq<int>)
    requires |cs| == |os| == |cus|
    reads (set c | c in cs)`numFreed, (set c | c in cs)`nextAvailable, set c | c in cs :: c.freeArr
  {
    forall i :: 0 <= i < |cs| ==> Agrees(cs[i], os[i], cus[i])
  }

  /** Appending a chunk of the pool keeps the chunks owned. */
  lemma AppendKeepsOwned(cs: seq<Chunk>, os: seq<seq<int>>, repr: set<object>, pool: Pool, c: Chunk, occ: seq<int>)
    requires |cs| == |os| && Owned(cs, os, repr, pool)
    requires c.pool == pool && c.freeArr.Length == |occ| == pool.objectsPerChunk
    ensures Owned(cs + [c], os + [occ], repr + {c, c.freeArr}, pool)
  {
    var ct, ot := cs + [c], os + [occ];
    forall i | 0 <= i < |cs|
      ensures ct[i] == cs[i] && ot[i] == os[i]
    {
    }
  }

  /** Appending a chunk that agrees with its occupancy keeps the chunks matched. */
  lemma AppendKeepsMatched(cs: seq<Chunk>, os: seq<seq<int>>, cus: seq<int>, c: Chunk, occ: seq<int>, cursor: int)
    requires |cs| == |os| == |cus| && Matched(cs, os, cus)
    requires Agrees(c, occ, cursor)
    ensures Matched(cs + [c], os + [occ], cus + [cursor])
  {
    var ct, ot, ut := cs + [c], os + [occ], cus + [cursor];
    forall i | 0 <= i < |cs|
      ensures ct[i] == cs[i] && ot[i] == os[i] && ut[i] == cus[i]
    {
    }
  }

  /** Appending a chunk, and an occupancy array, that appear nowhere in the list keeps it distinct. */
  lemma AppendKeepsDistinct(cs: seq<Chunk>, c: Chunk)
    requires Distinct(cs)
    requires forall i :: 0 <= i < |cs| ==> cs[i] != c && cs[i].freeArr != c.freeArr
    ensures Distinct(cs + [c])
  {
    var t := cs + [c];
    forall i, j | 0 <= i < j < |t|
      ensures t[i] != t[j] && t[i].freeArr != t[j].freeArr
    {
      assert t[i] == cs[i];
    }
  }

  /** Cutting one chunk out of the list keeps the others owned. */
  lemma CutKeepsOwned(cs: seq<Chunk>, os: seq<seq<int>>, repr: set<object>, pool: Pool, k: nat)
    requires |cs| == |os| && k < |cs| && Owned(cs, os, repr, pool)
    ensures Owned(RemoveAt(cs, k), RemoveAt(os, k), repr, pool)
  {
    var ct, ot := RemoveAt(cs, k), RemoveAt(os, k);
    forall i | 0 <= i < |ct|
      ensures ct[i] == cs[if i < k then i else i + 1] && ot[i] == os[if i < k then i else i + 1]
    {
    }
  }

  /** Cutting one chunk out of the list keeps the others matched with their occupancy. */
  lemma CutKeepsMatched(cs: seq<Chunk>, os: seq<seq<int>>, cus: seq<int>, k: nat)
    requires |cs| == |os| == |cus| && k < |cs| && Matched(cs, os, cus)
    ensures Matched(RemoveAt(cs, k), RemoveAt(os, k), RemoveAt(cus, k))
  {
    var ct, ot, ut := RemoveAt(cs, k), RemoveAt(os, k), RemoveAt(cus, k);
    forall i | 0 <= i < |ct|
      ensures var i' := if i < k then i else i + 1; ct[i] == cs[i'] && ot[i] == os[i'] && ut[i] == cus[i']
    {
    }
  }

  /** Recording a new occupancy of the same length for chunk k keeps the chunks owned. */
  lemma UpdateKeepsOwned(cs: seq<Chunk>, os: seq<seq<int>>, repr: set<object>, pool: Pool, k: nat, occ: seq<int>)
    requires |cs| == |os| && k < |cs| && Owned(cs, os, repr, pool) && |occ| == |os[k]|
    ensures Owned(cs, os[k := occ], repr, pool)
  {
  }

  /**
   * An entry left alone (or appended) at k and then set at k: the sequence
   * is the original one with entry k set (or the new value appended).
   */
  lemma SetTwice<T>(s: seq<T>, k: nat, mid: seq<T>, fin: seq<T>, a: T, b: T)
    requires k <= |s|
    requires k < |s| ==> |mid| == |s| && forall j :: 0 <= j < |s| && j != k ==> mid[j] == s[j]
    requires k == |s| ==> mid == s + [a]
    requires k < |mid| && fin == mid[k := b]
    ensures k < |s| ==> fin == s[k := b]
    ensures k == |s| ==> fin == s + [b]
  {
  }

  /**
   * Chunk k agreeing with its new occupancy and cursor, and every other chunk
   * with its old ones, keeps the chunks matched.
   */
  lemma UpdateKeepsMatched(cs: seq<Chunk>, os: seq<seq<int>>, cus: seq<int>, k: nat, occ: seq<int>, cursor: int)
    requires |cs| == |os| == |cus| && k < |cs|
    requires forall j :: 0 <= j < |cs| && j != k ==> Agrees(cs[j], os[j], cus[j])
    requires Agrees(cs[k], occ, cursor)
    ensures Matched(cs, os[k := occ], cus[k := cursor])
  {
  }

  /** Each chunk links to the next one, and the last links to nothing. */
  ghost predicate Chained(cs: seq<Chunk>)
    reads (set c | c in cs)`nextChunk
  {
    && (cs != [] ==> cs[|cs| - 1].nextChunk == null)
    && (forall i :: 0 <= i < |cs| - 1 ==> cs[i].nextChunk == cs[i + 1])
  }

  /**
   * Once chunk k's predecessor links to chunk k's successor, and every other
   * link is unchanged, the list without chunk k is chained.
   */
  lemma CutKeepsChained(cs: seq<Chunk>, k: nat)
    requires 0 < k < |cs|
    requires cs[|cs| - 1].nextChunk == null
    requires forall j :: 0 <= j < |cs| - 1 && j != k - 1 ==> cs[j].nextChunk == cs[j + 1]
    requires cs[k - 1].nextChunk == cs[k].nextChunk
    ensures Chained(RemoveAt(cs, k))
  {
    var t := RemoveAt(cs, k);
    forall j | 0 <= j < |t| - 1
      ensures t[j].nextChunk == t[j + 1]
    {
      if j < k - 1 {
        assert t[j] == cs[j] && t[j + 1] == cs[j + 1];
      } else if j == k - 1 {
        assert t[j] == cs[k - 1] && t[j + 1] == cs[k + 1];
      } else {
        assert t[j] == cs[j + 1] && t[j + 1] == cs[j + 2];
      }
    }
    if k < |cs| - 1 {
      assert t[|t| - 1] == cs[|cs| - 1];
    }
  }

  /** Chunk memories of `size` bytes each do not overlap: each came from its own `malloc` block. */
  ghost predicate Apart(cs: seq<Chunk>, size: int)
  {
    forall i, j :: 0 <= i < j < |cs| ==> cs[i].mem + size <= cs[j].mem || cs[j].mem + size <= cs[i].mem
  }

  /** A block of `size` bytes at `addr` overlaps none of the chunk memories. */
  ghost predicate ApartFrom(cs: seq<Chunk>, size: int, addr: int)
  {
    forall i :: 0 <= i < |cs| ==> cs[i].mem + size <= addr || addr + size <= cs[i].mem
  }

  /** No chunk has all n of its slots free. */
  ghost predicate NoneEmpty(os: seq<seq<int>>, n: int)
  {
    forall i :: 0 <= i < |os| ==> Zeros(os[i]) < n
  }

  /** A chunk whose memory overlaps none of the others keeps the memories apart when appended. */
  lemma AppendKeepsApart(cs: seq<Chunk>, size: int, c: Chunk)
    requires Apart(cs, size) && ApartFrom(cs, size, c.mem)
    ensures Apart(cs + [c], size)
  {
    var t := cs + [c];
    forall i, j | 0 <= i < j < |t|
      ensures t[i].mem + size <= t[j].mem || t[j].mem + size <= t[i].mem
    {
      assert t[i] == cs[i];
    }
  }

  /** Cutting one chunk out of the list keeps the rest apart. */
  lemma CutKeepsApart(cs: seq<Chunk>, size: int, k: nat)
    requires Apart(cs, size) && k < |cs|
    ensures Apart(RemoveAt(cs, k), size)
  {
    var t := RemoveAt(cs, k);
    forall i, j | 0 <= i < j < |t|
      ensures t[i].mem + size <= t[j].mem || t[j].mem + size <= t[i].mem
    {
      var i' := if i < k then i else i + 1;
      var j' := if j < k then j else j + 1;
      assert t[i] == cs[i'] && t[j] == cs[j'];
    }
  }

  /** Cutting chunk k out of the list leaves only non-empty chunks when every other one was. */
  lemma CutKeepsNoneEmpty(os: seq<seq<int>>, n: int, k: nat)
    requires k < |os| && forall i :: 0 <= i < |os| && i != k ==> Zeros(os[i]) < n
    ensures NoneEmpty(RemoveAt(os, k), n)
  {
    var t := RemoveAt(os, k);
    forall i | 0 <= i < |t|
      ensures Zeros(t[i]) < n
    {
      assert t[i] == os[if i < k then i else i + 1];
    }
  }

  /** Recording an occupancy for chunk k with fewer than n free slots keeps every chunk non-empty. */
  lemma UpdateKeepsNoneEmpty(os: seq<seq<int>>, n: int, k: nat, occ: seq<int>)
    requires k < |os| && Zeros(occ) < n
    requires forall i :: 0 <= i < |os| && i != k ==> Zeros(os[i]) < n
    ensures NoneEmpty(os[k := occ], n)
  {
  }

  class Chunk {
    const pool: Pool
    const mem: int
    const freeArr: array<int>
    var nextAvailable: int
    var numFreed: int
    var nextChunk: Chunk?

    /** A chunk's own bookkeeping holds of its occupancy array. */
    ghost predicate Valid()
      reads this`nextAvailable, this`numFreed, freeArr
    {
      freeArr.Length == pool.objectsPerChunk && SlotsOk(freeArr[..], numFreed, nextAvailable)
    }

    /** `init_new_chunk`: every slot free, the cursor at 0, no successor. */
    constructor (pool: Pool, mem: int)
      requires pool.objectsPerChunk >= 0
      ensures Valid() && fresh(freeArr)
      ensures this.pool == pool && this.mem == mem && nextChunk == null
      ensures nextAvailable == 0 && numFreed == pool.objectsPerChunk
      ensures freeArr[..] == seq(pool.objectsPerChunk, _ => 0)
    {
      this.pool := pool;
      this.mem := mem;
      nextAvailable := 0;
      numFreed := pool.objectsPerChunk;
      nextChunk := null;
      freeArr := new int[pool.objectsPerChunk](_ => 0);
      new;
      assert freeArr[..] == seq(pool.objectsPerChunk, _ => 0);
      ZerosAllFree(pool.objectsPerChunk);
    }

    /** `update_next_avail`: the cursor moves to the first free slot, or to the end. */
    method UpdateNextAvail()
      requires Valid()
      modifies this`nextAvailable
      ensures Valid()
      ensures nextAvailable == FirstFree(freeArr[..], 0)
    {
      var curr := 0;
      while curr < pool.objectsPerChunk && freeArr[curr] == 1
        invariant 0 <= curr <= freeArr.Length
        invariant FirstFree(freeArr[..], curr) == FirstFree(freeArr[..], 0)
      {
        curr := curr + 1;
      }
      nextAvailable := curr;
    }

    /** `find_next_avail`: the cursor moves to the first free slot after it, or to the end. */
    method FindNextAvail()
      requires 0 <= nextAvailable < freeArr.Length == pool.objectsPerChunk
      requires forall i :: 0 <= i < freeArr.Length ==> freeArr[i] == 0 || freeArr[i] == 1
      modifies this`nextAvailable
      ensures nextAvailable == FirstFree(freeArr[..], old(nextAvailable) + 1)
    {
      var currIndex := nextAvailable + 1;
      while currIndex < pool.objectsPerChunk && freeArr[currIndex] == 1
        invariant old(nextAvailable) + 1 <= currIndex <= freeArr.Length
        invariant FirstFree(freeArr[..], currIndex) == FirstFree(freeArr[..], old(nextAvailable) + 1)
      {
        currIndex := currIndex + 1;
      }
      nextAvailable := currIndex;
    }

    /**
     * `alloc_object_from_chunk`: the slot under the cursor becomes used, its
     * address is returned, and the cursor moves to the next free slot after it.
     */
    method AllocObject() returns (obj: int)
      requires Valid() && nextAvailable < freeArr.Length
      modifies this`nextAvailable, this`numFreed, freeArr
      ensures Valid()
      ensures old(freeArr[nextAvailable]) == 0
      ensures freeArr[..] == old(freeArr[..])[old(nextAvailable) := 1]
      ensures obj == mem + old(nextAvailable) * pool.objsize
      ensures numFreed == old(numFreed) - 1
      ensures nextAvailable == FirstFree(freeArr[..], old(nextAvailable) + 1)
    {
      ZerosUpdate(freeArr[..], nextAvailable, 1);
      freeArr[nextAvailable] := 1;
      obj := mem + nextAvailable * pool.objsize;
      numFreed := numFreed - 1;
      FindNextAvail();
    }

    /**
     * `free_object_in_chunk`: the slot whose memory holds the address becomes
     * free again.  Freeing a slot that is already free is an error the source
     * cannot detect, so the slot must be in use.
     */
    method FreeObject(obj: int)
      requires Valid() && IsObjectInChunk(obj) && pool.objsize > 0
      requires freeArr[SlotOf(obj)] == 1
      modifies this`numFreed, freeArr
      ensures Valid()
      ensures freeArr[..] == old(freeArr[..])[SlotOf(obj) := 0]
      ensures numFreed == old(numFreed) + 1
    {
      var objIndex := SlotOf(obj);
      ZerosUpdate(freeArr[..], objIndex, 0);
      freeArr[objIndex] := 0;
      numFreed := numFreed + 1;
    }

    /** `is_object_in_chunk`: the address lies in this chunk's memory. */
    predicate IsObjectInChunk(obj: int)
    {
      mem <= obj < mem + pool.ChunkMemSize()
    }

    /** The slot `free_object_in_chunk` computes for an address in this chunk's memory. */
    function SlotOf(obj: int): (r: nat)
      requires IsObjectInChunk(obj) && pool.objsize > 0
      ensures r < pool.objectsPerChunk
    {
      IndexInRange(obj - mem, pool.objectsPerChunk, pool.objsize);
      (obj - mem) / pool.objsize
    }

    /** The address of slot `slot` lies in this chunk's memory and maps back to that slot. */
    lemma SlotAddress(slot: nat, obj: int)
      requires slot < pool.objectsPerChunk && pool.objsize > 0 && obj == mem + slot * pool.objsize
      ensures IsObjectInChunk(obj) && SlotOf(obj) == slot
    {
      ObjectAddress(mem, slot, pool.objectsPerChunk, pool.objsize);
    }

    /** `is_chunk_empty`: no slot is in use. */
    predicate IsChunkEmpty()
      reads this
    {
      numFreed == pool.objectsPerChunk
    }
  }

  /** `so_free` either releases the object or aborts because no chunk holds it. */
  datatype FreeResult = Freed | NotFromPool

  class Pool {
    const objsize: nat
    const objectsPerChunk: int
    var chunkList: Chunk?

    ghost var Chunks: seq<Chunk>
    ghost var Occupancy: seq<seq<int>>
    /** The chunks' cursors, in list order. */
    ghost var Cursors: seq<int>
    /** The pool, its chunks and their occupancy arrays. */
    ghost var Repr: set<object>

    /** `chunk_mem_size`: the bytes of object memory in each chunk. */
    function ChunkMemSize(): int
    {
      objectsPerChunk * objsize
    }


    /**
     * The chunk list: linked in the order of `Chunks`, chunks and occupancy
     * arrays distinct, each chunk's bookkeeping valid, its occupancy
     * recorded in `Occupancy` and its cursor in `Cursors`.
     */
    ghost predicate Linked()
      reads this, Repr
    {
      && this in Repr
      && objsize >= PointerSize
      && |Occupancy| == |Chunks| == |Cursors|
      && Owned(Chunks, Occupancy, Repr, this)
      && Distinct(Chunks)
      && chunkList == (if Chunks == [] then null else Chunks[0])
      && Chained(Chunks)
      && Matched(Chunks, Occupancy, Cursors)
    }

    /** Every chunk other than chunk i is a different object with a different occupancy array. */
    lemma OthersApart(i: nat)
      requires i < |Chunks| && Distinct(Chunks)
      ensures forall j :: 0 <= j < |Chunks| && j != i ==> Chunks[j] != Chunks[i] && Chunks[j].freeArr != Chunks[i].freeArr
    {
      forall j | 0 <= j < |Chunks| && j != i
        ensures Chunks[j] != Chunks[i] && Chunks[j].freeArr != Chunks[i].freeArr
      {
        if j < i {
          assert Chunks[j] != Chunks[i];
        } else {
          assert Chunks[i] != Chunks[j];
        }
      }
    }

    /** Between calls, moreover, no chunk is empty: an emptied chunk is unlinked at once. */
    ghost predicate Valid()
      reads this, Repr
    {
      && Linked()
      && Apart(Chunks, ChunkMemSize())
      && NoneEmpty(Occupancy, objectsPerChunk)
    }

    /** The pool invariant, assembled from its parts. */
    lemma ValidFromParts()
      requires this in Repr && objsize >= PointerSize && |Occupancy| == |Chunks| == |Cursors|
      requires Owned(Chunks, Occupancy, Repr, this) && Distinct(Chunks)
      requires chunkList == (if Chunks == [] then null else Chunks[0]) && Chained(Chunks)
      requires Matched(Chunks, Occupancy, Cursors)
      requires Apart(Chunks, ChunkMemSize()) && NoneEmpty(Occupancy, objectsPerChunk)
      ensures Valid()
    {
    }

    /** The block `malloc` hands out for a new chunk overlaps no chunk of the pool. */
    ghost predicate FreshMemory(newMem: int)
      reads this
    {
      ApartFrom(Chunks, ChunkMemSize(), newMem)
    }

    /** Chunk k is the first chunk in list order whose memory holds the address. */
    ghost predicate FirstHolder(obj: int, k: nat)
      reads this
    {
      && k < |Chunks|
      && Chunks[k].IsObjectInChunk(obj)
      && forall j :: 0 <= j < k ==> !Chunks[j].IsObjectInChunk(obj)
    }

    /**
     * `make_so_pool`: a pool of objects of the given size, with no chunks.
     * The object size and the chunk's object memory are C `int`s.
     */
    constructor (objsize: nat, objectsPerChunk: int)
      requires objsize >= PointerSize
      requires objsize <= 0x7FFF_FFFF && -0x8000_0000 <= objectsPerChunk * objsize <= 0x7FFF_FFFF
      ensures Valid()
      ensures this.objsize == objsize && this.objectsPerChunk == objectsPerChunk
      ensures Chunks == [] && chunkList == null
    {
      this.objsize := objsize;
      this.objectsPerChunk := objectsPerChunk;
      chunkList := null;
      Chunks, Occupancy, Cursors := [], [], [];
      Repr := {this};
    }

    /** The bytes one chunk occupies: its header, its object memory and its occupancy array. */
    function ChunkFootprint(): int
    {
      ChunkStructSize + ChunkMemSize() + IntSize * objectsPerChunk
    }

    /** The bytes a pool with n chunks occupies, as `total_pool_size` adds them up. */
    function PoolSize(n: nat): int
    {
      PoolStructSize + n * ChunkFootprint()
    }

    /** `total_pool_size`: the pool structure plus, per chunk, its header, object memory and occupancy array; never zero. */
    method TotalPoolSize() returns (size: int)
      requires Valid()
      ensures size == PoolSize(|Chunks|)
      ensures size >= PoolStructSize > 0
    {
      size := PoolStructSize;
      var freeSize := IntSize * objectsPerChunk;
      var chunk := chunkList;
      ghost var i := 0;
      ghost var per := ChunkFootprint();
      while chunk != null
        invariant 0 <= i <= |Chunks|
        invariant chunk == if i < |Chunks| then Chunks[i] else null
        invariant size == PoolStructSize + i * per
        decreases |Chunks| - i
      {
        size := size + ChunkStructSize + ChunkMemSize() + freeSize;
        chunk := chunk.nextChunk;
        assert (i + 1) * per == i * per + per;
        i := i + 1;
      }
      if Chunks != [] {
        assert Zeros(Occupancy[0]) < objectsPerChunk;
        MulMono(0, objectsPerChunk, objsize);
        MulMono(0, |Chunks|, per);
      }
    }

    /**
     * `get_nonfull_chunk`: the first chunk in list order with a free slot,
     * with its cursor moved back to the first free slot if it had run off the
     * end; when every chunk is full, a new chunk at `newMem` appended at the
     * tail.  No other chunk changes.
     */
    method GetNonfullChunk(newMem: int) returns (chunk: Chunk, ghost k: nat)
      requires Valid() && objectsPerChunk > 0 && FreshMemory(newMem)
      modifies Repr
      ensures Linked()
      ensures k <= |old(Chunks)| && k < |Chunks| && chunk == Chunks[k]
      ensures forall j :: 0 <= j < k ==> Zeros(old(Occupancy)[j]) == 0
      ensures k < |old(Chunks)| ==> Zeros(old(Occupancy)[k]) > 0
      ensures k < |old(Chunks)| ==> Chunks == old(Chunks) && Occupancy == old(Occupancy)
      ensures k < |old(Chunks)| ==> chunk.nextAvailable == NextSlot(Occupancy[k], old(chunk.nextAvailable))
      ensures k == |old(Chunks)| ==> Chunks == old(Chunks) + [chunk] && fresh(chunk) && fresh(chunk.freeArr)
      ensures fresh(Repr - old(Repr))
      ensures k == |old(Chunks)| ==> chunk.mem == newMem && chunk.nextAvailable == 0
      ensures Apart(Chunks, ChunkMemSize())
      ensures k == |old(Chunks)| ==> Occupancy == old(Occupancy) + [seq(objectsPerChunk, _ => 0)]
      ensures chunk.nextAvailable < objectsPerChunk
      ensures forall j :: 0 <= j < |Chunks| && j != k ==> Zeros(Occupancy[j]) < objectsPerChunk
      ensures k < |old(Chunks)| ==> Cursors == old(Cursors)[k := chunk.nextAvailable]
      ensures k == |old(Chunks)| ==> Cursors == old(Cursors) + [0]
    {
      var cur, prev;
      cur, prev, k := FindChunkWithRoom();
      if cur != null {
        ReadyCursor(cur, k);
        chunk := cur;
      } else {
        chunk := AppendChunk(prev, newMem);
        AppendKeepsApart(old(Chunks), ChunkMemSize(), chunk);
        assert forall j :: 0 <= j < |Chunks| && j != k ==> Occupancy[j] == old(Occupancy)[j];
      }
    }

    /**
     * The search loop of `get_nonfull_chunk`: the first chunk that has a free
     * slot, whether or not its cursor is on it, and its predecessor.
     */
    method FindChunkWithRoom() returns (cur: Chunk?, prev: Chunk?, ghost i: nat)
      requires Valid()
      ensures i <= |Chunks| && cur == (if i < |Chunks| then Chunks[i] else null)
      ensures prev == if i == 0 then null else Chunks[i - 1]
      ensures forall j :: 0 <= j < i ==> Zeros(Occupancy[j]) == 0
      ensures i < |Chunks| ==> Zeros(Occupancy[i]) > 0
    {
      cur := chunkList;
      prev := null;
      i := 0;
      while cur != null && !(cur.nextAvailable < objectsPerChunk || cur.numFreed > 0)
        invariant 0 <= i <= |Chunks|
        invariant cur == if i < |Chunks| then Chunks[i] else null
        invariant prev == if i == 0 then null else Chunks[i - 1]
        invariant forall j :: 0 <= j < i ==> Zeros(Occupancy[j]) == 0
        decreases |Chunks| - i
      {
        prev := cur;
        cur := cur.nextChunk;
        i := i + 1;
      }
      if cur != null {
        ZerosPositive(Occupancy[i]);
      }
    }

    /**
     * The found-chunk branch of `get_nonfull_chunk`: chunk i has a free slot,
     * and its cursor is rewound when it has run off the end.
     */
    method ReadyCursor(c: Chunk, ghost i: nat)
      requires Linked() && i < |Chunks| && c == Chunks[i] && Zeros(Occupancy[i]) > 0
      modifies c`nextAvailable, this`Cursors
      ensures Linked()
      ensures c.nextAvailable == NextSlot(Occupancy[i], old(c.nextAvailable)) < objectsPerChunk
      ensures Cursors == old(Cursors)[i := c.nextAvailable]
    {
      if c.nextAvailable >= objectsPerChunk && c.numFreed > 0 {
        RewindCursor(c, i);
      } else {
        assert Cursors == Cursors[i := c.nextAvailable];
      }
    }

    /** `update_next_avail` on chunk i of the pool: only that chunk's cursor moves. */
    method RewindCursor(c: Chunk, ghost i: nat)
      requires Linked() && i < |Chunks| && c == Chunks[i] && Zeros(Occupancy[i]) > 0
      modifies c`nextAvailable, this`Cursors
      ensures Linked()
      ensures c.nextAvailable == FirstFree(Occupancy[i], 0) < objectsPerChunk
      ensures Cursors == old(Cursors)[i := c.nextAvailable]
    {
      assert c.freeArr[..] == Occupancy[i];
      ZerosPositive(Occupancy[i]);
      OthersApart(i);
      c.UpdateNextAvail();
      UpdateKeepsMatched(Chunks, Occupancy, Cursors, i, Occupancy[i], c.nextAvailable);
      Cursors := Cursors[i := c.nextAvailable];
    }

    /** The new-chunk branch of `get_nonfull_chunk`: a fresh chunk linked after the last one. */
    method AppendChunk(prev: Chunk?, newMem: int) returns (c: Chunk)
      requires Linked() && objectsPerChunk > 0
      requires prev == if Chunks == [] then null else Chunks[|Chunks| - 1]
      modifies Repr
      ensures Linked()
      ensures Chunks == old(Chunks) + [c] && fresh(c) && fresh(c.freeArr)
      ensures Repr == old(Repr) + {c, c.freeArr}
      ensures c.mem == newMem && c.nextAvailable == 0
      ensures Occupancy == old(Occupancy) + [seq(objectsPerChunk, _ => 0)]
      ensures Cursors == old(Cursors) + [0]
    {
      c := new Chunk(this, newMem);
      if prev == null {
        LinkFirst(c);
      } else {
        LinkAfter(prev, c);
      }
    }

    /** Links a chunk that is not yet part of the pool as the only chunk of an empty pool. */
    method LinkFirst(c: Chunk)
      requires Linked() && Chunks == []
      requires c !in Repr && c.freeArr !in Repr
      requires objectsPerChunk >= 0 && c.pool == this && c.nextChunk == null
      requires c.Valid() && c.freeArr[..] == seq(objectsPerChunk, _ => 0)
      requires c.nextAvailable == 0
      modifies this`chunkList, this`Chunks, this`Occupancy, this`Cursors, this`Repr
      ensures Linked()
      ensures Chunks == [c] && Occupancy == [seq(objectsPerChunk, _ => 0)] && Cursors == [0]
      ensures Repr == old(Repr) + {c, c.freeArr}
    {
      ghost var occ := seq(objectsPerChunk, _ => 0);
      AppendKeepsOwned(Chunks, Occupancy, Repr, this, c, occ);
      AppendKeepsMatched(Chunks, Occupancy, Cursors, c, occ, 0);
      chunkList := c;
      Chunks, Occupancy, Cursors := Chunks + [c], Occupancy + [occ], Cursors + [0];
      Repr := Repr + {c, c.freeArr};
    }

    /** Links a chunk that is not yet part of the pool after the last chunk, `prev`. */
    method LinkAfter(prev: Chunk, c: Chunk)
      requires Linked() && Chunks != [] && prev == Chunks[|Chunks| - 1]
      requires c !in Repr && c.freeArr !in Repr
      requires objectsPerChunk >= 0 && c.pool == this && c.nextChunk == null
      requires c.Valid() && c.freeArr[..] == seq(objectsPerChunk, _ => 0)
      requires c.nextAvailable == 0
      modifies prev`nextChunk, this`Chunks, this`Occupancy, this`Cursors, this`Repr
      ensures Linked()
      ensures Chunks == old(Chunks) + [c] && Occupancy == old(Occupancy) + [seq(objectsPerChunk, _ => 0)]
      ensures Cursors == old(Cursors) + [0]
      ensures Repr == old(Repr) + {c, c.freeArr}
    {
      ghost var occ := seq(objectsPerChunk, _ => 0);
      AppendKeepsOwned(Chunks, Occupancy, Repr, this, c, occ);
      AppendKeepsMatched(Chunks, Occupancy, Cursors, c, occ, 0);
      AppendKeepsDistinct(Chunks, c);
      prev.nextChunk := c;
      Chunks, Occupancy, Cursors := Chunks + [c], Occupancy + [occ], Cursors + [0];
      Repr := Repr + {c, c.freeArr};
      forall j | 0 <= j < |Chunks| - 1
        ensures Chunks[j] == old(Chunks)[j]
      {
      }
    }

    /**
     * `so_alloc`: an object from the first chunk in list order that has a
     * free slot, taken at that chunk's cursor (or its first free slot once the
     * cursor has run off the end); when every chunk is full, the first object
     * of a new chunk whose memory `malloc` returned at `newMem`.  The slot was
     * free and is now in use; nothing else changes.
     */
    method SoAlloc(newMem: int) returns (obj: int, ghost k: nat, ghost slot: nat)
      requires Valid() && objectsPerChunk > 0 && FreshMemory(newMem)
      modifies Repr
      ensures Valid() && fresh(Repr - old(Repr))
      ensures k <= |old(Chunks)| && k < |Chunks| && slot < objectsPerChunk
      ensures forall j :: 0 <= j < k ==> Zeros(old(Occupancy)[j]) == 0
      ensures k < |old(Chunks)| ==> Chunks == old(Chunks)
      ensures k < |old(Chunks)| ==> slot == NextSlot(old(Occupancy)[k], old(Chunks[k].nextAvailable))
      ensures k < |old(Chunks)| ==> old(Occupancy)[k][slot] == 0 && Occupancy == old(Occupancy)[k := old(Occupancy)[k][slot := 1]]
      ensures k == |old(Chunks)| ==> Chunks == old(Chunks) + [Chunks[k]] && Chunks[k].mem == newMem && slot == 0
      ensures k == |old(Chunks)| ==> Occupancy == old(Occupancy) + [seq(objectsPerChunk, _ => 0)[0 := 1]]
      ensures obj == Chunks[k].mem + slot * objsize
      ensures Chunks[k].IsObjectInChunk(obj) && Chunks[k].SlotOf(obj) == slot
      ensures k < |old(Chunks)| ==> Cursors == old(Cursors)[k := Chunks[k].nextAvailable]
      ensures k == |old(Chunks)| ==> Cursors == old(Cursors) + [Chunks[k].nextAvailable]
      ensures Chunks[k].nextAvailable == FirstFree(Occupancy[k], slot + 1)
    {
      var chunk;
      chunk, k := GetNonfullChunk(newMem);
      ghost var occupancy, cursors := Occupancy, Cursors;
      slot := chunk.nextAvailable;
      obj := TakeSlot(chunk, k);
      SetTwice(old(Occupancy), k, occupancy, Occupancy, seq(objectsPerChunk, _ => 0), Occupancy[k]);
      SetTwice(old(Cursors), k, cursors, Cursors, 0, chunk.nextAvailable);
    }

    /** `alloc_object_from_chunk` on chunk i of the pool: its cursor slot becomes used. */
    method TakeSlot(c: Chunk, ghost i: nat) returns (obj: int)
      requires Linked() && i < |Chunks| && c == Chunks[i] && c.nextAvailable < objectsPerChunk
      requires Apart(Chunks, ChunkMemSize())
      requires forall j :: 0 <= j < |Chunks| && j != i ==> Zeros(Occupancy[j]) < objectsPerChunk
      modifies c`nextAvailable, c`numFreed, c.freeArr, this`Occupancy, this`Cursors
      ensures Valid()
      ensures old(Occupancy)[i][old(c.nextAvailable)] == 0
      ensures Occupancy == old(Occupancy)[i := old(Occupancy)[i][old(c.nextAvailable) := 1]]
      ensures obj == c.mem + old(c.nextAvailable) * objsize
      ensures c.IsObjectInChunk(obj) && c.SlotOf(obj) == old(c.nextAvailable)
      ensures c.nextAvailable == FirstFree(Occupancy[i], old(c.nextAvailable) + 1)
      ensures Cursors == old(Cursors)[i := c.nextAvailable]
    {
      ghost var slot := c.nextAvailable;
      ghost var occ := Occupancy[i][slot := 1];
      ghost var cursor := FirstFree(occ, slot + 1);
      assert c.freeArr[..] == Occupancy[i];
      ZerosUpdate(Occupancy[i], slot, 1);
      OthersApart(i);
      UpdateKeepsOwned(Chunks, Occupancy, Repr, this, i, occ);
      UpdateKeepsNoneEmpty(Occupancy, objectsPerChunk, i, occ);
      Occupancy, Cursors := Occupancy[i := occ], Cursors[i := cursor];
      obj := c.AllocObject();
      c.SlotAddress(slot, obj);
      UpdateKeepsMatched(Chunks, old(Occupancy), old(Cursors), i, occ, cursor);
      ValidFromParts();
    }

    /**
     * The search loop of `so_free`: the first chunk whose memory holds the
     * address, and its predecessor.
     */
    method FindHolder(obj: int) returns (cur: Chunk?, prev: Chunk?, ghost i: nat)
      requires Linked()
      ensures i <= |Chunks| && cur == (if i < |Chunks| then Chunks[i] else null)
      ensures prev == if i == 0 then null else Chunks[i - 1]
      ensures forall j :: 0 <= j < i ==> !Chunks[j].IsObjectInChunk(obj)
      ensures i < |Chunks| ==> FirstHolder(obj, i)
    {
      cur := chunkList;
      prev := null;
      i := 0;
      while cur != null && !cur.IsObjectInChunk(obj)
        invariant 0 <= i <= |Chunks|
        invariant cur == if i < |Chunks| then Chunks[i] else null
        invariant prev == if i == 0 then null else Chunks[i - 1]
        invariant forall j :: 0 <= j < i ==> !Chunks[j].IsObjectInChunk(obj)
        decreases |Chunks| - i
      {
        prev := cur;
        cur := cur.nextChunk;
        i := i + 1;
      }
    }

    /**
     * `so_free`: the object's slot in the chunk whose memory holds it becomes
     * free, and a chunk left with no object in use is unlinked; an address no
     * chunk holds is reported (the source aborts) and nothing changes.  Freeing
     * an object twice is an error the source cannot detect, so the object must
     * be in use.
     */
    method SoFree(obj: int) returns (r: FreeResult, ghost k: nat)
      requires Valid()
      requires forall j :: 0 <= j < |Chunks| && Chunks[j].IsObjectInChunk(obj) ==>
                 Occupancy[j][Chunks[j].SlotOf(obj)] == 1
      modifies Repr
      ensures Valid() && Repr == old(Repr)
      ensures r == NotFromPool <==> forall j :: 0 <= j < |old(Chunks)| ==> !old(Chunks)[j].IsObjectInChunk(obj)
      ensures r == NotFromPool ==> Chunks == old(Chunks) && Occupancy == old(Occupancy) && Cursors == old(Cursors)
      ensures r == Freed ==> old(FirstHolder(obj, k))
      ensures r == Freed ==>
        var occ := old(Occupancy)[k][old(Chunks)[k].SlotOf(obj) := 0];
        if Zeros(occ) == objectsPerChunk then
          Chunks == RemoveAt(old(Chunks), k) && Occupancy == RemoveAt(old(Occupancy), k) && Cursors == RemoveAt(old(Cursors), k)
        else
          Chunks == old(Chunks) && Occupancy == old(Occupancy)[k := occ] && Cursors == old(Cursors)
    {
      var cur, prev;
      cur, prev, k := FindHolder(obj);
      if cur == null {
        return NotFromPool, k;
      }
      FreeFromChunk(cur, prev, k, obj);
      r := Freed;
    }

    /** The rest of `so_free` once chunk k is found to hold the object. */
    method FreeFromChunk(c: Chunk, prev: Chunk?, ghost k: nat, obj: int)
      requires Valid() && FirstHolder(obj, k) && c == Chunks[k]
      requires prev == if k == 0 then null else Chunks[k - 1]
      requires Occupancy[k][c.SlotOf(obj)] == 1
      modifies c`numFreed, c.freeArr, (if prev == null then {} else {prev})`nextChunk
      modifies this`chunkList, this`Chunks, this`Occupancy, this`Cursors
      ensures Valid()
      ensures
        var occ := old(Occupancy)[k][c.SlotOf(obj) := 0];
        if Zeros(occ) == objectsPerChunk then
          Chunks == RemoveAt(old(Chunks), k) && Occupancy == RemoveAt(old(Occupancy), k) && Cursors == RemoveAt(old(Cursors), k)
        else
          Chunks == old(Chunks) && Occupancy == old(Occupancy)[k := occ] && Cursors == old(Cursors)
    {
      ghost var occ := Occupancy[k][c.SlotOf(obj) := 0];
      ZerosUpdate(Occupancy[k], c.SlotOf(obj), 0);
      ReleaseSlot(c, k, obj);
      if c.IsChunkEmpty() {
        CutKeepsApart(Chunks, ChunkMemSize(), k);
        CutKeepsNoneEmpty(Occupancy, objectsPerChunk, k);
        if prev == null {
          UnlinkHead(c);
        } else {
          UnlinkAfter(prev, c, k);
        }
      }
    }

    /** `free_object_in_chunk` on chunk i of the pool: the object's slot becomes free. */
    method ReleaseSlot(c: Chunk, ghost i: nat, obj: int)
      requires Linked() && i < |Chunks| && c == Chunks[i] && c.IsObjectInChunk(obj)
      requires Occupancy[i][c.SlotOf(obj)] == 1
      modifies c`numFreed, c.freeArr, this`Occupancy
      ensures Linked()
      ensures Occupancy == old(Occupancy)[i := old(Occupancy)[i][c.SlotOf(obj) := 0]]
      ensures c.numFreed == Zeros(Occupancy[i])
    {
      assert c.freeArr[..] == Occupancy[i];
      OthersApart(i);
      c.FreeObject(obj);
      UpdateKeepsMatched(Chunks, Occupancy, Cursors, i, c.freeArr[..], Cursors[i]);
      assert Cursors[i := Cursors[i]] == Cursors;
      Occupancy := Occupancy[i := c.freeArr[..]];
    }

    /** The unlinking step of `so_free` for the first chunk: the list head skips it. */
    method UnlinkHead(c: Chunk)
      requires Linked() && Chunks != [] && c == Chunks[0]
      modifies this`chunkList, this`Chunks, this`Occupancy, this`Cursors
      ensures Linked()
      ensures Chunks == RemoveAt(old(Chunks), 0) && Occupancy == RemoveAt(old(Occupancy), 0)
      ensures Cursors == RemoveAt(old(Cursors), 0)
    {
      CutKeepsDistinct(Chunks, 0);
      CutKeepsOwned(Chunks, Occupancy, Repr, this, 0);
      CutKeepsMatched(Chunks, Occupancy, Cursors, 0);
      chunkList := c.nextChunk;
      Chunks, Occupancy, Cursors := RemoveAt(Chunks, 0), RemoveAt(Occupancy, 0), RemoveAt(Cursors, 0);
    }

    /** The unlinking step of `so_free` for a later chunk: its predecessor skips it. */
    method UnlinkAfter(prev: Chunk, c: Chunk, ghost i: nat)
      requires Linked() && 0 < i < |Chunks| && c == Chunks[i] && prev == Chunks[i - 1]
      modifies prev`nextChunk, this`Chunks, this`Occupancy, this`Cursors
      ensures Linked()
      ensures Chunks == RemoveAt(old(Chunks), i) && Occupancy == RemoveAt(old(Occupancy), i)
      ensures Cursors == RemoveAt(old(Cursors), i)
    {
      CutKeepsDistinct(Chunks, i);
      CutKeepsOwned(Chunks, Occupancy, Repr, this, i);
      CutKeepsMatched(Chunks, Occupancy, Cursors, i);
      OthersApart(i - 1);
      prev.nextChunk := c.nextChunk;
      CutKeepsChained(Chunks, i);
      Chunks, Occupancy, Cursors := RemoveAt(Chunks, i), RemoveAt(Occupancy, i), RemoveAt(Cursors, i);
    }
  }
}
