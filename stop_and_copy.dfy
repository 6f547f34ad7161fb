/**
 * The subpython allocator (lab04 alloc.c): a pool of bytes split into two
 * halves, a reference table, and a stop-and-copy collector that runs when the
 * active half has no room for a request.
 *
 * The pool and the table are arrays the methods update in place.  A 4-byte
 * field of a Value occupies the cell at its first byte (see ValueLayout).  The
 * allocator's state read as a value is `H()`; the invariants and the steps of
 * a collection are stated on that value in CopyState.
 */
module StopAndCopy {
  import opened ValueLayout
  import opened CopyState

  /** The size the reference table gets when the first Reference is made. */
  const InitialSize: int := 8

  /** What `mm_malloc` returns: the address of the new Value, or the exit taken when even a collection leaves no room. */
  datatype Outcome = Allocated(addr: int) | OutOfMemory

  /** The bytes `mm_malloc` asks for: a header and the payload the type gets. */
  function Requested(vtype: ValueType, dataSize: int): (n: int)
    requires dataSize >= 0
    ensures n >= HeaderSize + MinPayload(Code(vtype))
  {
    HeaderSize + PayloadSize(vtype, dataSize)
  }

  /** The References named by the globals (NULL_REF names none). */
  ghost function RootSet(globals: seq<int>): set<int>
  {
    set g | g in globals && g != NullRef
  }

  /** The first NULL entry below n, or n when there is none. */
  function FirstNull(t: seq<int>, n: nat): (i: nat)
    requires n <= |t|
    ensures i <= n && (i < n ==> t[i] == Null)
    ensures forall j :: 0 <= j < i ==> t[j] != Null
  {
    if n == 0 then 0
    else
      var i := FirstNull(t, n - 1);
      if i < n - 1 then i else if t[n - 1] == Null then n - 1 else n
  }

  /**
   * What a collection leaves in (m, t): a Reference has an entry exactly when
   * the roots reached it in (m0, t0), and then its Value holds the bytes it
   * held, below `free`.
   */
  ghost predicate Collected(m0: seq<int>, t0: seq<int>, roots: set<int>, m: seq<int>, t: seq<int>, numRefs: int, free: int)
    requires numRefs <= |t|
  {
    forall q :: 0 <= q < numRefs ==>
      && (t[q] != Null <==> Reaches(m0, t0, roots, q))
      && (t[q] != Null ==> Kept(m0, t0, m, t, q) && t[q] + GetSize(m0, t0[q]) <= free)
  }

  /** A copy step changes neither the table's size nor the active half. */
  ghost predicate SameRun(h: Heap, h': Heap)
  {
    && h'.memSize == h.memSize && |h'.m| == |h.m| && |h'.t| == |h.t| && h'.numRefs == h.numRefs
    && h'.from == h.from && h'.to == h.to && h'.free == h.free
  }

  /**
   * The collection c' carries on c: nothing copied before is undone, and the
   * copied References still waiting for their children are the same as
   * before.
   */
  ghost predicate Stepped(h: Heap, c: Collection, h': Heap, c': Collection)
  {
    && SameRun(h, h')
    && c'.m0 == c.m0 && c'.t0 == c.t0 && c'.objs == c.objs && c'.live == c.live && c'.roots == c.roots
    && c.black <= c'.black
    && GcOk(h', c')
    && MovedSet(h, c) <= MovedSet(h', c')
    && MovedSet(h', c') - c'.black == MovedSet(h, c) - c.black
    && Headroom(h') <= Headroom(h)
  }

  /** The collection c' carries on c after Reference r was asked to be copied, and r is copied. */
  ghost predicate Carried(h: Heap, c: Collection, h': Heap, c': Collection, r: int)
  {
    Stepped(h, c, h', c') && Moved(h', c', r)
  }

  /**
   * Reference r, not copied in (h0, c0), has been copied and waits for its
   * children in (h, c); apart from it the waiting References are as in c0.
   */
  ghost predicate Open(h0: Heap, c0: Collection, h: Heap, c: Collection, r: int)
  {
    && SameRun(h0, h)
    && c.m0 == c0.m0 && c.t0 == c0.t0 && c.objs == c0.objs && c.live == c0.live && c.roots == c0.roots
    && c0.black <= c.black && r !in c.black
    && GcOk(h, c) && Moved(h, c, r) && !Moved(h0, c0, r)
    && MovedSet(h0, c0) <= MovedSet(h, c)
    && MovedSet(h, c) - c.black == (MovedSet(h0, c0) - c0.black) + {r}
    && Headroom(h) < Headroom(h0)
  }

  /** Nothing done is nothing undone. */
  lemma SteppedNone(h: Heap, c: Collection)
    requires GcOk(h, c)
    ensures Stepped(h, c, h, c)
  {
  }

  /** A copy that moved exactly r opens r. */
  lemma OpenStart(h0: Heap, c0: Collection, h: Heap, c: Collection, r: int)
    requires GcOk(h0, c0) && !Moved(h0, c0, r) && SameRun(h0, h) && GcOk(h, c) && Moved(h, c, r)
    requires c.m0 == c0.m0 && c.t0 == c0.t0 && c.objs == c0.objs && c.live == c0.live && c.roots == c0.roots && c.black == c0.black
    requires MovedSet(h, c) == MovedSet(h0, c0) + {r} && Headroom(h) < Headroom(h0)
    ensures Open(h0, c0, h, c, r)
  {
  }

  /** Copying a child keeps r open, and what was copied stays copied. */
  lemma OpenStep(h0: Heap, c0: Collection, h: Heap, c: Collection, h': Heap, c': Collection, r: int)
    requires Open(h0, c0, h, c, r) && Stepped(h, c, h', c')
    ensures Open(h0, c0, h', c', r)
    ensures forall q :: Moved(h, c, q) ==> Moved(h', c', q)
  {
    forall q | Moved(h, c, q)
      ensures Moved(h', c', q)
    {
      assert q in MovedSet(h, c);
    }
    assert r in MovedSet(h, c) - c.black;
  }

  /** Once r's children are all copied, r is done: the collection carries on c0 with r copied. */
  lemma OpenClose(h0: Heap, c0: Collection, h: Heap, c: Collection, r: int)
    requires Open(h0, c0, h, c, r)
    requires forall q :: q in Kids(c.m0, c.t0[r]) ==> q == NullRef || Moved(h, c, q)
    ensures Carried(h0, c0, h, c.(black := c.black + {r}), r)
  {
    Blackened(h, c, r);
  }

  /** OpenClose for a list node whose value and next are v and n. */
  lemma CloseList(h0: Heap, c0: Collection, h: Heap, c: Collection, r: int, v: int, n: int)
    requires Open(h0, c0, h, c, r) && Kids(c.m0, c.t0[r]) == [v, n]
    requires v == NullRef || Moved(h, c, v)
    requires n == NullRef || Moved(h, c, n)
    ensures Carried(h0, c0, h, c.(black := c.black + {r}), r)
  {
    OpenClose(h0, c0, h, c, r);
  }

  /** OpenClose for a dictionary node whose key, value and next are k, v and n. */
  lemma CloseDict(h0: Heap, c0: Collection, h: Heap, c: Collection, r: int, k: int, v: int, n: int)
    requires Open(h0, c0, h, c, r) && Kids(c.m0, c.t0[r]) == [k, v, n]
    requires k == NullRef || Moved(h, c, k)
    requires v == NullRef || Moved(h, c, v)
    requires n == NullRef || Moved(h, c, n)
    ensures Carried(h0, c0, h, c.(black := c.black + {r}), r)
  {
    OpenClose(h0, c0, h, c, r);
  }

  /** A live global joins the roots of a finished walk, ready to be copied. */
  lemma RootStart(h: Heap, c: Collection, g: int)
    requires Done(h, c) && g in c.live
    ensures GcOk(h, c.(roots := c.roots + {g})) && MovedSet(h, c.(roots := c.roots + {g})) == MovedSet(h, c)
    ensures RefOk(c.t0, h.numRefs, g) && Reaches(c.m0, c.t0, c.roots + {g}, g)
  {
    RootAdded(h, c, g);
    ReachesRoot(c.m0, c.t0, c.roots + {g}, g);
  }

  /** Once the walk from a new root g is carried out, the walk is finished again. */
  lemma RootDone(h: Heap, c: Collection, h': Heap, c': Collection, g: int)
    requires Done(h, c) && MovedSet(h, c.(roots := c.roots + {g})) == MovedSet(h, c)
    requires Carried(h, c.(roots := c.roots + {g}), h', c', g)
    ensures c'.roots == c.roots + {g} && Done(h', c')
  {
    var c1 := c.(roots := c.roots + {g});
    assert Stepped(h, c1, h', c');
    RootsStay(h, c, h', c', g);
  }

  /** The roots and the finished copies of a walk stay so after a step from a new root. */
  lemma RootsStay(h: Heap, c: Collection, h': Heap, c': Collection, g: int)
    requires forall q :: q in c.roots ==> Moved(h, c, q)
    requires MovedSet(h, c) <= c.black && c'.roots == c.roots + {g} && c'.t0 == c.t0 && c.black <= c'.black
    requires MovedSet(h, c) <= MovedSet(h', c') && MovedSet(h', c') - c'.black == MovedSet(h, c) - c.black
    requires Moved(h', c', g)
    ensures forall q :: q in c'.roots ==> Moved(h', c', q)
    ensures MovedSet(h', c') <= c'.black
  {
    forall q | q in c'.roots
      ensures Moved(h', c', q)
    {
      if q != g {
        assert q in MovedSet(h, c);
      }
    }
    assert MovedSet(h, c) - c.black == {};
    forall q | q in MovedSet(h', c')
      ensures q in c'.black
    {
      assert q !in MovedSet(h', c') - c'.black;
    }
  }

  /** One more global adds itself to the roots, unless it is NULL_REF. */
  lemma RootSetNext(globals: seq<int>, i: int)
    requires 0 <= i < |globals|
    ensures RootSet(globals[..i + 1]) == RootSet(globals[..i]) + (if globals[i] == NullRef then {} else {globals[i]})
  {
    assert globals[..i + 1] == globals[..i] + [globals[i]];
  }

  /** What lies below `free` and the entries in use are untouched, so every reached Reference keeps its bytes. */
  lemma KeptBelow(m0: seq<int>, t0: seq<int>, roots: set<int>, n: int, m: seq<int>, t: seq<int>, free: int, m': seq<int>, t': seq<int>)
    requires n <= |t| <= |t'| && |m'| == |m|
    requires forall q :: 0 <= q < n && Reaches(m0, t0, roots, q) ==> Kept(m0, t0, m, t, q) && t[q] + GetSize(m0, t0[q]) <= free
    requires forall x :: 0 <= x < free && x < |m| ==> m'[x] == m[x]
    requires forall q :: 0 <= q < n && t[q] != Null ==> t'[q] == t[q]
    ensures forall q :: 0 <= q < n && Reaches(m0, t0, roots, q) ==> Kept(m0, t0, m', t', q)
  {
    forall q | 0 <= q < n && Reaches(m0, t0, roots, q)
      ensures Kept(m0, t0, m', t', q)
    {
      KeptFrame(m0, t0, m, t, q, free, m', t');
    }
  }

  /**
   * h' is h with a new Value of the given type code and payload size at a,
   * the old `free`: its header is written, its Reference leads to it, its
   * payload holds 0xCC, and nothing below it nor any entry in use changed.
   */
  ghost predicate NewValue(h: Heap, h': Heap, a: int, code: int, size: int)
  {
    && |h'.m| == |h.m| && a == h.free && 0 <= a && 0 <= size && h'.free == a + HeaderSize + size <= |h'.m|
    && 0 <= h.numRefs <= h'.numRefs && |h.t| <= |h'.t| && h.numRefs <= |h.t|
    && TypeOf(h'.m, a) == code && DataSize(h'.m, a) == size && SeenOf(h'.m, a) == 0
    && 0 <= RefOf(h'.m, a) < h'.numRefs <= |h'.t| && h'.t[RefOf(h'.m, a)] == a
    && (forall x :: a + HeaderSize <= x < h'.free ==> h'.m[x] == Fill)
    && (forall x :: 0 <= x < a ==> h'.m[x] == h.m[x])
    && (forall q :: 0 <= q < h.numRefs && h.t[q] != Null ==> h'.t[q] == h.t[q])
  }

  /**
   * Writing the header and the 0xCC payload of a Value at `free`, after
   * `make_reference` has recorded its Reference r, places it there.
   */
  lemma Placement(h: Heap, m1: seq<int>, h': Heap, r: int, code: int, size: int)
    requires Shape(h) && HasSpace(h, HeaderSize + size) && 0 <= size && MinPayload(code) <= size
    requires forall x :: h.free <= x < FromEnd(h) ==> h.m[x] == 0
    requires r == FirstNull(h.t, h.numRefs) && h'.numRefs == (if r < h.numRefs then h.numRefs else r + 1)
    requires |h.t| <= |h'.t| && r < |h'.t| && h'.t == Widen(h.t, |h'.t|)[r := h.free]
    requires m1 == h.m[h.free + RefField := r] && |h'.m| == |m1|
    requires h'.m[h.free + TypeField] == code && h'.m[h.free + SizeField] == size
    requires forall x :: h.free + HeaderSize <= x < h.free + HeaderSize + size ==> h'.m[x] == Fill
    requires forall x :: 0 <= x < |m1| && x != h.free + TypeField && x != h.free + SizeField && !(h.free + HeaderSize <= x < h.free + HeaderSize + size) ==>
      h'.m[x] == m1[x]
    requires h'.memSize == h.memSize && h'.from == h.from && h'.to == h.to && h'.alloc == h.alloc && h'.free == h.free + HeaderSize + size
    ensures Placing(h, h', r, HeaderSize + size) && (r < h.numRefs ==> h.t[r] == Null)
    ensures NewValue(h, h', h.free, code, size)
  {
    var a := h.free;
    assert RefOf(h'.m, a) == m1[a + RefField] == r;
    assert SeenOf(h'.m, a) == m1[a + SeenField] == h.m[a + SeenField] == 0;
  }

  /**
   * After the sweep, the clearing of the old half and the swap, the table
   * and the pool hold exactly what the roots reach, and the bytes given back
   * are those of the rest.
   */
  lemma Finished(h: Heap, c: Collection, h': Heap)
    requires Done(h, c) && Swapped(h, Swept(h, c, h.free), h')
    ensures Consistent(h', c.copies) && h'.numRefs <= |h'.t|
    ensures Collected(c.m0, c.t0, c.roots, h'.m, h'.t, h'.numRefs, h'.free)
    ensures (h.free - h.from) - (h'.free - h'.from) == Garbage(c.m0, c.t0, c.roots, c.objs)
  {
    SwapConsistent(h, c, h');
    forall q | 0 <= q < h'.numRefs
      ensures h'.t[q] != Null <==> Reaches(c.m0, c.t0, c.roots, q)
      ensures h'.t[q] != Null ==> Kept(c.m0, c.t0, h'.m, h'.t, q) && h'.t[q] + GetSize(c.m0, c.t0[q]) <= h'.free
    {
      CollectedReach(h, c, h', q);
      if h'.t[q] != Null {
        CollectedContent(h, c, h', q);
      }
    }
    DoneGarbage(h, c);
  }

  /** Write a Value's type and payload size at a and fill its payload with 0xCC. */
  method InitValue(mem: array<int>, a: int, code: int, size: int)
    requires 0 <= a && 0 <= size && a + HeaderSize + size <= mem.Length
    modifies mem
    ensures mem[a + TypeField] == code && mem[a + SizeField] == size
    ensures forall x :: a + HeaderSize <= x < a + HeaderSize + size ==> mem[x] == Fill
    ensures forall x :: 0 <= x < mem.Length && x != a + TypeField && x != a + SizeField && !(a + HeaderSize <= x < a + HeaderSize + size) ==>
      mem[x] == old(mem[x])
  {
    mem[a + TypeField] := code;
    mem[a + SizeField] := size;
    MemSet(mem, a + HeaderSize, Fill, size);
  }

  /** `memcpy(mem + d, mem + a, s)` on ranges that do not overlap. */
  method MemCopy(mem: array<int>, d: int, a: int, s: int)
    requires 0 <= d && 0 <= a && 0 <= s && d + s <= mem.Length && a + s <= mem.Length
    requires d + s <= a || a + s <= d
    modifies mem
    ensures mem[d..d + s] == old(mem[a..a + s])
    ensures forall x :: 0 <= x < mem.Length && !(d <= x < d + s) ==> mem[x] == old(mem[x])
  {
    var i := 0;
    while i < s
      invariant 0 <= i <= s
      invariant forall x :: d <= x < d + i ==> mem[x] == old(mem[x - d + a])
      invariant forall x :: 0 <= x < mem.Length && !(d <= x < d + i) ==> mem[x] == old(mem[x])
    {
      mem[d + i] := mem[a + i];
      i := i + 1;
    }
  }

  /** `memset(mem + d, v, n)`. */
  method MemSet(mem: array<int>, d: int, v: int, n: int)
    requires 0 <= d && 0 <= n && d + n <= mem.Length
    modifies mem
    ensures forall x :: d <= x < d + n ==> mem[x] == v
    ensures forall x :: 0 <= x < mem.Length && !(d <= x < d + n) ==> mem[x] == old(mem[x])
  {
    var i := 0;
    while i < n
      invariant 0 <= i <= n
      invariant forall x :: d <= x < d + i ==> mem[x] == v
      invariant forall x :: 0 <= x < mem.Length && !(d <= x < d + i) ==> mem[x] == old(mem[x])
    {
      mem[d + i] := v;
      i := i + 1;
    }
  }

  /** A table of n entries holding t's and then NULL (`malloc` or `realloc`, then the loop that clears the new slots). */
  method Grow(t: array<int>, n: int) returns (t': array<int>)
    requires t.Length <= n
    ensures fresh(t') && t'[..] == Widen(t[..], n)
  {
    t' := new int[n];
    var i := 0;
    while i < t.Length
      invariant 0 <= i <= t.Length
      invariant forall j :: 0 <= j < i ==> t'[j] == t[j]
    {
      t'[i] := t[i];
      i := i + 1;
    }
    while i < n
      invariant t.Length <= i <= n
      invariant forall j :: 0 <= j < t.Length ==> t'[j] == t[j]
      invariant forall j :: t.Length <= j < i ==> t'[j] == Null
    {
      t'[i] := Null;
      i := i + 1;
    }
    assert t'[..] == Widen(t[..], n);
  }

  class Allocator {
    /** The pool; `mem[x]` is the byte at offset x. */
    const mem: array<int>
    /** The reference table; its length is `max_refs`, and length 0 stands for no table yet. */
    var refTable: array<int>
    var numRefs: int
    var fromPtr: int
    var toPtr: int
    var freePtr: int
    var allocPtr: int

    /** The Values of the active half, in address order. */
    ghost var objs: seq<int>

    /** The allocator's state as a value. */
    ghost function H(): Heap
      reads this, mem, refTable
    {
      Heap(mem.Length, mem[..], refTable[..], numRefs, fromPtr, toPtr, freePtr, allocPtr)
    }

    ghost predicate Valid()
      reads this, mem, refTable
    {
      mem != refTable && Consistent(H(), objs)
    }

    /**
     * `mm_init`: the lower half is active and empty, there is no table yet.
     * The pool starts zeroed, as fresh memory from the system does.
     */
    constructor MmInit(memorySize: int)
      requires memorySize > 0
      ensures Valid() && fresh(mem) && fresh(refTable)
      ensures mem.Length == memorySize && fromPtr == 0 && freePtr == 0 && toPtr == memorySize / 2
      ensures numRefs == 0 && refTable.Length == 0 && objs == []
    {
      mem := new int[memorySize](_ => 0);
      refTable := new int[0];
      numRefs := 0;
      fromPtr := 0;
      freePtr := 0;
      toPtr := memorySize / 2;
      allocPtr := memorySize / 2;
      objs := [];
    }

    /** `memuse`: the bytes in use never exceed half the pool. */
    function Memuse(): (n: int)
      reads this, mem, refTable
      requires Valid()
      ensures 0 <= n <= mem.Length / 2
    {
      freePtr - fromPtr
    }

    /** `has_space_available`: a request fits exactly when the bytes in use and it fit in half the pool. */
    function HasSpaceAvailable(requested: int): (r: bool)
      reads this, mem, refTable
      requires Valid()
      ensures r <==> Memuse() + requested <= mem.Length / 2
      ensures r == HasSpace(H(), requested)
    {
      if fromPtr < toPtr then freePtr + requested <= toPtr else freePtr + requested <= fromPtr + mem.Length / 2
    }

    /**
     * `deref`: NULL_REF gives NULL; any other Reference must be in use
     * (the source asserts so), and then leads to a Value of the active half
     * that records it.
     */
    function Deref(ref: int): (v: int)
      reads this, mem, refTable
      requires Valid() && (ref == NullRef || RefOk(refTable[..], numRefs, ref))
      ensures v == Null <==> ref == NullRef
      ensures v != Null ==> fromPtr <= v < freePtr && v in objs && RefOf(mem[..], v) == ref
    {
      if ref == NullRef then Null
      else
        EntryBelowFree(H(), objs, ref);
        refTable[ref]
    }

    /**
     * `make_reference`: the lowest NULL entry below `num_refs` if there is
     * one, otherwise a new entry at `num_refs`, doubling the table when it is
     * full; the Value records its Reference.
     */
    method MakeReference(value: int) returns (ref: int)
      requires mem != refTable && 0 <= value && value + RefField < mem.Length
      requires 0 <= numRefs <= refTable.Length && forall i :: numRefs <= i < refTable.Length ==> refTable[i] == Null
      modifies this, refTable, mem
      ensures ref == FirstNull(old(refTable[..]), old(numRefs))
      ensures numRefs == (if ref < old(numRefs) then old(numRefs) else old(numRefs) + 1)
      ensures refTable.Length == if old(refTable.Length) == 0 then InitialSize
                                 else if ref == old(numRefs) == old(refTable.Length) then 2 * old(refTable.Length)
                                 else old(refTable.Length)
      ensures old(refTable.Length) <= refTable.Length && ref < refTable.Length
      ensures refTable[..] == Widen(old(refTable[..]), refTable.Length)[ref := value]
      ensures mem[..] == old(mem[..])[value + RefField := ref]
      ensures refTable != mem && (refTable == old(refTable) || fresh(refTable))
      ensures fromPtr == old(fromPtr) && toPtr == old(toPtr) && freePtr == old(freePtr) && allocPtr == old(allocPtr)
      ensures objs == old(objs)
    {
      if refTable.Length == 0 {
        refTable := Grow(refTable, InitialSize);
      }
      ghost var t := refTable[..];
      assert t == Widen(old(refTable[..]), refTable.Length);
      var i := 0;
      while i < numRefs
        invariant 0 <= i <= numRefs
        invariant forall j :: 0 <= j < i ==> refTable[j] != Null
        invariant refTable[..] == t
      {
        if refTable[i] == Null {
          assert FirstNull(old(refTable[..]), numRefs) == i by {
            assert forall j :: 0 <= j <= i ==> old(refTable[..])[j] == t[j];
            FirstNullIs(old(refTable[..]), numRefs, i);
          }
          refTable[i] := value;
          mem[value + RefField] := i;
          return i;
        }
        i := i + 1;
      }
      assert FirstNull(old(refTable[..]), numRefs) == numRefs by {
        assert forall j :: 0 <= j < numRefs ==> old(refTable[..])[j] == t[j];
        FirstNullIs(old(refTable[..]), numRefs, numRefs);
      }
      if numRefs == refTable.Length {
        refTable := Grow(refTable, 2 * refTable.Length);
      }
      ref := numRefs;
      numRefs := numRefs + 1;
      refTable[ref] := value;
      mem[value + RefField] := ref;
    }

    /**
     * `mm_malloc`: place a Value of the requested type at `freeptr`,
     * collecting garbage first when the active half has no room; when even
     * then there is none the allocator gives up.  The payload is filled with
     * 0xCC.  Every Reference the globals reach keeps its Value's bytes.
     */
    method MmMalloc(vtype: ValueType, dataSize: int, globals: seq<int>, ghost live: set<int>) returns (v: Outcome)
      requires Valid() && dataSize >= 0
      requires LiveOk(mem[..], refTable[..], numRefs, live) && forall g :: g in globals ==> g == NullRef || g in live
      modifies this, mem, refTable
      ensures Valid()
      ensures old(HasSpace(H(), Requested(vtype, dataSize))) ==> v == Allocated(old(freePtr))
      ensures v == OutOfMemory ==> !HasSpace(H(), Requested(vtype, dataSize))
      ensures !old(HasSpace(H(), Requested(vtype, dataSize))) ==> fromPtr == old(toPtr) && toPtr == old(fromPtr)
      ensures v == OutOfMemory ==>
        && Collected(old(mem[..]), old(refTable[..]), RootSet(globals), mem[..], refTable[..], numRefs, freePtr)
        && freePtr - fromPtr == old(freePtr - fromPtr) - Garbage(old(mem[..]), old(refTable[..]), RootSet(globals), old(objs))
      ensures v.Allocated? ==>
        && v.addr + Requested(vtype, dataSize) == freePtr <= fromPtr + mem.Length / 2 && |objs| > 0 && objs[|objs| - 1] == v.addr
        && TypeOf(mem[..], v.addr) == Code(vtype) && DataSize(mem[..], v.addr) == PayloadSize(vtype, dataSize)
        && 0 <= RefOf(mem[..], v.addr) < numRefs && refTable[RefOf(mem[..], v.addr)] == v.addr
        && SeenOf(mem[..], v.addr) == 0
        && (forall x :: v.addr + HeaderSize <= x < freePtr ==> mem[x] == Fill)
      ensures forall q :: 0 <= q < old(numRefs) && Reaches(old(mem[..]), old(refTable[..]), RootSet(globals), q) ==>
        Kept(old(mem[..]), old(refTable[..]), mem[..], refTable[..], q)
    {
      ghost var m0, t0 := mem[..], refTable[..];
      var size := PayloadSize(vtype, dataSize);
      var requested := HeaderSize + size;
      var room := MakeRoom(requested, globals, live);
      if !room {
        return OutOfMemory;
      }
      ghost var m1, t1 := mem[..], refTable[..];
      var a := PlaceValue(vtype, size, requested);
      KeptBelow(m0, t0, RootSet(globals), old(numRefs), m1, t1, a, mem[..], refTable[..]);
      v := Allocated(a);
    }

    /**
     * The first half of `mm_malloc`: when the active half has no room for
     * `requested` bytes, collect garbage; report whether there is room now.
     * Either way every Reference the globals reach keeps its Value's bytes,
     * below `freeptr`.
     */
    method MakeRoom(requested: int, globals: seq<int>, ghost live: set<int>) returns (room: bool)
      requires Valid()
      requires LiveOk(mem[..], refTable[..], numRefs, live) && forall g :: g in globals ==> g == NullRef || g in live
      modifies this, mem, refTable
      ensures Valid() && numRefs == old(numRefs) && refTable == old(refTable)
      ensures room == HasSpace(H(), requested)
      ensures old(HasSpace(H(), requested)) ==> room && freePtr == old(freePtr)
      ensures !old(HasSpace(H(), requested)) ==>
        && fromPtr == old(toPtr) && toPtr == old(fromPtr)
        && Collected(old(mem[..]), old(refTable[..]), RootSet(globals), mem[..], refTable[..], numRefs, freePtr)
        && freePtr - fromPtr == old(freePtr - fromPtr) - Garbage(old(mem[..]), old(refTable[..]), RootSet(globals), old(objs))
      ensures forall q :: 0 <= q < old(numRefs) && Reaches(old(mem[..]), old(refTable[..]), RootSet(globals), q) ==>
        Kept(old(mem[..]), old(refTable[..]), mem[..], refTable[..], q) && refTable[q] + GetSize(old(mem[..]), old(refTable[q])) <= freePtr
    {
      room := HasSpaceAvailable(requested);
      if !room {
        var reclaimed := CollectGarbage(globals, live);
        room := HasSpaceAvailable(requested);
      } else {
        forall q | 0 <= q < numRefs && Reaches(mem[..], refTable[..], RootSet(globals), q)
          ensures Kept(mem[..], refTable[..], mem[..], refTable[..], q) && refTable[q] + GetSize(mem[..], refTable[q]) <= freePtr
        {
          ReachesLive(mem[..], refTable[..], numRefs, live, RootSet(globals), q);
          EntryBelowFree(H(), objs, q);
        }
      }
    }

    /**
     * The second half of `mm_malloc`: give the Value at `freeptr` a
     * Reference, write its type and size, fill its payload with 0xCC and
     * move `freeptr` past it.
     */
    method PlaceValue(vtype: ValueType, size: int, requested: int) returns (a: int)
      requires Valid() && size >= MinPayload(Code(vtype)) && size >= 0 && requested == HeaderSize + size
      requires HasSpace(H(), requested)
      modifies this, mem, refTable
      ensures Valid() && a == old(freePtr) && freePtr == a + requested && objs == old(objs) + [a]
      ensures fromPtr == old(fromPtr) && toPtr == old(toPtr)
      ensures NewValue(old(H()), H(), a, Code(vtype), size)
    {
      ghost var h := H();
      ghost var o := objs;
      a := freePtr;
      var ref := MakeReference(a);
      ghost var m1 := mem[..];
      InitValue(mem, a, Code(vtype), size);
      freePtr := freePtr + requested;
      objs := objs + [a];
      Placement(h, m1, H(), ref, Code(vtype), size);
      Placed(h, o, H(), ref, requested);
    }

    /**
     * `collect_garbage`: one stop-and-copy pass; the bytes it reports
     * reclaimed are the total size of the Values the globals no longer reach.
     */
    method CollectGarbage(globals: seq<int>, ghost live: set<int>) returns (reclaimed: int)
      requires Valid() && LiveOk(mem[..], refTable[..], numRefs, live) && forall g :: g in globals ==> g == NullRef || g in live
      modifies this, mem, refTable
      ensures Valid() && numRefs == old(numRefs) && refTable == old(refTable)
      ensures fromPtr == old(toPtr) && toPtr == old(fromPtr)
      ensures Collected(old(mem[..]), old(refTable[..]), RootSet(globals), mem[..], refTable[..], numRefs, freePtr)
      ensures reclaimed == Garbage(old(mem[..]), old(refTable[..]), RootSet(globals), old(objs))
      ensures freePtr - fromPtr == old(freePtr - fromPtr) - reclaimed
    {
      var before := freePtr - fromPtr;
      StopAndCopy(globals, live);
      var after := freePtr - fromPtr;
      reclaimed := before - after;
    }

    /**
     * `stop_and_copy`: copy what the globals reach into the other half,
     * clear the entries of what is left, zero the old half and swap the
     * halves.
     */
    method StopAndCopy(globals: seq<int>, ghost live: set<int>)
      requires Valid() && LiveOk(mem[..], refTable[..], numRefs, live) && forall g :: g in globals ==> g == NullRef || g in live
      modifies this, mem, refTable
      ensures Valid() && numRefs == old(numRefs) && refTable == old(refTable)
      ensures fromPtr == old(toPtr) && toPtr == old(fromPtr)
      ensures Collected(old(mem[..]), old(refTable[..]), RootSet(globals), mem[..], refTable[..], numRefs, freePtr)
      ensures old(freePtr - fromPtr) - (freePtr - fromPtr) == Garbage(old(mem[..]), old(refTable[..]), RootSet(globals), old(objs))
    {
      ghost var h0 := H();
      ghost var c := Start(h0, objs, live);
      StartOk(h0, objs, live);
      c := CopyGlobals(globals, c);
      ghost var h1 := H();
      SweepReady(h1, c);
      IterateFrom(c);
      Flip(h1, c);
      Finished(h1, c, H());
    }

    /**
     * The end of `stop_and_copy`: `freeptr` moves to `allocptr`, the active
     * half is zeroed and the halves swap.
     */
    method Flip(ghost h: Heap, ghost c: Collection)
      requires mem != refTable && Shape(h) && H() == h.(t := Swept(h, c, h.free))
      modifies this, mem
      ensures refTable == old(refTable) && objs == c.copies && Swapped(h, Swept(h, c, h.free), H())
    {
      var len := if toPtr > fromPtr then toPtr - fromPtr else mem.Length - fromPtr;
      freePtr := allocPtr;
      MemSet(mem, fromPtr, 0, len);
      var oldFrom := fromPtr;
      fromPtr := toPtr;
      toPtr := oldFrom;
      allocPtr := toPtr;
      objs := c.copies;
    }

    /** The loop of `stop_and_copy` that hands every global to `copy_global`. */
    method CopyGlobals(globals: seq<int>, ghost c: Collection) returns (ghost c': Collection)
      requires mem != refTable && Done(H(), c) && c.roots == {} && forall g :: g in globals ==> g == NullRef || g in c.live
      modifies this, mem, refTable
      ensures refTable == old(refTable) && objs == old(objs) && SameRun(old(H()), H())
      ensures c'.m0 == c.m0 && c'.t0 == c.t0 && c'.objs == c.objs && c'.live == c.live
      ensures c'.roots == RootSet(globals) && Done(H(), c')
    {
      ghost var h0 := H();
      c' := c;
      var i := 0;
      while i < |globals|
        invariant 0 <= i <= |globals| && refTable == old(refTable) && objs == old(objs)
        invariant SameRun(h0, H())
        invariant c'.m0 == c.m0 && c'.t0 == c.t0 && c'.objs == c.objs && c'.live == c.live
        invariant c'.roots == RootSet(globals[..i])
        invariant Done(H(), c')
      {
        RootSetNext(globals, i);
        c' := CopyGlobal(globals[i], c');
        i := i + 1;
      }
      assert globals[..i] == globals;
    }

    /**
     * `copy_global`: copy what one global reaches, unless it is NULL_REF.
     * Afterwards every root so far is copied and no copy waits for its
     * children.
     */
    method CopyGlobal(ref: int, ghost c: Collection) returns (ghost c': Collection)
      requires mem != refTable && Done(H(), c) && (ref == NullRef || ref in c.live)
      modifies this, mem, refTable
      ensures refTable == old(refTable) && objs == old(objs) && SameRun(old(H()), H())
      ensures c'.m0 == c.m0 && c'.t0 == c.t0 && c'.objs == c.objs && c'.live == c.live
      ensures c'.roots == c.roots + (if ref == NullRef then {} else {ref})
      ensures Done(H(), c')
    {
      if ref == NullRef {
        return c;
      }
      ghost var h := H();
      ghost var c1 := c.(roots := c.roots + {ref});
      RootStart(h, c, ref);
      var curr := refTable[ref];
      c' := CopyVal(curr, ref, c1);
      RootDone(h, c, H(), c', ref);
    }

    /** `copy_val`: dispatch on the Value's type. */
    method CopyVal(val: int, ghost r: int, ghost c: Collection) returns (ghost c': Collection)
      requires mem != refTable && GcOk(H(), c) && RefOk(c.t0, numRefs, r) && r in c.live && Reaches(c.m0, c.t0, c.roots, r)
      requires val == refTable[r]
      modifies this, mem, refTable
      ensures refTable == old(refTable) && objs == old(objs) && Carried(old(H()), c, H(), c', r)
      decreases Headroom(H()), 1
    {
      ghost var h0 := H();
      EntryNow(h0, c, r);
      assert mem[val + TypeField] == h0.m[val] == TypeOf(h0.m, val);
      var vtype := mem[val + TypeField];
      if vtype == Code(ListNode) {
        c' := CopyList(val, r, c);
      } else if vtype == Code(DictNode) {
        c' := CopyDict(val, r, c);
      } else {
        var copied;
        copied, c' := CopyWrapper(val, r, c);
        if copied {
          OpenStart(h0, c, H(), c', r);
          OpenClose(h0, c, H(), c', r);
          c' := c'.(black := c'.black + {r});
        } else {
          SteppedNone(h0, c);
        }
      }
    }

    /**
     * `copy_list`: copy the node, then what its value leads to, then the rest
     * of the list; a node already copied stops the walk.
     */
    method CopyList(val: int, ghost r: int, ghost c: Collection) returns (ghost c': Collection)
      requires mem != refTable && GcOk(H(), c) && RefOk(c.t0, numRefs, r) && r in c.live && Reaches(c.m0, c.t0, c.roots, r)
      requires val == refTable[r] && TypeOf(c.m0, c.t0[r]) == Code(ListNode)
      modifies this, mem, refTable
      ensures refTable == old(refTable) && objs == old(objs) && Carried(old(H()), c, H(), c', r)
      decreases Headroom(H()), 0
    {
      ghost var h0 := H();
      EntryNow(h0, c, r);
      assert mem[val + 16] == h0.m[val + 16] && mem[val + 20] == h0.m[val + 20];
      var valueRef := mem[val + 16];
      var next := mem[val + 20];
      assert Kids(c.m0, c.t0[r]) == [valueRef, next] && NextOf(c.m0, c.t0[r]) == next;
      var copied;
      copied, c' := CopyWrapper(val, r, c);
      if !copied {
        SteppedNone(h0, c);
        return;
      }
      OpenStart(h0, c, H(), c', r);
      if valueRef != NullRef {
        c' := CopyField(valueRef, h0, c, r, c');
      }
      if next != NullRef {
        c' := CopyNextList(next, h0, c, r, c');
      }
      CloseList(h0, c, H(), c', r, valueRef, next);
      c' := c'.(black := c'.black + {r});
    }

    /**
     * `copy_dict`: copy the node, then what its key and its value lead to,
     * then the rest of the dictionary; a node already copied stops the walk.
     */
    method CopyDict(val: int, ghost r: int, ghost c: Collection) returns (ghost c': Collection)
      requires mem != refTable && GcOk(H(), c) && RefOk(c.t0, numRefs, r) && r in c.live && Reaches(c.m0, c.t0, c.roots, r)
      requires val == refTable[r] && TypeOf(c.m0, c.t0[r]) == Code(DictNode)
      modifies this, mem, refTable
      ensures refTable == old(refTable) && objs == old(objs) && Carried(old(H()), c, H(), c', r)
      decreases Headroom(H()), 0
    {
      ghost var h0 := H();
      EntryNow(h0, c, r);
      assert mem[val + 16] == h0.m[val + 16] && mem[val + 20] == h0.m[val + 20] && mem[val + 24] == h0.m[val + 24];
      var key := mem[val + 16];
      var value := mem[val + 20];
      var next := mem[val + 24];
      assert Kids(c.m0, c.t0[r]) == [key, value, next] && NextOf(c.m0, c.t0[r]) == next;
      var copied;
      copied, c' := CopyWrapper(val, r, c);
      if !copied {
        SteppedNone(h0, c);
        return;
      }
      OpenStart(h0, c, H(), c', r);
      if key != NullRef {
        c' := CopyField(key, h0, c, r, c');
      }
      if value != NullRef {
        c' := CopyField(value, h0, c, r, c');
      }
      if next != NullRef {
        c' := CopyNextDict(next, h0, c, r, c');
      }
      CloseDict(h0, c, H(), c', r, key, value, next);
      c' := c'.(black := c'.black + {r});
    }

    /**
     * `copy_val(deref(kid))` for a key or value field of node r, which is
     * copied and waits for its children.
     */
    method CopyField(kid: int, ghost h0: Heap, ghost c0: Collection, ghost r: int, ghost c: Collection) returns (ghost c': Collection)
      requires mem != refTable && Open(h0, c0, H(), c, r) && RefOk(c0.t0, h0.numRefs, r) && r in c0.live && Reaches(c0.m0, c0.t0, c0.roots, r)
      requires kid in Kids(c0.m0, c0.t0[r]) && kid != NullRef
      modifies this, mem, refTable
      ensures refTable == old(refTable) && objs == old(objs) && Open(h0, c0, H(), c', r) && Moved(H(), c', kid)
      ensures forall q :: Moved(old(H()), c, q) ==> Moved(H(), c', q)
      decreases Headroom(H()), 2
    {
      ghost var h1 := H();
      ReachesKid(c0.m0, c0.t0, c0.roots, r, kid);
      EntryNow(h1, c, kid);
      c' := CopyVal(refTable[kid], kid, c);
      OpenStep(h0, c0, h1, c, H(), c', r);
    }

    /** `copy_list(deref(next))` for the next node of list node r. */
    method CopyNextList(next: int, ghost h0: Heap, ghost c0: Collection, ghost r: int, ghost c: Collection) returns (ghost c': Collection)
      requires mem != refTable && Open(h0, c0, H(), c, r) && RefOk(c0.t0, h0.numRefs, r) && r in c0.live && Reaches(c0.m0, c0.t0, c0.roots, r)
      requires TypeOf(c0.m0, c0.t0[r]) == Code(ListNode) && next == NextOf(c0.m0, c0.t0[r]) && next != NullRef
      modifies this, mem, refTable
      ensures refTable == old(refTable) && objs == old(objs) && Open(h0, c0, H(), c', r) && Moved(H(), c', next)
      ensures forall q :: Moved(old(H()), c, q) ==> Moved(H(), c', q)
      decreases Headroom(H()), 2
    {
      ghost var h1 := H();
      ReachesKid(c0.m0, c0.t0, c0.roots, r, next);
      EntryNow(h1, c, next);
      c' := CopyList(refTable[next], next, c);
      OpenStep(h0, c0, h1, c, H(), c', r);
    }

    /** `copy_dict(deref(next))` for the next node of dictionary node r. */
    method CopyNextDict(next: int, ghost h0: Heap, ghost c0: Collection, ghost r: int, ghost c: Collection) returns (ghost c': Collection)
      requires mem != refTable && Open(h0, c0, H(), c, r) && RefOk(c0.t0, h0.numRefs, r) && r in c0.live && Reaches(c0.m0, c0.t0, c0.roots, r)
      requires TypeOf(c0.m0, c0.t0[r]) == Code(DictNode) && next == NextOf(c0.m0, c0.t0[r]) && next != NullRef
      modifies this, mem, refTable
      ensures refTable == old(refTable) && objs == old(objs) && Open(h0, c0, H(), c', r) && Moved(H(), c', next)
      ensures forall q :: Moved(old(H()), c, q) ==> Moved(H(), c', q)
      decreases Headroom(H()), 2
    {
      ghost var h1 := H();
      ReachesKid(c0.m0, c0.t0, c0.roots, r, next);
      EntryNow(h1, c, next);
      c' := CopyDict(refTable[next], next, c);
      OpenStep(h0, c0, h1, c, H(), c', r);
    }

    /**
     * `copy_wrapper`: unless the Value is already in the to half (or past
     * `freeptr`), copy its bytes to `allocptr`, mark the original seen, point
     * its Reference at the copy and move `allocptr` past it.  It copies
     * exactly when the Reference was not copied yet.
     */
    method CopyWrapper(val: int, ghost r: int, ghost c: Collection) returns (copied: bool, ghost c': Collection)
      requires mem != refTable && GcOk(H(), c) && RefOk(c.t0, numRefs, r) && r in c.live && Reaches(c.m0, c.t0, c.roots, r)
      requires val == refTable[r]
      modifies this, mem, refTable
      ensures refTable == old(refTable) && objs == old(objs) && SameRun(old(H()), H())
      ensures copied <==> !old(Moved(H(), c, r))
      ensures c' == if copied then Record(c, c.t0[r], old(allocPtr)) else c
      ensures GcOk(H(), c') && Moved(H(), c', r)
      ensures MovedSet(H(), c') == old(MovedSet(H(), c)) + {r}
      ensures copied ==> Headroom(H()) < old(Headroom(H()))
      ensures !copied ==> H() == old(H())
    {
      ghost var h := H();
      EntryNow(h, c, r);
      assert 0 <= val < mem.Length && val + SizeField < val + RefField < mem.Length;
      assert mem[val + SizeField] == h.m[val + SizeField] == DataSize(h.m, val);
      assert mem[val + RefField] == h.m[val + RefField] == RefOf(h.m, val) == r;
      var size := HeaderSize + mem[val + SizeField];
      var ref := mem[val + RefField];
      var addr := refTable[ref];
      assert addr == val;
      if (toPtr > fromPtr && addr >= toPtr) || (toPtr < fromPtr && addr < fromPtr) || addr > freePtr {
        assert Skip(h, addr);
        return false, c;
      }
      ghost var j := CopyFacts(h, c, r);
      MoveValue(val, ref, size);
      CopyKeeps(h, c, r, j, H());
      copied, c' := true, Record(c, c.t0[r], h.alloc);
    }

    /**
     * The copying half of `copy_wrapper`: `memcpy` the Value to `allocptr`,
     * set the original's seen flag, point the Reference at the copy and move
     * `allocptr` past it.
     */
    method MoveValue(val: int, ref: int, size: int)
      requires mem != refTable && 0 <= allocPtr && allocPtr + size <= mem.Length
      requires 0 <= val && SeenField < size && val + size <= mem.Length && (allocPtr + size <= val || val + size <= allocPtr)
      requires 0 <= ref < refTable.Length
      modifies this, mem, refTable
      ensures refTable == old(refTable) && objs == old(objs)
      ensures CopiedTo(old(H()), H(), ref, val, size)
    {
      ghost var h := H();
      MemCopy(mem, allocPtr, val, size);
      ghost var m1 := mem[..];
      mem[val + SeenField] := 1;
      refTable[ref] := allocPtr;
      allocPtr := allocPtr + size;
      assert mem[..] == m1[val + SeenField := 1] && refTable[..] == h.t[ref := h.alloc];
      CopiedParts(h, H(), ref, val, size, m1);
    }

    /**
     * `iterate_from`: walk the active half Value by Value and clear the
     * entry of every Value left unseen.
     */
    method IterateFrom(ghost c: Collection)
      requires mem != refTable && Sweepable(H(), c)
      modifies refTable
      ensures refTable[..] == old(Swept(H(), c, freePtr))
    {
      ghost var h := H();
      var curr := fromPtr;
      ghost var k := 0;
      while curr < freePtr
        invariant 0 <= k <= |c.objs|
        invariant k < |c.objs| ==> curr == c.objs[k]
        invariant k == |c.objs| ==> curr == h.free
        invariant refTable[..] == Swept(h, c, curr)
        decreases freePtr - curr
      {
        assert SweepAt(h, c, k);
        var ref := mem[curr + RefField];
        var seen := mem[curr + SeenField];
        if seen == 0 {
          refTable[ref] := Null;
        }
        curr := curr + HeaderSize + mem[curr + SizeField];
        k := k + 1;
      }
    }
  }

  /** `memcpy` of the s bytes at a to `alloc`, then the seen flag of a set: one copy step. */
  lemma CopiedParts(h: Heap, h': Heap, r: int, a: int, s: int, m1: seq<int>)
    requires 0 <= h.alloc && h.alloc + s <= |h.m| && 0 <= a && SeenField < s && a + s <= |h.m| && 0 <= r < |h.t|
    requires h.alloc + s <= a || a + s <= h.alloc
    requires |m1| == |h.m| && m1[h.alloc..h.alloc + s] == h.m[a..a + s]
    requires forall x :: 0 <= x < |h.m| && !(h.alloc <= x < h.alloc + s) ==> m1[x] == h.m[x]
    requires h'.m == m1[a + SeenField := 1] && h'.t == h.t[r := h.alloc]
    requires h'.memSize == h.memSize && h'.numRefs == h.numRefs && h'.from == h.from && h'.to == h.to && h'.free == h.free
    requires h'.alloc == h.alloc + s
    ensures CopiedTo(h, h', r, a, s)
  {
    assert h'.m[h.alloc..h.alloc + s] == m1[h.alloc..h.alloc + s];
  }

  /** FirstNull is the lowest NULL entry. */
  lemma FirstNullIs(t: seq<int>, n: nat, i: nat)
    requires n <= |t| && i <= n && (i < n ==> t[i] == Null) && forall j :: 0 <= j < i ==> t[j] != Null
    ensures FirstNull(t, n) == i
  {
  }
}

/**
 * The width of `mm_malloc`'s request: alloc.c keeps the byte count in a C
 * `int`.
 */
module RequestWidth {
  import opened ValueLayout
  import opened CopyState
  import opened StopAndCopy

  /**
   * `requested` as `mm_malloc` stores it: the size_t sum kept in an `int`,
   * that is its low 32 bits read as a signed number.
   */
  function RequestedAsWritten(vtype: ValueType, dataSize: int): (n: int)
    requires dataSize >= 0
    ensures -0x8000_0000 <= n < 0x8000_0000
    ensures Requested(vtype, dataSize) < 0x8000_0000 ==> n == Requested(vtype, dataSize)
  {
    var w := Requested(vtype, dataSize) % 0x1_0000_0000;
    if w < 0x8000_0000 then w else w - 0x1_0000_0000
  }

  /**
   * A string of INT_MAX bytes: the request as written is negative, so the
   * space test passes on a 64-byte pool that cannot hold it, and `freeptr`
   * would move down; the unbounded request fails the test.
   */
  lemma RequestedWrapsAsWritten()
    ensures var h := Heap(64, seq(64, _ => 0), [], 0, 0, 32, 0, 0);
      && Shape(h) && RequestedAsWritten(StringValue, 0x7FFF_FFFF) < 0
      && HasSpaceAsWritten(h, RequestedAsWritten(StringValue, 0x7FFF_FFFF))
      && !HasSpace(h, Requested(StringValue, 0x7FFF_FFFF))
  {
  }
}
