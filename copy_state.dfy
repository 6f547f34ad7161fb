/**
 * The state of the subpython allocator (lab04 alloc.c) as a value, the
 * invariant it keeps between collections, and the invariant of a
 * stop-and-copy collection in progress, with the steps a collection takes.
 *
 * The pool is split into two halves.  New Values are laid end to end in the
 * active ("from") half, from `from` up to `free`.  A collection copies every
 * Value reachable from the globals into the other ("to") half at `alloc`,
 * marks each original as seen and points its Reference at the copy; then it
 * clears the Reference of every Value left unseen, zeroes the old half and
 * swaps the halves.
 */
module CopyState {
  import opened ValueLayout

  /** The allocator's variables: the pool, the reference table and the four pointers. */
  datatype Heap = Heap(memSize: int, m: seq<int>, t: seq<int>, numRefs: int,
                       from: int, to: int, free: int, alloc: int)

  /**
   * The bookkeeping of a collection: the pool and table as they were when it
   * began, the Values of the active half, the References the program may
   * follow, the globals whose graphs the collector has begun to copy, the
   * originals copied so far with their copies (in copy order), and the
   * References whose Value and children have all been copied.
   */
  datatype Collection = Collection(m0: seq<int>, t0: seq<int>, objs: seq<int>, live: set<int>, roots: set<int>,
                                   origs: seq<int>, copies: seq<int>, black: set<int>)

  /** HALF_MEMORY. */
  function Half(h: Heap): int
  {
    h.memSize / 2
  }

  /** The end of the active half (the first half ends where the second begins). */
  function FromEnd(h: Heap): int
  {
    if h.from < h.to then h.to else h.memSize
  }

  /** The end of the inactive half. */
  function ToEnd(h: Heap): int
  {
    if h.to < h.from then h.from else h.memSize
  }

  ghost predicate Shape(h: Heap)
  {
    && h.memSize > 0 && |h.m| == h.memSize
    && ((h.from == 0 && h.to == Half(h)) || (h.from == Half(h) && h.to == 0))
    && h.from <= h.free <= h.from + Half(h)
    && 0 <= h.numRefs <= |h.t|
    && (forall i :: h.numRefs <= i < |h.t| ==> h.t[i] == Null)
  }

  /**
   * The allocator between collections: the active half holds `objs` end to end
   * up to `free`, each recording a Reference that leads back to it, every used
   * entry of the table leads to one of them, no Value is marked seen, and
   * everything past `free` and all of the other half is zero.
   */
  ghost predicate Consistent(h: Heap, objs: seq<int>)
  {
    && Shape(h) && h.alloc == h.to
    && Tiled(h.m, objs, h.from, h.free)
    && RefsBack(h.m, h.t, h.numRefs, objs)
    && EntriesIn(h.m, h.t, h.numRefs, objs)
    && (forall k {:trigger SeenOf(h.m, objs[k])} :: 0 <= k < |objs| ==> SeenOf(h.m, objs[k]) == 0)
    && (forall x :: h.free <= x < FromEnd(h) ==> h.m[x] == 0)
    && (forall x :: h.to <= x < ToEnd(h) ==> h.m[x] == 0)
  }

  // ---------------------------------------------------------------------------
  // has_space_available

  /**
   * `has_space_available` as written: in the upper half the bound is the end
   * of the pool, so it admits every request the bound at the half's end does.
   */
  function HasSpaceAsWritten(h: Heap, requested: int): (r: bool)
    ensures Shape(h) && HasSpace(h, requested) ==> r
  {
    if h.from < h.to then h.free + requested <= h.to else h.free + requested <= h.memSize
  }

  /** `has_space_available` with the bound at the end of the active half, whichever it is. */
  function HasSpace(h: Heap, requested: int): (r: bool)
    requires Shape(h)
    ensures r <==> h.free + requested <= h.from + Half(h)
    ensures r && requested >= 0 ==> h.free + requested <= FromEnd(h)
  {
    h.free + requested <= h.from + Half(h)
  }

  /** With the active half below, or an even pool, the two tests agree. */
  lemma HasSpaceAgrees(h: Heap, requested: int)
    requires Shape(h) && (h.from < h.to || h.memSize % 2 == 0)
    ensures HasSpaceAsWritten(h, requested) == HasSpace(h, requested)
  {
  }

  /**
   * A 33-byte pool whose upper half is active: the test as written lets a
   * 17-byte Value start at byte 16, so the half holds 17 bytes while the half
   * it is copied into holds 16.
   */
  lemma HasSpaceAsWrittenOvershoots()
    ensures var h := Heap(33, seq(33, _ => 0), [], 0, 16, 0, 16, 0);
      Shape(h) && HasSpaceAsWritten(h, 17) && !HasSpace(h, 17) && 16 + 17 > h.to + Half(h) + Half(h)
  {
  }

  // ---------------------------------------------------------------------------
  // copy_wrapper's test

  /**
   * copy_wrapper's "do not copy" test as written: strictly above `toptr` when
   * the to half is above, so it skips only addresses the corrected test skips.
   */
  function SkipAsWritten(h: Heap, addr: int): (r: bool)
    ensures Shape(h) && 0 <= addr < h.memSize && r ==> Skip(h, addr)
  {
    (h.to > h.from && addr > h.to) || (h.to < h.from && addr < h.from) || addr > h.free
  }

  /** copy_wrapper's "do not copy" test with the to half's first byte counted in it. */
  function Skip(h: Heap, addr: int): (r: bool)
    requires Shape(h) && 0 <= addr < h.memSize
    ensures !r <==> h.from <= addr <= h.free && addr < FromEnd(h)
  {
    (h.to > h.from && addr >= h.to) || (h.to < h.from && addr < h.from) || addr > h.free
  }

  /**
   * The two tests differ only at `toptr` itself, when the lower half is active
   * and exactly full.
   */
  lemma SkipAgrees(h: Heap, addr: int)
    requires Shape(h) && 0 <= addr < h.memSize
    ensures SkipAsWritten(h, addr) != Skip(h, addr) <==> h.from < h.to && addr == h.to && h.free == h.to
  {
  }

  /**
   * A full lower half: the first Value copied lands exactly at `toptr`, and the
   * test as written would copy it again.
   */
  lemma SkipAsWrittenMissesFirstCopy()
    ensures var h := Heap(48, seq(48, _ => 0), [], 0, 0, 24, 24, 24);
      Shape(h) && !SkipAsWritten(h, 24) && Skip(h, 24) && 24 >= FromEnd(h)
  {
  }

  // ---------------------------------------------------------------------------
  // A collection in progress

  /** Reference r is in use and its original has been copied. */
  ghost predicate Moved(h: Heap, c: Collection, r: int)
  {
    0 <= r < h.numRefs && r < |c.t0| && c.t0[r] != Null && SeenOf(h.m, c.t0[r]) == 1
  }

  /** The References copied so far. */
  ghost function MovedSet(h: Heap, c: Collection): set<int>
  {
    set r | 0 <= r < h.numRefs && Moved(h, c, r)
  }

  /** p is a path of References, each followed out of the previous one's Value as the collection began. */
  ghost predicate Chain(m0: seq<int>, t0: seq<int>, p: seq<int>)
  {
    && |p| > 0
    && (forall i :: 0 <= i < |p| ==> 0 <= p[i] < |t0|)
    && (forall i :: 0 <= i < |p| - 1 ==> p[i + 1] in Kids(m0, t0[p[i]]))
  }

  /** Reference r can be reached from one of the roots. */
  ghost predicate Reaches(m0: seq<int>, t0: seq<int>, roots: set<int>, r: int)
  {
    exists p :: Chain(m0, t0, p) && p[0] in roots && p[|p| - 1] == r
  }

  /** The state the collection began in was consistent, with `live` closed. */
  ghost predicate Began(h: Heap, c: Collection)
  {
    && |c.m0| == |h.m| && |c.t0| == |h.t|
    && Tiled(c.m0, c.objs, h.from, h.free)
    && RefsBack(c.m0, c.t0, h.numRefs, c.objs)
    && EntriesIn(c.m0, c.t0, h.numRefs, c.objs)
    && (forall k {:trigger SeenOf(c.m0, c.objs[k])} :: 0 <= k < |c.objs| ==> SeenOf(c.m0, c.objs[k]) == 0)
    && LiveOk(c.m0, c.t0, h.numRefs, c.live)
  }

  /** The Value at a has the bytes it began with, except perhaps its seen flag set. */
  ghost predicate AsBefore(m: seq<int>, m0: seq<int>, a: int)
  {
    var s := GetSize(m0, a);
    && 0 <= a && SeenField < s && a + s <= |m| && a + s <= |m0|
    && (m[a..a + s] == m0[a..a + s] || m[a..a + s] == m0[a..a + s][SeenField := 1])
  }

  /** Every original in the active half is as it began, up to its seen flag. */
  ghost predicate OriginalsOk(h: Heap, c: Collection)
  {
    forall k {:trigger AsBefore(h.m, c.m0, c.objs[k])} :: 0 <= k < |c.objs| ==> AsBefore(h.m, c.m0, c.objs[k])
  }

  /**
   * The Value at p in the to half, below `alloc`, is a copy of the original a:
   * it holds the bytes a began with, a is marked seen and a's Reference leads
   * to p.
   */
  ghost predicate CopyAt(h: Heap, m0: seq<int>, objs: seq<int>, a: int, p: int)
  {
    var s := GetSize(m0, a);
    && a in objs && SeenOf(h.m, a) == 1
    && 0 <= a && 0 <= h.to <= p && 0 <= s && p + s <= h.alloc && h.alloc <= |h.m| && a + s <= |m0|
    && h.m[p..p + s] == m0[a..a + s]
    && 0 <= RefOf(m0, a) < |h.t| && h.t[RefOf(m0, a)] == p
  }

  /** The k-th copy is a copy of the k-th original. */
  ghost predicate CopyOf(h: Heap, c: Collection, k: int)
    requires 0 <= k < |c.origs| == |c.copies|
  {
    CopyAt(h, c.m0, c.objs, c.origs[k], c.copies[k])
  }

  ghost predicate CopiesOk(h: Heap, c: Collection)
  {
    && Tiled(h.m, c.copies, h.to, h.alloc)
    && |c.origs| == |c.copies|
    && (forall k :: 0 <= k < |c.copies| ==> CopyOf(h, c, k))
    && (forall k {:trigger SeenOf(h.m, c.objs[k])} :: 0 <= k < |c.objs| && SeenOf(h.m, c.objs[k]) == 1 ==> c.objs[k] in c.origs)
  }

  /** What is copied plus what is still pending is what the active half held; the rest of the to half is zero. */
  ghost predicate Room(h: Heap, c: Collection)
    requires Shape(h)
  {
    && h.to <= h.alloc && h.alloc - h.to <= h.free - h.from
    && h.alloc - h.to + Pending(h.m, c.m0, c.objs) == h.free - h.from
    && (forall x :: h.alloc <= x < ToEnd(h) ==> h.m[x] == 0)
  }

  /** A Reference whose Value is not copied still has the entry it began with; only live ones are copied. */
  ghost predicate EntriesNow(h: Heap, c: Collection)
    requires Shape(h) && |c.t0| == |h.t|
  {
    && (forall r :: 0 <= r < h.numRefs && !Moved(h, c, r) ==> h.t[r] == c.t0[r])
    && (forall r :: Moved(h, c, r) ==> r in c.live)
  }

  /** Every black Reference is copied, and so is every Reference it leads to. */
  ghost predicate BlackOk(h: Heap, c: Collection)
  {
    forall r :: r in c.black ==> Moved(h, c, r) && forall q :: q in Kids(c.m0, c.t0[r]) ==> q == NullRef || Moved(h, c, q)
  }

  /** Only what the roots reach is copied. */
  ghost predicate Justified(h: Heap, c: Collection)
  {
    forall r :: Moved(h, c, r) ==> Reaches(c.m0, c.t0, c.roots, r)
  }

  /** The layout facts of a collection in progress. */
  ghost predicate Core(h: Heap, c: Collection)
  {
    && Shape(h) && Began(h, c) && OriginalsOk(h, c) && CopiesOk(h, c) && Room(h, c) && EntriesNow(h, c)
  }

  /** The invariant of a collection in progress. */
  ghost predicate GcOk(h: Heap, c: Collection)
  {
    Core(h, c) && BlackOk(h, c) && Justified(h, c)
  }

  /** How much can still be copied; each copy lowers it. */
  function Headroom(h: Heap): int
  {
    h.to + (h.free - h.from) - h.alloc
  }

  // ---------------------------------------------------------------------------
  // What a collection in progress guarantees about each Value

  /** Every Value of the active half still has the fields it began with, and a seen flag of 0 or 1. */
  lemma FieldsNow(h: Heap, c: Collection, k: nat)
    requires Began(h, c) && OriginalsOk(h, c) && k < |c.objs|
    ensures var a := c.objs[k];
      && 0 <= a && HeaderSize <= GetSize(c.m0, a) && a + GetSize(c.m0, a) <= |h.m| && a + GetSize(c.m0, a) <= |c.m0|
      && TypeOf(h.m, a) == TypeOf(c.m0, a) && DataSize(h.m, a) == DataSize(c.m0, a) && RefOf(h.m, a) == RefOf(c.m0, a)
      && Kids(h.m, a) == Kids(c.m0, a) && NextOf(h.m, a) == NextOf(c.m0, a)
      && (SeenOf(h.m, a) == 0 || SeenOf(h.m, a) == 1)
      && (SeenOf(h.m, a) == 0 ==> h.m[a..a + GetSize(c.m0, a)] == c.m0[a..a + GetSize(c.m0, a)])
  {
    assert ObjOk(c.m0, c.objs[k], h.free);
    assert AsBefore(h.m, c.m0, c.objs[k]);
    OriginalFields(h.m, c.m0, c.objs[k], h.free);
  }

  lemma OriginalFields(m: seq<int>, m0: seq<int>, a: int, hi: int)
    requires AsBefore(m, m0, a) && ObjOk(m0, a, hi) && SeenOf(m0, a) == 0
    ensures && TypeOf(m, a) == TypeOf(m0, a) && DataSize(m, a) == DataSize(m0, a) && RefOf(m, a) == RefOf(m0, a)
      && Kids(m, a) == Kids(m0, a) && NextOf(m, a) == NextOf(m0, a)
      && (SeenOf(m, a) == 0 || SeenOf(m, a) == 1)
      && (SeenOf(m, a) == 0 ==> m[a..a + GetSize(m0, a)] == m0[a..a + GetSize(m0, a)])
  {
    FieldsAgree(m, a, m0, a);
  }

  /** A copy has the fields of its original as it began. */
  lemma CopyFields(h: Heap, c: Collection, i: nat)
    requires i < |c.origs| == |c.copies| && CopyOf(h, c, i) && ObjOk(c.m0, c.origs[i], |c.m0|)
    ensures var p := c.copies[i]; var a := c.origs[i];
      && TypeOf(h.m, p) == TypeOf(c.m0, a) && DataSize(h.m, p) == DataSize(c.m0, a) && RefOf(h.m, p) == RefOf(c.m0, a)
      && Kids(h.m, p) == Kids(c.m0, a) && NextOf(h.m, p) == NextOf(c.m0, a) && SeenOf(h.m, p) == SeenOf(c.m0, a)
  {
    FieldsAgree(h.m, c.copies[i], c.m0, c.origs[i]);
  }

  /**
   * The entry of a Reference in use leads to a Value with the fields its
   * original began with: the original itself while it is not copied, its copy
   * in the to half once it is.  copy_wrapper's test tells the two apart.
   */
  lemma EntryNow(h: Heap, c: Collection, r: int)
    requires Core(h, c) && RefOk(c.t0, h.numRefs, r)
    ensures c.t0[r] in c.objs && RefOf(c.m0, c.t0[r]) == r
    ensures 0 <= h.t[r] < h.memSize && h.t[r] != Null && ObjOk(h.m, h.t[r], h.memSize)
    ensures TypeOf(h.m, h.t[r]) == TypeOf(c.m0, c.t0[r]) && DataSize(h.m, h.t[r]) == DataSize(c.m0, c.t0[r])
    ensures RefOf(h.m, h.t[r]) == r
    ensures Kids(h.m, h.t[r]) == Kids(c.m0, c.t0[r]) && NextOf(h.m, h.t[r]) == NextOf(c.m0, c.t0[r])
    ensures !Moved(h, c, r) <==> !Skip(h, h.t[r])
    ensures !Moved(h, c, r) ==> h.t[r] == c.t0[r]
  {
    var a := c.t0[r];
    var k :| 0 <= k < |c.objs| && c.objs[k] == a;
    FieldsNow(h, c, k);
    Within(c.m0, c.objs, h.from, h.free, k);
    assert ObjOk(c.m0, a, h.free);
    if Moved(h, c, r) {
      assert a in c.origs;
      var i :| 0 <= i < |c.origs| && c.origs[i] == a;
      assert CopyOf(h, c, i);
      CopyFields(h, c, i);
    }
  }

  // ---------------------------------------------------------------------------
  // One copy

  /**
   * copy_wrapper's effect: h' is h with the s bytes of the original a copied
   * to `alloc`, a marked seen, the entry of r pointed at the copy and `alloc`
   * moved past it.
   */
  ghost predicate CopiedTo(h: Heap, h': Heap, r: int, a: int, s: int)
  {
    && h'.memSize == h.memSize && h'.numRefs == h.numRefs && h'.from == h.from && h'.to == h.to && h'.free == h.free
    && h'.alloc == h.alloc + s
    && 0 <= h.alloc && h.alloc + s <= |h.m| && 0 <= a && SeenField < s && a + s <= |h.m| && 0 <= r < |h.t|
    && |h'.m| == |h.m| && h'.t == h.t[r := h.alloc]
    && h'.m[h.alloc..h.alloc + s] == h.m[a..a + s]
    && h'.m[a + SeenField] == 1
    && (forall x :: 0 <= x < |h.m| && !(h.alloc <= x < h.alloc + s) && x != a + SeenField ==> h'.m[x] == h.m[x])
  }

  /** The bookkeeping of one copy. */
  function Record(c: Collection, a: int, d: int): Collection
  {
    c.(origs := c.origs + [a], copies := c.copies + [d])
  }

  /** Where Reference r's original lies: the facts about a Reference not yet copied that one copy relies on. */
  ghost predicate Copying(h: Heap, c: Collection, r: int, j: int)
  {
    && Shape(h) && |c.m0| == |h.m| && |c.t0| == |h.t|
    && RefOk(c.t0, h.numRefs, r) && r in c.live && !Moved(h, c, r)
    && 0 <= j < |c.objs| && c.objs[j] == c.t0[r] && RefOf(c.m0, c.t0[r]) == r && h.t[r] == c.t0[r]
    && Tiled(c.m0, c.objs, h.from, h.free)
    && Fits(h, c.m0, c.t0[r])
    && Intact(h.m, c.m0, c.t0[r])
  }

  /** The original a lies in the active half, and its copy fits in the to half, apart from the active half. */
  ghost predicate Fits(h: Heap, m0: seq<int>, a: int)
  {
    var s := GetSize(m0, a);
    && h.from <= a && a + s <= h.free && HeaderSize <= s && DataSize(m0, a) >= MinPayload(TypeOf(m0, a))
    && h.to <= h.alloc && h.alloc + s <= h.to + (h.free - h.from) && h.alloc + s <= ToEnd(h) <= h.memSize
    && (h.free <= h.to || h.alloc + s <= h.from)
  }

  /** The original a still has the bytes it began with; it is not marked. */
  ghost predicate Intact(m: seq<int>, m0: seq<int>, a: int)
  {
    var s := GetSize(m0, a);
    && 0 <= a && 0 <= s && a + s <= |m| && a + s <= |m0|
    && SeenOf(m, a) == 0 && m[a..a + s] == m0[a..a + s]
  }

  /** Where an original of the active half lies, and where its copy goes. */
  lemma FitsNow(h: Heap, m0: seq<int>, objs: seq<int>, j: nat, pending: int)
    requires Shape(h) && Tiled(m0, objs, h.from, h.free) && j < |objs|
    requires h.to <= h.alloc && h.alloc - h.to + pending == h.free - h.from && pending >= GetSize(m0, objs[j])
    ensures Fits(h, m0, objs[j])
  {
    Within(m0, objs, h.from, h.free, j);
    assert ObjOk(m0, objs[j], h.free);
  }

  /** A live Reference not yet copied can be copied. */
  lemma CopyFacts(h: Heap, c: Collection, r: int) returns (j: nat)
    requires Core(h, c) && RefOk(c.t0, h.numRefs, r) && r in c.live && !Moved(h, c, r)
    ensures Copying(h, c, r, j)
  {
    var a := c.t0[r];
    assert a in c.objs && RefOf(c.m0, a) == r;
    j :| 0 <= j < |c.objs| && c.objs[j] == a;
    assert Intact(h.m, c.m0, a) by {
      FieldsNow(h, c, j);
      assert SeenOf(h.m, a) == 0;
    }
    assert Pending(h.m, c.m0, c.objs) >= GetSize(c.m0, a) by {
      forall k | 0 <= k < |c.objs|
        ensures GetSize(c.m0, c.objs[k]) >= 0
      {
        assert ObjOk(c.m0, c.objs[k], h.free);
      }
      PendingHas(h.m, c.m0, c.objs, j);
    }
    FitsNow(h, c.m0, c.objs, j, Pending(h.m, c.m0, c.objs));
  }

  /** The original of Reference r, copied at `alloc`, lies apart from every other original and from the to half. */
  lemma SeenKept(h: Heap, c: Collection, r: int, j: int, k: int, h': Heap)
    requires Copying(h, c, r, j) && 0 <= k < |c.objs| && k != j
    requires CopiedTo(h, h', r, c.t0[r], GetSize(c.m0, c.t0[r]))
    ensures var a := c.t0[r]; var s := GetSize(c.m0, a); var b := c.objs[k];
      && h.from <= b && End(c.m0, b) <= h.free && b + HeaderSize <= End(c.m0, b)
      && (End(c.m0, b) <= a || a + s <= b)
      && SeenOf(h'.m, b) == SeenOf(h.m, b)
  {
    Within(c.m0, c.objs, h.from, h.free, k);
    if k < j {
      Ordered(c.m0, c.objs, h.from, h.free, k, j);
    } else {
      Ordered(c.m0, c.objs, h.from, h.free, j, k);
    }
  }

  /** Copying r moves r and nothing else. */
  lemma CopyMoves(h: Heap, c: Collection, r: int, j: int, h': Heap)
    requires Copying(h, c, r, j) && EntriesIn(c.m0, c.t0, h.numRefs, c.objs)
    requires CopiedTo(h, h', r, c.t0[r], GetSize(c.m0, c.t0[r]))
    ensures forall q :: Moved(h', Record(c, c.t0[r], h.alloc), q) <==> Moved(h, c, q) || q == r
  {
    var a := c.t0[r];
    var c' := Record(c, a, h.alloc);
    forall q
      ensures Moved(h', c', q) <==> Moved(h, c, q) || q == r
    {
      if q != r && 0 <= q < h.numRefs && c.t0[q] != Null {
        var b := c.t0[q];
        assert b in c.objs && RefOf(c.m0, b) == q;
        var k :| 0 <= k < |c.objs| && c.objs[k] == b;
        SeenKept(h, c, r, j, k, h');
      }
    }
  }

  /** An original whose bytes are unchanged but for its seen flag, now set. */
  lemma MarkKeepsImage(m: seq<int>, m': seq<int>, m0: seq<int>, a: int)
    requires Intact(m, m0, a) && SeenField < GetSize(m0, a) && |m'| == |m|
    requires m'[a + SeenField] == 1
    requires forall x :: a <= x < a + GetSize(m0, a) && x != a + SeenField ==> m'[x] == m[x]
    ensures AsBefore(m', m0, a)
  {
    var s := GetSize(m0, a);
    assert m'[a..a + s] == m0[a..a + s][SeenField := 1];
  }

  /** An original whose cells did not change keeps its image. */
  lemma AsBeforeFrame(m: seq<int>, m': seq<int>, m0: seq<int>, b: int)
    requires AsBefore(m, m0, b) && |m'| == |m|
    requires m'[b..b + GetSize(m0, b)] == m[b..b + GetSize(m0, b)]
    ensures AsBefore(m', m0, b)
  {
  }

  /** Copying r leaves another original's bytes alone. */
  lemma OtherKept(h: Heap, c: Collection, r: int, j: int, k: int, h': Heap)
    requires Copying(h, c, r, j) && 0 <= k < |c.objs| && k != j && AsBefore(h.m, c.m0, c.objs[k])
    requires CopiedTo(h, h', r, c.t0[r], GetSize(c.m0, c.t0[r]))
    ensures AsBefore(h'.m, c.m0, c.objs[k])
  {
    var b := c.objs[k];
    SeenKept(h, c, r, j, k, h');
    SliceSame(h.m, h'.m, b, b + GetSize(c.m0, b));
    AsBeforeFrame(h.m, h'.m, c.m0, b);
  }

  /** Copying r keeps every original as it began, up to its seen flag. */
  lemma StepOriginals(h: Heap, c: Collection, r: int, j: int, h': Heap)
    requires Copying(h, c, r, j) && OriginalsOk(h, c)
    requires CopiedTo(h, h', r, c.t0[r], GetSize(c.m0, c.t0[r]))
    ensures OriginalsOk(h', Record(c, c.t0[r], h.alloc))
  {
    var a := c.t0[r];
    forall k | 0 <= k < |c.objs|
      ensures AsBefore(h'.m, c.m0, c.objs[k])
    {
      if k == j {
        MarkKeepsImage(h.m, h'.m, c.m0, a);
      } else {
        assert AsBefore(h.m, c.m0, c.objs[k]);
        OtherKept(h, c, r, j, k, h');
      }
    }
  }

  /**
   * A copy below `alloc` keeps its bytes, its fields and its Reference's entry
   * when the original a (of Reference r) is copied: its original b and a lie in
   * the active half, apart from the to half.
   */
  lemma CopyKept(h: Heap, h': Heap, m0: seq<int>, objs: seq<int>, r: int, a: int, s: int, b: int, p: int)
    requires CopiedTo(h, h', r, a, s) && CopyAt(h, m0, objs, b, p) && h.t[r] == a
    requires h.from <= a && a + s <= h.free && h.from <= b && b + HeaderSize <= h.free && GetSize(m0, b) >= HeaderSize
    requires h.free <= h.to || h.alloc + s <= h.from
    ensures CopyAt(h', m0, objs, b, p)
    ensures TypeOf(h'.m, p) == TypeOf(h.m, p) && DataSize(h'.m, p) == DataSize(h.m, p)
  {
    var sb := GetSize(m0, b);
    SliceSame(h.m, h'.m, p, p + sb);
    assert h.m[p + TypeField] == h.m[p..p + sb][TypeField] && h.m[p + SizeField] == h.m[p..p + sb][SizeField];
    assert h'.m[p + TypeField] == h'.m[p..p + sb][TypeField] && h'.m[p + SizeField] == h'.m[p..p + sb][SizeField];
    var q := RefOf(m0, b);
    assert q != r by {
      assert h.t[q] == p && h.t[r] == a;
    }
  }

  /** The new copy sits at the old `alloc`, with the bytes its original began with. */
  lemma CopyNew(h: Heap, c: Collection, r: int, j: int, h': Heap)
    requires 0 <= r < |c.t0| && 0 <= j < |c.objs| && c.objs[j] == c.t0[r] && RefOf(c.m0, c.t0[r]) == r
    requires 0 <= h.to && Fits(h, c.m0, c.t0[r]) && Intact(h.m, c.m0, c.t0[r])
    requires CopiedTo(h, h', r, c.t0[r], GetSize(c.m0, c.t0[r]))
    ensures CopyAt(h', c.m0, c.objs, c.t0[r], h.alloc) && ObjOk(h'.m, h.alloc, h'.alloc) && End(h'.m, h.alloc) == h'.alloc
  {
    var a := c.t0[r];
    var s := GetSize(c.m0, a);
    var u := h'.m[h.alloc..h.alloc + s];
    assert u == c.m0[a..a + s];
    FieldsAgree(h'.m, h.alloc, c.m0, a);
  }

  /** Copying r keeps the copies laid end to end, each with its original's bytes. */
  lemma StepCopies(h: Heap, c: Collection, r: int, j: int, h': Heap)
    requires Copying(h, c, r, j) && Began(h, c) && CopiesOk(h, c)
    requires CopiedTo(h, h', r, c.t0[r], GetSize(c.m0, c.t0[r]))
    ensures CopiesOk(h', Record(c, c.t0[r], h.alloc))
  {
    var a := c.t0[r];
    var c' := Record(c, a, h.alloc);
    StepOldCopies(h, c, r, j, h');
    CopyNew(h, c, r, j, h');
    assert CopyOf(h', c', |c.copies|) by {
      assert c'.origs[|c.copies|] == a && c'.copies[|c.copies|] == h.alloc;
    }
    TiledFrame(h.m, h'.m, c.copies, h.to, h.alloc);
    TiledAppend(h'.m, c.copies, h.to, h.alloc, h.alloc, h'.alloc);
    StepSeen(h, c, r, j, h');
  }

  /** The copies made before r's keep their bytes, types and sizes. */
  lemma StepOldCopies(h: Heap, c: Collection, r: int, j: int, h': Heap)
    requires Copying(h, c, r, j) && Began(h, c) && CopiesOk(h, c)
    requires CopiedTo(h, h', r, c.t0[r], GetSize(c.m0, c.t0[r]))
    ensures forall k :: 0 <= k < |c.copies| ==> CopyOf(h', Record(c, c.t0[r], h.alloc), k)
    ensures forall k :: 0 <= k < |c.copies| ==>
      TypeOf(h'.m, c.copies[k]) == TypeOf(h.m, c.copies[k]) && DataSize(h'.m, c.copies[k]) == DataSize(h.m, c.copies[k])
  {
    var a := c.t0[r];
    var c' := Record(c, a, h.alloc);
    forall k | 0 <= k < |c.copies|
      ensures CopyOf(h', c', k)
      ensures TypeOf(h'.m, c.copies[k]) == TypeOf(h.m, c.copies[k]) && DataSize(h'.m, c.copies[k]) == DataSize(h.m, c.copies[k])
    {
      assert CopyOf(h, c, k);
      var b := c.origs[k];
      var i :| 0 <= i < |c.objs| && c.objs[i] == b;
      Within(c.m0, c.objs, h.from, h.free, i);
      assert ObjOk(c.m0, b, h.free);
      CopyKept(h, h', c.m0, c.objs, r, a, GetSize(c.m0, a), b, c.copies[k]);
      assert c'.origs[k] == c.origs[k] && c'.copies[k] == c.copies[k];
    }
  }

  /** A Value marked seen after copying r is r's original or an earlier original. */
  lemma StepSeen(h: Heap, c: Collection, r: int, j: int, h': Heap)
    requires Copying(h, c, r, j) && CopiesOk(h, c)
    requires CopiedTo(h, h', r, c.t0[r], GetSize(c.m0, c.t0[r]))
    ensures forall k {:trigger SeenOf(h'.m, c.objs[k])} :: 0 <= k < |c.objs| && SeenOf(h'.m, c.objs[k]) == 1 ==> c.objs[k] in c.origs + [c.t0[r]]
  {
    forall k | 0 <= k < |c.objs| && SeenOf(h'.m, c.objs[k]) == 1
      ensures c.objs[k] in c.origs + [c.t0[r]]
    {
      if k != j {
        SeenKept(h, c, r, j, k, h');
      }
    }
  }

  /** Copying r moves its size from the pending total to the to half. */
  lemma StepRoom(h: Heap, c: Collection, r: int, j: int, h': Heap)
    requires Copying(h, c, r, j) && Room(h, c)
    requires CopiedTo(h, h', r, c.t0[r], GetSize(c.m0, c.t0[r]))
    ensures Room(h', Record(c, c.t0[r], h.alloc))
  {
    StepPending(h, c, r, j, h');
    StepZeros(h, c, r, j, h');
  }

  /** Marking r's original seen takes its size off the bytes still pending. */
  lemma StepPending(h: Heap, c: Collection, r: int, j: int, h': Heap)
    requires Copying(h, c, r, j)
    requires CopiedTo(h, h', r, c.t0[r], GetSize(c.m0, c.t0[r]))
    ensures Pending(h'.m, c.m0, c.objs) == Pending(h.m, c.m0, c.objs) - GetSize(c.m0, c.t0[r])
  {
    var a := c.t0[r];
    var x := a + SeenField;
    forall k | 0 <= k < |c.objs| && k != j
      ensures c.objs[k] + SeenField != x
      ensures SeenOf(h'.m, c.objs[k]) == SeenOf(h.m[x := 1], c.objs[k])
    {
      SeenKept(h, c, r, j, k, h');
    }
    PendingMark(h.m, c.m0, c.objs, j, x);
    PendingFrame(h.m[x := 1], h'.m, c.m0, c.objs);
  }

  /** The to half stays zero past the new allocptr. */
  lemma StepZeros(h: Heap, c: Collection, r: int, j: int, h': Heap)
    requires Copying(h, c, r, j) && Room(h, c)
    requires CopiedTo(h, h', r, c.t0[r], GetSize(c.m0, c.t0[r]))
    ensures forall y :: h'.alloc <= y < ToEnd(h') ==> h'.m[y] == 0
  {
    var a := c.t0[r];
    forall y | h'.alloc <= y < ToEnd(h')
      ensures h'.m[y] == 0
    {
      assert y != a + SeenField;
    }
  }

  /** Copying r moves r and nothing else, and keeps the other entries. */
  lemma StepEntries(h: Heap, c: Collection, r: int, j: int, h': Heap)
    requires Copying(h, c, r, j) && EntriesIn(c.m0, c.t0, h.numRefs, c.objs) && EntriesNow(h, c)
    requires CopiedTo(h, h', r, c.t0[r], GetSize(c.m0, c.t0[r]))
    ensures Shape(h') && EntriesNow(h', Record(c, c.t0[r], h.alloc))
    ensures forall q :: Moved(h', Record(c, c.t0[r], h.alloc), q) <==> Moved(h, c, q) || q == r
  {
    CopyMoves(h, c, r, j, h');
  }

  /** One copy keeps the invariant of the collection and moves exactly r. */
  lemma CopyKeeps(h: Heap, c: Collection, r: int, j: int, h': Heap)
    requires GcOk(h, c) && Copying(h, c, r, j) && Reaches(c.m0, c.t0, c.roots, r)
    requires CopiedTo(h, h', r, c.t0[r], GetSize(c.m0, c.t0[r]))
    ensures GcOk(h', Record(c, c.t0[r], h.alloc))
    ensures MovedSet(h', Record(c, c.t0[r], h.alloc)) == MovedSet(h, c) + {r}
    ensures Headroom(h') < Headroom(h)
  {
    var c' := Record(c, c.t0[r], h.alloc);
    StepOriginals(h, c, r, j, h');
    StepCopies(h, c, r, j, h');
    StepRoom(h, c, r, j, h');
    StepEntries(h, c, r, j, h');
  }

  // ---------------------------------------------------------------------------
  // Reachability

  /** A root reaches itself. */
  lemma ReachesRoot(m0: seq<int>, t0: seq<int>, roots: set<int>, g: int)
    requires g in roots && 0 <= g < |t0|
    ensures Reaches(m0, t0, roots, g)
  {
    assert Chain(m0, t0, [g]);
  }

  /** What a Reference leads to is reached when it is. */
  lemma ReachesKid(m0: seq<int>, t0: seq<int>, roots: set<int>, r: int, q: int)
    requires Reaches(m0, t0, roots, r) && 0 <= r < |t0| && q in Kids(m0, t0[r]) && 0 <= q < |t0|
    ensures Reaches(m0, t0, roots, q)
  {
    var p :| Chain(m0, t0, p) && p[0] in roots && p[|p| - 1] == r;
    var p' := p + [q];
    forall i | 0 <= i < |p'| - 1
      ensures p'[i + 1] in Kids(m0, t0[p'[i]])
    {
      if i < |p| - 1 {
        assert p'[i] == p[i] && p'[i + 1] == p[i + 1];
      }
    }
    assert Chain(m0, t0, p');
  }

  /** More roots reach more. */
  lemma ReachesMore(m0: seq<int>, t0: seq<int>, roots: set<int>, roots': set<int>, r: int)
    requires Reaches(m0, t0, roots, r) && roots <= roots'
    ensures Reaches(m0, t0, roots', r)
  {
    var p :| Chain(m0, t0, p) && p[0] in roots && p[|p| - 1] == r;
    assert p[0] in roots';
  }

  /** Along a path from a root, every Reference is copied once the copied ones are all black. */
  lemma {:induction false} ChainMoved(h: Heap, c: Collection, p: seq<int>, i: nat)
    requires BlackOk(h, c) && (forall g :: g in c.roots ==> Moved(h, c, g)) && (forall q :: Moved(h, c, q) ==> q in c.black)
    requires Chain(c.m0, c.t0, p) && p[0] in c.roots && i < |p|
    ensures Moved(h, c, p[i])
    decreases i
  {
    if i > 0 {
      ChainMoved(h, c, p, i - 1);
      assert p[i] in Kids(c.m0, c.t0[p[i - 1]]) && p[i] != NullRef;
    }
  }

  /**
   * When every root is copied and no copied Reference is still waiting for
   * its children, everything the roots reach is copied.
   */
  lemma ReachedMoved(h: Heap, c: Collection, r: int)
    requires BlackOk(h, c) && (forall g :: g in c.roots ==> Moved(h, c, g)) && (forall q :: Moved(h, c, q) ==> q in c.black)
    requires Reaches(c.m0, c.t0, c.roots, r)
    ensures Moved(h, c, r)
  {
    var p :| Chain(c.m0, c.t0, p) && p[0] in c.roots && p[|p| - 1] == r;
    ChainMoved(h, c, p, |p| - 1);
  }

  // ---------------------------------------------------------------------------
  // Starting a collection, starting a root, finishing a Reference

  /** The bookkeeping of a collection that starts from a consistent heap with `live` closed. */
  function Start(h: Heap, objs: seq<int>, live: set<int>): Collection
  {
    Collection(h.m, h.t, objs, live, {}, [], [], {})
  }

  /** A collection starts with its invariant holding and nothing copied. */
  lemma StartOk(h: Heap, objs: seq<int>, live: set<int>)
    requires Consistent(h, objs) && LiveOk(h.m, h.t, h.numRefs, live)
    ensures GcOk(h, Start(h, objs, live)) && MovedSet(h, Start(h, objs, live)) == {}
  {
    var c := Start(h, objs, live);
    PendingAll(h.m, h.m, objs, h.from, h.free);
    forall k | 0 <= k < |objs|
      ensures AsBefore(h.m, c.m0, objs[k])
    {
      Within(h.m, objs, h.from, h.free, k);
    }
    assert forall q :: !Moved(h, c, q) by {
      forall q | 0 <= q < h.numRefs && c.t0[q] != Null
        ensures SeenOf(h.m, c.t0[q]) == 0
      {
        var k :| 0 <= k < |objs| && objs[k] == c.t0[q];
      }
    }
  }

  /** The layout facts do not depend on the roots or on which References are black. */
  lemma Relabelled(h: Heap, c: Collection, c': Collection)
    requires Core(h, c)
    requires c'.m0 == c.m0 && c'.t0 == c.t0 && c'.objs == c.objs && c'.live == c.live && c'.origs == c.origs && c'.copies == c.copies
    ensures Core(h, c') && MovedSet(h, c') == MovedSet(h, c)
    ensures forall q :: Moved(h, c', q) == Moved(h, c, q)
  {
    forall k | 0 <= k < |c'.copies|
      ensures CopyOf(h, c', k)
    {
      assert CopyOf(h, c, k);
    }
  }

  /** Beginning to copy another root keeps the invariant. */
  lemma RootAdded(h: Heap, c: Collection, g: int)
    requires GcOk(h, c)
    ensures GcOk(h, c.(roots := c.roots + {g})) && MovedSet(h, c.(roots := c.roots + {g})) == MovedSet(h, c)
  {
    var c' := c.(roots := c.roots + {g});
    Relabelled(h, c, c');
    forall r | Moved(h, c', r)
      ensures Reaches(c'.m0, c'.t0, c'.roots, r)
    {
      ReachesMore(c.m0, c.t0, c.roots, c'.roots, r);
    }
  }

  /** A copied Reference whose children are all copied can be made black. */
  lemma Blackened(h: Heap, c: Collection, r: int)
    requires GcOk(h, c) && Moved(h, c, r)
    requires forall q :: q in Kids(c.m0, c.t0[r]) ==> q == NullRef || Moved(h, c, q)
    ensures GcOk(h, c.(black := c.black + {r})) && MovedSet(h, c.(black := c.black + {r})) == MovedSet(h, c)
  {
    Relabelled(h, c, c.(black := c.black + {r}));
  }

  // ---------------------------------------------------------------------------
  // iterate_from: clearing the entries of the Values left unseen

  /** Reference q is in use but its original was never copied. */
  ghost predicate Unseen(h: Heap, c: Collection, q: int)
  {
    0 <= q < h.numRefs && q < |c.t0| && c.t0[q] != Null && SeenOf(h.m, c.t0[q]) == 0
  }

  /** The table as iterate_from leaves it once it has passed every Value below `upto`. */
  ghost function Swept(h: Heap, c: Collection, upto: int): (t: seq<int>)
    ensures |t| == |h.t|
  {
    seq(|h.t|, q requires 0 <= q < |h.t| => if Unseen(h, c, q) && c.t0[q] < upto then Null else h.t[q])
  }

  /** Before iterate_from has passed any Value the table is as it was. */
  lemma SweptNone(h: Heap, c: Collection)
    requires Core(h, c)
    ensures Swept(h, c, h.from) == h.t
  {
    forall q | 0 <= q < |h.t| && Unseen(h, c, q)
      ensures h.from <= c.t0[q]
    {
      var i :| 0 <= i < |c.objs| && c.objs[i] == c.t0[q];
      Within(c.m0, c.objs, h.from, h.free, i);
    }
  }

  /**
   * What iterate_from finds at the k-th Value of the active half: a header
   * whose Reference is in use, the next Value where this one ends, and the
   * table entry cleared exactly when the Value was not copied.
   */
  ghost predicate SweepAt(h: Heap, c: Collection, k: nat)
    requires k < |c.objs|
  {
    var a := c.objs[k]; var q0 := RefOf(h.m, a);
    && 0 <= q0 < h.numRefs <= |h.t| && 0 <= h.from <= a && a + HeaderSize <= End(h.m, a) <= h.free && End(h.m, a) <= h.memSize
    && (k + 1 < |c.objs| ==> c.objs[k + 1] == End(h.m, a)) && (k + 1 == |c.objs| ==> End(h.m, a) == h.free)
    && Swept(h, c, End(h.m, a)) == if SeenOf(h.m, a) == 0 then Swept(h, c, a)[q0 := Null] else Swept(h, c, a)
  }

  /** Everything iterate_from relies on, Value by Value. */
  ghost predicate Sweepable(h: Heap, c: Collection)
  {
    && |h.m| == h.memSize && 0 <= h.numRefs <= |h.t|
    && (if c.objs == [] then h.from == h.free else c.objs[0] == h.from)
    && Swept(h, c, h.from) == h.t
    && (forall k :: 0 <= k < |c.objs| ==> c.objs[k] < h.free)
    && forall k: nat :: k < |c.objs| ==> SweepAt(h, c, k)
  }

  /**
   * iterate_from at the k-th Value of the active half: its header holds the
   * size and Reference it began with, the next Value starts where it ends,
   * and passing it clears its Reference's entry exactly when it is unseen.
   */
  lemma SweepStep(h: Heap, c: Collection, k: nat)
    requires Core(h, c) && k < |c.objs|
    ensures SweepAt(h, c, k)
  {
    var a := c.objs[k];
    FieldsNow(h, c, k);
    Within(c.m0, c.objs, h.from, h.free, k);
    var q0 := RefOf(c.m0, a);
    assert 0 <= q0 < h.numRefs && c.t0[q0] == a;
    assert End(h.m, a) == End(c.m0, a);
    forall q | 0 <= q < |h.t| && Unseen(h, c, q)
      ensures (c.t0[q] < End(c.m0, a) && !(c.t0[q] < a)) <==> q == q0
    {
      var i :| 0 <= i < |c.objs| && c.objs[i] == c.t0[q];
      assert RefOf(c.m0, c.t0[q]) == q;
      OnlyOneAt(c.m0, c.objs, h.from, h.free, i, k);
    }
    SweptPast(h, c, a, End(c.m0, a), q0);
  }

  /**
   * Passing the Value at a, which ends at e and records q0, clears q0's entry
   * when the Value is unseen: q0 is the only unseen Reference whose original
   * lies in [a, e).
   */
  lemma SweptPast(h: Heap, c: Collection, a: int, e: int, q0: int)
    requires 0 <= q0 < h.numRefs <= |h.t| && q0 < |c.t0| && c.t0[q0] == a && a != Null && a <= e
    requires forall q :: 0 <= q < |h.t| && Unseen(h, c, q) ==> ((c.t0[q] < e && !(c.t0[q] < a)) <==> q == q0)
    ensures Swept(h, c, e) == if SeenOf(h.m, a) == 0 then Swept(h, c, a)[q0 := Null] else Swept(h, c, a)
  {
    var s := if SeenOf(h.m, a) == 0 then Swept(h, c, a)[q0 := Null] else Swept(h, c, a);
    forall q | 0 <= q < |h.t|
      ensures Swept(h, c, e)[q] == s[q]
    {
      if q == q0 && Unseen(h, c, q) {
        assert c.t0[q] < e;
      }
    }
  }

  /** A collection in progress can be swept. */
  lemma SweepReady(h: Heap, c: Collection)
    requires Core(h, c)
    ensures Sweepable(h, c)
  {
    SweptNone(h, c);
    forall k: nat | k < |c.objs|
      ensures SweepAt(h, c, k) && c.objs[k] < h.free
    {
      SweepStep(h, c, k);
    }
  }

  /** In a tiling, the only Value whose address lies within the k-th is the k-th. */
  lemma OnlyOneAt(m: seq<int>, objs: seq<int>, lo: int, hi: int, i: nat, k: nat)
    requires Tiled(m, objs, lo, hi) && i < |objs| && k < |objs|
    ensures (objs[k] <= objs[i] < End(m, objs[k])) <==> i == k
  {
    Within(m, objs, lo, hi, i);
    Within(m, objs, lo, hi, k);
    if i < k {
      Ordered(m, objs, lo, hi, i, k);
    } else if i > k {
      Ordered(m, objs, lo, hi, k, i);
    }
  }

  /** Once iterate_from is done, exactly the entries of the copied References remain, each leading to its copy. */
  lemma SweptAll(h: Heap, c: Collection, q: int)
    requires Core(h, c) && 0 <= q < h.numRefs
    ensures Swept(h, c, h.free)[q] == if Moved(h, c, q) then h.t[q] else Null
  {
    if c.t0[q] != Null {
      var i :| 0 <= i < |c.objs| && c.objs[i] == c.t0[q];
      FieldsNow(h, c, i);
      Within(c.m0, c.objs, h.from, h.free, i);
    }
  }

  // ---------------------------------------------------------------------------
  // The end of stop_and_copy: zero the old half and swap the halves

  /** m' is m with the cells from lo to hi set to 0 (`memset(…, 0x0, …)`). */
  ghost predicate Cleared(m: seq<int>, m': seq<int>, lo: int, hi: int)
  {
    && |m'| == |m| && 0 <= lo <= hi <= |m|
    && (forall x :: lo <= x < hi ==> m'[x] == 0)
    && (forall x :: 0 <= x < |m| && !(lo <= x < hi) ==> m'[x] == m[x])
  }

  /**
   * h' is h after stop_and_copy's last steps: table t in place, the old active
   * half zeroed, the halves swapped and `free` at the end of the copies.
   */
  ghost predicate Swapped(h: Heap, t: seq<int>, h': Heap)
    requires Shape(h)
  {
    && h'.memSize == h.memSize && Cleared(h.m, h'.m, h.from, FromEnd(h)) && h'.t == t && h'.numRefs == h.numRefs
    && h'.from == h.to && h'.to == h.from && h'.free == h.alloc && h'.alloc == h.from
  }

  /** Every root has been copied and no copied Reference waits for its children. */
  ghost predicate Done(h: Heap, c: Collection)
  {
    GcOk(h, c) && (forall g :: g in c.roots ==> Moved(h, c, g)) && MovedSet(h, c) <= c.black
  }

  /** A copy in the to half keeps its bytes when the active half is zeroed. */
  lemma CopyCleared(h: Heap, h': Heap, m0: seq<int>, objs: seq<int>, a: int, p: int)
    requires Shape(h) && h.alloc <= ToEnd(h) && Cleared(h.m, h'.m, h.from, FromEnd(h))
    requires CopyAt(h, m0, objs, a, p) && ObjOk(m0, a, |m0|) && SeenOf(m0, a) == 0
    ensures var s := GetSize(m0, a);
      && 0 <= p && 0 <= a && HeaderSize <= s && p + s <= h.alloc && a + s <= |m0| && End(h'.m, p) == p + s
      && h'.m[p..p + s] == m0[a..a + s]
      && TypeOf(h'.m, p) == TypeOf(h.m, p) && DataSize(h'.m, p) == DataSize(h.m, p)
      && RefOf(h'.m, p) == RefOf(m0, a) && SeenOf(h'.m, p) == 0
  {
    var s := GetSize(m0, a);
    SliceSame(h.m, h'.m, p, p + s);
    FieldsAgree(h'.m, p, m0, a);
    FieldsAgree(h.m, p, m0, a);
  }

  /** The original of the k-th copy is a Value of the starting pool whose Reference is moved to the copy. */
  lemma OrigFacts(h: Heap, c: Collection, k: nat)
    requires Core(h, c) && k < |c.copies|
    ensures var a := c.origs[k];
      && CopyAt(h, c.m0, c.objs, a, c.copies[k]) && ObjOk(c.m0, a, |c.m0|) && SeenOf(c.m0, a) == 0
      && 0 <= RefOf(c.m0, a) < h.numRefs && c.t0[RefOf(c.m0, a)] == a && h.t[RefOf(c.m0, a)] == c.copies[k]
      && Moved(h, c, RefOf(c.m0, a))
  {
    var a := c.origs[k];
    assert CopyOf(h, c, k);
    var i :| 0 <= i < |c.objs| && c.objs[i] == a;
    Within(c.m0, c.objs, h.from, h.free, i);
    assert ObjOk(c.m0, a, h.free) && SeenOf(c.m0, a) == 0;
    assert 0 <= RefOf(c.m0, a) < h.numRefs && c.t0[RefOf(c.m0, a)] == a;
  }

  /** After the swap, the k-th copy still holds its original's bytes, now in the active half. */
  lemma CopySwapped(h: Heap, c: Collection, h': Heap, k: nat)
    requires Core(h, c) && Cleared(h.m, h'.m, h.from, FromEnd(h)) && h'.from == h.to && h'.free == h.alloc
    requires k < |c.copies|
    ensures var p := c.copies[k]; var a := c.origs[k]; var s := GetSize(c.m0, a);
      && 0 <= p && 0 <= a && h'.from <= p && p + s <= h'.free && HeaderSize <= s && a + s <= |c.m0| && End(h'.m, p) == p + s
      && h'.m[p..p + s] == c.m0[a..a + s]
      && TypeOf(h'.m, p) == TypeOf(h.m, p) && DataSize(h'.m, p) == DataSize(h.m, p)
      && RefOf(h'.m, p) == RefOf(c.m0, a) && SeenOf(h'.m, p) == 0
      && 0 <= RefOf(c.m0, a) < h.numRefs && c.t0[RefOf(c.m0, a)] == a && h.t[RefOf(c.m0, a)] == c.copies[k]
      && Moved(h, c, RefOf(c.m0, a))
  {
    OrigFacts(h, c, k);
    CopyCleared(h, h', c.m0, c.objs, c.origs[k], c.copies[k]);
  }

  /** After the swap the copies lie end to end from the new `from` to the new `free`. */
  lemma TiledSwapped(h: Heap, c: Collection, h': Heap)
    requires Core(h, c) && Swapped(h, Swept(h, c, h.free), h')
    ensures Tiled(h'.m, c.copies, h'.from, h'.free)
  {
    forall k | 0 <= k < |c.copies|
      ensures TypeOf(h'.m, c.copies[k]) == TypeOf(h.m, c.copies[k]) && DataSize(h'.m, c.copies[k]) == DataSize(h.m, c.copies[k])
    {
      CopySwapped(h, c, h', k);
    }
    TiledFrame(h.m, h'.m, c.copies, h.to, h.alloc);
  }

  /** After the swap each copy records a Reference whose entry leads back to it, and every remaining entry leads to a copy. */
  lemma RefsSwapped(h: Heap, c: Collection, h': Heap)
    requires Core(h, c) && Swapped(h, Swept(h, c, h.free), h')
    ensures RefsBack(h'.m, h'.t, h'.numRefs, c.copies) && EntriesIn(h'.m, h'.t, h'.numRefs, c.copies)
    ensures forall k {:trigger SeenOf(h'.m, c.copies[k])} :: 0 <= k < |c.copies| ==> SeenOf(h'.m, c.copies[k]) == 0
  {
    forall k | 0 <= k < |c.copies|
      ensures 0 <= RefOf(h'.m, c.copies[k]) < h'.numRefs && h'.t[RefOf(h'.m, c.copies[k])] == c.copies[k]
      ensures SeenOf(h'.m, c.copies[k]) == 0
    {
      CopySwapped(h, c, h', k);
      SweptAll(h, c, RefOf(c.m0, c.origs[k]));
    }
    forall q | 0 <= q < h'.numRefs && h'.t[q] != Null
      ensures h'.t[q] in c.copies && RefOf(h'.m, h'.t[q]) == q
    {
      SweptAll(h, c, q);
      var a := c.t0[q];
      var j :| 0 <= j < |c.objs| && c.objs[j] == a;
      assert a in c.origs;
      var i :| 0 <= i < |c.origs| && c.origs[i] == a;
      CopySwapped(h, c, h', i);
    }
  }

  /** After the swap the new active half is zero past `free`, and the new inactive half is all zero. */
  lemma ZeroSwapped(h: Heap, c: Collection, h': Heap)
    requires Core(h, c) && Swapped(h, Swept(h, c, h.free), h')
    ensures Shape(h') && h'.alloc == h'.to
    ensures forall x :: h'.free <= x < FromEnd(h') ==> h'.m[x] == 0
    ensures forall x :: h'.to <= x < ToEnd(h') ==> h'.m[x] == 0
  {
    forall i | h'.numRefs <= i < |h'.t|
      ensures h'.t[i] == Null
    {
      assert !Unseen(h, c, i);
    }
  }

  /** stop_and_copy leaves the allocator consistent, with the copies as its Values. */
  lemma SwapConsistent(h: Heap, c: Collection, h': Heap)
    requires Core(h, c) && Swapped(h, Swept(h, c, h.free), h')
    ensures Consistent(h', c.copies)
  {
    ZeroSwapped(h, c, h');
    TiledSwapped(h, c, h');
    RefsSwapped(h, c, h');
  }

  /** The original of a copied Reference has been copied; here is where. */
  lemma CopyIndex(h: Heap, c: Collection, q: int) returns (i: nat)
    requires Core(h, c) && Moved(h, c, q)
    ensures i < |c.origs| == |c.copies| && c.origs[i] == c.t0[q] && RefOf(c.m0, c.t0[q]) == q
  {
    var a := c.t0[q];
    var j :| 0 <= j < |c.objs| && c.objs[j] == a;
    assert a in c.origs;
    i :| 0 <= i < |c.origs| && c.origs[i] == a;
  }

  /** After stop_and_copy a Reference keeps a Value exactly when the globals reach it. */
  lemma CollectedReach(h: Heap, c: Collection, h': Heap, q: int)
    requires Done(h, c) && Swapped(h, Swept(h, c, h.free), h') && 0 <= q < h.numRefs
    ensures h'.t[q] != Null <==> Reaches(c.m0, c.t0, c.roots, q)
  {
    SweptAll(h, c, q);
    if Reaches(c.m0, c.t0, c.roots, q) {
      ReachedMoved(h, c, q);
    }
    if Moved(h, c, q) {
      var i := CopyIndex(h, c, q);
      CopySwapped(h, c, h', i);
    }
  }

  /** In (m, t), Reference q leads to a Value holding the bytes its Value held in (m0, t0). */
  ghost predicate Kept(m0: seq<int>, t0: seq<int>, m: seq<int>, t: seq<int>, q: int)
  {
    && 0 <= q < |t0| && q < |t| && t0[q] != Null && t[q] != Null && 0 <= t0[q] && 0 <= t[q]
    && var s := GetSize(m0, t0[q]);
      && 0 <= s && t0[q] + s <= |m0| && t[q] + s <= |m|
      && m[t[q]..t[q] + s] == m0[t0[q]..t0[q] + s]
  }

  /** The Value a Reference keeps holds the bytes its Value held when the collection began, below the new `free`. */
  lemma CollectedContent(h: Heap, c: Collection, h': Heap, q: int)
    requires Core(h, c) && Swapped(h, Swept(h, c, h.free), h') && 0 <= q < h.numRefs && h'.t[q] != Null
    ensures Kept(c.m0, c.t0, h'.m, h'.t, q) && h'.t[q] + GetSize(c.m0, c.t0[q]) <= h'.free
  {
    SweptAll(h, c, q);
    assert Moved(h, c, q) && h'.t[q] == h.t[q];
    var i := CopyIndex(h, c, q);
    CopyBytes(h, c, h', i);
    KeptCopy(c.m0, c.t0, h'.m, h'.t, q, c.copies[i], c.origs[i], GetSize(c.m0, c.origs[i]), h'.free);
  }

  /** After the swap, the k-th copy holds its original's bytes below the new `free`, and its Reference leads to it. */
  lemma CopyBytes(h: Heap, c: Collection, h': Heap, k: nat)
    requires Core(h, c) && Cleared(h.m, h'.m, h.from, FromEnd(h)) && h'.from == h.to && h'.free == h.alloc
    requires k < |c.copies| && |h'.m| == |h.m|
    ensures var p := c.copies[k]; var a := c.origs[k]; var s := GetSize(c.m0, a);
      && 0 <= p && 0 <= a && 0 <= s && p + s <= h'.free <= |h'.m| && a + s <= |c.m0|
      && h'.m[p..p + s] == c.m0[a..a + s] && 0 <= RefOf(c.m0, a) < |h.t| && h.t[RefOf(c.m0, a)] == p
  {
    CopySwapped(h, c, h', k);
  }

  /** A Reference whose entry leads to an exact copy of its original Value keeps it. */
  lemma KeptCopy(m0: seq<int>, t0: seq<int>, m: seq<int>, t: seq<int>, q: int, p: int, a: int, s: int, free: int)
    requires 0 <= q < |t0| && q < |t| && t0[q] == a && t[q] == p && 0 <= a && 0 <= p
    requires s == GetSize(m0, a) && 0 <= s && a + s <= |m0| && p + s <= free <= |m|
    requires m[p..p + s] == m0[a..a + s]
    ensures Kept(m0, t0, m, t, q) && t[q] + GetSize(m0, t0[q]) <= free
  {
  }

  /** A Value kept below `free` stays kept when only cells from `free` on and other entries change. */
  lemma KeptFrame(m0: seq<int>, t0: seq<int>, m: seq<int>, t: seq<int>, q: int, free: int, m': seq<int>, t': seq<int>)
    requires Kept(m0, t0, m, t, q) && t[q] + GetSize(m0, t0[q]) <= free
    requires |m'| == |m| && (forall x :: 0 <= x < free && x < |m| ==> m'[x] == m[x])
    requires q < |t'| && t'[q] == t[q]
    ensures Kept(m0, t0, m', t', q)
  {
    var s := GetSize(m0, t0[q]);
    SliceSame(m, m', t[q], t[q] + s);
  }

  /** Between collections, every Reference in use leads to a Value lying below `free`. */
  lemma EntryBelowFree(h: Heap, objs: seq<int>, q: int)
    requires Consistent(h, objs) && RefOk(h.t, h.numRefs, q)
    ensures Kept(h.m, h.t, h.m, h.t, q) && h.t[q] in objs && RefOf(h.m, h.t[q]) == q
    ensures h.from <= h.t[q] && h.t[q] + HeaderSize <= h.t[q] + GetSize(h.m, h.t[q]) <= h.free
  {
    var i :| 0 <= i < |objs| && objs[i] == h.t[q];
    Within(h.m, objs, h.from, h.free, i);
  }

  // ---------------------------------------------------------------------------
  // The bytes a collection gives back

  /** The total size, in m0, of the Values of `objs` whose Reference the roots do not reach. */
  ghost function Garbage(m0: seq<int>, t0: seq<int>, roots: set<int>, objs: seq<int>): int
  {
    if objs == [] then 0
    else
      var last := objs[|objs| - 1];
      Garbage(m0, t0, roots, objs[..|objs| - 1]) + (if Reaches(m0, t0, roots, RefOf(m0, last)) then 0 else GetSize(m0, last))
  }

  /** When a Value is unseen exactly when the roots do not reach it, the pending bytes are the garbage. */
  lemma {:induction false} PendingGarbage(m: seq<int>, m0: seq<int>, t0: seq<int>, roots: set<int>, objs: seq<int>)
    requires forall k :: 0 <= k < |objs| ==> (SeenOf(m, objs[k]) == 0 <==> !Reaches(m0, t0, roots, RefOf(m0, objs[k])))
    ensures Pending(m, m0, objs) == Garbage(m0, t0, roots, objs)
    decreases |objs|
  {
    if objs != [] {
      var p := objs[..|objs| - 1];
      assert forall k :: 0 <= k < |p| ==> p[k] == objs[k];
      PendingGarbage(m, m0, t0, roots, p);
    }
  }

  /** Once the roots are copied and no copy waits for its children, what is left unseen is exactly the garbage. */
  lemma DoneGarbage(h: Heap, c: Collection)
    requires Done(h, c)
    ensures Pending(h.m, c.m0, c.objs) == Garbage(c.m0, c.t0, c.roots, c.objs)
  {
    forall k | 0 <= k < |c.objs|
      ensures SeenOf(h.m, c.objs[k]) == 0 <==> !Reaches(c.m0, c.t0, c.roots, RefOf(c.m0, c.objs[k]))
    {
      FieldsNow(h, c, k);
      var r := RefOf(c.m0, c.objs[k]);
      assert 0 <= r < h.numRefs && c.t0[r] == c.objs[k];
      if Reaches(c.m0, c.t0, c.roots, r) {
        ReachedMoved(h, c, r);
      }
    }
    PendingGarbage(h.m, c.m0, c.t0, c.roots, c.objs);
  }

  /** Everything live roots reach along a path is live. */
  lemma {:induction false} ChainLive(m: seq<int>, t: seq<int>, numRefs: int, live: set<int>, p: seq<int>, i: nat)
    requires LiveOk(m, t, numRefs, live) && Chain(m, t, p) && p[0] in live && i < |p|
    ensures p[i] in live
    decreases i
  {
    if i > 0 {
      ChainLive(m, t, numRefs, live, p, i - 1);
      assert p[i] in Kids(m, t[p[i - 1]]) && p[i] != NullRef;
    }
  }

  /** A Reference live roots reach is live. */
  lemma ReachesLive(m: seq<int>, t: seq<int>, numRefs: int, live: set<int>, roots: set<int>, r: int)
    requires LiveOk(m, t, numRefs, live) && roots <= live && Reaches(m, t, roots, r)
    ensures r in live && RefOk(t, numRefs, r)
  {
    var p :| Chain(m, t, p) && p[0] in roots && p[|p| - 1] == r;
    ChainLive(m, t, numRefs, live, p, |p| - 1);
  }

  // ---------------------------------------------------------------------------
  // mm_malloc's placement

  /** The table t widened to n entries, the new ones NULL. */
  function Widen(t: seq<int>, n: int): (t': seq<int>)
    requires |t| <= n
    ensures |t'| == n && t'[..|t|] == t && forall i :: |t| <= i < n ==> t'[i] == Null
  {
    t + seq(n - |t|, _ => Null)
  }

  /**
   * h' is h with a Value of s bytes written at `free` and given Reference r,
   * a slot that was NULL or the first unused one.
   */
  ghost predicate Placing(h: Heap, h': Heap, r: int, s: int)
  {
    && h'.memSize == h.memSize && h'.from == h.from && h'.to == h.to && h'.alloc == h.alloc
    && h'.free == h.free + s && h.free + s <= h.from + Half(h)
    && |h'.m| == |h.m| && (forall x :: 0 <= x < |h.m| && !(h.free <= x < h.free + s) ==> h'.m[x] == h.m[x])
    && s == GetSize(h'.m, h.free) && DataSize(h'.m, h.free) >= MinPayload(TypeOf(h'.m, h.free)) && DataSize(h'.m, h.free) >= 0
    && SeenOf(h'.m, h.free) == 0 && RefOf(h'.m, h.free) == r
    && 0 <= r <= h.numRefs && r < |h'.t| && |h.t| <= |h'.t|
    && h'.numRefs == (if r < h.numRefs then h.numRefs else r + 1)
    && h'.t == Widen(h.t, |h'.t|)[r := h.free]
  }

  /** The Values below `free` keep their fields when a Value is placed at `free`. */
  lemma PlacedFields(h: Heap, objs: seq<int>, h': Heap, r: int, s: int, k: nat)
    requires Shape(h) && Tiled(h.m, objs, h.from, h.free) && Placing(h, h', r, s) && k < |objs|
    ensures TypeOf(h'.m, objs[k]) == TypeOf(h.m, objs[k]) && DataSize(h'.m, objs[k]) == DataSize(h.m, objs[k])
    ensures RefOf(h'.m, objs[k]) == RefOf(h.m, objs[k]) && SeenOf(h'.m, objs[k]) == SeenOf(h.m, objs[k])
  {
    Within(h.m, objs, h.from, h.free, k);
  }

  /** Placing a Value at `free` extends the tiling of the active half by it. */
  lemma PlacedTiled(h: Heap, objs: seq<int>, h': Heap, r: int, s: int)
    requires Shape(h) && Tiled(h.m, objs, h.from, h.free) && Placing(h, h', r, s)
    ensures Tiled(h'.m, objs + [h.free], h'.from, h'.free)
  {
    forall k | 0 <= k < |objs|
      ensures TypeOf(h'.m, objs[k]) == TypeOf(h.m, objs[k]) && DataSize(h'.m, objs[k]) == DataSize(h.m, objs[k])
    {
      PlacedFields(h, objs, h', r, s, k);
    }
    TiledFrame(h.m, h'.m, objs, h.from, h.free);
    TiledAppend(h'.m, objs, h.from, h.free, h.free, h'.free);
  }

  /** Placing a Value at `free` keeps every Value's Reference leading back to it, the new one's included. */
  lemma PlacedRefs(h: Heap, objs: seq<int>, h': Heap, r: int, s: int)
    requires Consistent(h, objs) && Placing(h, h', r, s) && (r < h.numRefs ==> h.t[r] == Null)
    ensures RefsBack(h'.m, h'.t, h'.numRefs, objs + [h.free])
    ensures forall k {:trigger SeenOf(h'.m, (objs + [h.free])[k])} :: 0 <= k < |objs| + 1 ==> SeenOf(h'.m, (objs + [h.free])[k]) == 0
  {
    var objs' := objs + [h.free];
    forall k | 0 <= k < |objs'|
      ensures 0 <= RefOf(h'.m, objs'[k]) < h'.numRefs <= |h'.t| && h'.t[RefOf(h'.m, objs'[k])] == objs'[k]
      ensures SeenOf(h'.m, objs'[k]) == 0
    {
      if k < |objs| {
        assert objs'[k] == objs[k];
        PlacedFields(h, objs, h', r, s, k);
        Within(h.m, objs, h.from, h.free, k);
        var q := RefOf(h.m, objs[k]);
        assert 0 <= q < h.numRefs && h.t[q] == objs[k] && q != r;
        assert Widen(h.t, |h'.t|)[..|h.t|][q] == h.t[q];
      }
    }
  }

  /** Placing a Value at `free` keeps every entry in use leading to a Value that records it. */
  lemma PlacedEntries(h: Heap, objs: seq<int>, h': Heap, r: int, s: int)
    requires Consistent(h, objs) && Placing(h, h', r, s)
    ensures EntriesIn(h'.m, h'.t, h'.numRefs, objs + [h.free])
    ensures forall i :: h'.numRefs <= i < |h'.t| ==> h'.t[i] == Null
  {
    var objs' := objs + [h.free];
    forall q | 0 <= q < h'.numRefs
      ensures h'.t[q] == Null || (h'.t[q] in objs' && RefOf(h'.m, h'.t[q]) == q)
    {
      if q != r && h.t[q] != Null {
        var k :| 0 <= k < |objs| && objs[k] == h.t[q];
        assert objs'[k] == objs[k];
        PlacedFields(h, objs, h', r, s, k);
        assert Widen(h.t, |h'.t|)[..|h.t|][q] == h.t[q];
      }
    }
  }

  /** mm_malloc's placement keeps the allocator consistent, with the new Value appended. */
  lemma Placed(h: Heap, objs: seq<int>, h': Heap, r: int, s: int)
    requires Consistent(h, objs) && Placing(h, h', r, s) && (r < h.numRefs ==> h.t[r] == Null)
    ensures Consistent(h', objs + [h.free])
  {
    PlacedTiled(h, objs, h', r, s);
    PlacedRefs(h, objs, h', r, s);
    PlacedEntries(h, objs, h', r, s);
  }
}
