/**
 * The layout of a Value in the memory pool of the subpython allocator
 * (lab04 alloc.c), as pure functions over an image of the pool.
 *
 * The pool is a sequence of cells indexed by byte offset.  A 4-byte field is
 * held in the cell at its first byte; memcpy and memset act on whole byte
 * ranges, so they move or clear the fields inside a range together.
 *
 * A Value starts with a 16-byte header: type at +0, data_size at +4, its own
 * Reference at +8 and the collector's seen flag at +12.  Its payload follows:
 * 4 bytes for an integer or a float, the value and next References of a list
 * node at +16 and +20, and the key, value and next References of a dict node at
 * +16, +20 and +24.  (The type codes and the struct layouts live in headers
 * that are not part of this model; the codes below follow the order in which
 * `memdump` lists the types.)
 */
module ValueLayout {

  /** sizeof(struct Value). */
  const HeaderSize: int := 16
  const TypeField: int := 0
  const SizeField: int := 4
  const RefField: int := 8
  const SeenField: int := 12
  /** A NULL Value pointer; offsets start at 0, the first byte of the pool. */
  const Null: int := -1
  /** NULL_REF. */
  const NullRef: int := -1
  /** The byte `mm_malloc` writes over a new payload. */
  const Fill: int := 0xCC

  datatype ValueType = NoneValue | BoolValue | IntegerValue | FloatValue | StringValue | ListNode | DictNode

  /** The code stored in the type field. */
  function Code(t: ValueType): int
  {
    match t
    case NoneValue => 0
    case BoolValue => 1
    case IntegerValue => 2
    case FloatValue => 3
    case StringValue => 4
    case ListNode => 5
    case DictNode => 6
  }

  /** The least payload a Value with a given type code must have. */
  function MinPayload(code: int): int
  {
    if code == Code(ListNode) then 8 else if code == Code(DictNode) then 12 else 0
  }

  /**
   * The payload size `mm_malloc` gives a Value: the struct's own for integers,
   * floats, list nodes and dict nodes, the caller's for the other types.
   */
  function PayloadSize(t: ValueType, dataSize: int): (s: int)
    ensures t in {IntegerValue, FloatValue, ListNode, DictNode} ==> s >= MinPayload(Code(t))
    ensures t !in {IntegerValue, FloatValue, ListNode, DictNode} ==> s == dataSize && MinPayload(Code(t)) == 0
  {
    match t
    case IntegerValue => 4
    case FloatValue => 4
    case ListNode => 8
    case DictNode => 12
    case _ => dataSize
  }

  // ---------------------------------------------------------------------------
  // Reading a Value

  /** The cell at offset x (0 outside the pool). */
  function Cell(m: seq<int>, x: int): int
  {
    if 0 <= x < |m| then m[x] else 0
  }

  function TypeOf(m: seq<int>, a: int): int
  {
    Cell(m, a + TypeField)
  }

  function DataSize(m: seq<int>, a: int): int
  {
    Cell(m, a + SizeField)
  }

  function RefOf(m: seq<int>, a: int): int
  {
    Cell(m, a + RefField)
  }

  function SeenOf(m: seq<int>, a: int): int
  {
    Cell(m, a + SeenField)
  }

  /** `get_size`: header plus payload. */
  function GetSize(m: seq<int>, a: int): int
  {
    HeaderSize + DataSize(m, a)
  }

  function End(m: seq<int>, a: int): int
  {
    a + GetSize(m, a)
  }

  /** The References the collector follows out of a Value, in the order it follows them. */
  function Kids(m: seq<int>, a: int): seq<int>
  {
    if TypeOf(m, a) == Code(ListNode) then [Cell(m, a + 16), Cell(m, a + 20)]
    else if TypeOf(m, a) == Code(DictNode) then [Cell(m, a + 16), Cell(m, a + 20), Cell(m, a + 24)]
    else []
  }

  /** The `next` Reference of a list or dict node. */
  function NextOf(m: seq<int>, a: int): int
  {
    if TypeOf(m, a) == Code(ListNode) then Cell(m, a + 20)
    else if TypeOf(m, a) == Code(DictNode) then Cell(m, a + 24)
    else NullRef
  }

  // ---------------------------------------------------------------------------
  // A half of the pool: Values laid end to end

  /** A Value at a that fits below hi, with room for its type's fields. */
  ghost predicate ObjOk(m: seq<int>, a: int, hi: int)
  {
    0 <= a && DataSize(m, a) >= MinPayload(TypeOf(m, a)) && DataSize(m, a) >= 0 && End(m, a) <= hi
  }

  /** The Values `objs` lie end to end from lo to hi. */
  ghost predicate Tiled(m: seq<int>, objs: seq<int>, lo: int, hi: int)
  {
    && 0 <= lo && hi <= |m|
    && (forall k {:trigger ObjOk(m, objs[k], hi)} :: 0 <= k < |objs| ==> ObjOk(m, objs[k], hi))
    && (forall k {:trigger End(m, objs[k])} :: 0 <= k < |objs| - 1 ==> objs[k + 1] == End(m, objs[k]))
    && (if objs == [] then lo == hi else objs[0] == lo && End(m, objs[|objs| - 1]) == hi)
  }

  /** Values laid end to end come in address order and do not overlap. */
  lemma {:induction false} Ordered(m: seq<int>, objs: seq<int>, lo: int, hi: int, i: nat, j: nat)
    requires Tiled(m, objs, lo, hi) && i < j < |objs|
    ensures End(m, objs[i]) <= objs[j]
    decreases j - i
  {
    if j > i + 1 {
      Ordered(m, objs, lo, hi, i + 1, j);
      assert ObjOk(m, objs[i + 1], hi);
    }
  }

  /** Every Value of a tiling lies inside it. */
  lemma Within(m: seq<int>, objs: seq<int>, lo: int, hi: int, i: nat)
    requires Tiled(m, objs, lo, hi) && i < |objs|
    ensures lo <= objs[i] && End(m, objs[i]) <= hi && objs[i] + HeaderSize <= End(m, objs[i])
  {
    assert ObjOk(m, objs[i], hi);
    if i > 0 {
      Ordered(m, objs, lo, hi, 0, i);
      assert ObjOk(m, objs[0], hi);
    }
  }

  /** Two Values of a tiling with the same address are the same entry. */
  lemma Apart(m: seq<int>, objs: seq<int>, lo: int, hi: int, i: nat, j: nat)
    requires Tiled(m, objs, lo, hi) && i < |objs| && j < |objs| && i != j
    ensures objs[i] + HeaderSize <= objs[j] || objs[j] + HeaderSize <= objs[i]
  {
    Within(m, objs, lo, hi, i);
    Within(m, objs, lo, hi, j);
    if i < j {
      Ordered(m, objs, lo, hi, i, j);
    } else {
      Ordered(m, objs, lo, hi, j, i);
    }
  }

  /** A tiling read from an image that agrees on every size field is a tiling of the other image. */
  lemma TiledFrame(m: seq<int>, m': seq<int>, objs: seq<int>, lo: int, hi: int)
    requires Tiled(m, objs, lo, hi) && hi <= |m'|
    requires forall k :: 0 <= k < |objs| ==> TypeOf(m', objs[k]) == TypeOf(m, objs[k]) && DataSize(m', objs[k]) == DataSize(m, objs[k])
    ensures Tiled(m', objs, lo, hi)
  {
    forall k | 0 <= k < |objs|
      ensures ObjOk(m', objs[k], hi)
    {
      assert ObjOk(m, objs[k], hi);
    }
    forall k | 0 <= k < |objs| - 1
      ensures objs[k + 1] == End(m', objs[k])
    {
      assert objs[k + 1] == End(m, objs[k]);
    }
  }

  /** A tiling followed by one more Value that fits. */
  lemma TiledAppend(m: seq<int>, objs: seq<int>, lo: int, hi: int, a: int, hi': int)
    requires Tiled(m, objs, lo, hi) && a == hi && ObjOk(m, a, hi') && hi' == End(m, a) && hi' <= |m|
    ensures Tiled(m, objs + [a], lo, hi')
  {
    var t := objs + [a];
    forall k | 0 <= k < |t|
      ensures ObjOk(m, t[k], hi')
    {
      if k < |objs| {
        assert t[k] == objs[k];
        assert ObjOk(m, objs[k], hi);
        Within(m, objs, lo, hi, k);
      }
    }
    if objs != [] {
      assert t[|objs| - 1] == objs[|objs| - 1];
    }
  }

  /** Two Values whose bytes agree, up to a seen flag set in one, have the same fields. */
  lemma FieldsAgree(m: seq<int>, p: int, m0: seq<int>, a: int)
    requires 0 <= p && 0 <= a && SeenField < GetSize(m0, a)
    requires p + GetSize(m0, a) <= |m| && a + GetSize(m0, a) <= |m0|
    requires DataSize(m0, a) >= MinPayload(TypeOf(m0, a))
    requires var s := GetSize(m0, a);
      m[p..p + s] == m0[a..a + s] || m[p..p + s] == m0[a..a + s][SeenField := 1]
    ensures TypeOf(m, p) == TypeOf(m0, a) && DataSize(m, p) == DataSize(m0, a) && RefOf(m, p) == RefOf(m0, a)
    ensures Kids(m, p) == Kids(m0, a) && NextOf(m, p) == NextOf(m0, a)
    ensures m[p..p + GetSize(m0, a)] == m0[a..a + GetSize(m0, a)] ==> SeenOf(m, p) == SeenOf(m0, a)
    ensures m[p..p + GetSize(m0, a)] != m0[a..a + GetSize(m0, a)] ==> SeenOf(m, p) == 1
  {
    var s := GetSize(m0, a);
    var u := m[p..p + s];
    var v := m0[a..a + s];
    assert u[0] == m[p] && v[0] == m0[a];
    assert u[4] == m[p + 4] && v[4] == m0[a + 4];
    assert u[8] == m[p + 8] && v[8] == m0[a + 8];
    assert u[12] == m[p + 12];
    if TypeOf(m0, a) == Code(ListNode) || TypeOf(m0, a) == Code(DictNode) {
      assert u[16] == m[p + 16] && v[16] == m0[a + 16];
      assert u[20] == m[p + 20] && v[20] == m0[a + 20];
    }
    if TypeOf(m0, a) == Code(DictNode) {
      assert u[24] == m[p + 24] && v[24] == m0[a + 24];
    }
    if u != v {
      assert u == v[SeenField := 1];
    }
  }

  /** A slice of cells none of which changed. */
  lemma SliceSame(m: seq<int>, m': seq<int>, lo: int, hi: int)
    requires 0 <= lo <= hi <= |m| && hi <= |m'|
    requires forall x :: lo <= x < hi ==> m'[x] == m[x]
    ensures m'[lo..hi] == m[lo..hi]
  {
  }

  // ---------------------------------------------------------------------------
  // The bytes still to be copied by a collection

  /**
   * The total size, as recorded in the image m0, of the Values in `objs` whose
   * seen flag in m is still 0.
   */
  function Pending(m: seq<int>, m0: seq<int>, objs: seq<int>): int
  {
    if objs == [] then 0
    else Pending(m, m0, objs[..|objs| - 1]) + (if SeenOf(m, objs[|objs| - 1]) == 0 then GetSize(m0, objs[|objs| - 1]) else 0)
  }

  /** Pending reads only the seen flags of m. */
  lemma {:induction false} PendingFrame(m: seq<int>, m': seq<int>, m0: seq<int>, objs: seq<int>)
    requires forall k :: 0 <= k < |objs| ==> SeenOf(m', objs[k]) == SeenOf(m, objs[k])
    ensures Pending(m', m0, objs) == Pending(m, m0, objs)
    decreases |objs|
  {
    if objs != [] {
      var p := objs[..|objs| - 1];
      assert forall k :: 0 <= k < |p| ==> p[k] == objs[k];
      PendingFrame(m, m', m0, p);
    }
  }

  /**
   * Setting the seen flag of entry j, whose cell is no other entry's seen
   * flag, takes that Value out of the pending total.
   */
  lemma {:induction false} PendingMark(m: seq<int>, m0: seq<int>, objs: seq<int>, j: nat, x: int)
    requires j < |objs| && x == objs[j] + SeenField && 0 <= x < |m| && SeenOf(m, objs[j]) == 0
    requires forall k :: 0 <= k < |objs| && k != j ==> objs[k] + SeenField != x
    ensures Pending(m[x := 1], m0, objs) == Pending(m, m0, objs) - GetSize(m0, objs[j])
    decreases |objs|
  {
    var m' := m[x := 1];
    var n := |objs| - 1;
    var p := objs[..n];
    assert forall k :: 0 <= k < |p| ==> p[k] == objs[k];
    if j == n {
      PendingFrame(m, m', m0, p);
    } else {
      PendingMark(m, m0, p, j, x);
    }
  }

  /** With no negative size the pending total is not negative. */
  lemma {:induction false} PendingNonneg(m: seq<int>, m0: seq<int>, objs: seq<int>)
    requires forall k :: 0 <= k < |objs| ==> GetSize(m0, objs[k]) >= 0
    ensures Pending(m, m0, objs) >= 0
    decreases |objs|
  {
    if objs != [] {
      var p := objs[..|objs| - 1];
      assert forall k :: 0 <= k < |p| ==> p[k] == objs[k];
      PendingNonneg(m, m0, p);
    }
  }

  /** A Value not yet seen counts in full towards the pending total. */
  lemma {:induction false} PendingHas(m: seq<int>, m0: seq<int>, objs: seq<int>, j: nat)
    requires j < |objs| && SeenOf(m, objs[j]) == 0
    requires forall k :: 0 <= k < |objs| ==> GetSize(m0, objs[k]) >= 0
    ensures Pending(m, m0, objs) >= GetSize(m0, objs[j])
    decreases |objs|
  {
    var p := objs[..|objs| - 1];
    assert forall k :: 0 <= k < |p| ==> p[k] == objs[k];
    if j == |objs| - 1 {
      PendingNonneg(m, m0, p);
    } else {
      PendingHas(m, m0, p, j);
    }
  }

  /** When no Value of a tiling is seen, all of it is pending. */
  lemma {:induction false} PendingAll(m: seq<int>, m0: seq<int>, objs: seq<int>, lo: int, hi: int)
    requires Tiled(m0, objs, lo, hi)
    requires forall k :: 0 <= k < |objs| ==> SeenOf(m, objs[k]) == 0
    ensures Pending(m, m0, objs) == hi - lo
    decreases |objs|
  {
    if objs != [] {
      var n := |objs| - 1;
      var p := objs[..n];
      assert forall k :: 0 <= k < |p| ==> p[k] == objs[k];
      if n == 0 {
        assert Pending(m, m0, p) == 0;
      } else {
        TiledPrefix(m0, objs, lo, hi);
        PendingAll(m, m0, p, lo, objs[n]);
      }
    }
  }

  /** Dropping the last Value of a tiling leaves a tiling up to its address. */
  lemma TiledPrefix(m: seq<int>, objs: seq<int>, lo: int, hi: int)
    requires Tiled(m, objs, lo, hi) && |objs| > 1
    ensures Tiled(m, objs[..|objs| - 1], lo, objs[|objs| - 1])
  {
    var n := |objs| - 1;
    var p := objs[..n];
    forall k | 0 <= k < |p|
      ensures ObjOk(m, p[k], objs[n])
    {
      assert p[k] == objs[k];
      assert ObjOk(m, objs[k], hi);
      if k + 1 < n {
        Ordered(m, objs, lo, hi, k, n);
      }
    }
  }

  // ---------------------------------------------------------------------------
  // References

  /** `deref` accepts r: an index below `num_refs` whose entry is not NULL. */
  ghost predicate RefOk(t: seq<int>, numRefs: int, r: int)
  {
    0 <= r < numRefs <= |t| && t[r] != Null
  }

  /** The type of the Value a Reference leads to (-1 for none). */
  ghost function KindOf(m: seq<int>, t: seq<int>, r: int): int
  {
    if 0 <= r < |t| then TypeOf(m, t[r]) else -1
  }

  /**
   * `live` is a set of References the program may follow: each leads to a
   * Value, every Reference the collector follows out of it is NULL_REF or
   * live, and the next of a list (dict) node is a list (dict) node.
   */
  ghost predicate LiveOk(m: seq<int>, t: seq<int>, numRefs: int, live: set<int>)
  {
    forall r :: r in live ==>
      && RefOk(t, numRefs, r)
      && (forall c :: c in Kids(m, t[r]) ==> c == NullRef || c in live)
      && (NextOf(m, t[r]) != NullRef ==> KindOf(m, t, NextOf(m, t[r])) == TypeOf(m, t[r]))
  }

  /** Every Value of `objs` records a Reference whose entry leads back to it. */
  ghost predicate RefsBack(m: seq<int>, t: seq<int>, numRefs: int, objs: seq<int>)
  {
    forall k {:trigger RefOf(m, objs[k])} :: 0 <= k < |objs| ==> 0 <= RefOf(m, objs[k]) < numRefs <= |t| && t[RefOf(m, objs[k])] == objs[k]
  }

  /** Every entry below `numRefs` is NULL or a Value of `objs` recording that entry. */
  ghost predicate EntriesIn(m: seq<int>, t: seq<int>, numRefs: int, objs: seq<int>)
  {
    numRefs <= |t| && forall r :: 0 <= r < numRefs ==> t[r] == Null || (t[r] in objs && RefOf(m, t[r]) == r)
  }
}
