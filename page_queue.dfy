/**
 * The doubly linked queue of resident pages used by the FIFO page-replacement
 * policy (queue.c, queue.h).
 *
 * Each `QueueNode` holds a page number and `prev`/`next` links; a `Queue`
 * holds `head` and `tail`.  The ghost sequence `Nodes` lists the nodes from
 * head to tail and `Pages` their page numbers: `Valid()` ties the links to
 * that order, so every operation is specified by what it does to `Pages`.
 */
module PageQueues {

  /** The page `queue_take` returns for an empty queue. */
  const InvalidPage: int := -1

  class QueueNode {
    var page: int
    var prev: QueueNode?
    var next: QueueNode?

    constructor (page: int)
      ensures this.page == page && prev == null && next == null
    {
      this.page := page;
      prev, next := null, null;
    }
  }

  /** The sequence s without its first occurrence of p (s itself when p is absent). */
  function RemoveFirst(s: seq<int>, p: int): seq<int>
  {
    if s == [] then []
    else if s[0] == p then s[1..]
    else [s[0]] + RemoveFirst(s[1..], p)
  }

  /** Removing the first occurrence cuts out exactly the index of the first p. */
  lemma {:induction false} RemoveFirstAt(s: seq<int>, p: int, k: nat)
    requires k < |s| && s[k] == p && p !in s[..k]
    ensures RemoveFirst(s, p) == s[..k] + s[k + 1..]
  {
    if k > 0 {
      assert s[1..][..k - 1] == s[1..k];
      assert s[0] != p by { assert s[0] == s[..k][0]; }
      RemoveFirstAt(s[1..], p, k - 1);
      assert s[1..][k..] == s[k + 1..];
      assert s[..k] == [s[0]] + s[1..k];
    }
  }

  /** The result loses one occurrence of p when p is present, and is s when it is not. */
  lemma {:induction false} RemoveFirstCounts(s: seq<int>, p: int)
    ensures p in s ==> multiset(RemoveFirst(s, p)) == multiset(s) - multiset{p} && |RemoveFirst(s, p)| == |s| - 1
    ensures p !in s ==> RemoveFirst(s, p) == s
  {
    if s != [] && s[0] != p {
      RemoveFirstCounts(s[1..], p);
      assert s == [s[0]] + s[1..];
    } else if s != [] {
      assert s == [s[0]] + s[1..];
    }
  }

  /** Cutting node k out keeps the remaining nodes distinct and paired with their pages. */
  lemma CutKeepsPages(ns: seq<QueueNode>, ps: seq<int>, k: nat)
    requires |ns| == |ps| && k < |ns|
    requires forall i :: 0 <= i < |ns| ==> ns[i].page == ps[i]
    requires forall i, j :: 0 <= i < j < |ns| ==> ns[i] != ns[j]
    ensures var ms, qs := ns[..k] + ns[k + 1..], ps[..k] + ps[k + 1..];
      && (forall i :: 0 <= i < |ms| ==> ms[i].page == qs[i])
      && (forall i, j :: 0 <= i < j < |ms| ==> ms[i] != ms[j])
  {
    var ms, qs := ns[..k] + ns[k + 1..], ps[..k] + ps[k + 1..];
    forall i | 0 <= i < |ms|
      ensures ms[i] == (if i < k then ns[i] else ns[i + 1]) && qs[i] == (if i < k then ps[i] else ps[i + 1])
    {
    }
  }

  class Queue {
    var head: QueueNode?
    var tail: QueueNode?

    /** The nodes from head to tail, and their pages. */
    ghost var Nodes: seq<QueueNode>
    ghost var Pages: seq<int>

    ghost predicate Valid()
      reads this, Nodes
    {
      && |Pages| == |Nodes|
      && (Nodes == [] ==> head == null && tail == null)
      && (Nodes != [] ==> head == Nodes[0] && tail == Nodes[|Nodes| - 1])
      && (forall i :: 0 <= i < |Nodes| ==> Nodes[i].page == Pages[i])
      && (Nodes != [] ==> Nodes[0].prev == null && Nodes[|Nodes| - 1].next == null)
      && (forall i :: 0 < i < |Nodes| ==> Nodes[i].prev == Nodes[i - 1])
      && (forall i :: 0 <= i < |Nodes| - 1 ==> Nodes[i].next == Nodes[i + 1])
      && (forall i, j :: 0 <= i < j < |Nodes| ==> Nodes[i] != Nodes[j])
    }

    /** An empty queue: both ends NULL. */
    constructor ()
      ensures Valid() && Pages == [] && Nodes == []
    {
      head, tail := null, null;
      Nodes, Pages := [], [];
    }

    /** `queue_empty`: true exactly when `head` is NULL, that is when no page is queued. */
    method IsEmpty() returns (r: bool)
      requires Valid()
      ensures r <==> Pages == []
      ensures r <==> head == null
    {
      r := head == null;
      if r {
        assert Nodes == [];
      }
    }

    /** `queue_append`: the page goes at the tail in a fresh node; the pages before it keep their order. */
    method Append(page: int)
      requires Valid()
      modifies this, Nodes
      ensures Valid()
      ensures Pages == old(Pages) + [page]
      ensures Nodes[..|old(Nodes)|] == old(Nodes) && fresh(Nodes[|old(Nodes)|])
      ensures old(Pages) == [] ==> head == tail
    {
      var n := new QueueNode(page);
      if head == null {
        head, tail := n, n;
      } else {
        tail.next := n;
        n.prev := tail;
        tail := n;
      }
      Nodes, Pages := Nodes + [n], Pages + [page];
      forall i | 0 <= i < |Nodes| - 1
        ensures Nodes[i] != n && Nodes[i] == old(Nodes)[i]
      {
      }
    }

    /**
     * `queue_take`: an empty queue yields -1 and stays as it is; otherwise the
     * head page is returned and the queue becomes the rest.  Taking the only
     * page leaves both `head` and `tail` NULL.
     */
    method Take() returns (page: int)
      requires Valid()
      modifies this, Nodes
      ensures Valid()
      ensures old(Pages) == [] ==> page == InvalidPage && Pages == [] && Nodes == []
      ensures old(Pages) != [] ==> page == old(Pages)[0] && Pages == old(Pages)[1..] && Nodes == old(Nodes)[1..]
      ensures |old(Pages)| == 1 ==> head == null && tail == null
    {
      if head == null {
        return InvalidPage;
      }
      var n := head;
      if n == tail {
        head, tail := null, null;
      } else {
        assert |Nodes| > 1 && n.next == Nodes[1];
        n.next.prev := null;
        head := n.next;
      }
      page := n.page;
      ghost var ns := Nodes;
      Nodes, Pages := Nodes[1..], Pages[1..];
    }

    /**
     * The search loop of `queue_remove`: the first node holding the page, or
     * NULL when no node holds it.
     */
    method Find(page: int) returns (n: QueueNode?, ghost k: nat)
      requires Valid()
      ensures k <= |Nodes| && page !in Pages[..k]
      ensures n == null <==> page !in Pages
      ensures n != null ==> k < |Nodes| && n == Nodes[k] && Pages[k] == page
    {
      n := head;
      k := 0;
      while n != null && n.page != page
        invariant k <= |Nodes|
        invariant n == if k < |Nodes| then Nodes[k] else null
        invariant page !in Pages[..k]
        decreases |Nodes| - k
      {
        assert Pages[..k + 1] == Pages[..k] + [Pages[k]];
        n := n.next;
        k := k + 1;
      }
      if n == null {
        assert Pages[..k] == Pages;
      }
    }

    /**
     * `queue_remove`: unlinks the first node holding the page and returns 1,
     * or returns 0 and changes nothing when no node holds it.  The neighbours
     * of the removed node are linked to each other, and `head` or `tail`
     * moves when the node was at that end.
     */
    method Remove(page: int) returns (found: int)
      requires Valid() && page != InvalidPage
      modifies this, Nodes
      ensures Valid()
      ensures found == (if page in old(Pages) then 1 else 0)
      ensures Pages == RemoveFirst(old(Pages), page)
    {
      var n;
      ghost var k;
      n, k := Find(page);
      if n == null {
        RemoveFirstCounts(Pages, page);
        return 0;
      }
      RemoveFirstAt(Pages, page, k);
      Unlink(n, k);
      return 1;
    }

    /** The unlinking part of `queue_remove`: node k leaves the list and the rest keep their order. */
    method Unlink(n: QueueNode, ghost k: nat)
      requires Valid() && k < |Nodes| && n == Nodes[k]
      modifies this, Nodes
      ensures Valid()
      ensures Nodes == old(Nodes)[..k] + old(Nodes)[k + 1..]
      ensures Pages == old(Pages)[..k] + old(Pages)[k + 1..]
    {
      assert head == n <==> k == 0;
      assert tail == n <==> k == |Nodes| - 1;
      Bypass(n, k);
      if head == n {
        head := n.next;
      }
      if tail == n {
        tail := n.prev;
      }
      CutKeepsPages(Nodes, Pages, k);
      Nodes, Pages := Nodes[..k] + Nodes[k + 1..], Pages[..k] + Pages[k + 1..];
    }

    /**
     * The two pointer updates of `queue_remove`: the neighbours of node k are
     * linked to each other, so the other nodes form a list in the old order.
     */
    method Bypass(n: QueueNode, ghost k: nat)
      requires Valid() && k < |Nodes| && n == Nodes[k]
      modifies Nodes
      ensures n.prev == old(n.prev) && n.next == old(n.next)
      ensures k > 0 ==> n.prev == Nodes[k - 1]
      ensures k == 0 ==> n.prev == null
      ensures k < |Nodes| - 1 ==> n.next == Nodes[k + 1]
      ensures k == |Nodes| - 1 ==> n.next == null
      ensures forall i :: 0 <= i < |Nodes| ==> Nodes[i].page == old(Nodes[i].page)
      ensures var ms := Nodes[..k] + Nodes[k + 1..];
        && (ms != [] ==> ms[0].prev == null && ms[|ms| - 1].next == null)
        && (forall i :: 0 < i < |ms| ==> ms[i].prev == ms[i - 1])
        && (forall i :: 0 <= i < |ms| - 1 ==> ms[i].next == ms[i + 1])
    {
      ghost var ns := Nodes;
      ghost var last := |ns| - 1;
      if k > 0 {
        assert n.prev == ns[k - 1];
      }
      if k < last {
        assert n.next == ns[k + 1];
      }
      if n.prev != null {
        n.prev.next := n.next;
      }
      if n.next != null {
        n.next.prev := n.prev;
      }
      ghost var ms := Nodes[..k] + Nodes[k + 1..];
      forall i | 0 <= i < |ms|
        ensures ms[i] == if i < k then ns[i] else ns[i + 1]
      {
      }
      forall i | 0 < i < |ms|
        ensures ms[i].prev == ms[i - 1]
      {
        if i < k {
          assert ms[i] == ns[i] && ms[i - 1] == ns[i - 1] && old(ns[i].prev) == ns[i - 1];
          assert k < last ==> ns[i] != ns[k + 1];
        } else if i == k {
          assert ms[i] == ns[k + 1] && ms[i - 1] == ns[k - 1];
        } else {
          assert ms[i] == ns[i + 1] && ms[i - 1] == ns[i] && old(ns[i + 1].prev) == ns[i];
          assert ns[i + 1] != ns[k + 1];
        }
      }
      forall i | 0 <= i < |ms| - 1
        ensures ms[i].next == ms[i + 1]
      {
        if i < k - 1 {
          assert ms[i] == ns[i] && ms[i + 1] == ns[i + 1] && old(ns[i].next) == ns[i + 1];
          assert ns[i] != ns[k - 1];
        } else if i == k - 1 {
          assert ms[i] == ns[k - 1] && ms[i + 1] == ns[k + 1];
        } else {
          assert ms[i] == ns[i + 1] && ms[i + 1] == ns[i + 2] && old(ns[i + 1].next) == ns[i + 2];
          assert k > 0 ==> ns[i + 1] != ns[k - 1];
        }
      }
    }

    /**
     * `queue_clear` walks the queue from head to tail releasing every node.
     * Memory release is not modelled: the walk returns the pages it released,
     * which are all the queued pages in order.  Like the source, it does not
     * reset `head` or `tail`.
     */
    method Clear() returns (released: seq<int>)
      requires Valid()
      ensures released == Pages
    {
      var n := head;
      released := [];
      while n != null
        invariant Valid()
        invariant |released| <= |Nodes|
        invariant released == Pages[..|released|]
        invariant n == if |released| < |Nodes| then Nodes[|released|] else null
        decreases |Nodes| - |released|
      {
        released := released + [n.page];
        n := n.next;
      }
    }
  }
}
