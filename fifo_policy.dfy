/**
 * The FIFO page-replacement policy (vmpolicy_fifo.c): a count of resident
 * pages wrapped around a `PageQueues.Queue` in mapping order.
 *
 * The ghost `Mapped` records every page ever mapped and `Evicted` how many
 * of them have been evicted; the queue always holds the rest, in order.
 */
module FifoPolicy {
  import opened PageQueues

  class Fifo {
    const maxResident: nat
    var numLoaded: int
    const pages: Queue

    ghost var Mapped: seq<int>
    ghost var Evicted: nat

    ghost predicate Valid()
      reads this, pages, pages.Nodes
    {
      && pages.Valid()
      && numLoaded == |pages.Pages| <= maxResident
      && Evicted <= |Mapped|
      && pages.Pages == Mapped[Evicted..]
    }

    /**
     * `policy_init`: no page loaded yet, and the queue starts empty.  The C
     * code never sets the queue's head and tail in the block it mallocs; the
     * queue here is built empty, as those fields must read NULL.
     */
    constructor (maxResident: nat)
      ensures Valid() && fresh(pages) && pages.Nodes == []
      ensures this.maxResident == maxResident && numLoaded == 0
    {
      this.maxResident := maxResident;
      numLoaded := 0;
      pages := new Queue();
      Mapped, Evicted := [], 0;
    }

    /** `policy_page_mapped`: the page joins the back of the queue. */
    method PageMapped(page: int)
      requires Valid() && numLoaded < maxResident
      modifies this, pages, pages.Nodes
      ensures Valid()
      ensures numLoaded == old(numLoaded) + 1
      ensures pages.Pages == old(pages.Pages) + [page]
      ensures Mapped == old(Mapped) + [page] && Evicted == old(Evicted)
    {
      pages.Append(page);
      numLoaded := numLoaded + 1;
      Mapped := Mapped + [page];
      assert Mapped[Evicted..] == old(Mapped)[Evicted..] + [page];
    }

    /** `policy_timer_tick` does nothing: no state is named for change. */
    method TimerTick()
      requires Valid()
      ensures Valid()
    {
    }

    /**
     * `choose_and_evict_victim_page`: the victim is the earliest-mapped page
     * that is still resident, and it leaves the queue.
     */
    method ChooseAndEvictVictim() returns (victim: int)
      requires Valid() && numLoaded > 0
      modifies this, pages, pages.Nodes
      ensures Valid()
      ensures victim == old(Mapped)[old(Evicted)] && victim == old(pages.Pages)[0]
      ensures pages.Pages == old(pages.Pages)[1..]
      ensures numLoaded == old(numLoaded) - 1 && Evicted == old(Evicted) + 1
    {
      victim := pages.Take();
      numLoaded := numLoaded - 1;
      Evicted := Evicted + 1;
    }
  }
}
