/**
 * The aging page-replacement policy (vmpolicy_aging.c).
 *
 * Resident pages sit in the first `numLoaded` entries of `pages`, each with an
 * 8-bit age in the parallel `ageTable`.  Every timer tick shifts each age
 * right by one and puts the page's accessed bit in the top bit; the victim is
 * the page of lowest age.  The accessed bits and page permissions belong to
 * the virtual-memory system, outside this file: they are the fields of a
 * `Vm` object that the policy reads and updates.
 */
module AgingPolicy {
  import Alu

  /** `SIZE_AGE`: ages are kept in this many bits. */
  const SizeAge: nat := 8

  /** `1 << (SIZE_AGE - 1)`: the age of a freshly mapped page. */
  const NewPageAge: nat := 0x80

  /** The age bound 2^SIZE_AGE. */
  const AgeLimit: nat := 0x100

  /** Page permissions; the policy only ever sets `PermNone`. */
  datatype Permission = PermNone | PermRead | PermReadWrite

  /** The state of the virtual-memory system that the policy touches. */
  class Vm {
    /** The pages whose accessed bit is set. */
    var accessed: set<int>
    /** The permission of each page. */
    var permission: map<int, Permission>

    constructor (accessed: set<int>, permission: map<int, Permission>)
      ensures this.accessed == accessed && this.permission == permission
    {
      this.accessed := accessed;
      this.permission := permission;
    }
  }

  /**
   * The age `shift_and_set` computes: the old age shifted right by one, OR the
   * accessed bit shifted into bit SIZE_AGE - 1.  For an age below 2^SIZE_AGE
   * the result stays below it, has its top bit set exactly when the page was
   * accessed, and is the halved age plus that bit.
   */
  function NewAge(age: Alu.Word, accessed: bool): (r: Alu.Word)
    ensures age < AgeLimit ==> r == age / 2 + (if accessed then NewPageAge else 0)
    ensures age < AgeLimit ==> r < AgeLimit && (r >= NewPageAge <==> accessed)
  {
    Alu.Pow2Values();
    var r := Alu.BitOr(age / 2, if accessed then NewPageAge else 0, Alu.Width);
    if age < AgeLimit then
      ShiftedAgeIsSum(age, accessed);
      r
    else
      r
  }

  /** Below 2^SIZE_AGE, the halved age has bit SIZE_AGE - 1 clear, so the OR is an addition. */
  lemma ShiftedAgeIsSum(age: nat, accessed: bool)
    requires age < AgeLimit
    ensures Alu.BitOr(age / 2, if accessed then NewPageAge else 0, Alu.Width) == age / 2 + (if accessed then NewPageAge else 0)
  {
    assert Alu.Pow2(7) == NewPageAge;
    Alu.OrHighBit(age / 2, 7, if accessed then NewPageAge else 0, Alu.Width);
  }

  /** A page accessed during the last interval always ends up with a higher age than one that was not. */
  lemma AccessedOutranks(a: Alu.Word, b: Alu.Word)
    requires a < AgeLimit && b < AgeLimit
    ensures NewAge(a, true) > NewAge(b, false)
  {
  }

  /** The age after `ticks` ticks without an access. */
  function Idle(age: Alu.Word, ticks: nat): Alu.Word
    decreases ticks
  {
    if ticks == 0 then age else Idle(NewAge(age, false), ticks - 1)
  }

  /** An age below 2^k that sees no access for k ticks or more is zero. */
  lemma {:induction false} IdleAgeDecays(age: Alu.Word, k: nat, ticks: nat)
    requires age < Alu.Pow2(k) <= AgeLimit && ticks >= k
    ensures Idle(age, ticks) == 0
    decreases ticks
  {
    if ticks > 0 {
      if k > 0 {
        IdleAgeDecays(NewAge(age, false), k - 1, ticks - 1);
      } else {
        IdleAgeDecays(NewAge(age, false), 0, ticks - 1);
      }
    }
  }

  /** The victim among the first n ages: the lowest age, ties going to the lowest index. */
  ghost predicate IsVictim(ages: seq<Alu.Word>, n: nat, k: nat)
    requires n <= |ages|
  {
    && k < n
    && (forall j :: 0 <= j < n ==> ages[k] <= ages[j])
    && (forall j :: 0 <= j < k ==> ages[k] < ages[j])
  }

  /** There is exactly one victim among a non-empty prefix. */
  lemma VictimUnique(ages: seq<Alu.Word>, n: nat, k1: nat, k2: nat)
    requires n <= |ages| && IsVictim(ages, n, k1) && IsVictim(ages, n, k2)
    ensures k1 == k2
  {
    assert ages[k1] == ages[k2];
  }

  /** The first |s| - 1 entries after the last entry has been moved into slot k. */
  function SwapRemove<T>(s: seq<T>, k: nat): (r: seq<T>)
    requires k < |s|
    ensures |r| == |s| - 1
    ensures forall i :: 0 <= i < |r| ==> r[i] == if i == k then s[|s| - 1] else s[i]
  {
    s[k := s[|s| - 1]][..|s| - 1]
  }

  /** Below the last entry, SwapRemove is the prefix, the last entry, and the rest. */
  lemma SwapRemoveParts<T>(s: seq<T>, k: nat)
    requires k < |s| - 1
    ensures SwapRemove(s, k) == s[..k] + [s[|s| - 1]] + s[k + 1..|s| - 1]
  {
  }

  /** Moving the last entry into slot k removes exactly the entry at k. */
  lemma SwapRemoveMultiset<T>(s: seq<T>, k: nat)
    requires k < |s|
    ensures multiset(SwapRemove(s, k)) == multiset(s) - multiset{s[k]}
  {
    var n := |s| - 1;
    if k < n {
      var a, m := s[..k], s[k + 1..n];
      calc {
        multiset(s);
        { assert s == a + [s[k]] + m + [s[n]]; }
        multiset(a + [s[k]] + m + [s[n]]);
        multiset(a) + multiset{s[k]} + multiset(m) + multiset{s[n]};
      }
      calc {
        multiset(SwapRemove(s, k));
        { SwapRemoveParts(s, k); }
        multiset(a + [s[n]] + m);
        multiset(a) + multiset{s[n]} + multiset(m);
      }
    } else {
      assert s == s[..n] + [s[n]];
    }
  }

  class Aging {
    const maxResident: nat
    var numLoaded: int
    /** `loaded->pages`: only the first `numLoaded` entries are meaningful. */
    const pages: array<int>
    /** `age_table`, parallel to `pages`. */
    const ageTable: array<Alu.Word>

    ghost predicate Valid()
      reads this, pages, ageTable
    {
      && pages.Length == maxResident && ageTable.Length == maxResident
      && 0 <= numLoaded <= maxResident
      && (forall i :: 0 <= i < numLoaded ==> ageTable[i] < AgeLimit)
      && (forall i, j :: 0 <= i < j < numLoaded ==> pages[i] != pages[j])
    }

    /** `policy_init`: room for `maxResident` pages, none loaded. */
    constructor (maxResident: nat)
      ensures Valid() && fresh(pages) && fresh(ageTable)
      ensures this.maxResident == maxResident && numLoaded == 0
    {
      this.maxResident := maxResident;
      numLoaded := 0;
      pages := new int[maxResident];
      ageTable := new Alu.Word[maxResident];
    }

    /**
     * `policy_page_mapped`: the page is stored after the loaded ones with age
     * `1 << 7`.  The virtual-memory system only maps a page that is not resident.
     */
    method PageMapped(page: int)
      requires Valid() && numLoaded < maxResident
      requires forall i :: 0 <= i < numLoaded ==> pages[i] != page
      modifies this, pages, ageTable
      ensures Valid()
      ensures numLoaded == old(numLoaded) + 1
      ensures pages[..numLoaded] == old(pages[..numLoaded]) + [page]
      ensures ageTable[..numLoaded] == old(ageTable[..numLoaded]) + [NewPageAge]
    {
      pages[numLoaded] := page;
      ageTable[numLoaded] := NewPageAge;
      numLoaded := numLoaded + 1;
    }

    /**
     * `shift_and_set`: the age of entry `num` is shifted and takes the page's
     * accessed bit on top.  Only when the page was accessed is the bit cleared
     * and the page's permission set to none.
     */
    method ShiftAndSet(vm: Vm, num: int)
      requires Valid() && 0 <= num < maxResident
      modifies ageTable, vm
      ensures Valid()
      ensures ageTable[num] == NewAge(old(ageTable[num]), pages[num] in old(vm.accessed))
      ensures forall i :: 0 <= i < maxResident && i != num ==> ageTable[i] == old(ageTable[i])
      ensures pages[num] in old(vm.accessed) ==>
        vm.accessed == old(vm.accessed) - {pages[num]} && vm.permission == old(vm.permission)[pages[num] := PermNone]
      ensures pages[num] !in old(vm.accessed) ==> vm.accessed == old(vm.accessed) && vm.permission == old(vm.permission)
    {
      var accessed := pages[num] in vm.accessed;
      ageTable[num] := NewAge(ageTable[num], accessed);
      if accessed {
        vm.accessed := vm.accessed - {pages[num]};
        vm.permission := vm.permission[pages[num] := PermNone];
      }
    }

    /**
     * `policy_timer_tick`: every loaded entry, and no other, is aged with the
     * accessed bit its page had before the tick; the accessed bits of the
     * loaded pages are cleared and those pages lose their permissions.
     */
    method TimerTick(vm: Vm)
      requires Valid()
      modifies ageTable, vm
      ensures Valid()
      ensures forall i :: 0 <= i < numLoaded ==> ageTable[i] == NewAge(old(ageTable[i]), pages[i] in old(vm.accessed))
      ensures forall i :: numLoaded <= i < maxResident ==> ageTable[i] == old(ageTable[i])
      ensures vm.accessed == old(vm.accessed) - set i | 0 <= i < numLoaded :: pages[i]
      ensures vm.permission.Keys == old(vm.permission.Keys) + (old(vm.accessed) * set i | 0 <= i < numLoaded :: pages[i])
      ensures forall p :: p in vm.permission ==>
        vm.permission[p] == if p in old(vm.accessed) && p in pages[..numLoaded] then PermNone else old(vm.permission)[p]
    {
      var i := 0;
      while i < numLoaded
        invariant 0 <= i <= numLoaded
        invariant Valid()
        invariant forall j :: 0 <= j < i ==> ageTable[j] == NewAge(old(ageTable[j]), pages[j] in old(vm.accessed))
        invariant forall j :: i <= j < maxResident ==> ageTable[j] == old(ageTable[j])
        invariant vm.accessed == old(vm.accessed) - set j | 0 <= j < i :: pages[j]
        invariant vm.permission.Keys == old(vm.permission.Keys) + (old(vm.accessed) * set j | 0 <= j < i :: pages[j])
        invariant forall p :: p in vm.permission ==>
          vm.permission[p] == if p in old(vm.accessed) && p in pages[..i] then PermNone else old(vm.permission)[p]
      {
        assert pages[i] in vm.accessed <==> pages[i] in old(vm.accessed);
        ShiftAndSet(vm, i);
        assert pages[..i + 1] == pages[..i] + [pages[i]];
        assert (set j | 0 <= j < i + 1 :: pages[j]) == (set j | 0 <= j < i :: pages[j]) + {pages[i]};
        i := i + 1;
      }
    }

    /** The search loop of `choose_and_evict_victim_page`: the index of the lowest age, ties to the lowest index. */
    method FindVictim() returns (iVictim: nat)
      requires Valid() && numLoaded > 0
      ensures IsVictim(ageTable[..], numLoaded, iVictim)
    {
      iVictim := 0;
      var i := 0;
      while i < numLoaded
        invariant 0 <= i <= numLoaded
        invariant 0 <= iVictim < numLoaded && (iVictim < i || iVictim == 0)
        invariant forall j :: 0 <= j < i ==> ageTable[iVictim] <= ageTable[j]
        invariant forall j :: 0 <= j < iVictim ==> ageTable[iVictim] < ageTable[j]
      {
        if ageTable[i] < ageTable[iVictim] {
          iVictim := i;
        }
        i := i + 1;
      }
    }

    /**
     * `choose_and_evict_victim_page`: the page of lowest age leaves.  The last
     * loaded page and its age move into its slot, so the resident pages lose
     * exactly the victim and every survivor keeps its age.
     */
    method ChooseAndEvictVictim() returns (victim: int)
      requires Valid() && numLoaded > 0
      modifies this, pages, ageTable
      ensures Valid()
      ensures numLoaded == old(numLoaded) - 1
      ensures exists k: nat ::
        (&& IsVictim(old(ageTable[..]), old(numLoaded), k) && victim == old(pages[k])
         && pages[..numLoaded] == SwapRemove(old(pages[..numLoaded]), k)
         && ageTable[..numLoaded] == SwapRemove(old(ageTable[..numLoaded]), k))
      ensures multiset(pages[..numLoaded]) == multiset(old(pages[..numLoaded])) - multiset{victim}
    {
      var iVictim := FindVictim();
      victim := pages[iVictim];
      ghost var ps, ags := pages[..numLoaded], ageTable[..numLoaded];
      numLoaded := numLoaded - 1;
      pages[iVictim] := pages[numLoaded];
      ageTable[iVictim] := ageTable[numLoaded];
      assert pages[..numLoaded] == SwapRemove(ps, iVictim);
      assert ageTable[..numLoaded] == SwapRemove(ags, iVictim);
      SwapRemoveMultiset(ps, iVictim);
      forall i, j | 0 <= i < j < numLoaded
        ensures pages[i] != pages[j]
      {
        assert pages[i] == ps[if i == iVictim then numLoaded else i];
        assert pages[j] == ps[if j == iVictim then numLoaded else j];
      }
    }
  }
}
