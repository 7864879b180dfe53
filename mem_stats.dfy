/** Page accounting of the kernel statistics: a `MemStats` counts the pages
    one owner uses, and every charge is mirrored into one of the two
    system-wide totals kept by the system record. */
module MemStatsModel {
  import opened Machine

  /** log2 of the small page size (`crate::mm::PAGE_SIZE_SMALL_LOG2`): 4 KiB pages. */
  const PAGE_SIZE_SMALL_LOG2: nat := 12
  /** The small page size in bytes, `1 << PAGE_SIZE_SMALL_LOG2`. */
  const PAGE_SIZE_SMALL: nat := Pow2(PAGE_SIZE_SMALL_LOG2)

  /** `1 << k` on unbounded integers. */
  function Pow2(k: nat): nat {
    if k == 0 then 1 else 2 * Pow2(k - 1)
  }

  /** The system record's two page totals, which every charge is mirrored
      into, or `Unset` while the system record does not exist yet. */
  datatype SystemTotals = Unset | Set(user: MemStats, kernel: MemStats)

  class MemStats {
    var pagesUsed: u64
    /** True for a user-memory counter, false for a kernel-memory one. */
    const userStats: bool

    /** `MemStats::new`, and through it `new_user` (true) and `new_kernel` (false). */
    constructor New(userStats: bool)
      ensures this.userStats == userStats
      ensures pagesUsed == 0 && Total() == 0
    {
      this.userStats := userStats;
      pagesUsed := 0;
    }

    /** Bytes in use: `pages_used << PAGE_SIZE_SMALL_LOG2` on a `u64`, so the
        bits shifted past bit 63 are lost. */
    function Total(): (r: u64)
      reads this
      ensures r == (pagesUsed * PAGE_SIZE_SMALL) % U64_MODULUS
      ensures r % PAGE_SIZE_SMALL == 0
    {
      assert PAGE_SIZE_SMALL == 0x1000;
      (pagesUsed % 0x10_0000_0000_0000) * PAGE_SIZE_SMALL
    }

    /** `add`: charges this counter, then the user total for a user counter,
        or the kernel total for a kernel counter once the system record exists.
        The totals are private to the system record and never charged as a
        process counter, so they are distinct from this one. */
    method Add(numPages: u64, totals: SystemTotals)
      requires userStats ==> totals.Set?
      requires totals.Set? ==> this != totals.user && this != totals.kernel && totals.user != totals.kernel
      modifies this, if totals.Set? then {totals.user, totals.kernel} else {}
      ensures pagesUsed == WrapAdd(old(pagesUsed), numPages)
      ensures userStats ==>
        totals.user.pagesUsed == WrapAdd(old(totals.user.pagesUsed), numPages) &&
        totals.kernel.pagesUsed == old(totals.kernel.pagesUsed)
      ensures !userStats && totals.Set? ==>
        totals.kernel.pagesUsed == WrapAdd(old(totals.kernel.pagesUsed), numPages) &&
        totals.user.pagesUsed == old(totals.user.pagesUsed)
    {
      pagesUsed := WrapAdd(pagesUsed, numPages);
      if userStats {
        totals.user.pagesUsed := WrapAdd(totals.user.pagesUsed, numPages);
      } else if totals.Set? {
        totals.kernel.pagesUsed := WrapAdd(totals.kernel.pagesUsed, numPages);
      }
    }

    /** `sub`: the inverse of `add`, on the same two counters. */
    method Sub(numPages: u64, totals: SystemTotals)
      requires userStats ==> totals.Set?
      requires totals.Set? ==> this != totals.user && this != totals.kernel && totals.user != totals.kernel
      modifies this, if totals.Set? then {totals.user, totals.kernel} else {}
      ensures pagesUsed == WrapSub(old(pagesUsed), numPages)
      ensures userStats ==>
        totals.user.pagesUsed == WrapSub(old(totals.user.pagesUsed), numPages) &&
        totals.kernel.pagesUsed == old(totals.kernel.pagesUsed)
      ensures !userStats && totals.Set? ==>
        totals.kernel.pagesUsed == WrapSub(old(totals.kernel.pagesUsed), numPages) &&
        totals.user.pagesUsed == old(totals.user.pagesUsed)
    {
      pagesUsed := WrapSub(pagesUsed, numPages);
      if userStats {
        totals.user.pagesUsed := WrapSub(totals.user.pagesUsed, numPages);
      } else if totals.Set? {
        totals.kernel.pagesUsed := WrapSub(totals.kernel.pagesUsed, numPages);
      }
    }
  }

  /** A charge followed by its release leaves this counter and both totals
      as they were. */
  method AddThenSub(stats: MemStats, numPages: u64, totals: SystemTotals)
    requires stats.userStats ==> totals.Set?
    requires totals.Set? ==> stats != totals.user && stats != totals.kernel && totals.user != totals.kernel
    modifies stats, if totals.Set? then {totals.user, totals.kernel} else {}
    ensures stats.pagesUsed == old(stats.pagesUsed)
    ensures totals.Set? ==> totals.user.pagesUsed == old(totals.user.pagesUsed)
    ensures totals.Set? ==> totals.kernel.pagesUsed == old(totals.kernel.pagesUsed)
  {
    stats.Add(numPages, totals);
    stats.Sub(numPages, totals);
    SubUndoesAdd(old(stats.pagesUsed), numPages);
    if totals.Set? {
      SubUndoesAdd(old(totals.user.pagesUsed), numPages);
      SubUndoesAdd(old(totals.kernel.pagesUsed), numPages);
    }
  }
}
