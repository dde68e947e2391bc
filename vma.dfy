/**
 * The kernel's virtual page allocator (kernel/mm/vma.c).
 *
 * Two regions of virtual page numbers, one for user space and one for the kernel, each with a
 * base, an inclusive limit and an allocation cursor. Allocation bumps the cursor; freeing does
 * nothing. Page numbers and counts are 32-bit unsigned (`uintptr_t`, `size_t` on i686), so sums
 * and differences wrap modulo 2^32.
 */
module Vma {
  import opened Common

  /** The `VAF_KERNEL` allocation flag. */
  const VAF_KERNEL: nat := 1

  /** A 32-bit unsigned result. */
  function Wrap(x: int): (r: nat)
    ensures r < U32_LIMIT
    ensures 0 <= x < U32_LIMIT ==> r == x
  {
    x % U32_LIMIT
  }

  /** The refusal test of `mm_vma_allocate_page`: `alloc + count >= limit` in 32-bit arithmetic. */
  predicate Refused(alloc: nat, count: nat, limit: nat)
  {
    Wrap(alloc + count) >= limit
  }

  /** Does the request ask for the kernel region? */
  predicate KernelRequest(flags: nat)
  {
    flags % 2 == VAF_KERNEL
  }

  class Allocator {
    var userBase: nat
    var userLimit: nat
    var userAlloc: nat
    var kernelBase: nat
    var kernelLimit: nat
    var kernelAlloc: nat

    /** Every field holds a 32-bit value. */
    predicate Valid()
      reads this
    {
      userBase < U32_LIMIT && userLimit < U32_LIMIT && userAlloc < U32_LIMIT &&
      kernelBase < U32_LIMIT && kernelLimit < U32_LIMIT && kernelAlloc < U32_LIMIT
    }

    /** Both cursors lie between their base and one past their inclusive limit. */
    predicate Ordered()
      reads this
    {
      userBase <= userAlloc <= userLimit + 1 && kernelBase <= kernelAlloc <= kernelLimit + 1
    }

    constructor ()
      ensures Valid()
    {
      userBase, userLimit, userAlloc := 0, 0, 0;
      kernelBase, kernelLimit, kernelAlloc := 0, 0, 0;
    }

    /** `mm_vma_init`: each cursor starts at its region's base. */
    method Init(userBaseVpn: nat, userLimitVpn: nat, kernelBaseVpn: nat, kernelLimitVpn: nat)
      requires userBaseVpn < U32_LIMIT && userLimitVpn < U32_LIMIT
      requires kernelBaseVpn < U32_LIMIT && kernelLimitVpn < U32_LIMIT
      modifies this
      ensures Valid()
      ensures userBase == userBaseVpn && userLimit == userLimitVpn && userAlloc == userBaseVpn
      ensures kernelBase == kernelBaseVpn && kernelLimit == kernelLimitVpn && kernelAlloc == kernelBaseVpn
      ensures userBaseVpn <= userLimitVpn && kernelBaseVpn <= kernelLimitVpn ==> Ordered()
    {
      userBase, userLimit, userAlloc := userBaseVpn, userLimitVpn, userBaseVpn;
      kernelBase, kernelLimit, kernelAlloc := kernelBaseVpn, kernelLimitVpn, kernelBaseVpn;
    }

    /** `mm_vma_get_available_kernel_page_count`: the pages from the base through the limit. */
    function AvailableKernelPageCount(): (n: nat)
      reads this
      requires Valid()
      ensures n < U32_LIMIT
      ensures kernelBase <= kernelLimit + 1 < U32_LIMIT ==> n == kernelLimit + 1 - kernelBase
    {
      Wrap(kernelLimit - kernelBase + 1)
    }

    /** `mm_vma_get_free_kernel_page_count`: the pages from the cursor through the limit. */
    function FreeKernelPageCount(): (n: nat)
      reads this
      requires Valid()
      ensures n < U32_LIMIT
      ensures kernelAlloc <= kernelLimit + 1 < U32_LIMIT ==> n == kernelLimit + 1 - kernelAlloc
    {
      Wrap(kernelLimit - kernelAlloc + 1)
    }

    /** `mm_vma_get_available_user_page_count`. */
    function AvailableUserPageCount(): (n: nat)
      reads this
      requires Valid()
      ensures n < U32_LIMIT
      ensures userBase <= userLimit + 1 < U32_LIMIT ==> n == userLimit + 1 - userBase
    {
      Wrap(userLimit - userBase + 1)
    }

    /** `mm_vma_get_free_user_page_count`. */
    function FreeUserPageCount(): (n: nat)
      reads this
      requires Valid()
      ensures n < U32_LIMIT
      ensures userAlloc <= userLimit + 1 < U32_LIMIT ==> n == userLimit + 1 - userAlloc
    {
      Wrap(userLimit - userAlloc + 1)
    }

    /**
     * `mm_vma_allocate_page`: the cursor of the requested region is handed out and advanced by
     * `count`, unless the advanced cursor reaches the limit.
     */
    method AllocatePage(count: nat, flags: nat) returns (status: Status, vpn: nat)
      requires Valid() && count < U32_LIMIT
      modifies this
      ensures Valid()
      ensures userBase == old(userBase) && userLimit == old(userLimit)
      ensures kernelBase == old(kernelBase) && kernelLimit == old(kernelLimit)
      ensures KernelRequest(flags) ==> userAlloc == old(userAlloc)
      ensures !KernelRequest(flags) ==> kernelAlloc == old(kernelAlloc)
      ensures KernelRequest(flags) ==>
        if Refused(old(kernelAlloc), count, kernelLimit) then
          status == InsufficientMemory && kernelAlloc == old(kernelAlloc)
        else
          status == Success && vpn == old(kernelAlloc) && kernelAlloc == Wrap(old(kernelAlloc) + count)
      ensures !KernelRequest(flags) ==>
        if Refused(old(userAlloc), count, userLimit) then
          status == InsufficientMemory && userAlloc == old(userAlloc)
        else
          status == Success && vpn == old(userAlloc) && userAlloc == Wrap(old(userAlloc) + count)
    {
      vpn := 0;
      if flags % 2 == VAF_KERNEL {
        var newVpn := kernelAlloc;
        if Wrap(kernelAlloc + count) >= kernelLimit {
          return InsufficientMemory, vpn;
        }
        kernelAlloc := Wrap(kernelAlloc + count);
        vpn := newVpn;
      } else {
        var newVpn := userAlloc;
        if Wrap(userAlloc + count) >= userLimit {
          return InsufficientMemory, vpn;
        }
        userAlloc := Wrap(userAlloc + count);
        vpn := newVpn;
      }
      status := Success;
    }

    /** `mm_vma_free_page` does nothing. */
    method FreePage(vpn: nat, count: nat)
      requires Valid()
      ensures FreeUserPageCount() == old(FreeUserPageCount())
      ensures FreeKernelPageCount() == old(FreeKernelPageCount())
    {
    }

    /**
     * `mm_vma_allocate_page` with the test done without wrap-around: a request succeeds exactly
     * when it asks for no more than the free page count, and the cursors stay in their regions.
     */
    method AllocatePageChecked(count: nat, flags: nat) returns (status: Status, vpn: nat)
      requires Valid() && Ordered() && count < U32_LIMIT
      requires userLimit + 1 < U32_LIMIT && kernelLimit + 1 < U32_LIMIT
      modifies this
      ensures Valid() && Ordered()
      ensures userBase == old(userBase) && userLimit == old(userLimit)
      ensures kernelBase == old(kernelBase) && kernelLimit == old(kernelLimit)
      ensures KernelRequest(flags) ==> userAlloc == old(userAlloc)
      ensures !KernelRequest(flags) ==> kernelAlloc == old(kernelAlloc)
      ensures KernelRequest(flags) ==>
        if count <= old(FreeKernelPageCount()) then
          status == Success && vpn == old(kernelAlloc) && FreeKernelPageCount() == old(FreeKernelPageCount()) - count
        else
          status == InsufficientMemory && kernelAlloc == old(kernelAlloc)
      ensures !KernelRequest(flags) ==>
        if count <= old(FreeUserPageCount()) then
          status == Success && vpn == old(userAlloc) && FreeUserPageCount() == old(FreeUserPageCount()) - count
        else
          status == InsufficientMemory && userAlloc == old(userAlloc)
    {
      vpn := 0;
      if flags % 2 == VAF_KERNEL {
        if kernelAlloc + count > kernelLimit + 1 {
          return InsufficientMemory, vpn;
        }
        vpn := kernelAlloc;
        kernelAlloc := kernelAlloc + count;
      } else {
        if userAlloc + count > userLimit + 1 {
          return InsufficientMemory, vpn;
        }
        vpn := userAlloc;
        userAlloc := userAlloc + count;
      }
      status := Success;
    }
  }

  /**
   * Without wrap-around, a granted run of pages lies inside the region and ends at least two
   * pages before its inclusive limit; the free count drops by exactly the pages granted.
   */
  lemma GrantedInsideRegion(base: nat, alloc: nat, count: nat, limit: nat)
    requires base <= alloc && alloc + count < U32_LIMIT && limit < U32_LIMIT
    requires !Refused(alloc, count, limit)
    ensures count > 0 ==> base <= alloc && alloc + count - 1 <= limit - 2
    ensures alloc + count <= limit + 1
    ensures limit + 1 - (alloc + count) == (limit + 1 - alloc) - count
  {
  }

  /**
   * A request of 2^32 - 1 pages from the user region as the kernel sets it up passes the
   * test: `alloc + count` wraps to a value below the limit and the cursor moves back.
   */
  lemma HugeRequestAccepted(alloc: nat, count: nat, limit: nat)
    requires alloc == 0x100 && count == 0xFFFF_FFFF && limit == 0xB_FFFF
    ensures !Refused(alloc, count, limit)
    ensures Wrap(alloc + count) == alloc - 1
  {
  }

  /** The free count, and the free count less one, are always refused in a single request. */
  lemma FreeCountRefused(alloc: nat, limit: nat)
    requires alloc <= limit && limit + 1 < U32_LIMIT
    ensures Refused(alloc, limit + 1 - alloc, limit)
    ensures Refused(alloc, limit - alloc, limit)
  {
  }
}
