/**
 * The first RISC-V address code: page numbers by division, offsets by
 * masking, and conversions from `usize` that accept every value.
 */
module Riscv64Addr {
  import opened Words
  import opened Paging
  import opened Addr

  /** `PhysAddr::page_number`. */
  function PhysAddrPageNumber(a: PhysAddr): (r: PhysPageNum)
    ensures r.bits * PAGE_SIZE <= a.bits < (r.bits + 1) * PAGE_SIZE
  {
    PhysPageNum(a.bits / PAGE_SIZE)
  }

  /** `PhysAddr::page_offset`. */
  function PhysAddrPageOffset(a: PhysAddr): (r: usize)
    ensures r < PAGE_SIZE && r == a.bits % PAGE_SIZE
  {
    PageOffset(a.bits)
  }

  /** `PhysAddr::aligned`. */
  predicate PhysAddrAligned(a: PhysAddr)
  {
    PhysAddrPageOffset(a) == 0
  }

  /** `From<usize> for PhysAddr`: never fails, keeps every bit. */
  function PhysAddrFromUsize(v: usize): (r: PhysAddr)
    ensures PhysAddrToUsize(r) == v
  {
    PhysAddr(v)
  }

  /** `From<PhysAddr> for PhysPageNum`: floors without checking alignment. */
  function PhysPageNumFromPhysAddr(a: PhysAddr): (r: PhysPageNum)
    ensures r == PhysAddrPageNumber(a)
  {
    PhysAddrPageNumber(a)
  }

  /** `VirtAddr::page_number`. */
  function VirtAddrPageNumber(a: VirtAddr): (r: VirtPageNum)
    ensures r.bits * PAGE_SIZE <= a.bits < (r.bits + 1) * PAGE_SIZE
  {
    VirtPageNum(a.bits / PAGE_SIZE)
  }

  /** `VirtAddr::page_offset`. */
  function VirtAddrPageOffset(a: VirtAddr): (r: usize)
    ensures r < PAGE_SIZE && r == a.bits % PAGE_SIZE
  {
    PageOffset(a.bits)
  }

  /** `VirtAddr::aligned`. */
  predicate VirtAddrAligned(a: VirtAddr)
  {
    VirtAddrPageOffset(a) == 0
  }

  /** `From<usize> for VirtAddr`: never fails, keeps every bit. */
  function VirtAddrFromUsize(v: usize): (r: VirtAddr)
    ensures VirtAddrToUsize(r) == v
  {
    VirtAddr(v)
  }

  /** `From<VirtAddr> for VirtPageNum`: floors without checking alignment. */
  function VirtPageNumFromVirtAddr(a: VirtAddr): (r: VirtPageNum)
    ensures r == VirtAddrPageNumber(a)
  {
    VirtAddrPageNumber(a)
  }

  /** `PhysPageNum::address`: `self.0 * PAGE_SIZE`, wrapping. */
  function PhysPageNumAddress(p: PhysPageNum): (r: PhysAddr)
    ensures r.bits == (p.bits * PAGE_SIZE) % U64
  {
    PhysAddr(PageAddress(p.bits))
  }

  /** `From<usize> for PhysPageNum`: never fails, keeps every bit. */
  function PhysPageNumFromUsize(v: usize): (r: PhysPageNum)
    ensures PhysPageNumToUsize(r) == v
  {
    PhysPageNum(v)
  }

  /** `VirtPageNum::address`: `self.0 * PAGE_SIZE`, wrapping. */
  function VirtPageNumAddress(p: VirtPageNum): (r: VirtAddr)
    ensures r.bits == (p.bits * PAGE_SIZE) % U64
  {
    VirtAddr(PageAddress(p.bits))
  }

  /** `From<usize> for VirtPageNum`: never fails, keeps every bit. */
  function VirtPageNumFromUsize(v: usize): (r: VirtPageNum)
    ensures VirtPageNumToUsize(r) == v
  {
    VirtPageNum(v)
  }

  /** Aligned exactly when the offset is zero, for both address kinds. */
  lemma AlignedIffMultiple(a: PhysAddr, b: VirtAddr)
    ensures PhysAddrAligned(a) <==> a.bits % PAGE_SIZE == 0
    ensures VirtAddrAligned(b) <==> b.bits % PAGE_SIZE == 0
  {
  }

  /** The page number of a page's address is that page, while the
      multiplication does not overflow. */
  lemma PageNumberOfAddress(p: PhysPageNum, q: VirtPageNum)
    requires p.bits < 0x10_0000_0000_0000 && q.bits < 0x10_0000_0000_0000
    ensures PhysAddrPageNumber(PhysPageNumAddress(p)) == p
    ensures VirtAddrPageNumber(VirtPageNumAddress(q)) == q
  {
    PageAddressFloor(p.bits);
    PageAddressFloor(q.bits);
  }

  /** The address of an address's page is the address with its offset
      cleared. */
  lemma AddressOfPageNumber(a: PhysAddr, b: VirtAddr)
    ensures PhysPageNumAddress(PhysAddrPageNumber(a)).bits == a.bits - PhysAddrPageOffset(a)
    ensures VirtPageNumAddress(VirtAddrPageNumber(b)).bits == b.bits - VirtAddrPageOffset(b)
  {
  }
}
