/**
 * The earlier iteration of the address newtypes, used by the first RISC-V
 * back end and by the LoongArch address code under `arch/`.  Each wraps one
 * public `usize` with derived equality and ordering.
 */
module Addr {
  import opened Words

  datatype PhysAddr = PhysAddr(bits: usize)
  datatype VirtAddr = VirtAddr(bits: usize)
  datatype PhysPageNum = PhysPageNum(bits: usize)
  datatype VirtPageNum = VirtPageNum(bits: usize)

  /** `usize::from(PhysAddr)`. */
  function PhysAddrToUsize(v: PhysAddr): (r: usize)
    ensures PhysAddr(r) == v
  {
    v.bits
  }

  /** `usize::from(VirtAddr)`. */
  function VirtAddrToUsize(v: VirtAddr): (r: usize)
    ensures VirtAddr(r) == v
  {
    v.bits
  }

  /** `usize::from(PhysPageNum)`. */
  function PhysPageNumToUsize(v: PhysPageNum): (r: usize)
    ensures PhysPageNum(r) == v
  {
    v.bits
  }

  /** `usize::from(VirtPageNum)`. */
  function VirtPageNumToUsize(v: VirtPageNum): (r: usize)
    ensures VirtPageNum(r) == v
  {
    v.bits
  }

  /** The derived `PartialOrd::lt` compares the single field. */
  predicate PhysPageNumLt(a: PhysPageNum, b: PhysPageNum)
  {
    a.bits < b.bits
  }

  predicate VirtPageNumLt(a: VirtPageNum, b: VirtPageNum)
  {
    a.bits < b.bits
  }

  /** Conversion to `usize` is injective and order-preserving. */
  lemma ConversionsKeepEqualityAndOrder(a: PhysAddr, b: PhysAddr, c: VirtAddr, d: VirtAddr,
                                       e: PhysPageNum, f: PhysPageNum, g: VirtPageNum, h: VirtPageNum)
    ensures a == b <==> PhysAddrToUsize(a) == PhysAddrToUsize(b)
    ensures c == d <==> VirtAddrToUsize(c) == VirtAddrToUsize(d)
    ensures e == f <==> PhysPageNumToUsize(e) == PhysPageNumToUsize(f)
    ensures g == h <==> VirtPageNumToUsize(g) == VirtPageNumToUsize(h)
    ensures PhysPageNumLt(e, f) <==> PhysPageNumToUsize(e) < PhysPageNumToUsize(f)
    ensures VirtPageNumLt(g, h) <==> VirtPageNumToUsize(g) < VirtPageNumToUsize(h)
  {
  }
}
