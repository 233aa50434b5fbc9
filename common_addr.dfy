/**
 * The four address newtypes shared by the architecture back ends
 * (`PhysAddr`, `VirtAddr`, `PhysPageNum`, `VirtPageNum`), each a single
 * public `usize` field with derived equality and ordering.
 */
module CommonAddr {
  import opened Words
  import opened Paging

  datatype PhysAddr = PhysAddr(bits: usize)
  datatype VirtAddr = VirtAddr(bits: usize)
  datatype PhysPageNum = PhysPageNum(bits: usize)
  datatype VirtPageNum = VirtPageNum(bits: usize)

  /** The result of a derived `Ord::cmp`. */
  datatype Ordering = Less | Equal | Greater

  /** `Ord::cmp` on `usize`. */
  function CmpUsize(a: usize, b: usize): (r: Ordering)
    ensures r == Less <==> a < b
    ensures r == Equal <==> a == b
    ensures r == Greater <==> a > b
  {
    if a < b then Less else if a == b then Equal else Greater
  }

  /** `usize::from(PhysAddr)`. */
  function PhysAddrToUsize(v: PhysAddr): (r: usize)
    ensures PhysAddr(r) == v
  {
    v.bits
  }

  /** `usize::from(VirtAddr)`. */
  function VirtAddrToUsize(v: VirtAddr): (r: usize)
    ensures VirtAddr(r) == v
  {
    v.bits
  }

  /** `usize::from(PhysPageNum)`. */
  function PhysPageNumToUsize(v: PhysPageNum): (r: usize)
    ensures PhysPageNum(r) == v
  {
    v.bits
  }

  /** `usize::from(VirtPageNum)`. */
  function VirtPageNumToUsize(v: VirtPageNum): (r: usize)
    ensures VirtPageNum(r) == v
  {
    v.bits
  }

  /** The derived `Ord::cmp` compares the single field. */
  function ComparePhysPageNum(a: PhysPageNum, b: PhysPageNum): Ordering
  {
    CmpUsize(a.bits, b.bits)
  }

  function CompareVirtPageNum(a: VirtPageNum, b: VirtPageNum): Ordering
  {
    CmpUsize(a.bits, b.bits)
  }

  function ComparePhysAddr(a: PhysAddr, b: PhysAddr): Ordering
  {
    CmpUsize(a.bits, b.bits)
  }

  function CompareVirtAddr(a: VirtAddr, b: VirtAddr): Ordering
  {
    CmpUsize(a.bits, b.bits)
  }

  /** Conversion to `usize` is injective and carries the derived order over to
      the order of the numbers, for all four newtypes. */
  lemma ConversionsKeepEqualityAndOrder(a: PhysAddr, b: PhysAddr, c: VirtAddr, d: VirtAddr,
                                       e: PhysPageNum, f: PhysPageNum, g: VirtPageNum, h: VirtPageNum)
    ensures a == b <==> PhysAddrToUsize(a) == PhysAddrToUsize(b)
    ensures c == d <==> VirtAddrToUsize(c) == VirtAddrToUsize(d)
    ensures e == f <==> PhysPageNumToUsize(e) == PhysPageNumToUsize(f)
    ensures g == h <==> VirtPageNumToUsize(g) == VirtPageNumToUsize(h)
    ensures ComparePhysAddr(a, b) == Less <==> PhysAddrToUsize(a) < PhysAddrToUsize(b)
    ensures CompareVirtAddr(c, d) == Less <==> VirtAddrToUsize(c) < VirtAddrToUsize(d)
    ensures ComparePhysPageNum(e, f) == Less <==> PhysPageNumToUsize(e) < PhysPageNumToUsize(f)
    ensures CompareVirtPageNum(g, h) == Less <==> VirtPageNumToUsize(g) < VirtPageNumToUsize(h)
    ensures ComparePhysPageNum(e, f) == Equal <==> e == f
    ensures CompareVirtPageNum(g, h) == Equal <==> g == h
  {
  }

  /** `VirtPageNum::step`: `self.0 += 1`, wrapping at the top of `usize`. */
  function VirtPageNumStep(v: VirtPageNum): (r: VirtPageNum)
    ensures v.bits < U64 - 1 ==> VirtPageNumToUsize(r) == VirtPageNumToUsize(v) + 1
    ensures v.bits < U64 - 1 ==> CompareVirtPageNum(v, r) == Less
    ensures v.bits == U64 - 1 ==> r.bits == 0
  {
    VirtPageNum(WrappingAdd(v.bits, 1))
  }

  /** `PhysPageNum::step`: `self.0 += 1`, wrapping at the top of `usize`. */
  function PhysPageNumStep(p: PhysPageNum): (r: PhysPageNum)
    ensures p.bits < U64 - 1 ==> PhysPageNumToUsize(r) == PhysPageNumToUsize(p) + 1
    ensures p.bits < U64 - 1 ==> ComparePhysPageNum(p, r) == Less
    ensures p.bits == U64 - 1 ==> r.bits == 0
  {
    PhysPageNum(WrappingAdd(p.bits, 1))
  }
}
