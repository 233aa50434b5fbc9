/**
 * Address arithmetic of the LoongArch back end on the shared address types.
 * Conversions from `usize` mask the value to the width of the address or
 * page number instead of checking it.
 */
module LoongarchMmAddr {
  import opened Words
  import opened Wrappers
  import opened Paging
  import opened CommonAddr
  import opened LoongarchConfig

  /** `PhysAddr::page_offset`. */
  function PhysAddrPageOffset(a: PhysAddr): (r: usize)
    ensures r < PAGE_SIZE && r == a.bits % PAGE_SIZE
  {
    PageOffset(a.bits)
  }

  /** `PhysAddr::aligned`. */
  predicate PhysAddrAligned(a: PhysAddr)
  {
    PhysAddrPageOffset(a) == 0
  }

  /** `PhysAddr::ceil`. */
  function PhysAddrCeil(a: PhysAddr): (r: PhysPageNum)
    ensures a.bits + PAGE_MASK < U64 ==> (r == PhysAddrFloor(a) <==> PhysAddrAligned(a))
    ensures a.bits + PAGE_MASK < U64 && !PhysAddrAligned(a) ==> r.bits == PhysAddrFloor(a).bits + 1
  {
    CeilFloor(a.bits);
    PhysPageNum(CeilPage(a.bits))
  }

  /** `PhysAddr::floor`. */
  function PhysAddrFloor(a: PhysAddr): (r: PhysPageNum)
    ensures r.bits * PAGE_SIZE <= a.bits < (r.bits + 1) * PAGE_SIZE
  {
    PhysPageNum(a.bits / PAGE_SIZE)
  }

  /** `From<usize> for PhysAddr`: `v & PA_MASK`. */
  function PhysAddrFromUsize(v: usize): (r: PhysAddr)
    ensures r.bits == v % 0x1_0000_0000_0000
  {
    ConfigAssumptions();
    MaskLow(v, 48);
    PhysAddr(Mask(v, PA_MASK))
  }

  /** `From<usize> for PhysPageNum`: `v & PPN_MASK`. */
  function PhysPageNumFromUsize(v: usize): (r: PhysPageNum)
    ensures r.bits == v % 0x10_0000_0000
  {
    ConfigAssumptions();
    MaskLow(v, 36);
    PhysPageNum(Mask(v, PPN_MASK))
  }

  /** `From<PhysAddr> for PhysPageNum`: panics on an unaligned address. */
  function PhysPageNumFromPhysAddr(a: PhysAddr): (r: Outcome<PhysPageNum>)
    ensures r.Panic? <==> !PhysAddrAligned(a)
    ensures r.Ok? ==> r.value == PhysAddrFloor(a) && PhysAddrFromPhysPageNum(r.value) == a
  {
    if !PhysAddrAligned(a) then Panic
    else
      AlignedRoundTrip(a.bits);
      Ok(PhysAddrFloor(a))
  }

  /** `From<PhysPageNum> for PhysAddr`: `v.0 << PAGE_SIZE_BITS`. */
  function PhysAddrFromPhysPageNum(p: PhysPageNum): (r: PhysAddr)
    ensures PhysAddrAligned(r)
    ensures p.bits < 0x10_0000_0000_0000 ==> PhysAddrFloor(r) == p
  {
    PageAddressFloor(p.bits);
    PhysAddr(PageAddress(p.bits))
  }

  /** `VirtAddr::page_offset`. */
  function VirtAddrPageOffset(v: VirtAddr): (r: usize)
    ensures r < PAGE_SIZE && r == v.bits % PAGE_SIZE
  {
    PageOffset(v.bits)
  }

  /** `VirtAddr::aligned`. */
  predicate VirtAddrAligned(v: VirtAddr)
  {
    VirtAddrPageOffset(v) == 0
  }

  /** `VirtAddr::ceil`. */
  function VirtAddrCeil(v: VirtAddr): (r: VirtPageNum)
    ensures v.bits + PAGE_MASK < U64 ==> (r == VirtAddrFloor(v) <==> VirtAddrAligned(v))
    ensures v.bits + PAGE_MASK < U64 && !VirtAddrAligned(v) ==> r.bits == VirtAddrFloor(v).bits + 1
  {
    CeilFloor(v.bits);
    VirtPageNum(CeilPage(v.bits))
  }

  /** `VirtAddr::floor`. */
  function VirtAddrFloor(v: VirtAddr): (r: VirtPageNum)
    ensures r.bits * PAGE_SIZE <= v.bits < (r.bits + 1) * PAGE_SIZE
  {
    VirtPageNum(v.bits / PAGE_SIZE)
  }

  /** `From<usize> for VirtAddr`: `v & VA_MASK`. */
  function VirtAddrFromUsize(v: usize): (r: VirtAddr)
    ensures r.bits == v % 0x1_0000_0000_0000
  {
    ConfigAssumptions();
    MaskLow(v, 48);
    VirtAddr(Mask(v, VA_MASK))
  }

  /** `From<usize> for VirtPageNum`: `v & VPN_MASK`. */
  function VirtPageNumFromUsize(v: usize): (r: VirtPageNum)
    ensures r.bits == v % 0x10_0000_0000
  {
    ConfigAssumptions();
    MaskLow(v, 36);
    VirtPageNum(Mask(v, VPN_MASK))
  }

  /** `From<VirtAddr> for VirtPageNum`: panics on an unaligned address. */
  function VirtPageNumFromVirtAddr(v: VirtAddr): (r: Outcome<VirtPageNum>)
    ensures r.Panic? <==> !VirtAddrAligned(v)
    ensures r.Ok? ==> r.value == VirtAddrFloor(v) && VirtAddrFromVirtPageNum(r.value) == v
  {
    if !VirtAddrAligned(v) then Panic
    else
      AlignedRoundTrip(v.bits);
      Ok(VirtAddrFloor(v))
  }

  /** `From<VirtPageNum> for VirtAddr`: `v.0 << PAGE_SIZE_BITS`. */
  function VirtAddrFromVirtPageNum(p: VirtPageNum): (r: VirtAddr)
    ensures VirtAddrAligned(r)
    ensures p.bits < 0x10_0000_0000_0000 ==> VirtAddrFloor(r) == p
  {
    PageAddressFloor(p.bits);
    VirtAddr(PageAddress(p.bits))
  }

  /** Masking twice is masking once, and a value already inside the mask is
      kept as it is: the conversions never fail and are idempotent. */
  lemma FromUsizeIdempotent(v: usize)
    ensures PhysAddrFromUsize(PhysAddrFromUsize(v).bits) == PhysAddrFromUsize(v)
    ensures PhysPageNumFromUsize(PhysPageNumFromUsize(v).bits) == PhysPageNumFromUsize(v)
    ensures VirtAddrFromUsize(VirtAddrFromUsize(v).bits) == VirtAddrFromUsize(v)
    ensures VirtPageNumFromUsize(VirtPageNumFromUsize(v).bits) == VirtPageNumFromUsize(v)
    ensures v < 0x10_0000_0000 ==> PhysPageNumFromUsize(v).bits == v && VirtPageNumFromUsize(v).bits == v
    ensures v < 0x1_0000_0000_0000 ==> PhysAddrFromUsize(v).bits == v && VirtAddrFromUsize(v).bits == v
  {
    var a := PhysAddrFromUsize(v);
    var b := PhysPageNumFromUsize(v);
    var c := VirtAddrFromUsize(v);
    var d := VirtPageNumFromUsize(v);
    ModOfMod(v, 0x1_0000_0000_0000);
    ModOfMod(v, 0x10_0000_0000);
    if v < 0x10_0000_0000 {
      ModUnique(v, 0x10_0000_0000, 0, v);
    }
    if v < 0x1_0000_0000_0000 {
      ModUnique(v, 0x1_0000_0000_0000, 0, v);
    }
    assert PhysAddrFromUsize(a.bits).bits == a.bits;
    assert PhysPageNumFromUsize(b.bits).bits == b.bits;
    assert VirtAddrFromUsize(c.bits).bits == c.bits;
    assert VirtPageNumFromUsize(d.bits).bits == d.bits;
  }

  /** A page number that went through `From<usize>` comes back from its
      address unchanged. */
  lemma PageAddressRoundTrip(v: usize)
    ensures PhysAddrFloor(PhysAddrFromPhysPageNum(PhysPageNumFromUsize(v))) == PhysPageNumFromUsize(v)
    ensures VirtAddrFloor(VirtAddrFromVirtPageNum(VirtPageNumFromUsize(v))) == VirtPageNumFromUsize(v)
    ensures PhysPageNumFromPhysAddr(PhysAddrFromPhysPageNum(PhysPageNumFromUsize(v))) == Ok(PhysPageNumFromUsize(v))
  {
  }
}
