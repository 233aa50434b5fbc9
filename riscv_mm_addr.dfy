/**
 * Address arithmetic of the RISC-V Sv39 back end (section 4.4 of the RISC-V
 * Privileged Architecture specification): 39-bit virtual addresses, 44-bit
 * physical page numbers, a direct map of physical memory at
 * `VIRT_RAM_OFFSET`, and a three-level page table.
 *
 * `VirtAddr::from` and `VirtPageNum::from` only log a warning for an
 * out-of-range value; the log is output, so each is modelled as the value it
 * returns plus a predicate saying when the warning is emitted.
 */
module RiscvMmAddr {
  import opened Words
  import opened Wrappers
  import opened Paging
  import opened CommonAddr
  import PageIndex

  const PPN_WIDTH_SV39: nat := 44
  const VA_WIDTH_SV39: nat := 39
  const VPN_WIDTH_SV39: nat := 27
  const VIRT_RAM_OFFSET: usize := 0xffff_ffc0_0000_0000
  const PAGE_TABLE_LEVEL_NUM: nat := 3

  /** `u as isize`: the two's-complement reading of a `usize`. */
  function AsIsize(u: usize): int
  {
    if u < 0x8000_0000_0000_0000 then u else u - U64
  }

  /** `x >> k` on `isize`: an arithmetic shift rounds toward minus infinity,
      which is Dafny's division by a positive number. */
  function ArithShr(x: int, k: nat): int
  {
    x / Pow2(k)
  }

  /** `x / d` is 0 or -1 exactly when `-d <= x < d`. */
  lemma SmallQuotient(x: int, d: int)
    requires d > 0
    ensures x / d == 0 || x / d == -1 <==> -d <= x < d
  {
    if 0 <= x < d {
      ModUnique(x, d, 0, x);
    } else if -d <= x < 0 {
      ModUnique(x, d, -1, x + d);
    } else if x >= d {
      var q := x / d;
      if q <= 0 {
        MulLeMono(d, q, 0);
      }
    } else {
      var q := x / d;
      if q >= -1 {
        MulLeMono(d, -1, q);
      }
    }
  }

  /** `(u as isize) >> k` is 0 or -1 exactly when bits `k` .. 63 of `u` are
      all equal. */
  lemma SignExtendedCheck(u: usize, k: nat)
    requires k < 63
    ensures ArithShr(AsIsize(u), k) == 0 || ArithShr(AsIsize(u), k) == -1
        <==> u < Pow2(k) || u >= U64 - Pow2(k)
  {
    Pow2Sign();
    Pow2Monotone(k, 63);
    SmallQuotient(AsIsize(u), Pow2(k));
  }

  // ---- PhysAddr ----

  /** `PhysAddr::page_offset`. */
  function PhysAddrPageOffset(a: PhysAddr): (r: usize)
    ensures r < PAGE_SIZE && r == a.bits % PAGE_SIZE
  {
    PageOffset(a.bits)
  }

  /** `PhysAddr::aligned`. */
  predicate PhysAddrAligned(a: PhysAddr)
  {
    PhysAddrPageOffset(a) == 0
  }

  /** `PhysAddr::ceil`. */
  function PhysAddrCeil(a: PhysAddr): (r: PhysPageNum)
    ensures a.bits + PAGE_MASK < U64 ==> (r == PhysAddrFloor(a) <==> PhysAddrAligned(a))
    ensures a.bits + PAGE_MASK < U64 && !PhysAddrAligned(a) ==> r.bits == PhysAddrFloor(a).bits + 1
  {
    CeilFloor(a.bits);
    PhysPageNum(CeilPage(a.bits))
  }

  /** `PhysAddr::floor`. */
  function PhysAddrFloor(a: PhysAddr): (r: PhysPageNum)
    ensures r.bits * PAGE_SIZE <= a.bits < (r.bits + 1) * PAGE_SIZE
  {
    PhysPageNum(a.bits / PAGE_SIZE)
  }

  /** `PhysAddr::to_vaddr`: the address of `a` in the direct map.  The sum
      wraps; the conversion warns but returns the sum unchanged. */
  function PhysAddrToVaddr(a: PhysAddr): (r: VirtAddr)
    ensures a.bits < U64 - VIRT_RAM_OFFSET ==> r.bits == a.bits + VIRT_RAM_OFFSET
  {
    VirtAddrFromUsize(WrappingAdd(a.bits, VIRT_RAM_OFFSET))
  }

  /** `From<usize> for PhysAddr`. */
  function PhysAddrFromUsize(v: usize): (r: PhysAddr)
    ensures PhysAddrToUsize(r) == v
  {
    PhysAddr(v)
  }

  /** `From<PhysAddr> for PhysPageNum`: panics on an unaligned address. */
  function PhysPageNumFromPhysAddr(a: PhysAddr): (r: Outcome<PhysPageNum>)
    ensures r.Panic? <==> !PhysAddrAligned(a)
    ensures r.Ok? ==> r.value == PhysAddrFloor(a) && PhysAddrFromPhysPageNum(r.value) == a
  {
    if !PhysAddrAligned(a) then Panic
    else
      AlignedRoundTrip(a.bits);
      Ok(PhysAddrFloor(a))
  }

  /** `From<PhysPageNum> for PhysAddr`: `v.0 << PAGE_SIZE_BITS`. */
  function PhysAddrFromPhysPageNum(p: PhysPageNum): (r: PhysAddr)
    ensures PhysAddrAligned(r)
    ensures p.bits < 0x10_0000_0000_0000 ==> PhysAddrFloor(r) == p
  {
    PageAddressFloor(p.bits);
    PhysAddr(PageAddress(p.bits))
  }

  /** `From<usize> for PhysPageNum`: asserts that the value is
      sign-extended above `PPN_WIDTH_SV39` bits. */
  function PhysPageNumFromUsize(u: usize): (r: Outcome<PhysPageNum>)
    ensures r.Ok? <==> u < 0x1000_0000_0000 || u >= U64 - 0x1000_0000_0000
    ensures r.Ok? ==> r.value.bits == u
  {
    Pow2Table();
    SignExtendedCheck(u, PPN_WIDTH_SV39);
    var tmp := ArithShr(AsIsize(u), PPN_WIDTH_SV39);
    if !(tmp == 0 || tmp == -1) then Panic else Ok(PhysPageNum(u))
  }

  /** `PhysPageNum::to_paddr`. */
  function PhysPageNumToPaddr(p: PhysPageNum): (r: PhysAddr)
    ensures r == PhysAddrFromPhysPageNum(p)
  {
    PhysAddrFromPhysPageNum(p)
  }

  // ---- VirtAddr ----

  /** `VirtAddr::to_paddr`: the inverse of the direct map. */
  function VirtAddrToPaddr(v: VirtAddr): (r: Option<PhysAddr>)
    ensures r.Some? <==> v.bits >= VIRT_RAM_OFFSET
    ensures r.Some? ==> r.value.bits + VIRT_RAM_OFFSET == v.bits
  {
    if v.bits >= VIRT_RAM_OFFSET then Some(PhysAddrFromUsize(v.bits - VIRT_RAM_OFFSET)) else None
  }

  /** `VirtAddr::floor`. */
  function VirtAddrFloor(v: VirtAddr): (r: VirtPageNum)
    ensures r.bits * PAGE_SIZE <= v.bits < (r.bits + 1) * PAGE_SIZE
  {
    VirtPageNum(v.bits / PAGE_SIZE)
  }

  /** `VirtAddr::round_down`: `self.0 & !PAGE_MASK`. */
  function VirtAddrRoundDown(v: VirtAddr): (r: VirtAddr)
    ensures r.bits == v.bits - VirtAddrPageOffset(v)
  {
    Pow2Table();
    MaskHigh(v.bits, PAGE_SIZE_BITS);
    VirtAddr(Mask(v.bits, Not(PAGE_MASK)))
  }

  /** `VirtAddr::ceil`. */
  function VirtAddrCeil(v: VirtAddr): (r: VirtPageNum)
    ensures v.bits + PAGE_MASK < U64 ==> (r == VirtAddrFloor(v) <==> VirtAddrAligned(v))
    ensures v.bits + PAGE_MASK < U64 && !VirtAddrAligned(v) ==> r.bits == VirtAddrFloor(v).bits + 1
  {
    CeilFloor(v.bits);
    VirtPageNum(CeilPage(v.bits))
  }

  /** `VirtAddr::round_up`: `(self.0 + PAGE_MASK) & !PAGE_MASK`. */
  function VirtAddrRoundUp(v: VirtAddr): (r: VirtAddr)
    ensures r.bits == WrappingAdd(v.bits, PAGE_MASK) - WrappingAdd(v.bits, PAGE_MASK) % PAGE_SIZE
  {
    Pow2Table();
    MaskHigh(WrappingAdd(v.bits, PAGE_MASK), PAGE_SIZE_BITS);
    VirtAddr(Mask(WrappingAdd(v.bits, PAGE_MASK), Not(PAGE_MASK)))
  }

  /** `VirtAddr::page_offset`. */
  function VirtAddrPageOffset(v: VirtAddr): (r: usize)
    ensures r < PAGE_SIZE && r == v.bits % PAGE_SIZE
  {
    PageOffset(v.bits)
  }

  /** `VirtAddr::aligned`. */
  predicate VirtAddrAligned(v: VirtAddr)
  {
    VirtAddrPageOffset(v) == 0
  }

  /** `From<usize> for VirtAddr` returns its argument unchanged ... */
  function VirtAddrFromUsize(v: usize): (r: VirtAddr)
    ensures VirtAddrToUsize(r) == v
  {
    VirtAddr(v)
  }

  /** ... and logs a warning when `(v as isize) >> VA_WIDTH_SV39` is neither
      0 nor -1. */
  predicate VirtAddrFromUsizeWarns(v: usize)
  {
    var tmp := ArithShr(AsIsize(v), VA_WIDTH_SV39);
    !(tmp == 0 || tmp == -1)
  }

  /** A canonical Sv39 address: bits 63 .. 39 all equal bit 38. */
  predicate CanonicalSv39(v: usize)
  {
    v < 0x40_0000_0000 || v >= U64 - 0x40_0000_0000
  }

  /** The check as written accepts exactly the addresses whose bits 63 .. 39
      agree, which takes in values whose bit 38 differs from them. */
  lemma VirtAddrWarningAsWritten(v: usize)
    ensures !VirtAddrFromUsizeWarns(v) <==> v < 0x80_0000_0000 || v >= U64 - 0x80_0000_0000
  {
    Pow2Table();
    SignExtendedCheck(v, VA_WIDTH_SV39);
  }

  /** The address 2^38 is not canonical, yet `VirtAddr::from` takes it without
      a warning, while `VirtPageNum::from` warns about its page number. */
  lemma VirtAddrWarningMissesBit38()
    ensures !CanonicalSv39(0x40_0000_0000)
    ensures !VirtAddrFromUsizeWarns(0x40_0000_0000)
    ensures VirtPageNumFromUsizeWarns(0x40_0000_0000 / PAGE_SIZE)
  {
    VirtAddrWarningAsWritten(0x40_0000_0000);
    VirtPageNumWarning(0x40_0000_0000 / PAGE_SIZE);
  }

  /** The check with the shift by `VA_WIDTH_SV39 - 1`, as the page-number
      check does it. */
  predicate VirtAddrFromUsizeWarnsFixed(v: usize)
  {
    var tmp := ArithShr(AsIsize(v), VA_WIDTH_SV39 - 1);
    !(tmp == 0 || tmp == -1)
  }

  /** The corrected check warns exactly on non-canonical addresses, and the
      page number of an address it accepts is accepted by `VirtPageNum::from`. */
  lemma VirtAddrWarningFixed(v: usize)
    ensures VirtAddrFromUsizeWarnsFixed(v) <==> !CanonicalSv39(v)
    ensures !VirtAddrFromUsizeWarnsFixed(v) ==> !VirtPageNumFromUsizeWarns(v / PAGE_SIZE)
  {
    Pow2Table();
    SignExtendedCheck(v, VA_WIDTH_SV39 - 1);
    VirtPageNumWarning(v / PAGE_SIZE);
  }

  /** `From<usize> for VirtPageNum` returns its argument unchanged ... */
  function VirtPageNumFromUsize(v: usize): (r: VirtPageNum)
    ensures VirtPageNumToUsize(r) == v
  {
    VirtPageNum(v)
  }

  /** ... and logs a warning unless `v >> (VPN_WIDTH_SV39 - 1)` is 0 or
      `(1 << (52 - VPN_WIDTH_SV39 + 1)) - 1`. */
  predicate VirtPageNumFromUsizeWarns(v: usize)
  {
    var tmp := v / Pow2(VPN_WIDTH_SV39 - 1);
    !(tmp == 0 || tmp == Pow2(52 - VPN_WIDTH_SV39 + 1) - 1)
  }

  /** The page-number check accepts exactly the page numbers of canonical
      addresses: below 2^26, or with bits 26 .. 51 set and nothing above. */
  lemma VirtPageNumWarning(v: usize)
    ensures !VirtPageNumFromUsizeWarns(v) <==>
      v < 0x400_0000 || 0x10_0000_0000_0000 - 0x400_0000 <= v < 0x10_0000_0000_0000
  {
    Pow2Table();
    var tmp := v / 0x400_0000;
    if tmp == 0x3ff_ffff {
      assert 0x3ff_ffff * 0x400_0000 <= v;
    }
  }

  /** `From<VirtAddr> for VirtPageNum`: panics on a nonzero page offset. */
  function VirtPageNumFromVirtAddr(v: VirtAddr): (r: Outcome<VirtPageNum>)
    ensures r.Panic? <==> VirtAddrPageOffset(v) != 0
    ensures r.Ok? ==> r.value == VirtAddrFloor(v) && VirtAddrFromVirtPageNum(r.value) == v
  {
    if VirtAddrPageOffset(v) != 0 then Panic
    else
      AlignedRoundTrip(v.bits);
      Ok(VirtAddrFloor(v))
  }

  /** `From<VirtPageNum> for VirtAddr`: `v.0 << PAGE_SIZE_BITS`. */
  function VirtAddrFromVirtPageNum(p: VirtPageNum): (r: VirtAddr)
    ensures VirtAddrAligned(r)
    ensures p.bits < 0x10_0000_0000_0000 ==> VirtAddrFloor(r) == p
  {
    PageAddressFloor(p.bits);
    VirtAddr(PageAddress(p.bits))
  }

  /** `VirtPageNum::indices`: the loop fills the array from the last level
      upwards, taking 9 bits of the page number at a time. */
  method VirtPageNumIndices(p: VirtPageNum) returns (indices: seq<usize>)
    ensures |indices| == PAGE_TABLE_LEVEL_NUM
    ensures indices == PageIndex.Indices(p.bits, PAGE_TABLE_LEVEL_NUM)
  {
    PageIndex.EntriesWidth();
    var vpn := p.bits;
    indices := [0, 0, 0];
    var i := PAGE_TABLE_LEVEL_NUM;
    ghost var shift: nat := 0;
    while i > 0
      invariant 0 <= i <= PAGE_TABLE_LEVEL_NUM && |indices| == PAGE_TABLE_LEVEL_NUM
      invariant shift == PageIndex.INDEX_BITS * (PAGE_TABLE_LEVEL_NUM - i)
      invariant vpn == p.bits / Pow2(shift)
      invariant indices[i..] == PageIndex.Indices(p.bits, PAGE_TABLE_LEVEL_NUM - i)
    {
      i := i - 1;
      ghost var rest := indices[i + 1..];
      MaskLow(vpn, PageIndex.INDEX_BITS);
      var idx := Mask(vpn, PTES_PER_PAGE - 1);
      PageIndex.IndicesPrepend(p.bits, PAGE_TABLE_LEVEL_NUM - 1 - i);
      indices := indices[i := idx];
      assert indices[i..] == [idx] + rest;
      Pow2Add(shift, PageIndex.INDEX_BITS);
      DivDiv(p.bits, Pow2(shift), PageIndex.ENTRIES);
      vpn := vpn / PageIndex.ENTRIES;
      shift := shift + PageIndex.INDEX_BITS;
    }
  }

  /** The `PAGE_TABLE_LEVEL_NUM` indices are each below `PTES_PER_PAGE`, the
      root index is the most significant, and together they hold the low 27
      bits of the page number. */
  lemma IndicesDecompose(p: VirtPageNum)
    ensures var idx := PageIndex.Indices(p.bits, PAGE_TABLE_LEVEL_NUM);
      idx[0] < PTES_PER_PAGE && idx[1] < PTES_PER_PAGE && idx[2] < PTES_PER_PAGE
      && idx[0] == p.bits / 0x4_0000 % 512
      && idx[1] == p.bits / 512 % 512
      && idx[2] == p.bits % 512
      && PageIndex.Combine(idx) == p.bits % Pow2(VPN_WIDTH_SV39)
  {
    Pow2Table();
    PageIndex.IndicesBounded(p.bits, 3);
    PageIndex.IndexDigit(p.bits, 3, 0);
    PageIndex.IndexDigit(p.bits, 3, 1);
    PageIndex.IndexDigit(p.bits, 3, 2);
    PageIndex.CombineIndices(p.bits, 3);
  }

  /** Going into the direct map and back gives the physical address again. */
  lemma DirectMapRoundTrip(a: PhysAddr)
    requires a.bits < U64 - VIRT_RAM_OFFSET
    ensures VirtAddrToPaddr(PhysAddrToVaddr(a)) == Some(a)
  {
  }

  /** `round_down(v) <= v <= round_up(v)`, both are aligned, and either is
      `v` itself exactly when `v` is aligned (for `round_up`, while the sum
      does not wrap). */
  lemma RoundingBounds(v: VirtAddr)
    ensures VirtAddrRoundDown(v).bits <= v.bits
    ensures VirtAddrAligned(VirtAddrRoundDown(v)) && VirtAddrAligned(VirtAddrRoundUp(v))
    ensures VirtAddrRoundDown(v) == v <==> VirtAddrAligned(v)
    ensures v.bits + PAGE_MASK < U64 ==> v.bits <= VirtAddrRoundUp(v).bits < v.bits + PAGE_SIZE
    ensures v.bits + PAGE_MASK < U64 ==> (VirtAddrRoundUp(v) == v <==> VirtAddrAligned(v))
    ensures v.bits + PAGE_MASK >= U64 ==> VirtAddrRoundUp(v).bits == 0
  {
    var o := v.bits % PAGE_SIZE;
    var d := VirtAddrRoundDown(v).bits;
    ModUnique(d, PAGE_SIZE, v.bits / PAGE_SIZE, 0);
    var s := WrappingAdd(v.bits, PAGE_MASK);
    var u := VirtAddrRoundUp(v).bits;
    ModUnique(u, PAGE_SIZE, s / PAGE_SIZE, 0);
    if v.bits + PAGE_MASK < U64 {
      assert s == v.bits + PAGE_MASK;
      if o == 0 {
        ModUnique(s, PAGE_SIZE, v.bits / PAGE_SIZE, PAGE_MASK);
      } else {
        ModUnique(s, PAGE_SIZE, v.bits / PAGE_SIZE + 1, o - 1);
      }
    } else {
      assert s < PAGE_MASK;
    }
  }
}
