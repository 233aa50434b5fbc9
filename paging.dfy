/**
 * Page-granular arithmetic shared by every address type of both targets:
 * 4 KiB pages, the in-page offset, rounding an address to a page number
 * and turning a page number back into an address.
 *
 * Rust's `+` and `<<` on `usize` are taken with overflow checks off (a
 * release build): they wrap modulo 2^64.
 */
module Paging {
  import opened Words

  const PAGE_SIZE_BITS: nat := 12
  const PAGE_SIZE: nat := 4096
  const PAGE_MASK: usize := 4095
  /** Page-table entries are 8 bytes, so a page holds 512 of them. */
  const PTE_SIZE: nat := 8
  const PTES_PER_PAGE: nat := 512

  lemma PageConstants()
    ensures Pow2(PAGE_SIZE_BITS) == PAGE_SIZE && PAGE_MASK == PAGE_SIZE - 1
    ensures PTES_PER_PAGE == PAGE_SIZE / PTE_SIZE
  {
    Pow2Table();
  }

  /** `a + b` on `usize`, wrapping. */
  function WrappingAdd(a: usize, b: usize): (r: usize)
    ensures a + b < U64 ==> r == a + b
    ensures a + b >= U64 ==> r == a + b - U64
  {
    (a + b) % U64
  }

  /** `a & PAGE_MASK`: the offset of `a` inside its page. */
  function PageOffset(a: usize): (r: usize)
    ensures r < PAGE_SIZE && r == a % PAGE_SIZE
  {
    PageConstants();
    MaskLow(a, PAGE_SIZE_BITS);
    Mask(a, PAGE_MASK)
  }

  /** `(a + PAGE_MASK) / PAGE_SIZE`: the first page boundary at or above `a`. */
  function CeilPage(a: usize): usize
  {
    WrappingAdd(a, PAGE_MASK) / PAGE_SIZE
  }

  /** `p << PAGE_SIZE_BITS`: the first address of page `p`. */
  function PageAddress(p: usize): (r: usize)
    ensures r == (p * PAGE_SIZE) % U64
  {
    PageConstants();
    ShlUsize(p, PAGE_SIZE_BITS)
  }

  /** The ceiling is the floor exactly for an aligned address and one more
      otherwise; only the last partial page of the address space wraps to 0. */
  lemma CeilFloor(a: usize)
    ensures a + PAGE_MASK < U64 ==> (CeilPage(a) == a / PAGE_SIZE <==> PageOffset(a) == 0)
    ensures a + PAGE_MASK < U64 && PageOffset(a) != 0 ==> CeilPage(a) == a / PAGE_SIZE + 1
    ensures a + PAGE_MASK >= U64 ==> PageOffset(a) != 0 && CeilPage(a) == 0
  {
    var q, o := a / PAGE_SIZE, a % PAGE_SIZE;
    var s := WrappingAdd(a, PAGE_MASK);
    if a + PAGE_MASK < U64 {
      if o == 0 {
        ModUnique(s, PAGE_SIZE, q, PAGE_MASK);
      } else {
        ModUnique(s, PAGE_SIZE, q + 1, o - 1);
      }
    } else {
      ModUnique(s, PAGE_SIZE, 0, s);
      ModUnique(a, PAGE_SIZE, U64 / PAGE_SIZE - 1, a - (U64 - PAGE_SIZE));
    }
  }

  /** Shifting by the page size drops the top 12 bits of the page number. */
  lemma PageAddressValue(p: usize)
    ensures PageAddress(p) == (p % 0x10_0000_0000_0000) * 4096
  {
    var q, r := p / 0x10_0000_0000_0000, p % 0x10_0000_0000_0000;
    assert p * 4096 == U64 * q + r * 4096;
    ModUnique(p * 4096, U64, q, r * 4096);
  }

  /** The page of `PageAddress(p)` is `p` itself when `p` has no bits the shift
      drops, and that address is aligned. */
  lemma PageAddressFloor(p: usize)
    ensures PageOffset(PageAddress(p)) == 0
    ensures PageAddress(p) / PAGE_SIZE == p % 0x10_0000_0000_0000
    ensures p < 0x10_0000_0000_0000 ==> PageAddress(p) / PAGE_SIZE == p
  {
    PageAddressValue(p);
    var r := p % 0x10_0000_0000_0000;
    ModUnique(r * 4096, 4096, r, 0);
  }

  /** Flooring an aligned address and shifting the page back is the identity. */
  lemma AlignedRoundTrip(a: usize)
    requires PageOffset(a) == 0
    ensures PageAddress(a / PAGE_SIZE) == a
  {
    var q := a / PAGE_SIZE;
    assert a == q * PAGE_SIZE;
    ModUnique(q * PAGE_SIZE, U64, 0, a);
  }
}
