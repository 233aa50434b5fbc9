/**
 * Configuration constants of the LoongArch back end that its memory code
 * refers to.  The page size is the 4 KiB shared with every target; the other
 * values are those of a three-level table of 512-entry pages over a 48-bit
 * address space, the layout of section 7.5 of the LoongArch Reference Manual,
 * Volume 1.
 */
module LoongarchConfig {
  import opened Words

  /** The page number sits at bit 12 of an entry and is 36 bits wide. */
  const PPN_OFFSET_IN_PTE: nat := 12
  const PPN_WIDTH: nat := 36
  const PPN_MASK: usize := 0xf_ffff_ffff
  const PA_MASK: usize := 0xffff_ffff_ffff
  const VA_MASK: usize := 0xffff_ffff_ffff
  const VPN_MASK: usize := 0xf_ffff_ffff

  const PAGE_TABLE_LEVELS: nat := 3
  const PTE_INDEX_BITS: nat := 9
  const PTE_INDEX_MASK: usize := 511

  /** The page walker: entries are 2^PTE_SIZE_BITS bytes, each directory level
      starts `PTE_INDEX_BITS` above the previous one. */
  const PAGE_SHIFT: nat := 12
  const PTE_SIZE_BITS: nat := 3
  const DIR_1_SHIFT: nat := 21
  const DIR_2_SHIFT: nat := 30
  const DIR_3_SHIFT: nat := 39
  const DIR_4_SHIFT: nat := 48
  const PWCL_PTE_WIDTH: nat := 0

  /** The index width alone, for code that splits page numbers. */
  lemma IndexWidth()
    ensures Pow2(PTE_INDEX_BITS) == 512 && PTE_INDEX_MASK == Pow2(PTE_INDEX_BITS) - 1
  {
    Pow2Table();
  }

  /** What the rest of the model relies on about these values. */
  lemma ConfigAssumptions()
    ensures PPN_MASK == Pow2(PPN_WIDTH) - 1
    ensures PA_MASK == Pow2(48) - 1 && VA_MASK == Pow2(48) - 1 && VPN_MASK == Pow2(36) - 1
    ensures PTE_INDEX_MASK == Pow2(PTE_INDEX_BITS) - 1
    ensures PPN_OFFSET_IN_PTE + PPN_WIDTH <= 61
    ensures PAGE_SHIFT - PTE_SIZE_BITS == PTE_INDEX_BITS
    ensures DIR_1_SHIFT == PAGE_SHIFT + PTE_INDEX_BITS
    ensures DIR_2_SHIFT == DIR_1_SHIFT + PTE_INDEX_BITS
    ensures DIR_3_SHIFT == DIR_2_SHIFT + PTE_INDEX_BITS
    ensures DIR_4_SHIFT == DIR_3_SHIFT + PTE_INDEX_BITS
  {
    Pow2Table();
  }
}
