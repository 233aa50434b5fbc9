# MantaHal virtual-memory core in Dafny

This project models the virtual-memory layer of MantaHal, a hardware
abstraction layer for RISC-V 64 and LoongArch 64 kernels written in Rust,
together with the small pieces that sit beside it. It covers:

- **Physical frame allocator.** A bump pointer over the page numbers
  `[current, end)` and a LIFO stack of released pages. Releasing a page at
  or above the bump pointer, or one already released, panics; a page below
  the lower bound given to `init` is taken back without complaint. Around it sit the `FrameTracker`
  handles, which give their page back when dropped, and the init-once global
  that holds the allocator. The global is declared as a
  `&'static dyn FrameAlloc` (src/common/frame_allocator.rs:49); the model
  instantiates it with the LoongArch `StackFrameAllocator`, and what is
  proved about the global (such as `AllocDropAlloc`) holds for that LIFO
  implementation only.
- **Page-table entries** in three encodings: RISC-V Sv39, the LoongArch
  page-table format (inverted not-readable and not-executable bits, a two-bit
  privilege field), and the earlier LoongArch entry type. Each encoding
  translates to and from the architecture-neutral flag set
  `{V, R, W, X, U, D, A, G}`.
- **The LoongArch radix-tree walk.** `find_pte` and `find_pte_create` run
  over physical memory, which is modelled as a map from page numbers to
  pages of 512 entries.
- **Address and page-number arithmetic** in every iteration of the address
  types: offsets, alignment, floor, ceiling and rounding. The LoongArch
  conversions from `usize` mask; the RISC-V ones check sign extension and
  either assert or warn. The model also covers the direct-map offset and the
  per-level index decomposition.
- **The init-once cells** `OnceCell` and `StaticCell`.
- **The LoongArch page-walker control words** PWCL and PWCH (section 7.5 of
  the LoongArch Reference Manual, Volume 1).
- **The TLS area layout.**
- **Both LoongArch trap frames.**
- **The trap-type dispatch table.**

Machine words whose bit layout matters are `Word`: a `seq<bool>` of 64
bits, least significant first. Other machine integers are `usize`, the
integers in `[0, 2^64)`. `+` and `<<` wrap modulo 2^64, as in a release
build. A Rust panic is `Outcome.Panic` (or a `panicked` result of a
method). After a panic nothing further is modelled.

Objects whose fields the source updates in place are classes: the
allocator, the cells, physical memory and the trap frames. Each of their
methods is proved against a function on values (the `...Spec` functions),
and the lemmas are stated about those functions. Globals
(`FRAME_ALLOCATOR`) are passed in as parameters.

Constants the code imports but that are not part of this model are module
constants. `ConfigAssumptions` records the values chosen and checks, by
evaluating them, that they fit their widths; it is a record of the
constants, not a proof about the model. For
LoongArch they are:

| constant | value |
|---|---|
| `PPN_OFFSET_IN_PTE` | 12 |
| `PPN_MASK` | 2^36 - 1 |
| `PA_MASK`, `VA_MASK` | 2^48 - 1 |
| `VPN_MASK` | 2^36 - 1 |
| `PTE_INDEX_BITS` | 9 |
| `PAGE_TABLE_LEVELS` | 3 |
| `PAGE_SHIFT` | 12 |
| `PTE_SIZE_BITS` | 3 |
| `DIR_k_SHIFT` | 12 + 9k |
| `PWCL_PTE_WIDTH` | 0 |

For RISC-V Sv39 they are:

| constant | value |
|---|---|
| `PPN_OFFSET_IN_PTE` | 10 |
| `PPN_MASK` | 2^44 - 1 |
| `VA_WIDTH` | 39 |
| `VPN_WIDTH` | 27 |
| `VIRT_RAM_OFFSET` | `0xffff_ffc0_0000_0000` |

The abstract `PTOps::valid` is "bit 0 (V) set", which is the
`is_valid` of `src/loongarch64/pagetable.rs`. Flag sets are sets of bit
positions.

## Model

| member | source | states |
|---|---|---|
| CommonAddr.PhysAddrToUsize | src/common/addr.rs:21-25 | the conversion returns the wrapped value: wrapping it again gives the address back |
| CommonAddr.VirtAddrToUsize | src/common/addr.rs:27-31 | the conversion returns the wrapped value |
| CommonAddr.PhysPageNumToUsize | src/common/addr.rs:33-37 | the conversion returns the wrapped value |
| CommonAddr.VirtPageNumToUsize | src/common/addr.rs:39-43 | the conversion returns the wrapped value |
| CommonAddr.CmpUsize | src/common/addr.rs:4-18 | the derived comparison answers Less, Equal or Greater exactly as the numbers compare |
| CommonAddr.ConversionsKeepEqualityAndOrder | src/common/addr.rs:4-43 | for all four newtypes, equality and derived order coincide with equality and order of the converted usize |
| CommonAddr.VirtPageNumStep | src/common/addr.rs:54-58 | `step` adds exactly one and so moves strictly up in the derived order; only `usize::MAX` wraps to 0 |
| CommonAddr.PhysPageNumStep | src/common/addr.rs:60-64 | `step` adds exactly one and so moves strictly up in the derived order; only `usize::MAX` wraps to 0 |
| Addr.PhysAddrToUsize | src/addr.rs:14-18 | the conversion returns the wrapped value |
| Addr.VirtAddrToUsize | src/addr.rs:20-24 | the conversion returns the wrapped value |
| Addr.PhysPageNumToUsize | src/addr.rs:26-30 | the conversion returns the wrapped value |
| Addr.VirtPageNumToUsize | src/addr.rs:32-36 | the conversion returns the wrapped value |
| Addr.ConversionsKeepEqualityAndOrder | src/addr.rs:1-36 | the conversions are injective and carry the derived order of page numbers to the order of the numbers |
| Riscv64Addr.PhysAddrPageNumber | src/riscv64/addr.rs:10-12 | the page number is the page that contains the address |
| Riscv64Addr.PhysAddrPageOffset | src/riscv64/addr.rs:14-16 | the offset is the address modulo 4096, hence below 4096 |
| Riscv64Addr.PhysAddrFromUsize | src/riscv64/addr.rs:23-27 | never fails and keeps every bit |
| Riscv64Addr.PhysPageNumFromPhysAddr | src/riscv64/addr.rs:29-33 | floors with no alignment check |
| Riscv64Addr.VirtAddrPageNumber | src/riscv64/addr.rs:37-39 | the page number is the page that contains the address |
| Riscv64Addr.VirtAddrPageOffset | src/riscv64/addr.rs:41-43 | the offset is the address modulo 4096 |
| Riscv64Addr.VirtAddrFromUsize | src/riscv64/addr.rs:50-55 | never fails and keeps every bit |
| Riscv64Addr.VirtPageNumFromVirtAddr | src/riscv64/addr.rs:57-61 | floors with no alignment check |
| Riscv64Addr.PhysPageNumAddress | src/riscv64/addr.rs:65-67 | the address is the page number times 4096, wrapping |
| Riscv64Addr.PhysPageNumFromUsize | src/riscv64/addr.rs:70-74 | never fails and keeps every bit |
| Riscv64Addr.VirtPageNumAddress | src/riscv64/addr.rs:78-80 | the address is the page number times 4096, wrapping |
| Riscv64Addr.VirtPageNumFromUsize | src/riscv64/addr.rs:83-87 | never fails and keeps every bit |
| Riscv64Addr.AlignedIffMultiple | src/riscv64/addr.rs:18-20 | aligned exactly when the address is a multiple of 4096, for both kinds |
| Riscv64Addr.PageNumberOfAddress | src/riscv64/addr.rs:65-67 | the page number of a page's address is that page while the product fits |
| Riscv64Addr.AddressOfPageNumber | src/riscv64/addr.rs:78-80 | the address of an address's page is the address minus its offset |
| RiscvMmAddr.SignExtendedCheck | src/arch/riscv64/mm/addr.rs:58-64 | the arithmetic shift of `u as isize` by k is 0 or -1 exactly when u is below 2^k or at least 2^64 - 2^k |
| RiscvMmAddr.PhysAddrPageOffset | src/arch/riscv64/mm/addr.rs:11-13 | the offset is the address modulo 4096 |
| RiscvMmAddr.PhysAddrCeil | src/arch/riscv64/mm/addr.rs:21-23 | without overflow, ceil equals floor exactly when aligned, and is otherwise one more |
| RiscvMmAddr.PhysAddrFloor | src/arch/riscv64/mm/addr.rs:26-28 | the floor is the page containing the address |
| RiscvMmAddr.PhysAddrToVaddr | src/arch/riscv64/mm/addr.rs:30-32 | the direct-map address is the address plus `VIRT_RAM_OFFSET` when that does not overflow |
| RiscvMmAddr.PhysAddrFromUsize | src/arch/riscv64/mm/addr.rs:35-39 | keeps every bit |
| RiscvMmAddr.PhysPageNumFromPhysAddr | src/arch/riscv64/mm/addr.rs:42-49 | panics exactly on an unaligned address; otherwise it floors, and shifting the page back gives the address |
| RiscvMmAddr.PhysAddrFromPhysPageNum | src/arch/riscv64/mm/addr.rs:51-56 | the address is aligned and floors back to the page number when no bit is shifted out |
| RiscvMmAddr.PhysPageNumFromUsize | src/arch/riscv64/mm/addr.rs:58-64 | the assertion passes exactly for values sign-extended above bit 44, and the value is kept |
| RiscvMmAddr.PhysPageNumToPaddr | src/arch/riscv64/mm/addr.rs:85-87 | the same as the page-to-address conversion |
| RiscvMmAddr.VirtAddrToPaddr | src/arch/riscv64/mm/addr.rs:140-146 | Some exactly when the address is at least `VIRT_RAM_OFFSET`, and then the offset is subtracted |
| RiscvMmAddr.VirtAddrFloor | src/arch/riscv64/mm/addr.rs:153-155 | the floor is the page containing the address |
| RiscvMmAddr.VirtAddrRoundDown | src/arch/riscv64/mm/addr.rs:158-160 | rounding down subtracts the page offset |
| RiscvMmAddr.VirtAddrCeil | src/arch/riscv64/mm/addr.rs:163-165 | without overflow, ceil equals floor exactly when aligned, and is otherwise one more |
| RiscvMmAddr.VirtAddrRoundUp | src/arch/riscv64/mm/addr.rs:168-170 | rounding up clears the offset bits of the wrapped sum `v + PAGE_MASK` |
| RiscvMmAddr.VirtAddrPageOffset | src/arch/riscv64/mm/addr.rs:172-174 | the offset is the address modulo 4096 |
| RiscvMmAddr.VirtAddrFromUsize | src/arch/riscv64/mm/addr.rs:203-211 | the value is kept whether or not the check warns |
| RiscvMmAddr.VirtAddrWarningAsWritten | src/arch/riscv64/mm/addr.rs:205-209 | as written, no warning is logged exactly for values sign-extended above bit 39 |
| RiscvMmAddr.VirtAddrWarningMissesBit38 | src/arch/riscv64/mm/addr.rs:205-209 | 2^38 is not a canonical Sv39 address, yet the check does not warn, though the page-number check does warn for its page |
| RiscvMmAddr.VirtAddrWarningFixed | src/arch/riscv64/mm/addr.rs:205-209 | a check shifting by 38 warns exactly for non-canonical addresses and agrees with the page-number check |
| RiscvMmAddr.VirtPageNumFromUsize | src/arch/riscv64/mm/addr.rs:214-222 | the value is kept whether or not the check warns |
| RiscvMmAddr.VirtPageNumWarning | src/arch/riscv64/mm/addr.rs:216-220 | no warning exactly when bits 26 to 51 of the page number are all zero or all one |
| RiscvMmAddr.VirtPageNumFromVirtAddr | src/arch/riscv64/mm/addr.rs:225-230 | panics exactly when the offset is nonzero; otherwise it floors and round-trips |
| RiscvMmAddr.VirtAddrFromVirtPageNum | src/arch/riscv64/mm/addr.rs:233-237 | the address is aligned and floors back to the page number when no bit is shifted out |
| RiscvMmAddr.VirtPageNumIndices | src/arch/riscv64/mm/addr.rs:240-248 | the loop fills exactly the three 9-bit digits of the page number, most significant first |
| RiscvMmAddr.IndicesDecompose | src/arch/riscv64/mm/addr.rs:240-248 | each index is below 512, index 0 holds bits 18 to 26, and recombining gives the low 27 bits |
| RiscvMmAddr.DirectMapRoundTrip | src/arch/riscv64/mm/addr.rs:30-32 | mapping a physical address into the direct map and back gives it back when the sum does not overflow |
| RiscvMmAddr.RoundingBounds | src/arch/riscv64/mm/addr.rs:158-170 | round_down is at most v, round_up is at least v and less than v + 4096 without overflow, both are aligned, and each is v exactly when v is aligned; the top partial page wraps to 0 |
| LoongarchConfig.ConfigAssumptions | src/loongarch64/config/mm.rs:4-9 | records the chosen constants and checks by evaluation that they fit: masks of their widths, the PPN field below bit 61, 9-bit index levels, directory shifts 9 bits apart |
| LoongarchMmAddr.PhysAddrPageOffset | src/loongarch64/mm/addr.rs:12-15 | the offset is the address modulo 4096 |
| LoongarchMmAddr.PhysAddrCeil | src/loongarch64/mm/addr.rs:22-25 | without overflow, ceil equals floor exactly when aligned, and is otherwise one more |
| LoongarchMmAddr.PhysAddrFloor | src/loongarch64/mm/addr.rs:27-30 | the floor is the page containing the address |
| LoongarchMmAddr.PhysAddrFromUsize | src/loongarch64/mm/addr.rs:33-38 | `v & PA_MASK` keeps the low 48 bits and never panics |
| LoongarchMmAddr.PhysPageNumFromUsize | src/loongarch64/mm/addr.rs:40-45 | `v & PPN_MASK` keeps the low 36 bits and never panics |
| LoongarchMmAddr.PhysPageNumFromPhysAddr | src/loongarch64/mm/addr.rs:47-54 | panics exactly on an unaligned address; otherwise it floors and round-trips |
| LoongarchMmAddr.PhysAddrFromPhysPageNum | src/loongarch64/mm/addr.rs:56-61 | the address is aligned and floors back to the page number |
| LoongarchMmAddr.VirtAddrPageOffset | src/loongarch64/mm/addr.rs:65-68 | the offset is the address modulo 4096 |
| LoongarchMmAddr.VirtAddrCeil | src/loongarch64/mm/addr.rs:75-78 | without overflow, ceil equals floor exactly when aligned, and is otherwise one more |
| LoongarchMmAddr.VirtAddrFloor | src/loongarch64/mm/addr.rs:80-83 | the floor is the page containing the address |
| LoongarchMmAddr.VirtAddrFromUsize | src/loongarch64/mm/addr.rs:86-91 | `v & VA_MASK` keeps the low 48 bits |
| LoongarchMmAddr.VirtPageNumFromUsize | src/loongarch64/mm/addr.rs:93-98 | `v & VPN_MASK` keeps the low 36 bits |
| LoongarchMmAddr.VirtPageNumFromVirtAddr | src/loongarch64/mm/addr.rs:100-107 | panics exactly on an unaligned address; otherwise it floors and round-trips |
| LoongarchMmAddr.VirtAddrFromVirtPageNum | src/loongarch64/mm/addr.rs:109-114 | the address is aligned and floors back to the page number |
| LoongarchMmAddr.FromUsizeIdempotent | src/loongarch64/mm/addr.rs:33-45 | every masking conversion is idempotent and keeps values already within its mask |
| LoongarchMmAddr.PageAddressRoundTrip | src/loongarch64/mm/addr.rs:47-61 | a converted page number comes back unchanged from its address, through both floor and the checked conversion |
| LoongarchArchAddr.PhysAddrPageOffset | src/arch/loongarch64/mm/addr.rs:11-14 | the offset is the address modulo 4096 |
| LoongarchArchAddr.PhysAddrCeil | src/arch/loongarch64/mm/addr.rs:21-24 | without overflow, ceil equals floor exactly when aligned, and is otherwise one more |
| LoongarchArchAddr.PhysAddrFloor | src/arch/loongarch64/mm/addr.rs:26-29 | the floor is the page containing the address |
| LoongarchArchAddr.PhysAddrFromUsize | src/arch/loongarch64/mm/addr.rs:32-37 | keeps the low 48 bits and never panics |
| LoongarchArchAddr.PhysPageNumFromUsize | src/arch/loongarch64/mm/addr.rs:39-44 | keeps the low 36 bits and never panics |
| LoongarchArchAddr.PhysPageNumFromPhysAddr | src/arch/loongarch64/mm/addr.rs:46-53 | panics exactly on an unaligned address; otherwise it floors and round-trips |
| LoongarchArchAddr.PhysAddrFromPhysPageNum | src/arch/loongarch64/mm/addr.rs:55-60 | the address is aligned and floors back to the page number |
| LoongarchArchAddr.VirtAddrPageOffset | src/arch/loongarch64/mm/addr.rs:64-67 | the offset is the address modulo 4096 |
| LoongarchArchAddr.VirtAddrCeil | src/arch/loongarch64/mm/addr.rs:74-77 | without overflow, ceil equals floor exactly when aligned, and is otherwise one more |
| LoongarchArchAddr.VirtAddrFloor | src/arch/loongarch64/mm/addr.rs:79-82 | the floor is the page containing the address |
| LoongarchArchAddr.VirtAddrFromUsize | src/arch/loongarch64/mm/addr.rs:85-90 | keeps the low 48 bits |
| LoongarchArchAddr.VirtPageNumFromUsize | src/arch/loongarch64/mm/addr.rs:92-97 | keeps the low 36 bits |
| LoongarchArchAddr.VirtPageNumFromVirtAddr | src/arch/loongarch64/mm/addr.rs:99-106 | panics exactly on an unaligned address; otherwise it floors and round-trips |
| LoongarchArchAddr.VirtAddrFromVirtPageNum | src/arch/loongarch64/mm/addr.rs:108-113 | the address is aligned and floors back to the page number |
| LoongarchArchAddr.FromUsizeIdempotent | src/arch/loongarch64/mm/addr.rs:32-44 | every masking conversion is idempotent and keeps values already within its mask |
| LoongarchArchAddr.PageAddressRoundTrip | src/arch/loongarch64/mm/addr.rs:46-60 | a converted page number comes back unchanged from its address |
| PteFlags.WordOf | src/loongarch64/pagetable.rs:5-33 | a flag set as a word has exactly the bits of its members set |
| PteFlags.BitsSet | src/loongarch64/pagetable.rs:5-33 | the set of bits of a word holds exactly the bits that are set |
| PteFlags.BitsSetWordOf | src/loongarch64/pagetable.rs:5-33 | reading a flag set back from its word gives the set |
| PteFlags.FromBits | src/loongarch64/pagetable.rs:59-61 | `from_bits` succeeds exactly when every set bit is a defined flag, and then returns those bits |
| PteFlags.FromBitsTruncate | src/loongarch64/pagetable.rs:59-61 | `from_bits_truncate` keeps exactly the defined bits that are set |
| RiscvPte.Decode | src/arch/riscv64/mm/pagetable.rs:22-58 | the neutral flags always hold V and never A; R, W, X, U, D and G are copied bit for bit |
| RiscvPte.Encode | src/arch/riscv64/mm/pagetable.rs:60-96 | the hardware bits are R, W, X, U, D and G copied from the flags; V, A and COW are never set |
| RiscvPte.DecodeEncode | src/arch/riscv64/mm/pagetable.rs:22-96 | decoding an encoding keeps R, W, X, U, D and G, adds V and drops A |
| RiscvPte.EncodeDecode | src/arch/riscv64/mm/pagetable.rs:22-96 | encoding a decoding keeps exactly the six translated hardware bits |
| RiscvPte.New | src/arch/riscv64/mm/pagetable.rs:101-106 | the low 10 bits are the encoded flags, and the page number sits from bit 10 up |
| RiscvPte.Ppn | src/arch/riscv64/mm/pagetable.rs:108-110 | the page number is the 44-bit field above bit 10 |
| RiscvPte.Flags | src/arch/riscv64/mm/pagetable.rs:112-116 | panics exactly when any bit outside the defined flags is set; otherwise decodes the word |
| RiscvPte.FlagsTruncated | src/arch/riscv64/mm/pagetable.rs:112-116 | the corrected reading decodes only the defined bits |
| RiscvPte.PpnOfNew | src/arch/riscv64/mm/pagetable.rs:101-110 | the page number of a new entry is the one it was built from, when it fits 44 bits |
| RiscvPte.NewIsInvalid | src/arch/riscv64/mm/pagetable.rs:60-106 | a new entry never has V set, whatever flags are passed |
| RiscvPte.FlagsOfNewPanics | src/arch/riscv64/mm/pagetable.rs:112-116 | `flags` of any entry with a nonzero page number panics |
| RiscvPte.DefinedBitsOfNew | src/arch/riscv64/mm/pagetable.rs:101-116 | the defined bits of a new entry are exactly the encoded flags |
| RiscvPte.FlagsOfNewZero | src/arch/riscv64/mm/pagetable.rs:101-116 | with page number 0, `flags` succeeds and returns the decoded encoding |
| RiscvPte.FlagsTruncatedOfNew | src/arch/riscv64/mm/pagetable.rs:101-116 | the corrected reading of a new entry returns the flags with A dropped and V added, for every page number |
| RiscvPte.TokenFromPpn | src/arch/riscv64/mm/pagetable.rs:135-138 | the token is the page number shifted up 12 bits, wrapping |
| RiscvPte.PpnFromToken | src/arch/riscv64/mm/pagetable.rs:131-133 | the token shifted down 12 bits; the conversion asserts, so it panics exactly for tokens of 2^56 and above |
| RiscvPte.TokenRoundTrip | src/arch/riscv64/mm/pagetable.rs:131-138 | a page number that fits 44 bits comes back from its token |
| LoongarchPte.Decode | src/loongarch64/mm/pagetable.rs:133-169 | the neutral flags always hold V and never A; R iff NR is clear, X iff NX is clear, U iff both PLV bits are set, and W, D and G are copied |
| LoongarchPte.Encode | src/loongarch64/mm/pagetable.rs:171-207 | NR iff R is absent, NX iff X is absent, both PLV bits iff U, and W, D and G are copied; V, P, MAT and RPLV are never set |
| LoongarchPte.DecodeEncode | src/loongarch64/mm/pagetable.rs:133-207 | decoding an encoding keeps R, W, X, U, D and G, adds V and drops A |
| LoongarchPte.EncodeDecode | src/loongarch64/mm/pagetable.rs:133-207 | encoding a decoding keeps D, G, W, NR and NX, and keeps PLV only when both its bits were set |
| LoongarchPte.New | src/loongarch64/mm/pagetable.rs:47-52 | the bits are the page number shifted above bit 12, or-ed with the encoded flags |
| LoongarchPte.Ppn | src/loongarch64/mm/pagetable.rs:54-56 | the page number is the 36-bit field above bit 12, so it never exceeds `PPN_MASK` |
| LoongarchPte.PpnIsShiftMask | src/loongarch64/mm/pagetable.rs:54-56 | the field read is `((bits >> 12) & PPN_MASK).into()` |
| LoongarchPte.Flags | src/loongarch64/mm/pagetable.rs:58-62 | panics exactly when any bit outside the defined flags is set; otherwise decodes the word |
| LoongarchPte.FlagsTruncated | src/loongarch64/mm/pagetable.rs:58-62 | the corrected reading decodes only the defined bits |
| LoongarchPte.EncodeOutsidePpnField | src/loongarch64/mm/pagetable.rs:171-207 | no encoded flag lies inside the page-number field |
| LoongarchPte.PpnOfNew | src/loongarch64/mm/pagetable.rs:47-56 | the page number of a new entry is the one it was built from, when it fits `PPN_MASK` |
| LoongarchPte.NewIsInvalid | src/loongarch64/mm/pagetable.rs:47-52 | a new entry never has V set, because the encoding never emits it |
| LoongarchPte.DecodeReadsTranslated | src/loongarch64/mm/pagetable.rs:133-169 | decoding depends only on the seven translated hardware bits |
| LoongarchPte.FlagsOfNew | src/loongarch64/mm/pagetable.rs:47-62 | `flags` of a new entry panics exactly when the page number is 2 or more, and otherwise returns the decoded encoding |
| LoongarchPte.FlagsTruncatedOfNew | src/loongarch64/mm/pagetable.rs:47-62 | the corrected reading of a new entry returns the flags with A dropped and V added, for every page number |
| LoongarchPte.TokenFromPpn | src/loongarch64/mm/pagetable.rs:80-83 | the token is aligned and holds the page number shifted up 12 bits, wrapping |
| LoongarchPte.PpnFromToken | src/loongarch64/mm/pagetable.rs:76-78 | the token shifted down 12 bits, masked by the conversion to 36 bits |
| LoongarchPte.TokenRoundTrip | src/loongarch64/mm/pagetable.rs:76-83 | a page number comes back from its token modulo 2^36, and exactly when it fits `PPN_MASK` |
| LoongarchPte.VirtPageNumIndices | src/loongarch64/mm/pagetable.rs:209-218 | the loop fills exactly the `PAGE_TABLE_LEVELS` index digits of the page number, most significant first |
| LoongarchPte.IndicesDecompose | src/loongarch64/mm/pagetable.rs:209-218 | every index is at most `PTE_INDEX_MASK`, index 0 is the most significant, and recombining gives the low 27 bits |
| PageIndex.IndicesBounded | src/loongarch64/mm/pagetable.rs:209-218 | every index is below 512 |
| PageIndex.IndexDigit | src/loongarch64/mm/pagetable.rs:209-218 | index i is base-512 digit n-1-i of the page number |
| PageIndex.CombineIndices | src/loongarch64/mm/pagetable.rs:209-218 | recombining the indices gives the page number modulo 2^(9n) |
| LoongarchOldPte.New | src/loongarch64/pagetable.rs:43-47 | the bits are the page number shifted above bit 12, or-ed with the flag bits |
| LoongarchOldPte.Empty | src/loongarch64/pagetable.rs:50-52 | the empty entry has no bit set |
| LoongarchOldPte.Ppn | src/loongarch64/pagetable.rs:54-56 | the page number is the 36-bit field above bit 12 |
| LoongarchOldPte.PpnIsShiftMask | src/loongarch64/pagetable.rs:54-56 | the page number is `(bits >> PPN_OFFSET_IN_PTE) & PPN_MASK` put through the masking conversion |
| LoongarchOldPte.Flags | src/loongarch64/pagetable.rs:59-61 | panics exactly when an undefined bit is set; otherwise returns the set bits |
| LoongarchOldPte.IsValid | src/loongarch64/pagetable.rs:64-66 | panics whenever `flags` does, and is otherwise bit 0 |
| LoongarchOldPte.IsValidTruncated | src/loongarch64/pagetable.rs:64-66 | the corrected validity test is bit 0 |
| LoongarchOldPte.EmptyIsInvalid | src/loongarch64/pagetable.rs:50-66 | the empty entry has no flags and is not valid (a check on one constant entry) |
| LoongarchOldPte.PpnOfNew | src/loongarch64/pagetable.rs:43-56 | the page number of a new entry is the one it was built from, when it fits and G is not passed |
| LoongarchOldPte.PpnOfNewGlobal | src/loongarch64/pagetable.rs:24 | G sits at bit 12, inside the page-number field, so a new entry with G reads back page 1 |
| LoongarchOldPte.FlagsOfNew | src/loongarch64/pagetable.rs:43-61 | `flags` of a new entry panics exactly when the page number is 2 or more |
| LoongarchOldPte.IsValidOfNew | src/loongarch64/pagetable.rs:43-66 | `is_valid` of a new entry panics exactly when the page number is 2 or more, and is otherwise whether V was passed |
| LoongarchOldPte.IsValidTruncatedOfNew | src/loongarch64/pagetable.rs:43-66 | the corrected test says a new entry is valid exactly when V was passed |
| FrameAllocator.IntoPpn | src/loongarch64/mm/frame_allocator.rs:27-36 | a page number that fits 36 bits converts to itself |
| FrameAllocator.IntoPpnIsConversion | src/loongarch64/mm/addr.rs:40-45 | the conversion the allocator uses is the masking `From<usize>` |
| FrameAllocator.InitSpec | src/loongarch64/mm/frame_allocator.rs:20-23 | init sets current and end and keeps the released pages; the result is valid exactly when l <= r and every kept page lies below l with no repeats |
| FrameAllocator.AllocSpec | src/loongarch64/mm/frame_allocator.rs:27-36 | returns the most recently released page and pops it, else the bump pointer and advances it, else None exactly when nothing is released and current == end, with the state unchanged |
| FrameAllocator.Run | src/loongarch64/mm/frame_allocator.rs:41-51 | the run has n pages: start, start + 1, ... |
| FrameAllocator.AllocatePhysicalPagesSpec | src/loongarch64/mm/frame_allocator.rs:38-52 | None exactly when current + n > end, with nothing changed; else n consecutive pages from the old current; current advances by n and the released pages are untouched |
| FrameAllocator.DeallocSpec | src/loongarch64/mm/frame_allocator.rs:54-62 | panics exactly for a page at or above current or already released; otherwise appends it |
| FrameAllocator.OperationsPreserveValid | src/loongarch64/mm/frame_allocator.rs:27-62 | alloc, allocate_physical_pages (without wrap) and a successful dealloc keep current <= end, released pages below current, and no repeats |
| FrameAllocator.AllocThenDealloc | src/loongarch64/mm/frame_allocator.rs:27-62 | a page just handed out can be released again without a panic, and releasing a recycled page restores the state |
| FrameAllocator.DeallocThenAlloc | src/loongarch64/mm/frame_allocator.rs:27-62 | after a successful release, alloc returns that page and the state from before |
| FrameAllocator.LastInFirstOut | src/loongarch64/mm/frame_allocator.rs:27-62 | after releasing a sequence of pages, as many allocs return them in reverse order and restore the state |
| FrameAllocator.DeallocAllAppends | src/loongarch64/mm/frame_allocator.rs:54-62 | releasing a sequence appends it to the released pages and leaves current and end alone |
| FrameAllocator.AllocTimesSplit | src/loongarch64/mm/frame_allocator.rs:27-36 | n + 1 allocs are n allocs followed by one |
| FrameAllocator.AllocSweep | src/loongarch64/mm/frame_allocator.rs:30-35 | with nothing released, end - current allocs return current, current + 1, ..., and the next one returns None |
| FrameAllocator.AllocAfterInit | src/loongarch64/mm/frame_allocator.rs:12-35 | after new and init(l, r), r - l allocs return l, ..., r - 1 with no repeats, and the next returns None |
| FrameAllocator.StackFrameAllocator.constructor | src/loongarch64/mm/frame_allocator.rs:12-18 | a new allocator has current = end = 0 and no released pages |
| FrameAllocator.StackFrameAllocator.Init | src/loongarch64/mm/frame_allocator.rs:20-23 | the new state is `InitSpec` of the old |
| FrameAllocator.StackFrameAllocator.Alloc | src/loongarch64/mm/frame_allocator.rs:27-36 | the result and the new state are those of `AllocSpec` |
| FrameAllocator.StackFrameAllocator.AllocatePhysicalPages | src/loongarch64/mm/frame_allocator.rs:38-52 | the loop pushes the pages `AllocatePhysicalPagesSpec` gives, and the new state is its state |
| FrameAllocator.StackFrameAllocator.RecycledContains | src/loongarch64/mm/frame_allocator.rs:57-58 | the scan finds the page exactly when it is among the released pages |
| FrameAllocator.StackFrameAllocator.Dealloc | src/loongarch64/mm/frame_allocator.rs:54-62 | panics exactly when `DeallocSpec` does; otherwise the new state is its state |
| FrameTracking.Trackers | src/common/frame_allocator.rs:80-83 | one tracker per page number, in the same order |
| FrameTracking.InitFrameAllocator | src/common/frame_allocator.rs:57-59 | panics exactly on a second call; the first stores the allocator |
| FrameTracking.FrameAlloc | src/common/frame_allocator.rs:67-69 | panics exactly when the global is uninitialised; otherwise one alloc step, wrapping exactly the page alloc returned, or None when it does |
| FrameTracking.FrameAllocPhysicalPages | src/common/frame_allocator.rs:76-84 | for 0, an empty vector and no change; otherwise panics exactly when uninitialised, else one tracker per allocated page in order, or None |
| FrameTracking.FrameDealloc | src/common/frame_allocator.rs:92-94 | panics when uninitialised; otherwise one dealloc step |
| FrameTracking.DropTracker | src/common/frame_allocator.rs:16-20 | dropping a tracker releases its own page once, as `frame_dealloc` does |
| FrameTracking.AllocDropAlloc | src/common/frame_allocator.rs:16-20 | with a valid initialised allocator, allocating, dropping the tracker and allocating again gives the same page |
| PageWalk.Store | src/loongarch64/mm/pagetable.rs:124 | writing a slot changes that slot and no other |
| PageWalk.FindPteShape | src/loongarch64/mm/pagetable.rs:90-106 | the walk visits 1 to `PAGE_TABLE_LEVELS` slots, one per level at that level's index; it descends only through invalid entries to their page number; it returns the last-level slot when it gets there, and otherwise it stopped at a valid entry and returns None |
| PageWalk.FindPteSomeIff | src/loongarch64/mm/pagetable.rs:90-106 | with three levels, the result is the last-level slot exactly when both intermediate entries are invalid, and None otherwise |
| PageWalk.CreateWrites | src/loongarch64/mm/pagetable.rs:108-130 | the returned slot is at the last index; at most `PAGE_TABLE_LEVELS` - 1 slots are written, and no other slot changes |
| PageWalk.CreateFrames | src/loongarch64/mm/pagetable.rs:108-130 | `frames` grows by one tracker per written slot, earlier trackers kept, each holding the page the next alloc returned |
| PageWalk.FindPteCreateSucceeds | src/loongarch64/mm/pagetable.rs:122-126 | with a valid allocator holding at least `PAGE_TABLE_LEVELS` - 1 free pages, the walk does not panic |
| PageWalk.FindAfterCreate | src/loongarch64/mm/pagetable.rs:90-130 | when every intermediate slot was written, and each once, `find_pte` afterwards reaches the slot `find_pte_create` returned |
| PageWalk.CreateInstalls | src/loongarch64/mm/pagetable.rs:122-126 | an invalid slot on the way is written with `new(frame.ppn, V)` for the frame pushed for it |
| PageWalk.CreateAgainReallocates | src/loongarch64/mm/pagetable.rs:122-126 | because installed entries are not valid, a second `find_pte_create` for the same page writes the root slot again and allocates again |
| PageWalk.CreateStepValid | src/loongarch64/mm/pagetable.rs:122-127 | one loop iteration through a valid entry descends to the page that entry names, writing nothing |
| PageWalk.CreateStepPanic | src/loongarch64/mm/pagetable.rs:122-123 | one loop iteration at an invalid entry panics when `frame_alloc` has no frame |
| PageWalk.CreateStepInstall | src/loongarch64/mm/pagetable.rs:122-127 | one loop iteration at an invalid entry allocates a frame, pushes its tracker, writes `new(frame.ppn, V)` into the slot and descends to that frame |
| PageWalk.PhysMemory.FindPte | src/loongarch64/mm/pagetable.rs:90-106 | the loop returns exactly the slot of `FindPteSpec` |
| PageWalk.PhysMemory.FindPteCreate | src/loongarch64/mm/pagetable.rs:108-130 | panics exactly when `FindPteCreateSpec` does; otherwise the slot, the memory, the allocator and the frames are the spec's |
| PageWalker.Fields | src/loongarch64/mm/mod.rs:25-52 | pte_i = `PAGE_SHIFT` and pte_w = `PAGE_SHIFT - PTE_SIZE_BITS`; directory k's fields are nonzero exactly when the levels exceed k; the widths are 0 or 9 and the index shifts are 0 or `DIR_k_SHIFT` |
| PageWalker.PackSupport | src/loongarch64/mm/mod.rs:54-62 | packing values that fit their slots leaves every higher bit clear |
| PageWalker.PackField | src/loongarch64/mm/mod.rs:54-62 | each packed value that fits its slot can be read back from its slot |
| PageWalker.PwclFields | src/loongarch64/mm/mod.rs:54-60 | PWCL holds pte_i, pte_w, dir1_i, dir1_w, dir2_i, dir2_w and `PWCL_PTE_WIDTH` at bits 0, 5, 10, 15, 20, 25 and 30, with nothing above bit 35 |
| PageWalker.PwchFields | src/loongarch64/mm/mod.rs:62 | PWCH holds dir3_i, dir3_w, dir4_i and dir4_w at bits 0, 6, 12 and 18, with nothing above bit 24 |
| PageWalker.ConfiguredFields | src/loongarch64/mm/mod.rs:25-52 | for three levels the fields are 12, 9, 21, 9, 30, 9 and zero for directories 3 and 4 |
| PageWalker.ConfiguredPwcl | src/loongarch64/mm/mod.rs:54-60 | for three levels PWCL reads back 12, 9, 21, 9, 30, 9, 0 |
| PageWalker.ConfiguredPwch | src/loongarch64/mm/mod.rs:62 | for three levels PWCH is all zero slots |
| PageWalker.WalkerMatchesIndices | src/loongarch64/mm/mod.rs:25-62 | the hardware walker's index fields select the same digits of an address as `VirtPageNum::indices` |
| OnceCells.OnceCell.constructor | src/utils/once_cell.rs:25-30 | a new cell is uninitialised |
| OnceCells.OnceCell.Init | src/utils/once_cell.rs:37-47 | panics exactly when already initialised and then keeps the old value; otherwise stores the value |
| OnceCells.OnceCell.Get | src/utils/once_cell.rs:55-62 | panics exactly before init; otherwise returns the stored value |
| OnceCells.OnceCell.GetMut | src/utils/once_cell.rs:69-78 | None exactly before init; otherwise the stored value |
| OnceCells.OnceCell.AssignThroughGetMut | src/utils/once_cell.rs:69-78 | a write through `get_mut` replaces the value when initialised and does nothing otherwise |
| OnceCells.OnceCell.Deref | src/utils/once_cell.rs:101-108 | the same as `get` |
| OnceCells.OnceCell.DerefMut | src/utils/once_cell.rs:110-117 | panics exactly before init; otherwise the stored value |
| OnceCells.OnceCell.Drop | src/utils/once_cell.rs:119-127 | as written: `drop_in_place` on the `MaybeUninit<T>` slot runs no destructor, so nothing is dropped even when initialised |
| OnceCells.OnceCell.DropAssumeInit | src/utils/once_cell.rs:119-127 | corrected: the stored value is dropped exactly when the cell is initialised |
| OnceCells.InitThenDropLeaks | src/utils/once_cell.rs:119-127 | init then drop as written leaves the value in the cell and drops nothing |
| OnceCells.InitThenDropFixed | src/utils/once_cell.rs:119-127 | with the correction, init then drop drops exactly the value given to init, and an uninitialised cell drops nothing |
| OnceCells.InitThenRead | src/utils/once_cell.rs:37-78 | after one init, `get`, `deref` and `get_mut` all return the value |
| OnceCells.ReadBeforeInit | src/utils/once_cell.rs:55-117 | before init, `get`, `deref` and `deref_mut` panic and `get_mut` is None |
| OnceCells.InitTwiceThenWrite | src/utils/once_cell.rs:37-78 | a second init panics and keeps the first value; a write through `get_mut` is what `get` returns afterwards |
| StaticCells.StaticCell.constructor | src/utils/static_cell.rs:24-29 | a new cell is uninitialised |
| StaticCells.StaticCell.Init | src/utils/static_cell.rs:37-47 | panics exactly when already initialised; otherwise stores the value |
| StaticCells.StaticCell.Get | src/utils/static_cell.rs:55-62 | panics exactly before init; otherwise returns the stored value |
| StaticCells.StaticCell.GetMut | src/utils/static_cell.rs:70-77 | panics exactly before init, rather than returning None; otherwise the stored value |
| StaticCells.StaticCell.AssignThroughGetMut | src/utils/static_cell.rs:70-77 | a write through `get_mut` panics before init and otherwise replaces the value |
| StaticCells.StaticCell.Deref | src/utils/static_cell.rs:94-101 | the same as `get` |
| StaticCells.StaticCell.DerefMut | src/utils/static_cell.rs:103-108 | the same as `get_mut` |
| StaticCells.StaticCell.Drop | src/utils/static_cell.rs:110-118 | as written: `drop_in_place` on the `MaybeUninit<T>` slot runs no destructor, so nothing is dropped even when initialised |
| StaticCells.StaticCell.DropAssumeInit | src/utils/static_cell.rs:110-118 | corrected: the stored value is dropped exactly when the cell is initialised |
| StaticCells.InitThenDropLeaks | src/utils/static_cell.rs:110-118 | init then drop as written leaves the value in the cell and drops nothing |
| StaticCells.InitThenDropFixed | src/utils/static_cell.rs:110-118 | with the correction, init then drop drops exactly the value given to init, and an uninitialised cell drops nothing |
| StaticCells.InitThenRead | src/utils/static_cell.rs:37-77 | after init, `get` and `get_mut` return the value, and a write through `get_mut` is seen by `get` |
| StaticCells.MisusePanicsAlways | src/utils/static_cell.rs:37-77 | `get` and `get_mut` before init panic, and so does a second init |
| Tls.WrappingSub | src/tls.rs:79 | `etbss - stdata` on usize, wrapping below zero |
| Tls.AlignUp | src/tls.rs:97-99 | the result is a multiple of 16, at least the size and less than size + 16; it wraps to 0 only for the top 15 values |
| Tls.AlignUpIsMask | src/tls.rs:97-99 | it is `(x + 15) & !15` |
| Tls.StaticTlsOffset | src/tls.rs:102-108 | the offset is `TCB_SIZE + GAP_ABOVE_TP` = 0 |
| Tls.TpOffset | src/tls.rs:111-117 | the offset is `TCB_SIZE` = 0 |
| Tls.StaticTlsSizeBounds | src/tls.rs:97-99 | without wrap the static size is a multiple of 16, at least the load size and less than load size + 16 |
| Tls.AreaLayout | src/tls.rs:35-43 | tp_offset <= static_tls_offset, which is `TCB_SIZE + GAP_ABOVE_TP`, and the area size is that offset plus the static size |
| Tls.TlsLayout | src/tls.rs:75 | `Layout::from_size_align(size, 16).unwrap()` panics exactly when size rounded up to 16 exceeds `isize::MAX` |
| Tls.TlsPtr | src/tls.rs:69-71 | the thread pointer is the area base plus tp_offset, which is the base |
| Tls.Alloc | src/tls.rs:74-93 | panics exactly when the layout fails or, after the copy, when the zeroed allocation returned null; otherwise the area has the base and the layout of `tls_area_size` |
| Tls.CopyWithinArea | src/tls.rs:78-86 | the copy of `etbss - stdata` bytes to base + static_tls_offset stays inside the area |
| LoongarchTrapFrame.PlaceOf | src/loongarch64/trapframe.rs:68-84 | SEPC alone selects `era`; RET and ARG0 both select a0 and nothing else does; every other view is a register below 32 |
| LoongarchTrapFrame.PlacesDistinct | src/loongarch64/trapframe.rs:68-100 | two views select the same field exactly when they are equal or are RET and ARG0 |
| LoongarchTrapFrame.TrapFrame.constructor | src/loongarch64/trapframe.rs:37-42 | every register and `era` are zero and `prmd` is 0b0111 |
| LoongarchTrapFrame.TrapFrame.SyscallOk | src/loongarch64/trapframe.rs:44-46 | `era` grows by 4, wrapping; nothing else changes |
| LoongarchTrapFrame.TrapFrame.Args | src/loongarch64/trapframe.rs:49-53 | the six arguments are gr[4] to gr[9] in order |
| LoongarchTrapFrame.TrapFrame.IndexMut | src/loongarch64/trapframe.rs:86-100 | the written view reads the value afterwards; every view on another field, every other register and `prmd` keep their values |
| LoongarchTrapFrame.TrapFrame.ArgsAgreeWithIndex | src/loongarch64/trapframe.rs:49-84 | ARG0, ARG1 and ARG2 are the first three of `args`, and RET reads what ARG0 reads |
| LoongarchTrapFrame.ReturnOverwritesArg0 | src/loongarch64/trapframe.rs:86-100 | a value written via RET is read via ARG0 and as the first of `args` |
| LoongarchArchTrapFrame.Layout | src/arch/loongarch64/trapframe.rs:5-38 | the layout has the 32 registers in declaration order |
| LoongarchArchTrapFrame.LayoutInjective | src/arch/loongarch64/trapframe.rs:5-38 | two register sets are equal exactly when their layouts are |
| LoongarchArchTrapFrame.TrapFrame.constructor | src/arch/loongarch64/trapframe.rs:91-98 | every register and `era` are zero and `prmd` is 0b0111 |
| LoongarchArchTrapFrame.TrapFrame.SyscallOk | src/arch/loongarch64/trapframe.rs:101-103 | `era` grows by 4; the registers and `prmd` are unchanged |
| LoongarchArchTrapFrame.TrapFrame.Arg | src/arch/loongarch64/trapframe.rs:105-143 | argument k is register 4 + k of the layout, which is a`k` |
| LoongarchArchTrapFrame.FramesAgreeOnArgs | src/arch/loongarch64/trapframe.rs:5-38 | when the earlier frame holds the later frame's registers, `args` is `arg0` to `arg5` |
| LoongarchArchTrapFrame.FramesAgreeOnViews | src/loongarch64/trapframe.rs:68-84 | the views of the earlier frame name a0, a1, a2, ra, tp, sp and a7 of the later one |
| LoongarchHandler.Discriminant | src/loongarch64/handler/mod.rs:24-34 | each trap type's discriminant is its position among the nine types, so it is below 9 |
| LoongarchHandler.DiscriminantsDistinct | src/loongarch64/handler/mod.rs:24-34 | the discriminants are distinct, and they are 0 to 8 in order |
| LoongarchHandler.IntoEscapeReason | src/loongarch64/handler/mod.rs:36-45 | SysCall, Time and IRQ map to SysCall, Timer and IRQ, each exactly; every other type maps to NoReason |
| LoongarchHandler.HandlerFor | src/loongarch64/handler/mod.rs:50-66 | the table lookup is in bounds; it selects a no-op exactly for NoReason and IRQ, and Time, SysCall, DeBug, PageFault, AddressError, InstrError and TLBRefill each get the handler of their own kind |
| LoongarchHandler.SpecifyHandler | src/loongarch64/handler/mod.rs:65-68 | dispatches the table entry; a no-op entry leaves the frame unchanged |

## Left out

- I/O and logging: `log::warn!` becomes a predicate saying when a warning is logged. The CSR writes in `setup_ptwalker` and every privileged instruction are left out.
- The raw pointer views (`get_ref`, `get_mut`, `get_pte_array`, `get_bytes_array`, `as_ptr`) are left out. Page-table pages are read and written through the arena.
- Absent pages and indices in the arena read as the empty entry. `frame_alloc` does not zero frames, and neither does the model.
- `PTOps::floor`, `ppn_to_pa` and `vpn_to_va` only delegate to the address conversions, which are modelled. The `todo!` bodies in src/arch/riscv64/mm/pagetable.rs:141-155 are not modelled.
- Concurrency: the atomic flag of the cells is a plain field and the spin lock is not modelled.
- `FloatContext` in both trap frames is only stored and is not modelled.
- `memory_addr::align_up` is not part of this model. It is taken to be `(x + align - 1) & !(align - 1)` with a wrapping sum.
- The heap allocator is not part of this model. `alloc_zeroed` is a parameter: the base it returns.
- Tls.Alloc: the model treats a null base as the panic of `NonNull::new(..).unwrap()`, but the copy at src/tls.rs:82-86 writes through that base first, and `alloc_zeroed` is called even when `tls_area_size()` is 0 (`_etbss == _stdata`); both are undefined behaviour in Rust, which the model does not represent.
- Tls.CopyWithinArea: stated only when `etbss - stdata + 15` fits a usize. When it does not, the rounded size wraps to 0 and the copy would overrun.
- The handlers other than the two no-ops live in files that are not part of this model. They are named, not run.
- `arg0` to `arg7` are one function `Arg(k)` over the register index.
- CommonAddr.VirtPageNumStep: `step` mutates in place; it is modelled as a function that returns the next value.
- FrameAllocator.AllocatePhysicalPagesSpec: when `current + pages` exceeds usize the sum wraps, as in a release build. The check can then pass on the wrapped sum. In that case the contract gives only the number of pages and the unchanged released pages and end, not which pages come back or the new bump pointer.
- FrameTracking.DropTracker: Rust's move semantics guarantee that a tracker is dropped once. The model offers the drop as a method and does not track ownership.
- FrameTracking.FrameAllocPhysicalPages: a failed `Vec` allocation is not modelled.
- The globals (`FRAME_ALLOCATOR`) are parameters of the methods that use them.
- PageWalk.PhysMemory.FindPteCreate: after a panic the contract says nothing about the state.
- LoongarchOldPte.PpnOfNew: requires that G is not passed, because with the chosen `PPN_OFFSET_IN_PTE` of 12, G (bit 12) lies inside the page-number field (`PpnOfNewGlobal`).

## Findings

| source | as written | input that shows it | evidently intended | confidence | as-written member | corrected member |
|---|---|---|---|---|---|---|
| src/loongarch64/mm/pagetable.rs:58-62 | `flags` calls `from_bits(..).unwrap()` on the whole entry, so any page-number bit in an undefined position panics | `new(PhysPageNum(2), {R})` sets bit 13, which is not a defined flag | read only the flag bits (`from_bits_truncate`) | medium, not executed | LoongarchPte.FlagsOfNew | LoongarchPte.FlagsTruncatedOfNew |
| src/arch/riscv64/mm/pagetable.rs:112-116 | `flags` calls `from_bits(..).unwrap()` on the whole entry, so an entry with any nonzero page number panics | `new(PhysPageNum(1), {R})` sets bit 10 | read only the flag bits (`from_bits_truncate`) | medium, not executed | RiscvPte.FlagsOfNewPanics | RiscvPte.FlagsTruncatedOfNew |
| src/loongarch64/pagetable.rs:59-66 | `is_valid` goes through `flags`, which unwraps `from_bits` on the whole entry and panics for a page number of 2 or more | `new(PhysPageNum(2), V)` | test bit 0 alone | medium, not executed | LoongarchOldPte.IsValidOfNew | LoongarchOldPte.IsValidTruncatedOfNew |
| src/arch/riscv64/mm/addr.rs:205-209 | the warning shifts `v as isize` by 39, so bit 38 is not checked | `0x40_0000_0000` (2^38): not canonical for Sv39, no warning, though `VirtPageNum::from` warns for its page | shift by 38 so bits 38 to 63 must agree, as the page-number check requires | medium, not executed | RiscvMmAddr.VirtAddrWarningMissesBit38 | RiscvMmAddr.VirtAddrWarningFixed |
| src/utils/once_cell.rs:119-127 | `drop` calls `ptr::drop_in_place(self.value.get())`, whose pointer is `*mut MaybeUninit<T>` (line 17); `MaybeUninit` has no drop glue, so the stored value's destructor never runs | `init(v)` then drop the cell | drop the stored `T` (`assume_init_drop`) | high, not executed | OnceCells.InitThenDropLeaks | OnceCells.InitThenDropFixed |
| src/utils/static_cell.rs:110-118 | the same `drop_in_place` on `*mut MaybeUninit<T>` (line 17) leaks the stored value | `init(v)` then drop the cell | drop the stored `T` (`assume_init_drop`) | high, not executed | StaticCells.InitThenDropLeaks | StaticCells.InitThenDropFixed |
