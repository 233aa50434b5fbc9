/**
 * LoongArch page-table entries (section 7.5 of the LoongArch Reference
 * Manual, Volume 1) as the back end in `loongarch64/mm` builds them: the
 * page number from bit `PPN_OFFSET_IN_PTE`, flag bits below it, and the
 * not-readable, not-executable and restricted-privilege bits at the top.
 * Readability and executability are stored inverted, and user access is the
 * two-bit privilege field set to 3.
 */
module LoongarchPte {
  import opened Words
  import opened Wrappers
  import opened CommonAddr
  import opened PteFlags
  import opened LoongarchConfig
  import Paging
  import PageIndex
  import LoongarchMmAddr

  /** The positions of `Loongarch64PTEFlags`; G and H share bit 6. */
  const LA_V: nat := 0
  const LA_D: nat := 1
  const LA_PLV0: nat := 2
  const LA_PLV1: nat := 3
  const LA_MAT0: nat := 4
  const LA_MAT1: nat := 5
  const LA_G: nat := 6
  const LA_P: nat := 7
  const LA_W: nat := 8
  const LA_GH: nat := 12
  const LA_NR: nat := 61
  const LA_NX: nat := 62
  const LA_RPLV: nat := 63
  const DEFINED: BitSet := {LA_V, LA_D, LA_PLV0, LA_PLV1, LA_MAT0, LA_MAT1, LA_G, LA_P, LA_W,
                            LA_GH, LA_NR, LA_NX, LA_RPLV}
  /** The bits the translation to and from `PTEFlags` touches. */
  const TRANSLATED: BitSet := {LA_D, LA_PLV0, LA_PLV1, LA_G, LA_W, LA_NR, LA_NX}

  /** `From<Loongarch64PTEFlags> for PTEFlags`. */
  function Decode(value: BitSet): (f: PTEFlags)
    ensures V in f && A !in f
    ensures W in f <==> LA_W in value
    ensures X in f <==> LA_NX !in value
    ensures R in f <==> LA_NR !in value
    ensures U in f <==> LA_PLV0 in value && LA_PLV1 in value
    ensures D in f <==> LA_D in value
    ensures G in f <==> LA_G in value
  {
    {V}
    + (if Contains(value, {LA_W}) then {W} else {})
    + (if !Contains(value, {LA_NX}) then {X} else {})
    + (if !Contains(value, {LA_NR}) then {R} else {})
    + (if Contains(value, {LA_PLV0, LA_PLV1}) then {U} else {})
    + (if Contains(value, {LA_D}) then {D} else {})
    + (if Contains(value, {LA_G}) then {G} else {})
  }

  /** `From<PTEFlags> for Loongarch64PTEFlags`. */
  function Encode(f: PTEFlags): (value: BitSet)
    ensures value <= TRANSLATED
    ensures LA_NR in value <==> R !in f
    ensures LA_NX in value <==> X !in f
    ensures LA_W in value <==> W in f
    ensures LA_D in value <==> D in f
    ensures LA_PLV0 in value <==> U in f
    ensures LA_PLV1 in value <==> U in f
    ensures LA_G in value <==> G in f
  {
    (if !(R in f) then {LA_NR} else {})
    + (if !(X in f) then {LA_NX} else {})
    + (if W in f then {LA_W} else {})
    + (if D in f then {LA_D} else {})
    + (if U in f then {LA_PLV0, LA_PLV1} else {})
    + (if G in f then {LA_G} else {})
  }

  /** Decoding an encoding keeps R, W, X, U, D and G, drops A, and always
      adds V. */
  lemma DecodeEncode(f: PTEFlags)
    ensures Decode(Encode(f)) == f * KEPT + {V}
  {
  }

  /** Encoding a decoding keeps the translated bits, except that a half-set
      privilege field is cleared; V, P, MAT, GH and RPLV are lost. */
  lemma EncodeDecode(value: BitSet)
    ensures Encode(Decode(value))
      == value * {LA_D, LA_G, LA_W, LA_NR, LA_NX}
         + (if {LA_PLV0, LA_PLV1} <= value then {LA_PLV0, LA_PLV1} else {})
  {
  }

  /** `PTOps::new`: `ppn.0 << PPN_OFFSET_IN_PTE | arch_flags.bits()`. */
  function New(p: PhysPageNum, f: PTEFlags): (pte: PageTableEntry)
    ensures forall i :: 0 <= i < PPN_OFFSET_IN_PTE ==> (pte.bits[i] <==> i in Encode(f))
    ensures forall i :: PPN_OFFSET_IN_PTE <= i < 64 ==>
      (pte.bits[i] <==> ToWord(p.bits)[i - PPN_OFFSET_IN_PTE] || i in Encode(f))
  {
    PageTableEntry(Or(Shl(ToWord(p.bits), PPN_OFFSET_IN_PTE), WordOf(Encode(f))))
  }

  /** `PTOps::ppn`: the page-number field of the entry (`PpnIsShiftMask`
      shows this is the code's shift, mask and conversion). */
  function Ppn(pte: PageTableEntry): (p: PhysPageNum)
    ensures p.bits == Field(pte.bits, PPN_OFFSET_IN_PTE, PPN_WIDTH) && p.bits <= PPN_MASK
  {
    PpnFieldValue(pte.bits);
    PhysPageNum(Field(pte.bits, PPN_OFFSET_IN_PTE, PPN_WIDTH))
  }

  /** `Ppn` is `((bits >> PPN_OFFSET_IN_PTE) & PPN_MASK).into()`, where the
      conversion masks once more with `PPN_MASK`. */
  lemma PpnIsShiftMask(pte: PageTableEntry)
    ensures Ppn(pte) == LoongarchMmAddr.PhysPageNumFromUsize(
                          ToUsize(And(Shr(pte.bits, PPN_OFFSET_IN_PTE), ToWord(PPN_MASK))))
  {
    var x := ToUsize(And(Shr(pte.bits, PPN_OFFSET_IN_PTE), ToWord(PPN_MASK)));
    PpnFieldValue(pte.bits);
    var q := LoongarchMmAddr.PhysPageNumFromUsize(x);
    ModUnique(x, 0x10_0000_0000, 0, x);
    assert q.bits == Ppn(pte).bits;
  }

  lemma PpnFieldValue(w: Word)
    ensures ToUsize(And(Shr(w, PPN_OFFSET_IN_PTE), ToWord(PPN_MASK))) == Field(w, PPN_OFFSET_IN_PTE, PPN_WIDTH)
    ensures Field(w, PPN_OFFSET_IN_PTE, PPN_WIDTH) < 0x10_0000_0000
  {
    ConfigAssumptions();
    ShrMaskField(w, PPN_OFFSET_IN_PTE, PPN_WIDTH);
    FromBitsBound(w[PPN_OFFSET_IN_PTE..PPN_OFFSET_IN_PTE + PPN_WIDTH]);
  }

  /** `PTOps::flags` as written: `from_bits(bits).unwrap()` on the whole
      word, page number included. */
  function Flags(pte: PageTableEntry): (r: Outcome<PTEFlags>)
    ensures r.Panic? <==> exists i :: 0 <= i < 64 && pte.bits[i] && i !in DEFINED
    ensures r.Ok? ==> r.value == Decode(BitsSet(pte.bits))
  {
    match PteFlags.FromBits(DEFINED, pte.bits)
    case None => Panic
    case Some(value) => Ok(Decode(value))
  }

  /** `PTOps::flags` reading only the flag bits (`from_bits_truncate`). */
  function FlagsTruncated(pte: PageTableEntry): (f: PTEFlags)
    ensures f == Decode(BitsSet(pte.bits) * DEFINED)
  {
    Decode(FromBitsTruncate(DEFINED, pte.bits))
  }

  /** `PTOps::valid`, which the trait leaves to each back end: the V bit. */
  predicate Valid(pte: PageTableEntry)
  {
    pte.bits[LA_V]
  }

  /** The encoded flags lie outside the page-number field. */
  lemma EncodeOutsidePpnField(f: PTEFlags)
    ensures forall i :: i in Encode(f) ==> i < PPN_OFFSET_IN_PTE || PPN_OFFSET_IN_PTE + PPN_WIDTH <= i
  {
  }

  /** The page number of a new entry is the one it was made from, whenever it
      fits `PPN_MASK`. */
  lemma PpnOfNew(p: PhysPageNum, f: PTEFlags)
    requires p.bits <= PPN_MASK
    ensures Ppn(New(p, f)) == p
  {
    ConfigAssumptions();
    EncodeOutsidePpnField(f);
    PlaceField(p.bits, PPN_OFFSET_IN_PTE, PPN_WIDTH, WordOf(Encode(f)));
  }

  /** A new entry is never valid: encoding never sets V. */
  lemma NewIsInvalid(p: PhysPageNum, f: PTEFlags)
    ensures !Valid(New(p, f))
  {
  }

  /** Decoding reads only the translated bits. */
  lemma DecodeReadsTranslated(a: BitSet, b: BitSet)
    requires a * TRANSLATED == b * TRANSLATED
    ensures Decode(a) == Decode(b)
  {
    assert forall i :: i in TRANSLATED ==> (i in a <==> i in b) by {
      forall i | i in TRANSLATED ensures i in a <==> i in b {
        assert i in a * TRANSLATED <==> i in b * TRANSLATED;
      }
    }
  }

  /** For a page number that fits `PPN_MASK`, `flags` of a new entry panics
      exactly when the number is 2 or more: page-number bit 0 lands on the
      defined GH bit, every higher one on an undefined bit.  Below 2 it
      decodes the flags the entry was made with. */
  lemma FlagsOfNew(p: PhysPageNum, f: PTEFlags)
    requires p.bits <= PPN_MASK
    ensures Flags(New(p, f)).Panic? <==> p.bits >= 2
    ensures p.bits < 2 ==> Flags(New(p, f)) == Ok(Decode(Encode(f)))
  {
    if p.bits >= 2 {
      FlagsOfNewHigh(p, f);
    } else {
      FlagsOfNewLow(p, f);
    }
  }

  lemma FlagsOfNewHigh(p: PhysPageNum, f: PTEFlags)
    requires 2 <= p.bits <= PPN_MASK
    ensures Flags(New(p, f)).Panic?
  {
    var w := New(p, f).bits;
    var t := ToWord(p.bits);
    if forall i :: 0 <= i < 64 && w[i] ==> i in DEFINED {
      forall j | 1 <= j < 64 ensures !t[j] {
        if j < 49 {
          assert !w[j + PPN_OFFSET_IN_PTE];
        } else {
          ConfigAssumptions();
          ToBitsHigh(p.bits, 64, PPN_WIDTH, j);
        }
      }
      assert t[1..] == Zeros(63);
      FromBitsOfZeros(63);
      WordRoundTrip(p.bits);
      assert false;
    }
  }

  lemma FlagsOfNewLow(p: PhysPageNum, f: PTEFlags)
    requires p.bits < 2
    ensures Flags(New(p, f)) == Ok(Decode(Encode(f)))
  {
    var w := New(p, f).bits;
    forall j | 1 <= j < 64 ensures !ToWord(p.bits)[j] {
      Pow2Table();
      ToBitsHigh(p.bits, 64, 1, j);
    }
    forall i | 0 <= i < 64 && w[i] ensures i in DEFINED {
    }
    forall i | i in TRANSLATED ensures i in BitsSet(w) <==> i in Encode(f) {
    }
    assert BitsSet(w) * TRANSLATED == Encode(f) * TRANSLATED;
    DecodeReadsTranslated(BitsSet(w), Encode(f));
  }

  /** Reading only the flag bits recovers the encoded flags for every page
      number that fits `PPN_MASK`. */
  lemma FlagsTruncatedOfNew(p: PhysPageNum, f: PTEFlags)
    requires p.bits <= PPN_MASK
    ensures FlagsTruncated(New(p, f)) == Decode(Encode(f))
    ensures FlagsTruncated(New(p, f)) == f * KEPT + {V}
  {
    var w := New(p, f).bits;
    forall j | PPN_WIDTH <= j < 64 ensures !ToWord(p.bits)[j] {
      ConfigAssumptions();
      ToBitsHigh(p.bits, 64, PPN_WIDTH, j);
    }
    forall i | i in TRANSLATED ensures i in BitsSet(w) * DEFINED <==> i in Encode(f) {
    }
    assert (BitsSet(w) * DEFINED) * TRANSLATED == Encode(f) * TRANSLATED;
    DecodeReadsTranslated(BitsSet(w) * DEFINED, Encode(f));
    DecodeEncode(f);
  }

  /** `PTOps::token_from_ppn`: `ppn << 12`. */
  function TokenFromPpn(p: PhysPageNum): (t: usize)
    ensures t % 4096 == 0
    ensures t / 4096 == p.bits % 0x10_0000_0000_0000
  {
    Paging.PageAddressFloor(p.bits);
    Paging.PageAddress(p.bits)
  }

  /** `PTOps::ppn_from_token`: `(pgdl >> 12).into()`, the conversion masking
      with `PPN_MASK`. */
  function PpnFromToken(t: usize): (p: PhysPageNum)
    ensures p.bits == (t / 4096) % 0x10_0000_0000
  {
    LoongarchMmAddr.PhysPageNumFromUsize(t / 4096)
  }

  /** Turning a page number into a token and back keeps its low 36 bits, so
      every number that fits `PPN_MASK` comes back unchanged. */
  lemma TokenRoundTrip(p: PhysPageNum)
    ensures PpnFromToken(TokenFromPpn(p)).bits == p.bits % 0x10_0000_0000
    ensures p.bits <= PPN_MASK ==> PpnFromToken(TokenFromPpn(p)) == p
  {
    var t := TokenFromPpn(p);
    TokenArithmetic(p.bits, t);
    if p.bits <= PPN_MASK {
      ModUnique(p.bits, 0x10_0000_0000, 0, p.bits);
    }
  }

  /** A number whose quotient by 4096 keeps the low 52 bits of `n` keeps, in
      that quotient, the low 36 bits of `n`. */
  lemma TokenArithmetic(n: nat, t: nat)
    requires t / 4096 == n % 0x10_0000_0000_0000
    ensures (t / 4096) % 0x10_0000_0000 == n % 0x10_0000_0000
  {
    var r := n % 0x10_0000_0000_0000;
    var q := n / 0x10_0000_0000_0000;
    assert n == 0x10_0000_0000 * (0x1_0000 * q) + r;
    assert r == 0x10_0000_0000 * (r / 0x10_0000_0000) + r % 0x10_0000_0000;
    ModUnique(n, 0x10_0000_0000, 0x1_0000 * q + r / 0x10_0000_0000, r % 0x10_0000_0000);
  }

  /** `VirtPageNum::indices`: a loop from the leaf level up, each step taking
      the low `PTE_INDEX_BITS` bits and shifting them out. */
  method VirtPageNumIndices(v: VirtPageNum) returns (indices: seq<usize>)
    ensures indices == PageIndex.Indices(v.bits, PAGE_TABLE_LEVELS)
  {
    IndexWidth();
    var vpn := v.bits;
    indices := seq(PAGE_TABLE_LEVELS, _ => 0);
    var i := PAGE_TABLE_LEVELS;
    ghost var shift: nat := 0;
    while i > 0
      invariant 0 <= i <= PAGE_TABLE_LEVELS && |indices| == PAGE_TABLE_LEVELS
      invariant shift == PTE_INDEX_BITS * (PAGE_TABLE_LEVELS - i)
      invariant vpn == v.bits / Pow2(shift)
      invariant indices[i..] == PageIndex.Indices(v.bits, PAGE_TABLE_LEVELS - i)
    {
      i := i - 1;
      ghost var rest := indices[i + 1..];
      MaskLow(vpn, PTE_INDEX_BITS);
      var idx := Mask(vpn, PTE_INDEX_MASK);
      PageIndex.IndicesPrepend(v.bits, PAGE_TABLE_LEVELS - 1 - i);
      indices := indices[i := idx];
      assert indices[i..] == [idx] + rest;
      Pow2Add(shift, PTE_INDEX_BITS);
      DivDiv(v.bits, Pow2(shift), Pow2(PTE_INDEX_BITS));
      vpn := vpn / Pow2(PTE_INDEX_BITS);
      shift := shift + PTE_INDEX_BITS;
    }
  }

  /** Every index is at most `PTE_INDEX_MASK`, the root index is the most
      significant, and recombining the indices gives the low
      `PAGE_TABLE_LEVELS * PTE_INDEX_BITS` bits of the page number. */
  lemma IndicesDecompose(v: VirtPageNum)
    ensures var idx := PageIndex.Indices(v.bits, PAGE_TABLE_LEVELS);
      |idx| == PAGE_TABLE_LEVELS
      && (forall i :: 0 <= i < PAGE_TABLE_LEVELS ==> idx[i] <= PTE_INDEX_MASK)
      && idx[0] == v.bits / 0x4_0000 % 512
      && idx[PAGE_TABLE_LEVELS - 1] == v.bits % 512
      && PageIndex.Combine(idx) == v.bits % Pow2(PAGE_TABLE_LEVELS * PTE_INDEX_BITS)
  {
    Pow2Table();
    PageIndex.IndicesBounded(v.bits, PAGE_TABLE_LEVELS);
    PageIndex.IndexDigit(v.bits, PAGE_TABLE_LEVELS, 0);
    PageIndex.IndexDigit(v.bits, PAGE_TABLE_LEVELS, 2);
    PageIndex.CombineIndices(v.bits, PAGE_TABLE_LEVELS);
  }
}
