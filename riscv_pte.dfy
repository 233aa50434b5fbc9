/**
 * RISC-V Sv39 page-table entries (section 4.4 of the RISC-V Privileged
 * Architecture specification): nine flag bits at the bottom of the word
 * (V, R, W, X, U, G, A, D and a software copy-on-write bit), then a 44-bit
 * physical page number from bit 10.
 */
module RiscvPte {
  import opened Words
  import opened Wrappers
  import opened CommonAddr
  import opened PteFlags
  import RiscvMmAddr

  const PPN_OFFSET_IN_PTE: nat := 10
  const PPN_WIDTH: nat := 44
  const PPN_MASK: usize := 0xfff_ffff_ffff

  /** The positions of `Riscv64PTEFlags`. */
  const RV_V: nat := 0
  const RV_R: nat := 1
  const RV_W: nat := 2
  const RV_X: nat := 3
  const RV_U: nat := 4
  const RV_G: nat := 5
  const RV_A: nat := 6
  const RV_D: nat := 7
  const RV_COW: nat := 8
  const DEFINED: BitSet := {RV_V, RV_R, RV_W, RV_X, RV_U, RV_G, RV_A, RV_D, RV_COW}

  /** `From<Riscv64PTEFlags> for PTEFlags`. */
  function Decode(value: BitSet): (f: PTEFlags)
    ensures V in f && A !in f
    ensures R in f <==> RV_R in value
    ensures W in f <==> RV_W in value
    ensures X in f <==> RV_X in value
    ensures U in f <==> RV_U in value
    ensures D in f <==> RV_D in value
    ensures G in f <==> RV_G in value
  {
    {V}
    + (if Contains(value, {RV_W}) then {W} else {})
    + (if Contains(value, {RV_X}) then {X} else {})
    + (if Contains(value, {RV_R}) then {R} else {})
    + (if Contains(value, {RV_U}) then {U} else {})
    + (if Contains(value, {RV_D}) then {D} else {})
    + (if Contains(value, {RV_G}) then {G} else {})
  }

  /** `From<PTEFlags> for Riscv64PTEFlags`. */
  function Encode(f: PTEFlags): (value: BitSet)
    ensures value <= {RV_R, RV_W, RV_X, RV_U, RV_G, RV_D}
    ensures RV_R in value <==> R in f
    ensures RV_W in value <==> W in f
    ensures RV_X in value <==> X in f
    ensures RV_U in value <==> U in f
    ensures RV_D in value <==> D in f
    ensures RV_G in value <==> G in f
  {
    (if R in f then {RV_R} else {})
    + (if X in f then {RV_X} else {})
    + (if W in f then {RV_W} else {})
    + (if D in f then {RV_D} else {})
    + (if U in f then {RV_U} else {})
    + (if G in f then {RV_G} else {})
  }

  /** Decoding an encoding keeps R, W, X, U, D and G, drops A, and always
      adds V. */
  lemma DecodeEncode(f: PTEFlags)
    ensures Decode(Encode(f)) == f * KEPT + {V}
  {
  }

  /** Encoding a decoding returns the six translated bits and loses V, A and
      the copy-on-write bit. */
  lemma EncodeDecode(value: BitSet)
    ensures Encode(Decode(value)) == value * {RV_R, RV_W, RV_X, RV_U, RV_G, RV_D}
  {
  }

  /** `PTOps::new`: `ppn.0 << PPN_OFFSET_IN_PTE | arch_flags.bits()`. */
  function New(p: PhysPageNum, f: PTEFlags): (pte: PageTableEntry)
    ensures forall i :: 0 <= i < PPN_OFFSET_IN_PTE ==> (pte.bits[i] <==> i in Encode(f))
    ensures forall i :: PPN_OFFSET_IN_PTE <= i < 64 ==> pte.bits[i] == ToWord(p.bits)[i - PPN_OFFSET_IN_PTE]
  {
    PageTableEntry(Or(Shl(ToWord(p.bits), PPN_OFFSET_IN_PTE), WordOf(Encode(f))))
  }

  /** `PTOps::ppn`: `((bits >> PPN_OFFSET_IN_PTE) & PPN_MASK).into()`.  The
      `From<usize>` conversion asserts sign extension above bit 44, which a
      value masked to 44 bits always passes. */
  function Ppn(pte: PageTableEntry): (p: PhysPageNum)
    ensures p.bits == Field(pte.bits, PPN_OFFSET_IN_PTE, PPN_WIDTH)
  {
    Pow2Table();
    ShrMaskField(pte.bits, PPN_OFFSET_IN_PTE, PPN_WIDTH);
    FromBitsBound(pte.bits[PPN_OFFSET_IN_PTE..PPN_OFFSET_IN_PTE + PPN_WIDTH]);
    var field := ToUsize(And(Shr(pte.bits, PPN_OFFSET_IN_PTE), ToWord(PPN_MASK)));
    var r := RiscvMmAddr.PhysPageNumFromUsize(field);
    assert r.Ok?;
    r.value
  }

  /** `PTOps::flags` as written: `from_bits(bits).unwrap()` on the whole
      word, page number included. */
  function Flags(pte: PageTableEntry): (r: Outcome<PTEFlags>)
    ensures r.Panic? <==> exists i :: 0 <= i < 64 && pte.bits[i] && i !in DEFINED
    ensures r.Ok? ==> r.value == Decode(BitsSet(pte.bits))
  {
    match PteFlags.FromBits(DEFINED, pte.bits)
    case None => Panic
    case Some(value) => Ok(Decode(value))
  }

  /** `PTOps::flags` reading only the flag bits (`from_bits_truncate`). */
  function FlagsTruncated(pte: PageTableEntry): (f: PTEFlags)
    ensures f == Decode(BitsSet(pte.bits) * DEFINED)
  {
    Decode(FromBitsTruncate(DEFINED, pte.bits))
  }

  /** `PTOps::valid`, which the trait leaves to each back end: the V bit. */
  predicate Valid(pte: PageTableEntry)
  {
    pte.bits[RV_V]
  }

  /** The page number of a new entry is the one it was made from, whenever it
      fits the field. */
  lemma PpnOfNew(p: PhysPageNum, f: PTEFlags)
    requires p.bits < 0x1000_0000_0000
    ensures Ppn(New(p, f)) == p
  {
    Pow2Table();
    var rest := WordOf(Encode(f));
    PlaceField(p.bits, PPN_OFFSET_IN_PTE, PPN_WIDTH, rest);
  }

  /** A new entry is never valid: encoding drops V. */
  lemma NewIsInvalid(p: PhysPageNum, f: PTEFlags)
    ensures !Valid(New(p, f))
  {
  }

  /** `flags` panics on every entry made from a nonzero page number: some
      bit of the number lands above the defined flag bits. */
  lemma FlagsOfNewPanics(p: PhysPageNum, f: PTEFlags)
    requires 0 < p.bits < 0x1000_0000_0000
    ensures Flags(New(p, f)).Panic?
  {
    var w := New(p, f).bits;
    var t := ToWord(p.bits);
    if forall i :: 0 <= i < 64 && w[i] ==> i in DEFINED {
      forall j | 0 <= j < 64 ensures !t[j] {
        if j < 54 {
          assert w[j + PPN_OFFSET_IN_PTE] == t[j];
        } else {
          Pow2Table();
          ToBitsHigh(p.bits, 64, 44, j);
        }
      }
      assert t == Zeros(64);
      WordRoundTrip(p.bits);
      FromBitsOfZeros(64);
      assert false;
    }
  }

  /** The set bits of a new entry that are flag positions are exactly the
      encoded flags, whatever the page number. */
  lemma DefinedBitsOfNew(p: PhysPageNum, f: PTEFlags)
    ensures BitsSet(New(p, f).bits) * DEFINED == Encode(f)
  {
    var w := New(p, f).bits;
    forall i | i in DEFINED ensures (w[i] <==> i in Encode(f)) {
    }
  }

  /** The entry with page number 0 decodes to the flags it was made with. */
  lemma FlagsOfNewZero(f: PTEFlags)
    ensures Flags(New(PhysPageNum(0), f)) == Ok(Decode(Encode(f)))
  {
    var w := New(PhysPageNum(0), f).bits;
    var e := Encode(f);
    ZeroBits(64);
    forall i | 0 <= i < 64 ensures (w[i] <==> i in e) {
      if i >= PPN_OFFSET_IN_PTE {
        assert w[i] == ToWord(0)[i - PPN_OFFSET_IN_PTE];
      }
    }
    assert BitsSet(w) == e;
    assert PteFlags.FromBits(DEFINED, w) == Some(e);
  }

  /** Reading only the flag bits recovers the encoded flags for every page
      number. */
  lemma FlagsTruncatedOfNew(p: PhysPageNum, f: PTEFlags)
    ensures FlagsTruncated(New(p, f)) == Decode(Encode(f))
    ensures FlagsTruncated(New(p, f)) == f * KEPT + {V}
  {
    DefinedBitsOfNew(p, f);
    DecodeEncode(f);
  }

  /** `PTOps::token_from_ppn`: `ppn << 12`. */
  function TokenFromPpn(p: PhysPageNum): (t: usize)
    ensures t == (p.bits * 4096) % U64
  {
    Pow2Table();
    ShlUsize(p.bits, 12)
  }

  /** `PTOps::ppn_from_token`: `(token >> 12).into()`, which asserts sign
      extension above bit 44 of the page number. */
  function PpnFromToken(t: usize): (r: Outcome<PhysPageNum>)
    ensures r.Panic? <==> t >= 0x100_0000_0000_0000
    ensures r.Ok? ==> r.value.bits == t / 4096
  {
    Pow2Table();
    RiscvMmAddr.PhysPageNumFromUsize(t / Pow2(12))
  }

  /** The token of a page number that fits 44 bits gives the page number
      back. */
  lemma TokenRoundTrip(p: PhysPageNum)
    requires p.bits < 0x1000_0000_0000
    ensures PpnFromToken(TokenFromPpn(p)) == Ok(p)
  {
    var t := TokenFromPpn(p);
    assert p.bits * 4096 < U64;
    ModUnique(p.bits * 4096, U64, 0, p.bits * 4096);
    ModUnique(t, 4096, p.bits, 0);
  }
}
