/**
 * The earlier LoongArch page-table entry: its flags are the hardware bit set
 * itself (no translation to an architecture-neutral set), with the global
 * bit at position 12, where the page-number field also begins.
 */
module LoongarchOldPte {
  import opened Words
  import opened Wrappers
  import opened Addr
  import opened LoongarchConfig
  import PteFlags
  import LoongarchArchAddr

  const V: nat := 0
  const D: nat := 1
  const PLV0: nat := 2
  const PLV1: nat := 3
  const MAT0: nat := 4
  const MAT1: nat := 5
  const GH: nat := 6
  const P: nat := 7
  const W: nat := 8
  const G: nat := 12
  const NR: nat := 61
  const NX: nat := 62
  const RPLV: nat := 63
  const DEFINED: PteFlags.BitSet := {V, D, PLV0, PLV1, MAT0, MAT1, GH, P, W, G, NR, NX, RPLV}

  /** A value of the `PTEFlags` bit set: only defined bits. */
  type PTEFlags = s: PteFlags.BitSet | s <= DEFINED

  datatype PageTableEntry = PageTableEntry(bits: Word)

  /** `PageTableEntry::new`: `ppn.0 << PPN_OFFSET_IN_PTE | flags.bits()`. */
  function New(p: PhysPageNum, f: PTEFlags): (pte: PageTableEntry)
    ensures forall i :: 0 <= i < PPN_OFFSET_IN_PTE ==> (pte.bits[i] <==> i in f)
    ensures forall i :: PPN_OFFSET_IN_PTE <= i < 64 ==>
      (pte.bits[i] <==> ToWord(p.bits)[i - PPN_OFFSET_IN_PTE] || i in f)
  {
    PageTableEntry(Or(Shl(ToWord(p.bits), PPN_OFFSET_IN_PTE), PteFlags.WordOf(f)))
  }

  /** `PageTableEntry::empty`: the all-zero word. */
  function Empty(): (pte: PageTableEntry)
    ensures ToUsize(pte.bits) == 0
    ensures forall i :: 0 <= i < 64 ==> !pte.bits[i]
  {
    ZeroBits(64);
    FromBitsOfZeros(64);
    PageTableEntry(ToWord(0))
  }

  /** `PageTableEntry::ppn`: `((bits >> PPN_OFFSET_IN_PTE) & PPN_MASK).into()`,
      the conversion masking once more with `PPN_MASK`. */
  function Ppn(pte: PageTableEntry): (p: PhysPageNum)
    ensures p.bits == Field(pte.bits, PPN_OFFSET_IN_PTE, PPN_WIDTH) && p.bits <= PPN_MASK
  {
    PpnFieldValue(pte.bits);
    PhysPageNum(Field(pte.bits, PPN_OFFSET_IN_PTE, PPN_WIDTH))
  }

  /** `Ppn` is the shift, the mask and the masking conversion as written. */
  lemma PpnIsShiftMask(pte: PageTableEntry)
    ensures Ppn(pte) == LoongarchArchAddr.PhysPageNumFromUsize(
                          ToUsize(And(Shr(pte.bits, PPN_OFFSET_IN_PTE), ToWord(PPN_MASK))))
  {
    var x := ToUsize(And(Shr(pte.bits, PPN_OFFSET_IN_PTE), ToWord(PPN_MASK)));
    PpnFieldValue(pte.bits);
    var q := LoongarchArchAddr.PhysPageNumFromUsize(x);
    ModUnique(x, 0x10_0000_0000, 0, x);
    assert q.bits == Ppn(pte).bits;
  }

  lemma PpnFieldValue(w: Word)
    ensures ToUsize(And(Shr(w, PPN_OFFSET_IN_PTE), ToWord(PPN_MASK))) == Field(w, PPN_OFFSET_IN_PTE, PPN_WIDTH)
    ensures Field(w, PPN_OFFSET_IN_PTE, PPN_WIDTH) < 0x10_0000_0000
  {
    ConfigAssumptions();
    ShrMaskField(w, PPN_OFFSET_IN_PTE, PPN_WIDTH);
    FromBitsBound(w[PPN_OFFSET_IN_PTE..PPN_OFFSET_IN_PTE + PPN_WIDTH]);
  }

  /** `PageTableEntry::flags`: `from_bits(bits).unwrap()` on the whole word. */
  function Flags(pte: PageTableEntry): (r: Outcome<PTEFlags>)
    ensures r.Panic? <==> exists i :: 0 <= i < 64 && pte.bits[i] && i !in DEFINED
    ensures r.Ok? ==> r.value == PteFlags.BitsSet(pte.bits)
  {
    match PteFlags.FromBits(DEFINED, pte.bits)
    case None => Panic
    case Some(value) => Ok(value)
  }

  /** `PageTableEntry::is_valid`: whether `flags()` holds V, so it panics
      whenever `flags()` does. */
  function IsValid(pte: PageTableEntry): (r: Outcome<bool>)
    ensures r.Panic? <==> Flags(pte).Panic?
    ensures r.Ok? ==> (r.value <==> pte.bits[V])
  {
    match Flags(pte)
    case Panic => Panic
    case Ok(f) => Ok(V in f)
  }

  /** `is_valid` reading only the flag bits (`from_bits_truncate`). */
  function IsValidTruncated(pte: PageTableEntry): (b: bool)
    ensures b <==> pte.bits[V]
  {
    V in PteFlags.FromBitsTruncate(DEFINED, pte.bits)
  }

  /** The empty entry has no flags and is not valid. */
  lemma EmptyIsInvalid()
    ensures Flags(Empty()) == Ok({})
    ensures IsValid(Empty()) == Ok(false)
  {
    var w := Empty().bits;
    assert PteFlags.BitsSet(w) == {};
  }

  /** The page number of a new entry is the one it was made from, whenever it
      fits `PPN_MASK` and the flags leave out G, the one flag inside the
      page-number field. */
  lemma PpnOfNew(p: PhysPageNum, f: PTEFlags)
    requires p.bits <= PPN_MASK && G !in f
    ensures Ppn(New(p, f)) == p
  {
    ConfigAssumptions();
    FlagsOutsidePpnField(f);
    PlaceField(p.bits, PPN_OFFSET_IN_PTE, PPN_WIDTH, PteFlags.WordOf(f));
  }

  /** G is the only defined flag inside the page-number field. */
  lemma FlagsOutsidePpnField(f: PTEFlags)
    requires G !in f
    ensures forall i :: i in f ==> i < PPN_OFFSET_IN_PTE || PPN_OFFSET_IN_PTE + PPN_WIDTH <= i
  {
  }

  /** With G among the flags, page number 0 reads back as 1. */
  lemma PpnOfNewGlobal()
    ensures Ppn(New(PhysPageNum(0), {G})).bits == 1
  {
    var w := New(PhysPageNum(0), {G}).bits;
    ZeroBits(64);
    var field := w[PPN_OFFSET_IN_PTE..PPN_OFFSET_IN_PTE + PPN_WIDTH];
    assert field == [true] + Zeros(35);
    PteFlags.BitsSetWordOf({G});
    FromBitsOfZeros(35);
  }

  /** For a page number that fits `PPN_MASK`, `flags` of a new entry panics
      exactly when the number is 2 or more: page-number bit 0 lands on G,
      every higher one on an undefined bit.  Below 2 it returns the flags,
      with G added for page number 1. */
  lemma FlagsOfNew(p: PhysPageNum, f: PTEFlags)
    requires p.bits <= PPN_MASK
    ensures Flags(New(p, f)).Panic? <==> p.bits >= 2
    ensures p.bits == 0 ==> Flags(New(p, f)) == Ok(f)
    ensures p.bits == 1 ==> Flags(New(p, f)) == Ok(f + {G})
  {
    if p.bits >= 2 {
      FlagsOfNewHigh(p, f);
    } else {
      FlagsOfNewLow(p, f);
    }
  }

  lemma FlagsOfNewHigh(p: PhysPageNum, f: PTEFlags)
    requires 2 <= p.bits <= PPN_MASK
    ensures Flags(New(p, f)).Panic?
  {
    var w := New(p, f).bits;
    var t := ToWord(p.bits);
    if forall i :: 0 <= i < 64 && w[i] ==> i in DEFINED {
      forall j | 1 <= j < 64 ensures !t[j] {
        if j < 49 {
          assert !w[j + PPN_OFFSET_IN_PTE];
        } else {
          ConfigAssumptions();
          ToBitsHigh(p.bits, 64, PPN_WIDTH, j);
        }
      }
      assert t[1..] == Zeros(63);
      FromBitsOfZeros(63);
      WordRoundTrip(p.bits);
      assert false;
    }
  }

  lemma FlagsOfNewLow(p: PhysPageNum, f: PTEFlags)
    requires p.bits < 2
    ensures Flags(New(p, f)) == Ok(if p.bits == 1 then f + {G} else f)
  {
    var w := New(p, f).bits;
    var t := ToWord(p.bits);
    forall j | 1 <= j < 64 ensures !t[j] {
      Pow2Table();
      ToBitsHigh(p.bits, 64, 1, j);
    }
    assert t[0] <==> p.bits == 1;
    forall i | 0 <= i < 64 && w[i] ensures i in DEFINED {
    }
    var expected: set<nat> := if p.bits == 1 then f + {G} else f;
    forall i | 0 <= i < 64 ensures i in PteFlags.BitsSet(w) <==> i in expected {
    }
    assert PteFlags.BitsSet(w) == expected;
  }

  /** For page numbers below 2, where `flags` does not panic, a new entry is
      valid exactly when its flags hold V; from 2 on, `is_valid` panics. */
  lemma IsValidOfNew(p: PhysPageNum, f: PTEFlags)
    requires p.bits <= PPN_MASK
    ensures IsValid(New(p, f)).Panic? <==> p.bits >= 2
    ensures p.bits < 2 ==> IsValid(New(p, f)) == Ok(V in f)
  {
    FlagsOfNew(p, f);
  }

  /** Reading only the flag bits, a new entry is valid exactly when its flags
      hold V, for every page number. */
  lemma IsValidTruncatedOfNew(p: PhysPageNum, f: PTEFlags)
    ensures IsValidTruncated(New(p, f)) <==> V in f
  {
  }
}
