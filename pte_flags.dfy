/**
 * The architecture-neutral page-table-entry flags, a hardware flag set as
 * the set of its bit positions (what the `bitflags` crate generates), and the
 * entry word itself.
 */
module PteFlags {
  import opened Words
  import opened Wrappers

  /** The canonical flags both back ends translate to and from. */
  datatype PTEFlag = V | R | W | X | U | D | A | G

  type PTEFlags = set<PTEFlag>

  /** The canonical flags both back ends carry through a round trip. */
  const KEPT: PTEFlags := {R, W, X, U, D, G}

  /** A page-table entry: one machine word. */
  datatype PageTableEntry = PageTableEntry(bits: Word)

  /** `PageTableEntry { bits: 0 }`. */
  const EMPTY_PTE: PageTableEntry := PageTableEntry(EMPTY)

  /** Bit positions of a word. */
  type BitSet = s: set<nat> | forall i :: i in s ==> i < 64

  /** `value.bits()`: the word with exactly the positions of `s` set. */
  function WordOf(s: BitSet): (w: Word)
    ensures forall i :: 0 <= i < 64 ==> (w[i] <==> i in s)
  {
    seq(64, i requires 0 <= i < 64 => i in s)
  }

  /** The positions set in `w`. */
  function BitsSet(w: Word): (s: BitSet)
    ensures forall i :: 0 <= i < 64 ==> (i in s <==> w[i])
  {
    set i | 0 <= i < 64 && w[i]
  }

  lemma BitsSetWordOf(s: BitSet)
    ensures BitsSet(WordOf(s)) == s
  {
  }

  /** `from_bits(w)`: the flag value when every set bit is a defined flag
      bit, `None` otherwise. */
  function FromBits(defined: BitSet, w: Word): (r: Option<BitSet>)
    ensures r.Some? <==> (forall i :: 0 <= i < 64 && w[i] ==> i in defined)
    ensures r.Some? ==> r.value == BitsSet(w) && WordOf(r.value) == w
  {
    if BitsSet(w) <= defined then Some(BitsSet(w)) else None
  }

  /** `from_bits_truncate(w)`: the defined bits of `w`, the others dropped. */
  function FromBitsTruncate(defined: BitSet, w: Word): (r: BitSet)
    ensures r <= defined
    ensures forall i :: i in defined ==> (i in r <==> w[i])
  {
    BitsSet(w) * defined
  }

  /** `contains(mask)`: every bit of the mask is set. */
  predicate Contains(value: BitSet, mask: BitSet)
  {
    mask <= value
  }
}
