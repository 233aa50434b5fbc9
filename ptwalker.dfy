/**
 * The hardware page-walker configuration of `setup_ptwalker` on LoongArch:
 * for each level the bit at which its index starts (`*_i`) and its width
 * (`*_w`), packed into the PWCL and PWCH control words laid out as in
 * section 7.5 of the LoongArch Reference Manual, Volume 1.  Writing the
 * words to the control registers is not modelled.
 */
module PageWalker {
  import opened Words
  import opened LoongarchConfig
  import PageIndex

  datatype WalkerFields = WalkerFields(
    pteI: usize, pteW: usize,
    dir1I: usize, dir1W: usize, dir2I: usize, dir2W: usize,
    dir3I: usize, dir3W: usize, dir4I: usize, dir4W: usize)

  /** The if-chain for a table of `levels` levels: a directory level's
      fields are set only when the table has that many levels, every width
      set is one table page's worth of index bits, and the last-level index
      starts at the page shift. */
  function Fields(levels: nat): (f: WalkerFields)
    ensures f.pteI == PAGE_SHIFT && f.pteW == PAGE_SHIFT - PTE_SIZE_BITS
    ensures (f.dir1I != 0 <==> levels > 1) && (f.dir1W != 0 <==> levels > 1)
    ensures (f.dir2I != 0 <==> levels > 2) && (f.dir2W != 0 <==> levels > 2)
    ensures (f.dir3I != 0 <==> levels > 3) && (f.dir3W != 0 <==> levels > 3)
    ensures (f.dir4I != 0 <==> levels > 4) && (f.dir4W != 0 <==> levels > 4)
    ensures f.dir1W in {0, PAGE_SHIFT - PTE_SIZE_BITS} && f.dir2W in {0, PAGE_SHIFT - PTE_SIZE_BITS}
    ensures f.dir3W in {0, PAGE_SHIFT - PTE_SIZE_BITS} && f.dir4W in {0, PAGE_SHIFT - PTE_SIZE_BITS}
    ensures f.dir1I in {0, DIR_1_SHIFT} && f.dir2I in {0, DIR_2_SHIFT}
    ensures f.dir3I in {0, DIR_3_SHIFT} && f.dir4I in {0, DIR_4_SHIFT}
  {
    var w := PAGE_SHIFT - PTE_SIZE_BITS;
    var d4 := if levels > 4 then (DIR_4_SHIFT, w) else (0, 0);
    var d3 := if levels > 3 then (DIR_3_SHIFT, w) else (0, 0);
    var d2 := if levels > 2 then (DIR_2_SHIFT, w) else (0, 0);
    var d1 := if levels > 1 then (DIR_1_SHIFT, w) else (0, 0);
    WalkerFields(PAGE_SHIFT, w, d1.0, d1.1, d2.0, d2.1, d3.0, d3.1, d4.0, d4.1)
  }

  /** `v0 | v1 << width | v2 << 2 * width | ...`, or-ed left to right. */
  function Pack(vals: seq<usize>, width: nat): Word
    requires 0 < width && width * |vals| <= 64
    decreases |vals|
  {
    if |vals| == 0 then EMPTY
    else
      var n := |vals| - 1;
      assert width * |vals| == width * n + width;
      Or(Pack(vals[..n], width), Shl(ToWord(vals[n]), width * n))
  }

  /** No bit above the last slot is set. */
  lemma {:induction false} PackSupport(vals: seq<usize>, width: nat, i: nat)
    requires 0 < width && width * |vals| <= i < 64
    requires forall k :: 0 <= k < |vals| ==> vals[k] < Pow2(width)
    ensures !Pack(vals, width)[i]
    decreases |vals|
  {
    if |vals| > 0 {
      var n := |vals| - 1;
      var off := width * n;
      assert width * |vals| == off + width;
      var prefix := vals[..n];
      assert forall k :: 0 <= k < n ==> prefix[k] == vals[k];
      PackSupport(prefix, width, i);
      PlacedSupport(vals[n], off, width, i);
      var a, b := Pack(prefix, width), Shl(ToWord(vals[n]), off);
      assert Pack(vals, width) == Or(a, b);
      assert !Or(a, b)[i];
    }
  }

  /** Every value that fits its slot is read back from it. */
  lemma {:induction false} PackField(vals: seq<usize>, width: nat, k: nat)
    requires 0 < width && width * |vals| <= 64 && k < |vals|
    requires forall j :: 0 <= j < |vals| ==> vals[j] < Pow2(width)
    ensures width * k + width <= 64
    ensures Field(Pack(vals, width), width * k, width) == vals[k]
    decreases |vals|
  {
    var n := |vals| - 1;
    assert width * |vals| == width * n + width;
    MulLeMono(width, k, n);
    var p := Pack(vals[..n], width);
    var s := Shl(ToWord(vals[n]), width * n);
    var w := Or(p, s);
    assert w == Pack(vals, width);
    if k == n {
      forall i | width * n <= i < width * n + width ensures !p[i] {
        PackSupport(vals[..n], width, i);
      }
      assert w == Or(s, p);
      PlaceField(vals[n], width * n, width, p);
    } else {
      MulLeMono(width, k + 1, n);
      assert width * (k + 1) == width * k + width;
      forall i | width * k <= i < width * k + width ensures w[i] == p[i] {
        PlacedSupport(vals[n], width * n, width, i);
      }
      assert w[width * k..width * k + width] == p[width * k..width * k + width];
      PackField(vals[..n], width, k);
    }
  }

  /** The field values of PWCL, in slot order. */
  function PwclSlots(f: WalkerFields): seq<usize>
  {
    [f.pteI, f.pteW, f.dir1I, f.dir1W, f.dir2I, f.dir2W, PWCL_PTE_WIDTH]
  }

  /** PWCL: the last level, directories 1 and 2 and the entry width at
      5-bit slots 0, 5, 10, ..., 30. */
  function Pwcl(f: WalkerFields): Word
  {
    Pack(PwclSlots(f), 5)
  }

  /** The field values of PWCH, in slot order. */
  function PwchSlots(f: WalkerFields): seq<usize>
  {
    [f.dir3I, f.dir3W, f.dir4I, f.dir4W]
  }

  /** PWCH: directories 3 and 4 at 6-bit slots 0, 6, 12 and 18. */
  function Pwch(f: WalkerFields): Word
  {
    Pack(PwchSlots(f), 6)
  }

  /** Each PWCL value that fits 5 bits is read back from its slot, and
      nothing lies above bit 34. */
  lemma PwclFields(f: WalkerFields)
    requires forall j :: 0 <= j < 7 ==> PwclSlots(f)[j] < 32
    ensures var w := Pwcl(f);
      && Field(w, 0, 5) == f.pteI && Field(w, 5, 5) == f.pteW
      && Field(w, 10, 5) == f.dir1I && Field(w, 15, 5) == f.dir1W
      && Field(w, 20, 5) == f.dir2I && Field(w, 25, 5) == f.dir2W
      && Field(w, 30, 5) == PWCL_PTE_WIDTH
      && (forall i :: 35 <= i < 64 ==> !w[i])
  {
    var slots := PwclSlots(f);
    Pow2Table();
    PackField(slots, 5, 0);
    PackField(slots, 5, 1);
    PackField(slots, 5, 2);
    PackField(slots, 5, 3);
    PackField(slots, 5, 4);
    PackField(slots, 5, 5);
    PackField(slots, 5, 6);
    forall i | 35 <= i < 64 ensures !Pwcl(f)[i] {
      PackSupport(slots, 5, i);
    }
  }

  /** Each PWCH value that fits 6 bits is read back from its slot, and
      nothing lies above bit 23. */
  lemma PwchFields(f: WalkerFields)
    requires forall j :: 0 <= j < 4 ==> PwchSlots(f)[j] < 64
    ensures var w := Pwch(f);
      && Field(w, 0, 6) == f.dir3I && Field(w, 6, 6) == f.dir3W
      && Field(w, 12, 6) == f.dir4I && Field(w, 18, 6) == f.dir4W
      && (forall i :: 24 <= i < 64 ==> !w[i])
  {
    var slots := PwchSlots(f);
    Pow2Table();
    PackField(slots, 6, 0);
    PackField(slots, 6, 1);
    PackField(slots, 6, 2);
    PackField(slots, 6, 3);
    forall i | 24 <= i < 64 ensures !Pwch(f)[i] {
      PackSupport(slots, 6, i);
    }
  }

  /** The three-level table uses directories 1 and 2 and leaves 3 and 4
      at zero. */
  lemma ConfiguredFields()
    ensures Fields(PAGE_TABLE_LEVELS) == WalkerFields(12, 9, 21, 9, 30, 9, 0, 0, 0, 0)
  {
  }

  /** For the three-level table every PWCL field fits its slot, so the word
      carries exactly the configured positions and widths. */
  lemma ConfiguredPwcl()
    ensures var w := Pwcl(Fields(PAGE_TABLE_LEVELS));
      && Field(w, 0, 5) == 12 && Field(w, 5, 5) == 9
      && Field(w, 10, 5) == 21 && Field(w, 15, 5) == 9
      && Field(w, 20, 5) == 30 && Field(w, 25, 5) == 9
      && Field(w, 30, 5) == 0
  {
    PwclFields(Fields(PAGE_TABLE_LEVELS));
  }

  /** For the three-level table PWCH carries zeros in every slot. */
  lemma ConfiguredPwch()
    ensures var w := Pwch(Fields(PAGE_TABLE_LEVELS));
      && Field(w, 0, 6) == 0 && Field(w, 6, 6) == 0
      && Field(w, 12, 6) == 0 && Field(w, 18, 6) == 0
  {
    PwchFields(Fields(PAGE_TABLE_LEVELS));
  }

  /** The hardware walker reads the same address bits as the software walk:
      level `j` (0 for the last level) takes the 9 bits starting at its
      configured index position, and that is index `2 - j` of the page
      number's decomposition. */
  lemma WalkerMatchesIndices(va: nat)
    ensures var f := Fields(PAGE_TABLE_LEVELS);
      var idx := PageIndex.Indices(va / 4096, PAGE_TABLE_LEVELS);
      && idx[2] == (va / Pow2(f.pteI)) % Pow2(f.pteW)
      && idx[1] == (va / Pow2(f.dir1I)) % Pow2(f.dir1W)
      && idx[0] == (va / Pow2(f.dir2I)) % Pow2(f.dir2W)
  {
    Pow2Table();
    var vpn := va / 4096;
    PageIndex.IndexDigit(vpn, 3, 2);
    PageIndex.IndexDigit(vpn, 3, 1);
    PageIndex.IndexDigit(vpn, 3, 0);
    Pow2Add(12, 9);
    Pow2Add(12, 18);
    DivDiv(va, 4096, 512);
    DivDiv(va, 4096, Pow2(18));
  }
}
