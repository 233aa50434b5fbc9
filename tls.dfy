/**
 * The layout of a thread-local-storage area on RISC-V and LoongArch: the
 * thread control block (empty on both), the gap above the thread pointer
 * (empty on both) and the static block holding `.tdata` and `.tbss`,
 * rounded up to 16 bytes.
 *
 * The linker symbols `_stdata` and `_etbss` and the address the heap
 * allocator hands out are parameters; the heap itself is not modelled.
 */
module Tls {
  import opened Words
  import opened Wrappers
  import Paging

  const TLS_ALIGN: nat := 16
  const TCB_SIZE: usize := 0
  const GAP_ABOVE_TP: usize := 0
  /** `isize::MAX`, the largest size a `Layout` accepts once rounded up. */
  const ISIZE_MAX: nat := 0x7fff_ffff_ffff_ffff

  /** `a - b` on `usize`, wrapping. */
  function WrappingSub(a: usize, b: usize): (r: usize)
    ensures a >= b ==> r == a - b
    ensures a < b ==> r == a - b + U64
  {
    (a - b) % U64
  }

  /** `align_up(x, 16)`, that is `(x + 15) & !15` with a wrapping sum: the
      multiple of 16 in `[x, x + 16)`, or 0 once the sum wraps. */
  function AlignUp(x: usize): (r: usize)
    ensures r % TLS_ALIGN == 0
    ensures x + 15 < U64 ==> x <= r < x + TLS_ALIGN
    ensures x + 15 >= U64 ==> r == 0
  {
    var s := Paging.WrappingAdd(x, 15);
    s - s % TLS_ALIGN
  }

  /** `AlignUp` is the mask expression of `align_up`. */
  lemma AlignUpIsMask(x: usize)
    ensures AlignUp(x) == Mask(Paging.WrappingAdd(x, 15), Not(15))
  {
    Pow2Table();
    MaskHigh(Paging.WrappingAdd(x, 15), 4);
  }

  /** `_etbss - _stdata`: the bytes of `.tdata` and `.tbss` together. */
  function LoadSize(stdata: usize, etbss: usize): usize
  {
    WrappingSub(etbss, stdata)
  }

  /** `static_tls_size`. */
  function StaticTlsSize(stdata: usize, etbss: usize): usize
  {
    AlignUp(LoadSize(stdata, etbss))
  }

  /** `static_tls_offset`: the block starts above the TCB and the gap. */
  function StaticTlsOffset(): (r: usize)
    ensures r == 0
  {
    TCB_SIZE + GAP_ABOVE_TP
  }

  /** `tp_offset`: the thread pointer sits just above the TCB. */
  function TpOffset(): (r: usize)
    ensures r == 0
  {
    TCB_SIZE
  }

  /** `tls_area_size`. */
  function TlsAreaSize(stdata: usize, etbss: usize): usize
  {
    TCB_SIZE + GAP_ABOVE_TP + StaticTlsSize(stdata, etbss)
  }

  /** The static block is the load image rounded up to a multiple of 16:
      at least as large and less than 16 bytes larger, as long as the
      symbols are in order and the rounding does not wrap. */
  lemma StaticTlsSizeBounds(stdata: usize, etbss: usize)
    requires stdata <= etbss && etbss - stdata + 15 < U64
    ensures StaticTlsSize(stdata, etbss) % TLS_ALIGN == 0
    ensures etbss - stdata <= StaticTlsSize(stdata, etbss) < etbss - stdata + TLS_ALIGN
  {
  }

  /** The thread pointer lies at or below the static block, and the area is
      exactly the block placed at its offset. */
  lemma AreaLayout(stdata: usize, etbss: usize)
    ensures TpOffset() <= StaticTlsOffset()
    ensures StaticTlsOffset() == TCB_SIZE + GAP_ABOVE_TP
    ensures TlsAreaSize(stdata, etbss) == StaticTlsOffset() + StaticTlsSize(stdata, etbss)
  {
  }

  datatype Layout = Layout(size: usize, align: nat)

  /** `Layout::from_size_align(size, 16).unwrap()`: panics when the size
      rounded up to the alignment exceeds `isize::MAX`. */
  function TlsLayout(size: usize): (r: Outcome<Layout>)
    ensures r.Panic? <==> size > ISIZE_MAX - (TLS_ALIGN - 1)
    ensures r.Ok? ==> r.value == Layout(size, TLS_ALIGN)
  {
    if size > ISIZE_MAX - (TLS_ALIGN - 1) then Panic else Ok(Layout(size, TLS_ALIGN))
  }

  /** A TLS area: its base address and the layout it was allocated with. */
  datatype TlsArea = TlsArea(base: usize, layout: Layout)

  /** The `copy_nonoverlapping` of the load image: where it writes and how
      many bytes. */
  datatype Copy = Copy(src: usize, dst: usize, len: usize)

  /** `TlsArea::tls_ptr`: `base + tp_offset`. */
  function TlsPtr(a: TlsArea): (p: usize)
    ensures p == a.base
  {
    Paging.WrappingAdd(a.base, TpOffset())
  }

  /** `TlsArea::alloc`, given the symbols and the address `alloc_zeroed`
      returns (0 for a failed allocation): the layout check, the copy of
      the load image to the static block, and the `NonNull` check.  The copy
      comes before that check, so with a null base it writes through null;
      the model reports that case as the panic of the check. */
  function Alloc(stdata: usize, etbss: usize, areaBase: usize): (r: Outcome<(TlsArea, Copy)>)
    ensures r.Panic? <==> TlsAreaSize(stdata, etbss) > ISIZE_MAX - (TLS_ALIGN - 1) || areaBase == 0
    ensures r.Ok? ==> r.value.0 == TlsArea(areaBase, Layout(TlsAreaSize(stdata, etbss), TLS_ALIGN))
  {
    match TlsLayout(TlsAreaSize(stdata, etbss))
    case Panic => Panic
    case Ok(layout) =>
      var copy := Copy(stdata, Paging.WrappingAdd(areaBase, StaticTlsOffset()), LoadSize(stdata, etbss));
      if areaBase == 0 then Panic else Ok((TlsArea(areaBase, layout), copy))
  }

  /** The copy reads the whole load image and writes it at the static block,
      inside the allocated area, when the symbols are in order and rounding
      the image up does not wrap (if it did, the area would be empty). */
  lemma CopyWithinArea(stdata: usize, etbss: usize, areaBase: usize)
    requires stdata <= etbss && etbss - stdata + 15 < U64
    requires Alloc(stdata, etbss, areaBase).Ok?
    ensures var (area, copy) := Alloc(stdata, etbss, areaBase).value;
      && copy.src == stdata && copy.len == etbss - stdata
      && copy.dst == area.base + StaticTlsOffset()
      && area.base <= copy.dst
      && copy.dst + copy.len <= area.base + area.layout.size
  {
  }
}
