/**
 * The earlier LoongArch trap frame: 32 general registers, the exception
 * return address `era` and the pre-exception mode `prmd`, with named views
 * of the registers a trap handler reads and writes.  The floating-point
 * context is only stored and is not modelled.
 */
module LoongarchTrapFrame {
  import opened Words
  import Paging

  const GR_COUNT: nat := 32
  /** `prmd` of a fresh frame, `0b0111`. */
  const PRMD_INIT: usize := 7

  datatype TrapFrameArgs = SEPC | RA | SP | RET | ARG0 | ARG1 | ARG2 | TLS | SYSCALL

  /** A field of the frame: `era` or general register `k`. */
  datatype Place = Era | Gr(k: nat)

  /** The field `index` and `index_mut` both select: the return address
      for SEPC, and for the rest ra (1), tp (2), sp (3), a0 (4) for both RET
      and ARG0, a1 (5), a2 (6) and a7 (11). */
  function PlaceOf(a: TrapFrameArgs): (p: Place)
    ensures p.Gr? ==> p.k < GR_COUNT
    ensures p == Era <==> a == SEPC
    ensures p == Gr(4) <==> a == RET || a == ARG0
  {
    match a
    case SEPC => Era
    case RA => Gr(1)
    case TLS => Gr(2)
    case SP => Gr(3)
    case RET => Gr(4)
    case ARG0 => Gr(4)
    case ARG1 => Gr(5)
    case ARG2 => Gr(6)
    case SYSCALL => Gr(11)
  }

  /** Apart from RET and ARG0, which share a0, the views select different
      fields. */
  lemma PlacesDistinct(a: TrapFrameArgs, b: TrapFrameArgs)
    ensures PlaceOf(a) == PlaceOf(b) <==> a == b || {a, b} == {RET, ARG0}
  {
  }

  class TrapFrame {
    const gr: array<usize>
    var era: usize
    var prmd: usize

    predicate Valid()
      reads this
    {
      gr.Length == GR_COUNT
    }

    /** `TrapFrame::new`: every field at its default zero except `prmd`. */
    constructor ()
      ensures Valid() && fresh(gr)
      ensures forall k :: 0 <= k < GR_COUNT ==> gr[k] == 0
      ensures era == 0 && prmd == PRMD_INIT
    {
      gr := new usize[GR_COUNT](_ => 0);
      era := 0;
      prmd := PRMD_INIT;
    }

    /** `syscall_ok`: step `era` past the 4-byte `syscall` instruction; the
        registers and `prmd` are left alone. */
    method SyscallOk()
      modifies this
      ensures era == Paging.WrappingAdd(old(era), 4) && prmd == old(prmd)
      ensures era == (old(era) + 4) % U64
    {
      era := Paging.WrappingAdd(era, 4);
    }

    /** `args`: the six argument registers a0 .. a5. */
    function Args(): (a: seq<usize>)
      requires Valid()
      reads this, gr
      ensures |a| == 6 && forall k :: 0 <= k < 6 ==> a[k] == gr[4 + k]
    {
      gr[4..10]
    }

    /** Reading one field. */
    function Read(p: Place): usize
      requires Valid() && (p.Gr? ==> p.k < GR_COUNT)
      reads this, gr
    {
      match p
      case Era => era
      case Gr(k) => gr[k]
    }

    /** `index`. */
    function Index(a: TrapFrameArgs): usize
      requires Valid()
      reads this, gr
    {
      Read(PlaceOf(a))
    }

    /** `*frame.index_mut(a) = v`: the view reads `v` afterwards, every view
        on another field reads as before, and no other register, nor
        `prmd`, changes. */
    method IndexMut(a: TrapFrameArgs, v: usize)
      requires Valid()
      modifies this, gr
      ensures Valid()
      ensures Index(a) == v
      ensures forall b :: PlaceOf(b) != PlaceOf(a) ==> Index(b) == old(Index(b))
      ensures forall k :: 0 <= k < GR_COUNT && PlaceOf(a) != Gr(k) ==> gr[k] == old(gr[k])
      ensures PlaceOf(a) != Era ==> era == old(era)
      ensures prmd == old(prmd)
    {
      match PlaceOf(a)
      case Era => era := v;
      case Gr(k) => gr[k] := v;
    }

    /** The first three argument views are the first three of `args`, and
        a value written as the return value is read back as ARG0. */
    lemma ArgsAgreeWithIndex()
      requires Valid()
      ensures Args()[0] == Index(ARG0) == Index(RET)
      ensures Args()[1] == Index(ARG1) && Args()[2] == Index(ARG2)
    {
    }
  }

  /** Writing the return value through RET replaces the first argument. */
  method ReturnOverwritesArg0(tf: TrapFrame, v: usize) returns (arg0: usize)
    requires tf.Valid()
    modifies tf, tf.gr
    ensures arg0 == v && tf.Args()[0] == v
  {
    tf.IndexMut(RET, v);
    arg0 := tf.Index(ARG0);
  }
}
