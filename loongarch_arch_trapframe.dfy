/**
 * The later LoongArch trap frame: the general registers as 32 named fields
 * in hardware order, `era` and `prmd`.  The floating-point registers are
 * only stored and are not modelled.
 */
module LoongarchArchTrapFrame {
  import opened Words
  import Paging
  import Old = LoongarchTrapFrame

  datatype GeneralRegisters = GeneralRegisters(
    zero: usize, ra: usize, tp: usize, sp: usize,
    a0: usize, a1: usize, a2: usize, a3: usize, a4: usize, a5: usize, a6: usize, a7: usize,
    t0: usize, t1: usize, t2: usize, t3: usize, t4: usize, t5: usize, t6: usize, t7: usize, t8: usize,
    u0: usize, fp: usize,
    s0: usize, s1: usize, s2: usize, s3: usize, s4: usize, s5: usize, s6: usize, s7: usize, s8: usize)

  const DEFAULT_REGISTERS: GeneralRegisters :=
    GeneralRegisters(0, 0, 0, 0, 0, 0, 0, 0, 0, 0, 0, 0, 0, 0, 0, 0,
                     0, 0, 0, 0, 0, 0, 0, 0, 0, 0, 0, 0, 0, 0, 0, 0)

  /** Hardware register `k`: the `k`-th field in declaration order. */
  function Register(g: GeneralRegisters, k: nat): usize
    requires k < 32
  {
    match k
    case 0 => g.zero case 1 => g.ra case 2 => g.tp case 3 => g.sp
    case 4 => g.a0 case 5 => g.a1 case 6 => g.a2 case 7 => g.a3
    case 8 => g.a4 case 9 => g.a5 case 10 => g.a6 case 11 => g.a7
    case 12 => g.t0 case 13 => g.t1 case 14 => g.t2 case 15 => g.t3
    case 16 => g.t4 case 17 => g.t5 case 18 => g.t6 case 19 => g.t7
    case 20 => g.t8 case 21 => g.u0 case 22 => g.fp case 23 => g.s0
    case 24 => g.s1 case 25 => g.s2 case 26 => g.s3 case 27 => g.s4
    case 28 => g.s5 case 29 => g.s6 case 30 => g.s7 case _ => g.s8
  }

  /** The `repr(C)` layout: the fields in declaration order, which is the
      hardware numbering r0 .. r31. */
  function Layout(g: GeneralRegisters): (r: seq<usize>)
    ensures |r| == 32 && forall k :: 0 <= k < 32 ==> r[k] == Register(g, k)
  {
    seq(32, k requires 0 <= k < 32 => Register(g, k))
  }

  /** Distinct register sets have distinct layouts: the 32 slots hold all
      of the state. */
  lemma LayoutInjective(g: GeneralRegisters, h: GeneralRegisters)
    ensures Layout(g) == Layout(h) <==> g == h
  {
    if Layout(g) == Layout(h) {
      var r, q := Layout(g), Layout(h);
      assert r[0] == q[0] && r[1] == q[1] && r[2] == q[2] && r[3] == q[3] && r[4] == q[4] && r[5] == q[5] && r[6] == q[6] && r[7] == q[7];
      assert r[8] == q[8] && r[9] == q[9] && r[10] == q[10] && r[11] == q[11] && r[12] == q[12] && r[13] == q[13] && r[14] == q[14] && r[15] == q[15];
      assert r[16] == q[16] && r[17] == q[17] && r[18] == q[18] && r[19] == q[19] && r[20] == q[20] && r[21] == q[21] && r[22] == q[22] && r[23] == q[23];
      assert r[24] == q[24] && r[25] == q[25] && r[26] == q[26] && r[27] == q[27] && r[28] == q[28] && r[29] == q[29] && r[30] == q[30] && r[31] == q[31];
    }
  }

  class TrapFrame {
    var gr: GeneralRegisters
    var era: usize
    var prmd: usize

    /** `TrapFrame::new`: every field at its default except `prmd`. */
    constructor ()
      ensures gr == DEFAULT_REGISTERS && era == 0 && prmd == Old.PRMD_INIT
      ensures forall k :: 0 <= k < 32 ==> Layout(gr)[k] == 0
    {
      gr := DEFAULT_REGISTERS;
      era := 0;
      prmd := Old.PRMD_INIT;
    }

    /** `syscall_ok`: only `era` moves, by 4. */
    method SyscallOk()
      modifies this
      ensures era == Paging.WrappingAdd(old(era), 4)
      ensures gr == old(gr) && prmd == old(prmd)
    {
      era := Paging.WrappingAdd(era, 4);
    }

    /** `arg0` .. `arg7`: argument `k` is register a`k`, hardware register
        `4 + k`. */
    function Arg(k: nat): (r: usize)
      requires k < 8
      reads this
      ensures r == Layout(gr)[4 + k]
    {
      match k
      case 0 => gr.a0
      case 1 => gr.a1
      case 2 => gr.a2
      case 3 => gr.a3
      case 4 => gr.a4
      case 5 => gr.a5
      case 6 => gr.a6
      case _ => gr.a7
    }
  }

  /** Register `k` of the earlier frame, read through its array, is slot
      `k` of the later frame's layout. */
  lemma SameRegister(older: Old.TrapFrame, newer: TrapFrame, k: nat)
    requires older.Valid() && older.gr[..] == Layout(newer.gr) && k < 32
    ensures older.gr[k] == Layout(newer.gr)[k]
  {
    assert older.gr[k] == older.gr[..][k];
  }

  /** Both frames number the registers the same way: when the earlier
      frame's array holds the later frame's registers in layout order, its
      `args` are `arg0` .. `arg5`. */
  lemma FramesAgreeOnArgs(older: Old.TrapFrame, newer: TrapFrame)
    requires older.Valid() && older.gr[..] == Layout(newer.gr)
    ensures older.Args() == [newer.Arg(0), newer.Arg(1), newer.Arg(2), newer.Arg(3), newer.Arg(4), newer.Arg(5)]
  {
    var a := older.Args();
    forall k | 0 <= k < 6
      ensures a[k] == newer.Arg(k)
    {
      SameRegister(older, newer, 4 + k);
    }
  }

  /** ... and the views of the earlier frame name the same registers: a0
      for ARG0 and RET, a1, a2, ra, tp, sp, and a7 for the system-call
      number. */
  lemma FramesAgreeOnViews(older: Old.TrapFrame, newer: TrapFrame)
    requires older.Valid() && older.gr[..] == Layout(newer.gr)
    ensures older.Index(Old.ARG0) == newer.Arg(0) && older.Index(Old.RET) == newer.gr.a0
    ensures older.Index(Old.ARG1) == newer.Arg(1) && older.Index(Old.ARG2) == newer.Arg(2)
    ensures older.Index(Old.RA) == newer.gr.ra && older.Index(Old.TLS) == newer.gr.tp
    ensures older.Index(Old.SP) == newer.gr.sp && older.Index(Old.SYSCALL) == newer.gr.a7
  {
    SameRegister(older, newer, 1);
    SameRegister(older, newer, 2);
    SameRegister(older, newer, 3);
    SameRegister(older, newer, 4);
    SameRegister(older, newer, 5);
    SameRegister(older, newer, 6);
    SameRegister(older, newer, 11);
  }
}
