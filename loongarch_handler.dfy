/**
 * Trap dispatch on LoongArch: the trap types and their discriminants, the
 * escape reason a trap reports, and the table of handlers indexed by the
 * discriminant.  The handlers other than the two no-ops live in files
 * that are not part of this model; they are named here, not run.
 */
module LoongarchHandler {
  import Frame = LoongarchArchTrapFrame

  datatype EscapeReason = NoReason | IRQ | Timer | SysCall

  datatype TrapType = NoReason | IRQ | Time | SysCall | DeBug | PageFault | AddressError | InstrError | TLBRefill

  /** The trap types in discriminant order. */
  const TRAP_TYPES: seq<TrapType> := [
    TrapType.NoReason, TrapType.IRQ, TrapType.Time, TrapType.SysCall, TrapType.DeBug,
    TrapType.PageFault, TrapType.AddressError, TrapType.InstrError, TrapType.TLBRefill]

  /** `trap_type as usize`. */
  function Discriminant(t: TrapType): (n: nat)
    ensures n < |TRAP_TYPES| && TRAP_TYPES[n] == t
  {
    match t
    case NoReason => 0
    case IRQ => 1
    case Time => 2
    case SysCall => 3
    case DeBug => 4
    case PageFault => 5
    case AddressError => 6
    case InstrError => 7
    case TLBRefill => 8
  }

  /** The discriminants are exactly 0 .. 8, one per trap type. */
  lemma DiscriminantsDistinct(a: TrapType, b: TrapType)
    ensures Discriminant(a) == Discriminant(b) <==> a == b
    ensures forall n :: 0 <= n < 9 ==> Discriminant(TRAP_TYPES[n]) == n
  {
  }

  /** `Into<EscapeReason>`: system calls, timer interrupts and external
      interrupts report themselves; every other trap reports no reason. */
  function IntoEscapeReason(t: TrapType): (r: EscapeReason)
    ensures r == EscapeReason.SysCall <==> t == TrapType.SysCall
    ensures r == EscapeReason.Timer <==> t == TrapType.Time
    ensures r == EscapeReason.IRQ <==> t == TrapType.IRQ
    ensures r == EscapeReason.NoReason <==> t !in {TrapType.SysCall, TrapType.Time, TrapType.IRQ}
  {
    match t
    case SysCall => EscapeReason.SysCall
    case Time => EscapeReason.Timer
    case IRQ => EscapeReason.IRQ
    case _ => EscapeReason.NoReason
  }

  /** The entries of `HANDLERS`: the two no-op closures and the handler of
      each remaining module. */
  datatype Handler = Nop | IrqTime | ExcSyscall | ExcDebug | ExcPage | ExcAddr | ExcInstr | ExcTlb

  const HANDLERS: seq<Handler> := [Nop, Nop, IrqTime, ExcSyscall, ExcDebug, ExcPage, ExcAddr, ExcInstr, ExcTlb]

  /** `HANDLERS[trap_type as usize]`: always in bounds, a no-op exactly for
      NoReason and IRQ, and otherwise the handler of the trap's own kind. */
  function HandlerFor(t: TrapType): (h: Handler)
    ensures h == Nop <==> t == TrapType.NoReason || t == TrapType.IRQ
    ensures t == TrapType.Time ==> h == IrqTime
    ensures t == TrapType.SysCall ==> h == ExcSyscall
    ensures t == TrapType.DeBug ==> h == ExcDebug
    ensures t == TrapType.PageFault ==> h == ExcPage
    ensures t == TrapType.AddressError ==> h == ExcAddr
    ensures t == TrapType.InstrError ==> h == ExcInstr
    ensures t == TrapType.TLBRefill ==> h == ExcTlb
  {
    HANDLERS[Discriminant(t)]
  }

  /** `specify_handler`: selects the handler; the no-ops leave the frame as
      it was.  What the other handlers do to the frame is not modelled. */
  method SpecifyHandler(tf: Frame.TrapFrame, t: TrapType, token: nat) returns (h: Handler)
    modifies tf
    ensures h == HandlerFor(t)
    ensures h == Nop ==> tf.gr == old(tf.gr) && tf.era == old(tf.era) && tf.prmd == old(tf.prmd)
  {
    h := HANDLERS[Discriminant(t)];
  }
}
