/** The flag enumerations and the shared context record of the simulator
    (defs.h): the protect mask and its two updates, and the initial values
    the constructor gives the record. Window, pen, brush, port, mutex and
    thread handles are not part of this model. */
module Defs {

  type byte = bv8

  /** The bit with index `i` is set in `x`. */
  predicate HasBit(x: byte, i: nat)
    requires i < 8
  {
    (x >> i) & 1 == 1
  }

  /** Exactly one bit of `x` is set. */
  predicate IsSingleBit(x: byte) {
    x != 0 && x & (x - 1) == 0
  }

  // ---------------------------------------------------------------------
  // enum OutputFlags
  // ---------------------------------------------------------------------

  const FAKE_MODE: byte := 1
  const COPY_TO_CONCOLE: byte := 2

  // ---------------------------------------------------------------------
  // enum CtlProtectFlags
  // ---------------------------------------------------------------------

  datatype CtlProtectFlag = ReqBrg | ReqElev | ActBrg | ActElev | ReqRng | ActRng

  /** The values a `CtlProtectFlags` can hold: the enumerators and their
      combinations, all below 64 (the enumeration's range in C++). */
  type ProtectFlags = f: byte | f < 64

  /** The enumerator's numeric value. */
  function ProtectValue(f: CtlProtectFlag): (v: ProtectFlags)
    ensures IsSingleBit(v)
  {
    match f
    case ReqBrg => 1
    case ReqElev => 2
    case ActBrg => 4
    case ActElev => 8
    case ReqRng => 16
    case ActRng => 32
  }

  /** No two enumerators share a bit, so every combination of them is
      a distinct value that fits the 8-bit mask. */
  lemma ProtectValuesDisjoint(f: CtlProtectFlag, g: CtlProtectFlag)
    ensures f != g ==> ProtectValue(f) & ProtectValue(g) == 0
    ensures (ProtectValue(f) | ProtectValue(g)) < 64
  {
  }

  // ---------------------------------------------------------------------
  // enum LampStatus
  // ---------------------------------------------------------------------

  datatype LampStatus =
    | LampOK | AzimuthFault | ElevationFault | FocusFault
    | TempSensorFail | Daylight | PowerLoss | NoLampFound

  /** The enumerator's numeric value: the all-clear state is 0 and every
      fault is a bit of its own. */
  function StatusValue(s: LampStatus): (v: byte)
    ensures v == 0 <==> s == LampOK
    ensures s != LampOK ==> IsSingleBit(v)
  {
    match s
    case LampOK => 0
    case AzimuthFault => 1
    case ElevationFault => 2
    case FocusFault => 4
    case TempSensorFail => 8
    case Daylight => 16
    case PowerLoss => 32
    case NoLampFound => 0x80
  }

  lemma StatusValuesDisjoint(s: LampStatus, t: LampStatus)
    ensures s != t ==> StatusValue(s) & StatusValue(t) == 0
  {
  }

  // ---------------------------------------------------------------------
  // Bit-set updates behind protect and unprotect
  // ---------------------------------------------------------------------

  /** What `|` does to one bit. */
  lemma OrAt(x: byte, y: byte, i: nat)
    requires i < 8
    ensures HasBit(x | y, i) <==> HasBit(x, i) || HasBit(y, i)
  {
    if i == 0 {} else if i == 1 {} else if i == 2 {} else if i == 3 {}
    else if i == 4 {} else if i == 5 {} else if i == 6 {} else {}
  }

  /** What `&` does to one bit. */
  lemma AndAt(x: byte, y: byte, i: nat)
    requires i < 8
    ensures HasBit(x & y, i) <==> HasBit(x, i) && HasBit(y, i)
  {
    if i == 0 {} else if i == 1 {} else if i == 2 {} else if i == 3 {}
    else if i == 4 {} else if i == 5 {} else if i == 6 {} else {}
  }

  /** What `~` does to one bit. */
  lemma NotAt(y: byte, i: nat)
    requires i < 8
    ensures HasBit(!y, i) <==> !HasBit(y, i)
  {
    if i == 0 {} else if i == 1 {} else if i == 2 {} else if i == 3 {}
    else if i == 4 {} else if i == 5 {} else if i == 6 {} else {}
  }

  /** `mask |= flags` */
  function SetBits(mask: byte, flags: byte): (r: byte)
    ensures forall i: nat :: i < 8 ==> (HasBit(r, i) <==> HasBit(mask, i) || HasBit(flags, i))
  {
    forall i: nat | i < 8
      ensures HasBit(mask | flags, i) <==> HasBit(mask, i) || HasBit(flags, i)
    {
      OrAt(mask, flags, i);
    }
    mask | flags
  }

  /** `mask &= ~flags` */
  function ClearBits(mask: byte, flags: byte): (r: byte)
    ensures forall i: nat :: i < 8 ==> (HasBit(r, i) <==> HasBit(mask, i) && !HasBit(flags, i))
  {
    forall i: nat | i < 8
      ensures HasBit(mask & !flags, i) <==> HasBit(mask, i) && !HasBit(flags, i)
    {
      AndAt(mask, !flags, i);
      NotAt(flags, i);
    }
    mask & !flags
  }

  /** Two bytes with the same bits are the same byte. */
  lemma {:induction false} BitsDetermineByte(x: byte, y: byte)
    requires forall i: nat :: i < 8 ==> (HasBit(x, i) <==> HasBit(y, i))
    ensures x == y
  {
    assert HasBit(x, 0) == HasBit(y, 0);
    assert HasBit(x, 1) == HasBit(y, 1);
    assert HasBit(x, 2) == HasBit(y, 2);
    assert HasBit(x, 3) == HasBit(y, 3);
    assert HasBit(x, 4) == HasBit(y, 4);
    assert HasBit(x, 5) == HasBit(y, 5);
    assert HasBit(x, 6) == HasBit(y, 6);
    assert HasBit(x, 7) == HasBit(y, 7);
  }

  /** Protecting twice is protecting once, unprotecting twice is
      unprotecting once, and unprotecting undoes protecting for every
      bit that was clear before. */
  lemma ProtectLaws(mask: byte, flags: byte)
    ensures SetBits(SetBits(mask, flags), flags) == SetBits(mask, flags)
    ensures ClearBits(ClearBits(mask, flags), flags) == ClearBits(mask, flags)
    ensures mask & flags == 0 ==> ClearBits(SetBits(mask, flags), flags) == mask
  {
    var p, u := SetBits(mask, flags), ClearBits(mask, flags);
    BitsDetermineByte(SetBits(p, flags), p);
    BitsDetermineByte(ClearBits(u, flags), u);
    if mask & flags == 0 {
      UnprotectUndoesProtect(mask, flags);
    }
  }

  lemma UnprotectUndoesProtect(mask: byte, flags: byte)
    requires mask & flags == 0
    ensures ClearBits(SetBits(mask, flags), flags) == mask
  {
    forall i: nat | i < 8 ensures HasBit(mask, i) ==> !HasBit(flags, i) {
      assert ((mask & flags) >> i) & 1 == 0;
    }
    BitsDetermineByte(ClearBits(SetBits(mask, flags), flags), mask);
  }

  /** The context shared by the serial reader and the user interface. */
  class Ctx {
    var ctlProtectMask: byte
    var outputFlags: byte
    var actualBrg: real
    var actualElev: real
    var requestedBrg: real
    var requestedElev: real
    var mastHeight: real
    var instantMode: bool
    var lastCorrection: int
    var keepRunning: bool
    var requestedFocus: byte
    var actualFocus: byte

    /** The constructor copies its arguments and starts stopped, in eased
        mode, copying output to the console. */
    constructor (ctlProtectMask0: byte, mastHeight0: real,
                 actualBrg0: real, actualElev0: real, actualFocus0: byte,
                 requestedBrg0: real, requestedElev0: real, requestedFocus0: byte)
      ensures ctlProtectMask == ctlProtectMask0 && mastHeight == mastHeight0
      ensures actualBrg == actualBrg0 && actualElev == actualElev0 && actualFocus == actualFocus0
      ensures requestedBrg == requestedBrg0 && requestedElev == requestedElev0
      ensures requestedFocus == requestedFocus0
      ensures lastCorrection == 0 && !keepRunning && !instantMode
      ensures outputFlags == COPY_TO_CONCOLE
      ensures outputFlags & FAKE_MODE == 0
    {
      ctlProtectMask := ctlProtectMask0;
      actualBrg := actualBrg0;
      actualElev := actualElev0;
      requestedBrg := requestedBrg0;
      requestedElev := requestedElev0;
      mastHeight := mastHeight0;
      lastCorrection := 0;
      keepRunning := false;
      requestedFocus := requestedFocus0;
      actualFocus := actualFocus0;
      instantMode := false;
      outputFlags := COPY_TO_CONCOLE;
    }

    /** Sets every bit of `flag` in the mask; other bits stay as they were. */
    method Protect(flag: ProtectFlags)
      modifies this`ctlProtectMask
      ensures ctlProtectMask == SetBits(old(ctlProtectMask), flag)
      ensures forall i: nat :: i < 8 && HasBit(flag, i) ==> HasBit(ctlProtectMask, i)
      ensures forall i: nat :: i < 8 && !HasBit(flag, i) ==> HasBit(ctlProtectMask, i) == HasBit(old(ctlProtectMask), i)
    {
      ctlProtectMask := ctlProtectMask | flag;
    }

    /** Clears every bit of `flag` in the mask; other bits stay as they were. */
    method Unprotect(flag: ProtectFlags)
      modifies this`ctlProtectMask
      ensures ctlProtectMask == ClearBits(old(ctlProtectMask), flag)
      ensures forall i: nat :: i < 8 && HasBit(flag, i) ==> !HasBit(ctlProtectMask, i)
      ensures forall i: nat :: i < 8 && !HasBit(flag, i) ==> HasBit(ctlProtectMask, i) == HasBit(old(ctlProtectMask), i)
    {
      ctlProtectMask := ctlProtectMask & !(flag as byte);
    }
  }
}
