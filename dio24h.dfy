/** The PCI-DIO24H digital-I/O driver: one Intel 8255A programmable
    peripheral interface per board, with ports A, B and C and a write-only
    mode/direction control register whose last written value the driver keeps
    as a shadow byte. */
module Dio24H {

  import opened Options

  // Linux errno values returned (negated) by the driver.
  const EBUSY := 16
  const ENODEV := 19
  const EINVAL := 22

  /** Ports A, B and C. */
  const DIO_PORTS := 3

  /** The value of the control byte written at attach: the 8255 mode-set flag
      (bit 7) with both groups in mode 0 and every port an output. */
  const CONTROL_INIT: bv8 := 0x80

  type u16 = x: int | 0 <= x < 0x1_0000
  type ulong = x: int | 0 <= x < 0x1_0000_0000_0000_0000

  /** DIO_PORTA + base2, DIO_PORTB + base2, DIO_PORTC + base2: the 8255's
      three ports, taken here at offsets 0, 1 and 2 from the board's second
      base address (the header defining DIO_PORTA..DIO_CNTRL_REG is not part
      of this model). */
  function PortAddress(base2: u16, port: nat): int
    requires port < DIO_PORTS
  {
    base2 + port
  }

  /** DIO_CNTRL_REG + base2, taken at offset 3. */
  function ControlAddress(base2: u16): int {
    base2 + 3
  }

  // ---------------------------------------------------------------------
  // The control byte, bit by bit
  // ---------------------------------------------------------------------

  /** The byte with only bit i set. */
  function Mask(i: nat): bv8
    requires i < 8
  {
    match i
    case 0 => 0x01 case 1 => 0x02 case 2 => 0x04 case 3 => 0x08
    case 4 => 0x10 case 5 => 0x20 case 6 => 0x40 case _ => 0x80
  }

  predicate BitOf(b: bv8, i: nat)
    requires i < 8
  {
    b & Mask(i) != 0
  }

  /** b with bit i forced to v. */
  function WithBit(b: bv8, i: nat, v: bool): (r: bv8)
    requires i < 8
    ensures BitOf(r, i) == v
    ensures SameOutside(r, b, Mask(i))
  {
    if v then b | Mask(i) else b & !Mask(i)
  }

  /** a and b agree on every bit that `mask` leaves clear. */
  predicate SameOutside(a: bv8, b: bv8, mask: bv8) {
    a & !mask == b & !mask
  }

  /** The same, bit by bit. */
  lemma SameOutsideBits(a: bv8, b: bv8, mask: bv8)
    ensures SameOutside(a, b, mask) <==> forall j :: 0 <= j < 8 && !BitOf(mask, j) ==> BitOf(a, j) == BitOf(b, j)
  {
    if forall j :: 0 <= j < 8 && !BitOf(mask, j) ==> BitOf(a, j) == BitOf(b, j) {
      BitsAgreeOutside(a, b, mask);
    }
  }

  /** The backward direction of SameOutsideBits. */
  lemma BitsAgreeOutside(a: bv8, b: bv8, mask: bv8)
    requires forall j :: 0 <= j < 8 && !BitOf(mask, j) ==> BitOf(a, j) == BitOf(b, j)
    ensures SameOutside(a, b, mask)
  {
    BitAgrees(a, b, mask, 0);
    BitAgrees(a, b, mask, 1);
    BitAgrees(a, b, mask, 2);
    BitAgrees(a, b, mask, 3);
    BitAgrees(a, b, mask, 4);
    BitAgrees(a, b, mask, 5);
    BitAgrees(a, b, mask, 6);
    BitAgrees(a, b, mask, 7);
    EightBitsAgree(a, b, mask);
  }

  /** One bit of BitsAgreeOutside. */
  lemma BitAgrees(a: bv8, b: bv8, mask: bv8, i: nat)
    requires i < 8
    requires !BitOf(mask, i) ==> BitOf(a, i) == BitOf(b, i)
    ensures mask & Mask(i) == 0 ==> a & Mask(i) == b & Mask(i)
  {
  }

  /** The bit-level step of BitsAgreeOutside, with the eight bits spelt out. */
  lemma EightBitsAgree(a: bv8, b: bv8, mask: bv8)
    requires mask & 0x01 == 0 ==> a & 0x01 == b & 0x01
    requires mask & 0x02 == 0 ==> a & 0x02 == b & 0x02
    requires mask & 0x04 == 0 ==> a & 0x04 == b & 0x04
    requires mask & 0x08 == 0 ==> a & 0x08 == b & 0x08
    requires mask & 0x10 == 0 ==> a & 0x10 == b & 0x10
    requires mask & 0x20 == 0 ==> a & 0x20 == b & 0x20
    requires mask & 0x40 == 0 ==> a & 0x40 == b & 0x40
    requires mask & 0x80 == 0 ==> a & 0x80 == b & 0x80
    ensures a & !mask == b & !mask
  {
  }

  /** The direction bits of the 8255 control word in mode 0: port C lower
      (bit 0), port B (bit 1), port C upper (bit 3) and port A (bit 4); a one
      makes the port an input. */
  const DIRECTION_BITS: bv8 := 0x1b

  /** A mode-0 control word: mode-set flag (bit 7) on, group A mode bits (6,
      5) and group B mode bit (2) off. */
  predicate ModeZeroWord(b: bv8) {
    b & 0xe4 == 0x80
  }

  lemma ModeZeroWordBits(b: bv8)
    ensures ModeZeroWord(b) <==> BitOf(b, 7) && !BitOf(b, 6) && !BitOf(b, 5) && !BitOf(b, 2)
  {
  }

  lemma InitWordIsModeZero()
    ensures ModeZeroWord(CONTROL_INIT)
    ensures forall j :: 0 <= j < 7 ==> !BitOf(CONTROL_INIT, j)
  {
  }

  // ---------------------------------------------------------------------
  // DIO_SET_DIRECTION
  // ---------------------------------------------------------------------

  /** The port C direction bits of the control byte: lower half (bit 0)
      and upper half (bit 3). */
  const PORTC_BITS: bv8 := 0x09

  /** The values of `arg` that DIO_SET_DIRECTION accepts for port C. */
  datatype PortCDirection =
    | PortOutput | PortInput
    | HighPortInput | HighPortOutput
    | LowPortInput | LowPortOutput

  /** The PORT_* encoding of the direction argument. */
  function DecodePortC(arg: ulong): (d: Option<PortCDirection>)
    ensures d.Some? <==> arg <= 5
  {
    if arg == 0 then Some(PortOutput)
    else if arg == 1 then Some(PortInput)
    else if arg == 2 then Some(HighPortInput)
    else if arg == 3 then Some(HighPortOutput)
    else if arg == 4 then Some(LowPortInput)
    else if arg == 5 then Some(LowPortOutput)
    else None
  }

  /** What a port-C direction request does to the lower (bit 0) and upper
      (bit 3) halves: input sets a bit, output clears it, and a request for
      one half leaves the other alone. */
  predicate PortCEffect(d: PortCDirection, before: bv8, after: bv8) {
    match d
    case PortInput => BitOf(after, 0) && BitOf(after, 3)
    case PortOutput => !BitOf(after, 0) && !BitOf(after, 3)
    case LowPortInput => BitOf(after, 0) && BitOf(after, 3) == BitOf(before, 3)
    case LowPortOutput => !BitOf(after, 0) && BitOf(after, 3) == BitOf(before, 3)
    case HighPortInput => BitOf(after, 3) && BitOf(after, 0) == BitOf(before, 0)
    case HighPortOutput => !BitOf(after, 3) && BitOf(after, 0) == BitOf(before, 0)
  }

  /** The shadow byte after a port-C request that DecodePortC accepted: bit 0
      is the lower half, bit 3 the upper. */
  function PortCRule(reg: bv8, d: PortCDirection): (r: bv8)
    ensures SameOutside(r, reg, PORTC_BITS)
    ensures PortCEffect(d, reg, r)
  {
    match d
    case PortInput => reg | 0x09
    case PortOutput => reg & 0xf6
    case LowPortInput => reg | 0x01
    case LowPortOutput => reg & 0xfe
    case HighPortInput => reg | 0x08
    case HighPortOutput => reg & 0xf7
  }

  /** The new shadow control byte after DIO_SET_DIRECTION on `port` with
      argument `arg`, or None when the request is refused with -EINVAL. */
  function DirectionRule(reg: bv8, port: nat, arg: ulong): (r: Option<bv8>)
    ensures r.None? <==> port >= DIO_PORTS || (port == 2 && arg > 5)
    ensures port == 0 ==> r.Some? && BitOf(r.value, 4) == (arg % 2 == 1) && SameOutside(r.value, reg, Mask(4))
    ensures port == 1 ==> r.Some? && BitOf(r.value, 1) == (arg % 2 == 1) && SameOutside(r.value, reg, Mask(1))
    ensures port == 2 && r.Some? ==> SameOutside(r.value, reg, PORTC_BITS) && PortCEffect(DecodePortC(arg).value, reg, r.value)
  {
    if port == 0 then Some(WithBit(reg, 4, arg % 2 == 1))
    else if port == 1 then Some(WithBit(reg, 1, arg % 2 == 1))
    else if port == 2 then
      match DecodePortC(arg)
      case None => None
      case Some(d) => Some(PortCRule(reg, d))
    else None
  }

  /** Agreement outside a mask carries over to any wider mask. */
  lemma SameOutsideWiden(a: bv8, b: bv8, m: bv8, wider: bv8)
    requires SameOutside(a, b, m) && m & wider == m
    ensures SameOutside(a, b, wider)
  {
  }

  /** A direction request only ever changes direction bits. */
  lemma DirectionRuleTouchesOnlyDirectionBits(reg: bv8, port: nat, arg: ulong)
    requires DirectionRule(reg, port, arg).Some?
    ensures SameOutside(DirectionRule(reg, port, arg).value, reg, DIRECTION_BITS)
  {
    var r := DirectionRule(reg, port, arg).value;
    if port == 0 {
      SameOutsideWiden(r, reg, Mask(4), DIRECTION_BITS);
    } else if port == 1 {
      SameOutsideWiden(r, reg, Mask(1), DIRECTION_BITS);
    } else {
      SameOutsideWiden(r, reg, PORTC_BITS, DIRECTION_BITS);
    }
  }

  /** A direction ioctl as issued on one channel. */
  datatype DirectionRequest = DirectionRequest(port: nat, arg: ulong)

  /** The shadow byte after a sequence of direction ioctls; a refused one
      leaves it as it was. */
  function ApplyDirections(reg: bv8, reqs: seq<DirectionRequest>): bv8
    decreases |reqs|
  {
    if reqs == [] then reg
    else
      var r := DirectionRule(reg, reqs[0].port, reqs[0].arg);
      ApplyDirections(if r.Some? then r.value else reg, reqs[1..])
  }

  /** However many direction ioctls are issued, only the direction bits of
      the shadow byte can differ from where they started. */
  lemma {:induction false} DirectionsOnlyTouchDirectionBits(reg: bv8, reqs: seq<DirectionRequest>)
    ensures SameOutside(ApplyDirections(reg, reqs), reg, DIRECTION_BITS)
    decreases |reqs|
  {
    if reqs != [] {
      var r := DirectionRule(reg, reqs[0].port, reqs[0].arg);
      var next := if r.Some? then r.value else reg;
      if r.Some? {
        DirectionRuleTouchesOnlyDirectionBits(reg, reqs[0].port, reqs[0].arg);
      }
      DirectionsOnlyTouchDirectionBits(next, reqs[1..]);
    }
  }

  /** So the 8255 stays configured in mode 0 with its mode-set flag on. */
  lemma DirectionsKeepModeZero(reg: bv8, reqs: seq<DirectionRequest>)
    requires ModeZeroWord(reg)
    ensures ModeZeroWord(ApplyDirections(reg, reqs))
  {
    DirectionsOnlyTouchDirectionBits(reg, reqs);
  }

  /** `reg & mask | (bit << k)`: clearing bit k, then or-ing in the low bit
      of the argument shifted to position k, is setting bit k to that bit. */
  lemma ClearThenOr(reg: bv8, a: bv8)
    requires a == 0 || a == 1
    ensures (reg & 0xef) | (a << 4) == WithBit(reg, 4, a == 1)
    ensures (reg & 0xfd) | (a << 1) == WithBit(reg, 1, a == 1)
  {
  }

  /** The inner `switch (arg)` of dio24H_ioctl for port C; `ok` is false
      where it returns -EINVAL. */
  method SetPortCBits(reg: bv8, arg: ulong) returns (ok: bool, r: bv8)
    ensures ok <==> DecodePortC(arg).Some?
    ensures ok ==> r == PortCRule(reg, DecodePortC(arg).value)
  {
    r := reg;
    ok := true;
    if arg == 1 {               // PORT_INPUT
      r := r | 0x9;
    } else if arg == 0 {        // PORT_OUTPUT
      r := r & !0x9;
    } else if arg == 4 {        // LOW_PORT_INPUT
      r := r | 0x1;
    } else if arg == 5 {        // LOW_PORT_OUTPUT
      r := r & !0x1;
    } else if arg == 2 {        // HIGH_PORT_INPUT
      r := r | 0x8;
    } else if arg == 3 {        // HIGH_PORT_OUTPUT
      r := r & !0x8;
    } else {
      ok := false;
    }
  }

  /** The masking that dio24H_ioctl applies to the shadow byte for
      DIO_SET_DIRECTION on a checked port number (0, 1 or 2); `ok` is false
      where it returns -EINVAL. */
  method SetDirectionBits(reg: bv8, port: nat, arg: ulong) returns (ok: bool, r: bv8)
    requires port < DIO_PORTS
    ensures ok <==> DirectionRule(reg, port, arg).Some?
    ensures ok ==> r == DirectionRule(reg, port, arg).value
  {
    if port < 2 {
      ok := true;
      var a: bv8 := if arg % 2 == 1 then 1 else 0;   // arg &= 0x1
      ClearThenOr(reg, a);
      if port == 0 {
        r := (reg & 0xef) | (a << 4);
      } else {
        r := (reg & 0xfd) | (a << 1);
      }
    } else {
      ok, r := SetPortCBits(reg, arg);
    }
  }

  // ---------------------------------------------------------------------
  // Driver state
  // ---------------------------------------------------------------------

  /** BoardRec: the two PCI base addresses, the interrupt line and the
      shadow of the 8255 control register (`dio24H_reg`). */
  datatype BoardRec = BoardRec(base1: u16, base2: u16, irq: int, reg: bv8)

  /** ChanRec: one per 8255 port. */
  datatype ChanRec = ChanRec(open: bool, mode: int, value: bv8, addr: int, fFlags: int)

  /** One byte written to an I/O port with `outb`. */
  datatype PortWrite = PortWrite(addr: int, value: bv8)

  /** The ioctl command number, decoded: its type (magic) field, its ordinal
      field, and which `case` label of the switch it equals. */
  datatype IoctlCmd = IoctlCmd(magic: int, nr: int, op: IoctlOp)

  datatype IoctlOp =
    | SetDirection
    | InterruptEnable | InterruptDisable | InterruptPolarity
    | UnknownOp

  /** The driver's global data: BoardData, Chan, NumBoards, the module use
      count, and the log of bytes written to 8255 ports. The header constants
      MAX_BOARDS, IOCTL_MAGIC and IOCTL_MAXNR are fixed at construction. */
  class Driver {
    const maxBoards: nat
    const ioctlMagic: int
    const ioctlMaxNr: int

    var numBoards: int
    var boards: array<BoardRec>
    var chan: array2<ChanRec>
    var useCount: int
    var portWrites: seq<PortWrite>

    /** Array shapes, and for every attached board: its control byte is a
        mode-0 word and its channels carry the addresses of ports A, B, C. */
    ghost predicate Valid()
      reads this, boards, chan
    {
      && boards.Length == maxBoards
      && chan.Length0 == maxBoards && chan.Length1 == DIO_PORTS
      && 0 <= numBoards <= maxBoards
      && (forall b :: 0 <= b < numBoards ==> ModeZeroWord(boards[b].reg))
      && (forall b, p :: 0 <= b < numBoards && 0 <= p < DIO_PORTS ==>
            chan[b, p].addr == PortAddress(boards[b].base2, p))
    }

    /** Static storage: every record zero, no board attached. */
    constructor (maxBoards: nat, ioctlMagic: int, ioctlMaxNr: int)
      ensures Valid() && fresh(boards) && fresh(chan)
      ensures this.maxBoards == maxBoards && this.ioctlMagic == ioctlMagic && this.ioctlMaxNr == ioctlMaxNr
      ensures numBoards == 0 && useCount == 0 && portWrites == []
      ensures forall b :: 0 <= b < maxBoards ==> boards[b] == BoardRec(0, 0, 0, 0)
      ensures forall b, p :: 0 <= b < maxBoards && 0 <= p < DIO_PORTS ==> chan[b, p] == ChanRec(false, 0, 0, 0, 0)
    {
      this.maxBoards := maxBoards;
      this.ioctlMagic := ioctlMagic;
      this.ioctlMaxNr := ioctlMaxNr;
      numBoards := 0;
      useCount := 0;
      portWrites := [];
      boards := new BoardRec[maxBoards](_ => BoardRec(0, 0, 0, 0));
      chan := new ChanRec[maxBoards, DIO_PORTS]((_, _) => ChanRec(false, 0, 0, 0, 0));
    }

    /** dio24H_init_one: attach the board found at the PCI resources
        `start1`/`start2` (truncated to 16 bits) with interrupt `irq`.
        `irqGranted` and `enabled` are the outcomes of request_irq and
        pci_enable_device. */
    method InitOne(start1: nat, start2: nat, irq: int, irqGranted: bool, enabled: bool) returns (ret: int)
      requires Valid()
      modifies this, boards, chan
      ensures Valid()
      ensures boards == old(boards) && chan == old(chan) && useCount == old(useCount)
      ensures ret == 0 || ret == -ENODEV
      ensures ret == 0 <==> old(numBoards) < maxBoards && irqGranted && enabled
      ensures old(numBoards) >= maxBoards ==>
        numBoards == old(numBoards) && unchanged(boards) && unchanged(chan) && portWrites == old(portWrites)
      ensures old(numBoards) < maxBoards && ret != 0 ==>
        // the base addresses and irq are already stored when a later step fails
        && numBoards == old(numBoards) && unchanged(chan) && portWrites == old(portWrites)
        && boards[old(numBoards)] == old(boards[numBoards]).(base1 := start1 % 0x1_0000, base2 := start2 % 0x1_0000, irq := irq)
        && forall b :: 0 <= b < maxBoards && b != old(numBoards) ==> boards[b] == old(boards[b])
      ensures ret == 0 ==>
        && numBoards == old(numBoards) + 1
        && boards[old(numBoards)] == BoardRec(start1 % 0x1_0000, start2 % 0x1_0000, irq, CONTROL_INIT)
        && (forall b :: 0 <= b < maxBoards && b != old(numBoards) ==> boards[b] == old(boards[b]))
        && (forall p :: 0 <= p < DIO_PORTS ==>
              chan[old(numBoards), p] == old(chan[numBoards, p]).(open := false, mode := 0, addr := PortAddress(start2 % 0x1_0000, p)))
        && (forall b, p :: 0 <= b < maxBoards && b != old(numBoards) && 0 <= p < DIO_PORTS ==> chan[b, p] == old(chan[b, p]))
        && portWrites == old(portWrites) + [
             PortWrite(PortAddress(start2 % 0x1_0000, 0), 0),
             PortWrite(PortAddress(start2 % 0x1_0000, 1), 0),
             PortWrite(PortAddress(start2 % 0x1_0000, 2), 0)]
    {
      if numBoards >= maxBoards {
        return -ENODEV;
      }
      var nb := numBoards;
      var base2: u16 := start2 % 0x1_0000;
      boards[nb] := boards[nb].(base1 := start1 % 0x1_0000, base2 := base2, irq := irq);
      if !irqGranted || !enabled {
        return -ENODEV;
      }
      boards[nb] := boards[nb].(reg := CONTROL_INIT);
      InitWordIsModeZero();

      ResetChannels(nb, base2);
      numBoards := numBoards + 1;
      return 0;
    }

    /** The channel set-up at the end of dio24H_init_one: the three port
        addresses, then for each port: closed, mode 0, and a zero byte written
        to it. */
    method ResetChannels(nb: nat, base2: u16)
      requires nb < chan.Length0 && chan.Length1 == DIO_PORTS
      modifies this`portWrites, chan
      ensures forall p :: 0 <= p < DIO_PORTS ==>
        chan[nb, p] == old(chan[nb, p]).(open := false, mode := 0, addr := PortAddress(base2, p))
      ensures forall b, p :: 0 <= b < chan.Length0 && b != nb && 0 <= p < DIO_PORTS ==> chan[b, p] == old(chan[b, p])
      ensures portWrites == old(portWrites) + [
        PortWrite(PortAddress(base2, 0), 0),
        PortWrite(PortAddress(base2, 1), 0),
        PortWrite(PortAddress(base2, 2), 0)]
    {
      chan[nb, 0] := chan[nb, 0].(addr := PortAddress(base2, 0));
      chan[nb, 1] := chan[nb, 1].(addr := PortAddress(base2, 1));
      chan[nb, 2] := chan[nb, 2].(addr := PortAddress(base2, 2));

      for i := 0 to DIO_PORTS
        invariant forall p :: 0 <= p < i ==>
          chan[nb, p] == old(chan[nb, p]).(open := false, mode := 0, addr := PortAddress(base2, p))
        invariant forall p :: i <= p < DIO_PORTS ==>
          chan[nb, p] == old(chan[nb, p]).(addr := PortAddress(base2, p))
        invariant forall b, p :: 0 <= b < chan.Length0 && b != nb && 0 <= p < DIO_PORTS ==> chan[b, p] == old(chan[b, p])
        invariant portWrites == old(portWrites) + seq(i, p requires 0 <= p < DIO_PORTS => PortWrite(PortAddress(base2, p), 0))
      {
        chan[nb, i] := chan[nb, i].(open := false, mode := 0);
        portWrites := portWrites + [PortWrite(chan[nb, i].addr, 0)];
      }
    }

    /** dio24H_remove_one: detaches the most recently attached board. */
    method RemoveOne()
      requires Valid() && numBoards > 0
      modifies this
      ensures Valid()
      ensures numBoards == old(numBoards) - 1
      ensures boards == old(boards) && chan == old(chan) && useCount == old(useCount) && portWrites == old(portWrites)
    {
      numBoards := numBoards - 1;
    }

    /** dio24H_open: a port may be open in one file at a time. */
    method Open(board: nat, minor: nat, fFlags: int) returns (ret: int)
      requires Valid() && board < maxBoards && minor % 16 < DIO_PORTS
      modifies this`useCount, chan
      ensures Valid()
      ensures old(chan[board, minor % 16].open) ==> ret == -EBUSY && unchanged(chan) && useCount == old(useCount)
      ensures !old(chan[board, minor % 16].open) ==>
        && ret == 0 && useCount == old(useCount) + 1
        && chan[board, minor % 16] == old(chan[board, minor % 16]).(open := true, fFlags := fFlags)
        && forall b, p :: 0 <= b < maxBoards && 0 <= p < DIO_PORTS && (b, p) != (board, minor % 16) ==> chan[b, p] == old(chan[b, p])
    {
      var m := minor % 16;
      if chan[board, m].open {
        return -EBUSY;
      }
      useCount := useCount + 1;
      chan[board, m] := chan[board, m].(open := true, fFlags := fFlags);
      return 0;
    }

    /** dio24H_close: always succeeds and always clears the open flag. */
    method Close(board: nat, minor: nat) returns (ret: int)
      requires Valid() && board < maxBoards && minor % 16 < DIO_PORTS
      modifies this`useCount, chan
      ensures Valid()
      ensures ret == 0 && useCount == old(useCount) - 1
      ensures chan[board, minor % 16] == old(chan[board, minor % 16]).(open := false)
      ensures forall b, p :: 0 <= b < maxBoards && 0 <= p < DIO_PORTS && (b, p) != (board, minor % 16) ==> chan[b, p] == old(chan[b, p])
    {
      var m := minor % 16;
      useCount := useCount - 1;
      chan[board, m] := chan[board, m].(open := false);
      return 0;
    }

    /** dio24H_read: one byte from the port, as `inb` returns it at the
        channel's address; -1 for a channel number beyond port C. */
    method Read(board: nat, minor: nat, inb: int -> bv8) returns (ret: int, value: Option<bv8>)
      requires Valid() && board < maxBoards
      ensures minor % 16 < DIO_PORTS ==> ret == 1 && value == Some(inb(chan[board, minor % 16].addr))
      ensures minor % 16 >= DIO_PORTS ==> ret == -1 && value == None
    {
      var m := minor % 16;
      if m < DIO_PORTS {
        value := Some(inb(chan[board, m].addr));
        ret := 1;
      } else {
        value := None;
        ret := -1;
      }
    }

    /** dio24H_write: records the byte in the channel and writes it to the
        port; -1 for a channel number beyond port C. */
    method Write(board: nat, minor: nat, value: bv8) returns (ret: int)
      requires Valid() && board < maxBoards
      modifies this`portWrites, chan
      ensures Valid()
      ensures minor % 16 < DIO_PORTS ==>
        && ret == 1
        && chan[board, minor % 16] == old(chan[board, minor % 16]).(value := value)
        && (forall b, p :: 0 <= b < maxBoards && 0 <= p < DIO_PORTS && (b, p) != (board, minor % 16) ==> chan[b, p] == old(chan[b, p]))
        && portWrites == old(portWrites) + [PortWrite(chan[board, minor % 16].addr, value)]
      ensures minor % 16 >= DIO_PORTS ==> ret == -1 && unchanged(chan) && portWrites == old(portWrites)
    {
      var m := minor % 16;
      if m < DIO_PORTS {
        chan[board, m] := chan[board, m].(value := value);
        portWrites := portWrites + [PortWrite(chan[board, m].addr, value)];
        ret := 1;
      } else {
        ret := -1;
      }
    }

    /** The requests dio24H_ioctl refuses with -EINVAL. */
    predicate IoctlRejected(cmd: IoctlCmd, port: nat, arg: ulong) {
      || cmd.magic != ioctlMagic
      || cmd.nr > ioctlMaxNr
      || port >= DIO_PORTS
      || cmd.op == UnknownOp
      || (cmd.op == SetDirection && DirectionRule(0, port, arg).None?)
    }

    /** dio24H_ioctl. DIO_SET_DIRECTION rewrites the shadow control byte and
        writes it to the 8255's control register; the interrupt commands act
        on the PCI bridge's register, outside this model. */
    method Ioctl(board: nat, minor: nat, cmd: IoctlCmd, arg: ulong) returns (ret: int)
      requires Valid() && board < maxBoards
      modifies this`portWrites, boards
      ensures Valid()
      ensures ret == 0 || ret == -EINVAL
      ensures ret == -EINVAL <==> IoctlRejected(cmd, minor % 16, arg)
      ensures ret == -EINVAL || cmd.op != SetDirection ==> unchanged(boards) && portWrites == old(portWrites)
      ensures ret == 0 && cmd.op == SetDirection ==>
        && boards[board] == old(boards[board]).(reg := DirectionRule(old(boards[board].reg), minor % 16, arg).value)
        && (forall b :: 0 <= b < maxBoards && b != board ==> boards[b] == old(boards[b]))
        && portWrites == old(portWrites) + [PortWrite(ControlAddress(boards[board].base2), boards[board].reg)]
    {
      var m := minor % 16;
      if cmd.magic != ioctlMagic { return -EINVAL; }
      if cmd.nr > ioctlMaxNr { return -EINVAL; }
      if m >= DIO_PORTS { return -EINVAL; }

      match cmd.op {
        case SetDirection =>
          var ok, reg := SetDirectionBits(boards[board].reg, m, arg);
          if !ok { return -EINVAL; }
          boards[board] := boards[board].(reg := reg);
          portWrites := portWrites + [PortWrite(ControlAddress(boards[board].base2), reg)];
          return 0;
        case InterruptEnable => return 0;
        case InterruptDisable => return 0;
        case InterruptPolarity => return 0;
        case UnknownOp => return -EINVAL;
      }
    }
  }

  /** Exclusive open: a second open of a port fails with -EBUSY until the
      port is closed, after which it succeeds again. */
  method ExclusiveOpen(d: Driver, board: nat, minor: nat)
    returns (first: int, second: int, third: int)
    requires d.Valid() && board < d.maxBoards && minor % 16 < DIO_PORTS
    requires !d.chan[board, minor % 16].open
    modifies d`useCount, d.chan
    ensures first == 0 && second == -EBUSY && third == 0
    ensures d.chan[board, minor % 16].open
  {
    first := d.Open(board, minor, 0);
    second := d.Open(board, minor, 0);
    var closed := d.Close(board, minor);
    third := d.Open(board, minor, 0);
  }
}
