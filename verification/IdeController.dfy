/** The IDE drive of bemu/ide.c: a state machine driven one port access at a time, with
    injected faults and one armed power cut. */
module IdeController {

  const SECTOR_LEN: nat := 512
  const HEADS: nat := 5
  const SECTORS: nat := 17
  const CYLINDERS: nat := 977
  const WIN_RESTORE: int := 0x10
  const WIN_READ: int := 0x20
  const WIN_WRITE: int := 0x30
  const WIN_SPECIFY: int := 0x91

  type Byte = b: int | 0 <= b < 256

  /** The registers a driver fills in before a command. */
  datatype Regs = Regs(count: Byte, sector: Byte, lcyl: Byte, hcyl: Byte, current: Byte)

  /** The bits of the status and control registers that mean something here. */
  datatype Status = Status(busy: bool, ready: bool, seek: bool, drq: bool, err: bool)
  datatype Control = Control(srst: bool, nien: bool)

  /** Where a transfer stands: sector, sectors left, bytes of the current one, direction. */
  datatype Xfer = Xfer(lba: nat, remaining: nat, pos: nat, writing: bool)

  datatype Fault = NoFault | ReadFault(lba: nat) | WriteFault(lba: nat)

  /** The four points of a sector's transfer at which the power can be cut. */
  datatype Boundary = WriteAccepted | PayloadReceived | SectorCommitted | IrqRequested
  datatype Cut = NoCut | Armed(at: Boundary, lba: nat)

  /** What the host has arranged, and whether the power is off. */
  datatype Host = Host(fault: Fault, cut: Cut, triggered: bool, off: bool)

  /** `line` is the level requested on IRQ 14. */
  datatype Ide = Ide(
    regs: Regs, error: int, status: Status, control: Control, x: Xfer,
    pending: bool, line: bool, host: Host, buffer: seq<Byte>, disk: seq<seq<Byte>>)

  function Zeros(): (z: seq<Byte>)
    ensures |z| == SECTOR_LEN
  {
    seq(SECTOR_LEN, i => 0)
  }

  const IDLE := Status(false, true, true, false, false)
  const WANTS_DATA := Status(false, true, true, true, false)
  const FAILED := Status(false, true, true, false, true)
  const RESETTING := Status(true, false, false, false, false)
  const DOWN := Status(false, false, false, false, false)

  // ---------- the parts of the state machine ----------

  function SetIrq(d: Ide): Ide {
    if d.host.off then d else d.(pending := true, line := if d.control.nien then d.line else true)
  }

  /** What `ide_set_irq` returns: whether the interrupt was passed on. */
  predicate Requests(d: Ide) {
    !d.host.off && !d.control.nien
  }

  function ClearIrq(d: Ide): Ide {
    d.(pending := false, line := false)
  }

  function Cylinder(r: Regs): nat {
    r.lcyl + 256 * r.hcyl
  }

  predicate Addressed(r: Regs, sectors: nat) {
    && (r.current / 16) % 2 == 0 && Cylinder(r) < CYLINDERS && r.current % 16 < HEADS
    && 1 <= r.sector <= SECTORS && Address(r) < sectors
  }

  function Address(r: Regs): int {
    (Cylinder(r) * HEADS + r.current % 16) * SECTORS + r.sector - 1
  }

  function Abort(d: Ide): Ide {
    SetIrq(d.(error := 4, status := FAILED, x := Xfer(d.x.lba, 0, 0, false), buffer := Zeros()))
  }

  function PowerOff(d: Ide): Ide {
    d.(host := d.host.(cut := NoCut, off := true), x := Xfer(d.x.lba, 0, 0, false),
       status := DOWN, error := 0, pending := false, buffer := Zeros(), line := false)
  }

  predicate CutAt(d: Ide, b: Boundary, lba: nat) {
    d.host.cut == Armed(b, lba)
  }

  function TakeCut(d: Ide): Ide {
    PowerOff(d.(host := d.host.(triggered := true)))
  }

  predicate Faulty(d: Ide, writing: bool, lba: nat) {
    d.host.fault == if writing then WriteFault(lba) else ReadFault(lba)
  }

  function FaultTaken(d: Ide): Ide {
    d.(host := d.host.(fault := NoFault))
  }

  function Transfer(d: Ide, writes: bool): Ide {
    if !Addressed(d.regs, |d.disk|) then Abort(d)
    else
      var lba: nat := Address(d.regs);
      if Faulty(d, writes, lba) then Abort(FaultTaken(d))
      else
        var t := d.(x := Xfer(lba, if d.regs.count == 0 then 256 else d.regs.count, 0, writes),
                    error := 0, status := WANTS_DATA);
        if !writes then SetIrq(t) else if CutAt(t, WriteAccepted, lba) then TakeCut(t) else t
  }

  function Command(d: Ide, c: int): Ide {
    if d.host.off then d
    else if c == WIN_READ || c == WIN_WRITE then Transfer(ClearIrq(d), c == WIN_WRITE)
    else if c == WIN_RESTORE || c == WIN_SPECIFY then SetIrq(ClearIrq(d).(error := 0, status := IDLE))
    else Abort(ClearIrq(d))
  }

  /** `ide_sector_done`, with what it returns. */
  function SectorDone(d0: Ide): (Ide, bool) {
    var x := Xfer(d0.x.lba + 1, if d0.x.remaining > 0 then d0.x.remaining - 1 else 0, 0, d0.x.writing);
    var d := d0.(x := x);
    if x.remaining > 0 then NextSector(d)
    else
      var d := d.(status := IDLE);
      if x.writing then (SetIrq(d), Requests(d)) else (d, false)
  }

  /** Another sector of the same transfer. */
  function NextSector(d: Ide): (Ide, bool) {
    if d.x.lba >= |d.disk| then (Abort(d), false)
    else if Faulty(d, d.x.writing, d.x.lba) then (Abort(FaultTaken(d)), false)
    else
      var d := d.(status := WANTS_DATA);
      if d.x.writing && CutAt(d, WriteAccepted, d.x.lba) then (TakeCut(d), false)
      else (SetIrq(d), Requests(d))
  }

  function Committed(d: Ide): Ide {
    if d.x.lba < |d.disk| then d.(disk := d.disk[d.x.lba := d.buffer]) else d
  }

  /** The 512th byte of a sector has arrived. */
  function SectorFull(d: Ide): Ide {
    if CutAt(d, PayloadReceived, d.x.lba) then TakeCut(d)
    else
      var c := Committed(d);
      if CutAt(c, SectorCommitted, d.x.lba) then TakeCut(c)
      else
        var (n, requested) := SectorDone(c);
        if requested && CutAt(n, IrqRequested, d.x.lba) then TakeCut(n) else n
  }

  function Stage(d: Ide, b: Byte): Ide {
    if d.x.pos < |d.buffer| then d.(buffer := d.buffer[d.x.pos := b], x := d.x.(pos := d.x.pos + 1)) else d
  }

  /** The loop of `ide_data_write`. */
  function Push(d: Ide, bytes: seq<Byte>): Ide
    decreases |bytes|
  {
    if bytes == [] then d
    else
      var d := Stage(d, bytes[0]);
      if d.x.pos == SECTOR_LEN then SectorFull(d) else Push(d, bytes[1..])
  }

  predicate Receiving(d: Ide) {
    !d.host.off && d.x.writing && d.status.drq && d.x.remaining > 0
  }

  predicate Sending(d: Ide) {
    !d.host.off && !d.x.writing && d.status.drq && d.x.remaining > 0
  }

  function DataOut(d: Ide, bytes: seq<Byte>): Ide {
    if Receiving(d) then Push(d, bytes) else d
  }

  function Fetched(d: Ide): Byte {
    if d.x.lba < |d.disk| && d.x.pos < |d.disk[d.x.lba]| then d.disk[d.x.lba][d.x.pos] else 0
  }

  /** The loop of `ide_data_read`, with the bytes it hands over. */
  function Pull(d: Ide, size: nat): (Ide, seq<Byte>)
    decreases size
  {
    if size == 0 then (d, [])
    else
      var e := d.(x := d.x.(pos := d.x.pos + 1));
      if e.x.pos == SECTOR_LEN then (SectorDone(e).0, [Fetched(d)])
      else
        var (r, bytes) := Pull(e, size - 1);
        (r, [Fetched(d)] + bytes)
  }

  function DataIn(d: Ide, size: nat): (Ide, seq<Byte>) {
    if Sending(d) then Pull(d, size) else (d, [])
  }

  function SetControl(d0: Ide, v: Control): Ide {
    if d0.host.off then d0
    else
      var was := d0.control;
      var d := Switched(d0.(control := v, line := if v.nien then false else d0.line), v, was);
      if !v.nien && was.nien && d.pending then d.(line := true) else d
  }

  /** What either edge of the reset bit does. */
  function Switched(d: Ide, v: Control, was: Control): Ide {
    if v.srst && !was.srst then
      ClearIrq(d).(status := RESETTING, x := d.x.(remaining := 0, pos := 0), buffer := Zeros())
    else if !v.srst && was.srst then d.(error := 1, status := IDLE)
    else d
  }

  datatype Register = Precomp | Count | Sector | CylLow | CylHigh | Current

  function Latch(r: Regs, which: Register, v: Byte): Regs {
    match which
    case Precomp => r
    case Count => r.(count := v)
    case Sector => r.(sector := v)
    case CylLow => r.(lcyl := v)
    case CylHigh => r.(hcyl := v)
    case Current => r.(current := v)
  }

  predicate CanArm(d: Ide, lba: nat) {
    d.host.cut == NoCut && !d.host.off && lba < |d.disk|
  }

  function Arm(d: Ide, b: Boundary, lba: nat): Ide {
    if CanArm(d, lba) then d.(host := d.host.(cut := Armed(b, lba), triggered := false)) else d
  }

  /** Everything that can happen to the drive: port accesses of any size, and the host's
      fault and power controls. */
  datatype Op =
    | OpLatch(r: Register, b: Byte) | OpCommand(c: Byte)
    | OpOut(bytes: seq<Byte>) | OpIn(size: nat) | OpStatus | OpAltStatus
    | OpControl(v: Control) | OpInject(f: Fault) | OpArm(at: Boundary, lba: nat) | OpPowerOff

  function Next(d: Ide, o: Op): Ide {
    match o
    case OpLatch(r, v) => d.(regs := Latch(d.regs, r, v))
    case OpCommand(c) => Command(d, c)
    case OpOut(bytes) => DataOut(d, bytes)
    case OpIn(size) => DataIn(d, size).0
    case OpStatus => ClearIrq(d)
    case OpAltStatus => d
    case OpControl(v) => SetControl(d, v)
    case OpInject(f) => d.(host := d.host.(fault := f))
    case OpArm(b, lba) => Arm(d, b, lba)
    case OpPowerOff => PowerOff(d)
  }

  function Run(d: Ide, os: seq<Op>): Ide
    decreases |os|
  {
    if os == [] then d else Run(Next(d, os[0]), os[1..])
  }

  // ---------- the invariant ----------

  ghost predicate Whole(disk: seq<seq<Byte>>) {
    forall k :: 0 <= k < |disk| ==> |disk[k]| == SECTOR_LEN
  }

  ghost predicate LineOk(d: Ide) {
    d.line == (d.pending && !d.control.nien)
  }

  ghost predicate Inv(d: Ide) {
    && |d.buffer| == SECTOR_LEN && d.x.pos < SECTOR_LEN && Whole(d.disk)
    && (d.status.drq ==> d.x.remaining > 0 && d.x.lba < |d.disk| && !d.host.off)
    && LineOk(d)
    && (d.host.off ==> !d.pending && d.host.cut == NoCut)
  }

  /** All of the invariant but for the byte count, when a sector has just ended. */
  ghost predicate AtEnd(d: Ide) {
    |d.buffer| == SECTOR_LEN && Whole(d.disk) && LineOk(d) && !d.host.off
  }

  lemma SectorDoneKeeps(d: Ide)
    requires AtEnd(d)
    ensures var r := SectorDone(d).0;
      Inv(r) && r.disk == d.disk && (r.x.writing ==> d.x.writing)
    ensures Receiving(SectorDone(d).0) ==> SectorDone(d).0.x.lba == d.x.lba + 1 && SectorDone(d).0.x.pos == 0
  {
    hide Whole, Faulty, CutAt;
  }

  /** A sector received in full, in one formula. */
  lemma SectorFullKeeps(d: Ide)
    requires AtEnd(d) && d.x.lba < |d.disk|
    ensures Inv(SectorFull(d))
    ensures SectorFull(d).disk
         == if CutAt(d, PayloadReceived, d.x.lba) then d.disk else d.disk[d.x.lba := d.buffer]
    ensures Receiving(SectorFull(d)) ==> SectorFull(d).x.lba == d.x.lba + 1 && SectorFull(d).x.pos == 0
  {
    hide SectorDone, CutAt;
    SectorDoneKeeps(Committed(d));
  }

  /** The loop of `ide_data_write` in closed form: the bytes are staged, and a full buffer is
      handed on at once, what is left of the access being dropped. */
  lemma {:induction false} PushClosed(d: Ide, bytes: seq<Byte>)
    requires |d.buffer| == SECTOR_LEN && d.x.pos < SECTOR_LEN
    ensures d.x.pos + |bytes| < SECTOR_LEN ==>
      Push(d, bytes) == d.(buffer := Over(d.buffer, d.x.pos, bytes), x := d.x.(pos := d.x.pos + |bytes|))
    ensures d.x.pos + |bytes| >= SECTOR_LEN ==>
      Push(d, bytes) == SectorFull(Filled(d, bytes))
    decreases |bytes|
  {
    hide SectorFull, Over, Filled;
    if bytes == [] {
      OverNothing(d.buffer, d.x.pos);
    } else if d.x.pos + 1 == SECTOR_LEN {
      PushLast(d, bytes);
    } else {
      var e := Stage(d, bytes[0]);
      PushClosed(e, bytes[1..]);
      PushOne(d, bytes);
    }
  }

  lemma OverNothing(buffer: seq<Byte>, pos: nat)
    requires pos <= |buffer|
    ensures Over(buffer, pos, []) == buffer
  {
    assert buffer == buffer[..pos] + [] + buffer[pos..];
  }

  /** The byte that fills the sector. */
  lemma PushLast(d: Ide, bytes: seq<Byte>)
    requires |d.buffer| == SECTOR_LEN && d.x.pos + 1 == SECTOR_LEN && bytes != []
    ensures Push(d, bytes) == SectorFull(Filled(d, bytes))
  {
    hide SectorFull;
    var e := Stage(d, bytes[0]);
    assert bytes[..1] == [bytes[0]];
    assert e.buffer == d.buffer[..d.x.pos] + bytes[..SECTOR_LEN - d.x.pos];
  }

  /** Any byte before it. */
  lemma PushOne(d: Ide, bytes: seq<Byte>)
    requires |d.buffer| == SECTOR_LEN && d.x.pos + 1 < SECTOR_LEN && bytes != []
    ensures var e := Stage(d, bytes[0]);
      && Push(d, bytes) == Push(e, bytes[1..])
      && if d.x.pos + |bytes| < SECTOR_LEN
         then e.(buffer := Over(e.buffer, e.x.pos, bytes[1..]), x := e.x.(pos := e.x.pos + |bytes[1..]|))
              == d.(buffer := Over(d.buffer, d.x.pos, bytes), x := d.x.(pos := d.x.pos + |bytes|))
         else Filled(e, bytes[1..]) == Filled(d, bytes)
  {
    hide SectorFull, Over;
    Staged(d.buffer, d.x.pos, bytes);
  }

  /** A buffer with `bytes` laid over it from `pos`. */
  function Over(buffer: seq<Byte>, pos: nat, bytes: seq<Byte>): (r: seq<Byte>)
    requires pos + |bytes| <= |buffer|
    ensures |r| == |buffer| && r[..pos + |bytes|] == buffer[..pos] + bytes
  {
    buffer[..pos] + bytes + buffer[pos + |bytes|..]
  }

  /** The drive with its buffer just filled up by the first of `bytes`. */
  function Filled(d: Ide, bytes: seq<Byte>): (r: Ide)
    requires |d.buffer| == SECTOR_LEN && d.x.pos < SECTOR_LEN && d.x.pos + |bytes| >= SECTOR_LEN
  {
    d.(buffer := d.buffer[..d.x.pos] + bytes[..SECTOR_LEN - d.x.pos], x := d.x.(pos := SECTOR_LEN))
  }

  /** Staging one byte and then the rest is staging them all. */
  lemma Staged(buffer: seq<Byte>, pos: nat, bytes: seq<Byte>)
    requires |buffer| == SECTOR_LEN && pos + 1 < SECTOR_LEN && bytes != []
    ensures var e := buffer[pos := bytes[0]];
      if pos + |bytes| < SECTOR_LEN
      then Over(e, pos + 1, bytes[1..]) == Over(buffer, pos, bytes)
      else e[..pos + 1] + bytes[1..][..SECTOR_LEN - pos - 1] == buffer[..pos] + bytes[..SECTOR_LEN - pos]
  {
    var e := buffer[pos := bytes[0]];
    assert e[..pos + 1] == buffer[..pos] + [bytes[0]] && bytes == [bytes[0]] + bytes[1..];
    if pos + |bytes| < SECTOR_LEN {
      assert e[pos + |bytes|..] == buffer[pos + |bytes|..];
      assert (buffer[..pos] + [bytes[0]]) + bytes[1..] == buffer[..pos] + bytes;
    } else {
      assert [bytes[0]] + bytes[1..][..SECTOR_LEN - pos - 1] == bytes[..SECTOR_LEN - pos];
      assert (buffer[..pos] + [bytes[0]]) + bytes[1..][..SECTOR_LEN - pos - 1]
          == buffer[..pos] + ([bytes[0]] + bytes[1..][..SECTOR_LEN - pos - 1]);
    }
  }

  /** The loop of `ide_data_read` in closed form. */
  lemma {:induction false} PullClosed(d: Ide, size: nat)
    requires d.x.lba < |d.disk| && |d.disk[d.x.lba]| == SECTOR_LEN && d.x.pos < SECTOR_LEN
    ensures d.x.pos + size < SECTOR_LEN ==>
      Pull(d, size) == (d.(x := d.x.(pos := d.x.pos + size)), d.disk[d.x.lba][d.x.pos..d.x.pos + size])
    ensures d.x.pos + size >= SECTOR_LEN ==>
      Pull(d, size) == (SectorDone(d.(x := d.x.(pos := SECTOR_LEN))).0, d.disk[d.x.lba][d.x.pos..])
    decreases size
  {
    hide SectorDone;
    var sector, pos := d.disk[d.x.lba], d.x.pos;
    if size > 0 {
      var e := d.(x := d.x.(pos := pos + 1));
      assert sector[pos..] == [sector[pos]] + sector[pos + 1..];
      if pos + 1 < SECTOR_LEN {
        PullClosed(e, size - 1);
        if pos + size < SECTOR_LEN {
          assert sector[pos..pos + size] == [sector[pos]] + sector[pos + 1..pos + size];
        }
      } else {
        assert sector[pos..] == [Fetched(d)];
      }
    } else {
      assert sector[pos..pos + 0] == [];
    }
  }

  lemma OutKeeps(d: Ide, bytes: seq<Byte>)
    requires Inv(d) && Receiving(d)
    ensures Inv(DataOut(d, bytes))
    ensures d.x.pos + |bytes| < SECTOR_LEN ==>
      var r := DataOut(d, bytes);
      r == d.(buffer := r.buffer, x := d.x.(pos := d.x.pos + |bytes|))
      && r.buffer[..r.x.pos] == d.buffer[..d.x.pos] + bytes
    ensures d.x.pos + |bytes| >= SECTOR_LEN ==> DataOut(d, bytes) == SectorFull(Filled(d, bytes))
  {
    hide SectorFull;
    PushClosed(d, bytes);
    if d.x.pos + |bytes| >= SECTOR_LEN {
      SectorFullKeeps(Filled(d, bytes));
    }
  }

  /** A drive that has given up its transfer. */
  lemma AbortKeeps(d: Ide)
    requires AtEnd(d)
    ensures Inv(Abort(d)) && Abort(d).disk == d.disk && !Receiving(Abort(d))
  {
    hide Whole;
  }

  lemma TransferKeeps(d: Ide, writes: bool)
    requires AtEnd(d)
    ensures var r := Transfer(d, writes);
      && Inv(r) && r.disk == d.disk && (Receiving(r) ==> !r.host.off && r.x.pos == 0)
  {
    hide Address, Cylinder, Whole, Faulty, CutAt, Abort;
    AbortKeeps(d);
    AbortKeeps(FaultTaken(d));
  }

  lemma CommandKeeps(d: Ide, c: int)
    requires Inv(d)
    ensures Inv(Command(d, c)) && Command(d, c).disk == d.disk
    ensures Receiving(Command(d, c)) ==> !d.host.off && Command(d, c).x.pos == 0
  {
    hide Whole, Transfer, Abort;
    if !d.host.off {
      AbortKeeps(ClearIrq(d));
      TransferKeeps(ClearIrq(d), c == WIN_WRITE);
    }
  }

  lemma ControlKeeps(d: Ide, v: Control)
    requires Inv(d)
    ensures Inv(SetControl(d, v)) && SetControl(d, v).disk == d.disk
    ensures Receiving(SetControl(d, v)) ==>
      Receiving(d) && SetControl(d, v) == d.(control := v, line := SetControl(d, v).line)
  {
    hide Whole;
  }

  lemma InKeeps(d: Ide, size: nat)
    requires Inv(d)
    ensures var r := DataIn(d, size).0; Inv(r) && r.disk == d.disk && (Receiving(r) ==> r == d)
  {
    if Sending(d) {
      hide SectorDone;
      PullClosed(d, size);
      SectorDoneKeeps(d.(x := d.x.(pos := SECTOR_LEN)));
    }
  }

  lemma StepKeeps(d: Ide, o: Op)
    requires Inv(d)
    ensures Inv(Next(d, o))
  {
    hide SetControl, Command, DataIn, DataOut, Whole;
    match o
    case OpCommand(c) => CommandKeeps(d, c);
    case OpControl(v) => ControlKeeps(d, v);
    case OpOut(bytes) =>
      if Receiving(d) {
        OutKeeps(d, bytes);
      } else {
        NotTaken(d, bytes);
      }
    case OpIn(size) => InKeeps(d, size);
    case _ =>
  }

  lemma NotTaken(d: Ide, bytes: seq<Byte>)
    requires !Receiving(d)
    ensures DataOut(d, bytes) == d
  {
  }

  lemma {:induction false} RunKeeps(d: Ide, os: seq<Op>)
    requires Inv(d)
    ensures Inv(Run(d, os))
    decreases |os|
  {
    hide Next, Inv;
    if os != [] {
      StepKeeps(d, os[0]);
      RunKeeps(Next(d, os[0]), os[1..]);
    }
  }

  // ---------- sectors change whole, in order, and only by data received ----------

  /** A drive reduced to what it has been sent: the sectors, the next one to be written and
      the bytes received for it.  It has no registers and no staging buffer. */
  datatype Tape = Tape(disk: seq<seq<Byte>>, next: nat, sent: seq<Byte>)

  /** The tape follows the drive; the drive only says which accesses it takes. */
  function TapeStep(t: Tape, d: Ide, o: Op): Tape {
    if o.OpCommand? && Receiving(Next(d, o)) then Tape(t.disk, Next(d, o).x.lba, [])
    else if o.OpOut? && Receiving(d) then TapeOut(t, o.bytes, CutAt(d, PayloadReceived, t.next))
    else t
  }

  function TapeOut(t: Tape, bytes: seq<Byte>, cut: bool): Tape {
    if |t.sent| + |bytes| < SECTOR_LEN then t.(sent := t.sent + bytes)
    else if t.next >= |t.disk| then t
    else Tape(if cut then t.disk else t.disk[t.next := (t.sent + bytes)[..SECTOR_LEN]], t.next + 1, [])
  }

  ghost predicate Follows(t: Tape, d: Ide) {
    && t.disk == d.disk
    && (Receiving(d) ==> d.x.pos <= |d.buffer| && t.next == d.x.lba && t.sent == d.buffer[..d.x.pos])
  }

  lemma OutFollows(t: Tape, d: Ide, bytes: seq<Byte>)
    requires Inv(d) && Follows(t, d) && Receiving(d)
    ensures Follows(TapeStep(t, d, OpOut(bytes)), DataOut(d, bytes))
  {
    hide SectorFull, DataOut;
    OutKeeps(d, bytes);
    if d.x.pos + |bytes| >= SECTOR_LEN {
      var f := Filled(d, bytes);
      SectorFullKeeps(f);
      assert (t.sent + bytes)[..SECTOR_LEN] == f.buffer;
      assert SectorFull(f).buffer[..0] == [];
    }
  }

  lemma StepFollows(t: Tape, d: Ide, o: Op)
    requires Inv(d) && Follows(t, d)
    ensures Follows(TapeStep(t, d, o), Next(d, o))
  {
    hide SetControl, Command, DataIn, DataOut, Whole;
    StepKeeps(d, o);
    match o
    case OpCommand(c) =>
      CommandKeeps(d, c);
      assert Command(d, c).buffer[..0] == [];
    case OpControl(v) => ControlKeeps(d, v);
    case OpOut(bytes) =>
      if Receiving(d) {
        OutFollows(t, d, bytes);
      } else {
        NotTaken(d, bytes);
      }
    case OpIn(size) => InKeeps(d, size);
    case _ =>
  }

  function RunTape(t: Tape, d: Ide, os: seq<Op>): Tape
    decreases |os|
  {
    if os == [] then t else RunTape(TapeStep(t, d, os[0]), Next(d, os[0]), os[1..])
  }

  /** Over any run of port accesses, resets, faults and cuts the disk is the tape's: it changes
      by whole sectors, each holding the 512 bytes sent since the command or the previous
      sector, at ascending addresses within a command. */
  lemma {:induction false} RunFollows(t: Tape, d: Ide, os: seq<Op>)
    requires Inv(d) && Follows(t, d)
    ensures Inv(Run(d, os)) && Follows(RunTape(t, d, os), Run(d, os))
    decreases |os|
  {
    hide Next, TapeStep, Follows, Inv;
    if os != [] {
      StepKeeps(d, os[0]);
      StepFollows(t, d, os[0]);
      RunFollows(TapeStep(t, d, os[0]), Next(d, os[0]), os[1..]);
    }
  }

  // ---------- the power cut ----------

  ghost predicate Fills(d: Ide, o: Op) {
    Receiving(d) && o.OpOut? && d.x.pos + |o.bytes| >= SECTOR_LEN
  }

  /** Another sector follows the one in hand. */
  ghost predicate AcceptsNext(d: Ide) {
    d.x.remaining > 1 && d.x.lba + 1 < |d.disk| && !Faulty(d, true, d.x.lba + 1)
  }

  ghost predicate Starts(d: Ide, o: Op) {
    o == OpCommand(WIN_WRITE) && Addressed(d.regs, |d.disk|) && !Faulty(d, true, Address(d.regs))
  }

  /** The access during which the armed cut comes. */
  ghost predicate Fires(d: Ide, o: Op) {
    match d.host.cut
    case NoCut => false
    case Armed(WriteAccepted, l) =>
      (Starts(d, o) && Address(d.regs) == l) || (Fills(d, o) && AcceptsNext(d) && d.x.lba + 1 == l)
    case Armed(IrqRequested, l) =>
      Fills(d, o) && d.x.lba == l && !d.control.nien && (d.x.remaining == 1 || AcceptsNext(d))
    case Armed(_, l) => Fills(d, o) && d.x.lba == l
  }

  /** The disk once the cut has come: a sector cut before its bytes are all in, or before they
      are committed, is untouched; one cut after that holds them. */
  ghost function DiskAtCut(d: Ide, o: Op): seq<seq<Byte>>
    requires Inv(d) && Fires(d, o)
  {
    if d.host.cut.at == PayloadReceived || !Fills(d, o) then d.disk
    else d.disk[d.x.lba := Filled(d, o.bytes).buffer]
  }

  lemma SectorDoneCut(d: Ide)
    requires !d.host.off && d.x.writing && d.x.remaining > 0
    ensures var r := SectorDone(d);
      r.0.host.off <==> AcceptsNext(d) && d.host.cut == Armed(WriteAccepted, d.x.lba + 1)
    ensures var r := SectorDone(d);
      r.0.host.off ==> r.0.host.triggered && !r.1
    ensures var r := SectorDone(d);
      r.1 <==> !r.0.host.off && !d.control.nien && (d.x.remaining == 1 || AcceptsNext(d))
    ensures var r := SectorDone(d);
      !r.0.host.off ==> r.0.host.cut == d.host.cut && r.0.host.triggered == d.host.triggered
  {
  }

  lemma SectorFullCut(d: Ide)
    requires AtEnd(d) && Receiving(d) && d.x.lba < |d.disk|
    ensures SectorFull(d).host.off <==>
      (match d.host.cut
       case NoCut => false
       case Armed(WriteAccepted, l) => AcceptsNext(d) && d.x.lba + 1 == l
       case Armed(IrqRequested, l) =>
         d.x.lba == l && !d.control.nien && (d.x.remaining == 1 || AcceptsNext(d))
       case Armed(_, l) => d.x.lba == l)
    ensures SectorFull(d).host.off ==> SectorFull(d).host.triggered
    ensures !SectorFull(d).host.off ==> SectorFull(d).host.cut == d.host.cut
  {
    hide SectorDone, Whole;
    SectorDoneCut(Committed(d));
  }

  lemma CommandCut(d: Ide, c: int)
    requires Inv(d) && !d.host.off
    ensures Command(d, c).host.off <==>
      (c == WIN_WRITE && Addressed(d.regs, |d.disk|) && !Faulty(d, true, Address(d.regs))
       && d.host.cut == Armed(WriteAccepted, Address(d.regs)))
    ensures Command(d, c).host.off ==> Command(d, c).host.triggered
    ensures !Command(d, c).host.off ==> Command(d, c).host.cut == d.host.cut
  {
    hide Address, Cylinder, Whole;
  }

  lemma InCut(d: Ide, size: nat)
    requires Inv(d)
    ensures DataIn(d, size).0.host.off == d.host.off && DataIn(d, size).0.host.cut == d.host.cut
  {
    if Sending(d) {
      hide Faulty, CutAt, Whole;
      PullClosed(d, size);
    }
  }

  /** The power goes at exactly the access that the armed cut names, and then the disk is
      exactly as the boundary says. */
  lemma CutFires(d: Ide, o: Op)
    requires Inv(d) && !d.host.off && !o.OpPowerOff?
    ensures Next(d, o).host.off <==> Fires(d, o)
    ensures Fires(d, o) ==> Next(d, o).host.triggered && Next(d, o).disk == DiskAtCut(d, o)
    ensures !Fires(d, o) && d.host.cut.Armed? ==> Next(d, o).host.cut == d.host.cut
  {
    hide SetControl, Command, DataIn, DataOut, Whole, SectorFull, Faulty, Address, Addressed;
    match o
    case OpCommand(c) =>
      CommandCut(d, c);
      CommandKeeps(d, c);
    case OpControl(v) => ControlCut(d, v);
    case OpOut(bytes) =>
      if Receiving(d) {
        OutKeeps(d, bytes);
        if Fills(d, o) {
          SectorFullCut(Filled(d, bytes));
          SectorFullKeeps(Filled(d, bytes));
          SameFaults(d, Filled(d, bytes));
        }
      } else {
        NotTaken(d, bytes);
      }
    case OpIn(size) => InCut(d, size);
    case _ =>
  }

  lemma SameFaults(d: Ide, e: Ide)
    requires d.host == e.host
    ensures forall w, l :: Faulty(d, w, l) == Faulty(e, w, l)
  {
  }

  lemma ControlCut(d: Ide, v: Control)
    ensures SetControl(d, v).host == d.host
  {
  }

  /** With the power off nothing reaches the disk and no interrupt is requested. */
  lemma {:induction false} OffForever(d: Ide, os: seq<Op>)
    requires Inv(d) && d.host.off
    ensures Run(d, os).host.off && Run(d, os).disk == d.disk && !Run(d, os).line
    decreases |os|
  {
    if os != [] {
      StepKeeps(d, os[0]);
      OffForever(Next(d, os[0]), os[1..]);
    }
  }

  /** A whole run with a cut armed: it either never comes, or it comes at one access, with the
      disk left at that access as it stays. */
  lemma {:induction false} RunCut(d: Ide, os: seq<Op>) returns (i: nat)
    requires Inv(d) && !d.host.off && d.host.cut.Armed? && OpPowerOff !in os
    requires Run(d, os).host.off
    ensures i < |os| && Fires(Run(d, os[..i]), os[i]) && Inv(Run(d, os[..i]))
    ensures Run(d, os).disk == DiskAtCut(Run(d, os[..i]), os[i])
    ensures Run(d, os[..i]).host.cut == d.host.cut
    decreases |os|
  {
    hide Next, Inv, Fires, DiskAtCut;
    var e := Next(d, os[0]);
    CutFires(d, os[0]);
    StepKeeps(d, os[0]);
    if Fires(d, os[0]) {
      i := 0;
      OffForever(e, os[1..]);
      assert os[..0] == [];
    } else {
      var j := RunCut(e, os[1..]);
      i := j + 1;
      assert os[..i] == [os[0]] + os[1..][..j] && os[..i][1..] == os[1..][..j];
    }
  }

  // ---------- the code ----------

  class Drive {
    var regs: Regs
    var error: int
    var status: Status
    var control: Control
    var lba: nat
    var remaining: nat
    var pos: nat
    var writing: bool
    var pending: bool
    var line: bool
    var host: Host
    const buffer: array<Byte>
    const disk: array<seq<Byte>>

    ghost function Snap(): Ide
      reads this, buffer, disk
    {
      Ide(regs, error, status, control, Xfer(lba, remaining, pos, writing), pending, line, host, buffer[..], disk[..])
    }

    ghost predicate Valid()
      reads this, buffer, disk
    {
      Inv(Snap())
    }

    /** `ide_reset`, on a mapped disk. */
    constructor (image: array<seq<Byte>>)
      requires Whole(image[..])
      ensures Valid() && disk == image && fresh(buffer) && Snap().disk == image[..]
      ensures !host.off && host.cut == NoCut && host.fault == NoFault && status == IDLE && !line
      ensures control == Control(false, false)
    {
      regs := Regs(0, 1, 0, 0, 0xa0);
      error := 1;
      status := IDLE;
      control := Control(false, false);
      lba, remaining, pos, writing, pending, line := 0, 0, 0, false, false, false;
      host := Host(NoFault, NoCut, false, false);
      buffer := new Byte[SECTOR_LEN](i => 0);
      disk := image;
    }

    method SetIrqLine() returns (requested: bool)
      modifies this
      ensures Snap() == SetIrq(old(Snap())) && requested == Requests(old(Snap()))
    {
      requested := false;
      if host.off {
        return;
      }
      pending := true;
      if !control.nien {
        line := true;
        requested := true;
      }
    }

    method ClearIrqLine()
      modifies this`pending, this`line
      ensures Snap() == ClearIrq(old(Snap()))
    {
      pending := false;
      line := false;
    }

    method ClearBuffer()
      requires buffer.Length == SECTOR_LEN
      modifies buffer
      ensures buffer[..] == Zeros()
    {
      forall i | 0 <= i < buffer.Length {
        buffer[i] := 0;
      }
    }

    method AbortTransfer()
      requires buffer.Length == SECTOR_LEN
      modifies this, buffer
      ensures Snap() == Abort(old(Snap()))
    {
      error := 4;
      status := FAILED;
      remaining, pos, writing := 0, 0, false;
      ClearBuffer();
      var _ := SetIrqLine();
    }

    method SwitchOff()
      requires buffer.Length == SECTOR_LEN
      modifies this, buffer
      ensures Snap() == PowerOff(old(Snap()))
    {
      host := host.(cut := NoCut);
      remaining, pos, writing := 0, 0, false;
      status := DOWN;
      error := 0;
      pending := false;
      host := host.(off := true);
      ClearBuffer();
      line := false;
    }

    /** `ide_fault_matches`: a fault is used up when it strikes. */
    method FaultMatches(writes: bool, at: nat) returns (hit: bool)
      modifies this`host
      ensures hit == Faulty(old(Snap()), writes, at)
      ensures Snap() == if hit then FaultTaken(old(Snap())) else old(Snap())
    {
      hit := host.fault == if writes then WriteFault(at) else ReadFault(at);
      if hit {
        host := host.(fault := NoFault);
      }
    }

    /** `ide_power_cut_matches`. */
    method CutMatches(b: Boundary, at: nat) returns (hit: bool)
      requires buffer.Length == SECTOR_LEN
      modifies this, buffer
      ensures hit == CutAt(old(Snap()), b, at)
      ensures Snap() == if hit then TakeCut(old(Snap())) else old(Snap())
    {
      hit := host.cut == Armed(b, at);
      if hit {
        host := host.(triggered := true);
        SwitchOff();
      }
    }

    method WriteCommand(c: int)
      requires Valid()
      modifies this, buffer
      ensures Valid() && Snap() == Command(old(Snap()), c)
    {
      hide Address, Cylinder, Transfer, Abort, SetIrq, Inv;
      InvFields(Snap());
      CommandKeeps(Snap(), c);
      if host.off {
        return;
      }
      ClearIrqLine();
      if c == WIN_READ || c == WIN_WRITE {
        StartTransfer(c == WIN_WRITE);
      } else if c == WIN_RESTORE || c == WIN_SPECIFY {
        error := 0;
        status := IDLE;
        var _ := SetIrqLine();
      } else {
        AbortTransfer();
      }
    }

    /** The read and write branch of `ide_command`. */
    method StartTransfer(writes: bool)
      requires buffer.Length == SECTOR_LEN
      modifies this, buffer
      ensures Snap() == Transfer(old(Snap()), writes)
    {
      hide Abort, TakeCut, SetIrq, FaultTaken, Faulty, CutAt, Addressed, Address;
      if !Addressed(regs, disk.Length) {
        AbortTransfer();
        return;
      }
      AddressIsNat(regs, disk.Length);
      var at: nat := Address(regs);
      var hit := FaultMatches(writes, at);
      if hit {
        AbortTransfer();
        return;
      }
      lba := at;
      remaining := if regs.count == 0 then 256 else regs.count;
      pos := 0;
      writing := writes;
      error := 0;
      status := WANTS_DATA;
      if writes {
        hit := CutMatches(WriteAccepted, lba);
      } else {
        var _ := SetIrqLine();
      }
    }

    method FinishSector() returns (requested: bool)
      requires buffer.Length == SECTOR_LEN
      modifies this, buffer
      ensures (Snap(), requested) == SectorDone(old(Snap()))
    {
      hide SetIrq, Requests, NextSector;
      requested := false;
      pos := 0;
      lba := lba + 1;
      if remaining > 0 {
        remaining := remaining - 1;
      }
      if remaining > 0 {
        requested := StartNext();
      } else {
        status := IDLE;
        if writing {
          requested := SetIrqLine();
        }
      }
    }

    /** The branch of it for a sector that is not the last. */
    method StartNext() returns (requested: bool)
      requires buffer.Length == SECTOR_LEN
      modifies this, buffer
      ensures (Snap(), requested) == NextSector(old(Snap()))
    {
      hide Abort, TakeCut, SetIrq, FaultTaken, Faulty, CutAt, Requests;
      requested := false;
      if lba >= disk.Length {
        AbortTransfer();
        return;
      }
      var hit := FaultMatches(writing, lba);
      if hit {
        AbortTransfer();
        return;
      }
      status := WANTS_DATA;
      if writing {
        hit := CutMatches(WriteAccepted, lba);
        if hit {
          return;
        }
      }
      requested := SetIrqLine();
    }

    /** What `ide_data_write` does with the 512th byte of a sector. */
    method TakeSector()
      requires buffer.Length == SECTOR_LEN && lba < disk.Length
      modifies this, buffer, disk
      ensures Snap() == SectorFull(old(Snap()))
    {
      hide SectorDone, TakeCut;
      var completed := lba;
      var hit := CutMatches(PayloadReceived, completed);
      if hit {
        return;
      }
      disk[completed] := buffer[..];
      hit := CutMatches(SectorCommitted, completed);
      if hit {
        return;
      }
      var requested := FinishSector();
      if requested {
        hit := CutMatches(IrqRequested, completed);
      }
    }

    method WriteData(bytes: seq<Byte>)
      requires Valid()
      modifies this, buffer, disk
      ensures Valid() && Snap() == DataOut(old(Snap()), bytes)
    {
      hide SectorFull, Whole;
      StepKeeps(Snap(), OpOut(bytes));
      if host.off || !writing || !status.drq || remaining == 0 {
        return;
      }
      var i := 0;
      while i < |bytes|
        invariant 0 <= i <= |bytes| && buffer.Length == SECTOR_LEN && pos < SECTOR_LEN && lba < disk.Length
        invariant Push(old(Snap()), bytes) == Push(Snap(), bytes[i..])
      {
        ghost var s := Snap();
        assert bytes[i..][0] == bytes[i] && bytes[i..][1..] == bytes[i + 1..];
        buffer[pos] := bytes[i];
        pos := pos + 1;
        assert Snap() == Stage(s, bytes[i]);
        if pos == SECTOR_LEN {
          TakeSector();
          return;
        }
        i := i + 1;
      }
    }

    method ReadData(size: nat) returns (bytes: seq<Byte>)
      requires Valid()
      modifies this, buffer
      ensures Valid() && (Snap(), bytes) == DataIn(old(Snap()), size)
    {
      hide SectorDone, Whole, Pull, Fetched, Inv;
      ghost var s0 := Snap();
      StepKeeps(s0, OpIn(size));
      InvFields(s0);
      bytes := [];
      if host.off || writing || !status.drq || remaining == 0 {
        return;
      }
      var i := 0;
      assert [] + Pull(s0, size).1 == Pull(s0, size).1;
      while i < size
        invariant 0 <= i <= size && buffer.Length == SECTOR_LEN && pos < SECTOR_LEN
        invariant disk[..] == s0.disk && lba == s0.x.lba && buffer[..] == s0.buffer
        invariant lba < disk.Length && |disk[lba]| == SECTOR_LEN
        invariant Pull(s0, size).0 == Pull(Snap(), size - i).0
        invariant Pull(s0, size).1 == bytes + Pull(Snap(), size - i).1
      {
        PullStep(Snap(), size - i, bytes);
        bytes := bytes + [disk[lba][pos]];
        pos := pos + 1;
        if pos == SECTOR_LEN {
          var _ := FinishSector();
          return;
        }
        i := i + 1;
      }
      PullNone(Snap(), bytes);
    }

    method WriteControl(v: Control)
      requires Valid()
      modifies this, buffer
      ensures Valid() && Snap() == SetControl(old(Snap()), v)
    {
      hide Inv, Switched;
      InvFields(Snap());
      ControlKeeps(Snap(), v);
      var was := control;
      if host.off {
        return;
      }
      control := v;
      if v.nien {
        line := false;
      }
      SwitchReset(v, was);
      if !v.nien && was.nien && pending {
        line := true;
      }
    }

    method SwitchReset(v: Control, was: Control)
      requires buffer.Length == SECTOR_LEN
      modifies this, buffer
      ensures Snap() == Switched(old(Snap()), v, was)
    {
      if v.srst && !was.srst {
        ClearIrqLine();
        status := RESETTING;
        remaining, pos := 0, 0;
        ClearBuffer();
      } else if !v.srst && was.srst {
        error := 1;
        status := IDLE;
      }
    }

    method ArmPowerCut(b: Boundary, at: nat) returns (armed: bool)
      modifies this`host
      ensures Snap() == Arm(old(Snap()), b, at) && armed == CanArm(old(Snap()), at)
    {
      armed := host.cut == NoCut && !host.off && at < disk.Length;
      if armed {
        host := host.(cut := Armed(b, at), triggered := false);
      }
    }

    /** `io_read` of the status port, which acknowledges the interrupt. */
    method ReadStatus() returns (s: Status)
      requires Valid()
      modifies this`pending, this`line
      ensures Valid() && s == old(status) && Snap() == ClearIrq(old(Snap()))
    {
      s := status;
      ClearIrqLine();
    }

    method LatchRegister(r: Register, v: Byte)
      requires Valid()
      modifies this`regs
      ensures Valid() && Snap() == old(Snap()).(regs := Latch(old(regs), r, v))
    {
      regs := Latch(regs, r, v);
    }
  }

  lemma AddressIsNat(r: Regs, sectors: nat)
    requires Addressed(r, sectors)
    ensures 0 <= Address(r)
  {
  }

  lemma InvFields(d: Ide)
    requires Inv(d)
    ensures |d.buffer| == SECTOR_LEN && d.x.pos < SECTOR_LEN
    ensures Sending(d) || Receiving(d) ==> d.x.lba < |d.disk| && |d.disk[d.x.lba]| == SECTOR_LEN
  {
  }

  lemma PullStep(d: Ide, n: nat, got: seq<Byte>)
    requires n > 0 && d.x.lba < |d.disk| && d.x.pos < SECTOR_LEN == |d.disk[d.x.lba]|
    ensures var e := d.(x := d.x.(pos := d.x.pos + 1));
      if e.x.pos == SECTOR_LEN then Pull(d, n) == (SectorDone(e).0, [d.disk[d.x.lba][d.x.pos]])
      else Pull(d, n).0 == Pull(e, n - 1).0
           && got + Pull(d, n).1 == (got + [d.disk[d.x.lba][d.x.pos]]) + Pull(e, n - 1).1
  {
    hide SectorDone;
  }

  lemma PullNone(d: Ide, got: seq<Byte>)
    ensures Pull(d, 0).0 == d && got + Pull(d, 0).1 == got
  {
  }
}
