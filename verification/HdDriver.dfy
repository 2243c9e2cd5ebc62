/** kernel/hd.c against bemu/ide.c: writes queued in the driver and carried out by interrupts,
    reads polled.  Whole runs of the driver are free of injected faults and power cuts, which
    `IdeController` has; what a fault does to one read and to one write is here too. */
module HdDriver {
  import opened IdeController
  import opened Elevator

  const DISK_SECTORS: nat := 83045
  const BLOCK_LEN: nat := 1024
  const WPCOM: Byte := 75

  // ---------- block numbers, cylinders, heads and sectors ----------

  /** The two divisions of `rw_hd`. */
  function Split(lba: nat, bh: nat): (r: Request)
    requires lba < DISK_SECTORS
  {
    Request(0, lba / 17 / 5, lba / 17 % 5, lba % 17 + 1, bh)
  }

  /** The registers as `hd_out` and `read_abs_hd` load them. */
  function Loaded(r: Request): Regs
    requires r.hd == 0 && OnDisk(r)
  {
    Regs(2, r.sector, r.cyl % 256, r.cyl / 256 % 256, 0xa0 + r.head)
  }

  /** Splitting a sector number and letting the controller recombine it gives it back, and
      every cylinder, head and sector on the disk comes from exactly one sector number. */
  lemma SplitAndRecombine(lba: nat, bh: nat)
    requires lba < DISK_SECTORS
    ensures var r := Split(lba, bh);
      OnDisk(r) && Lba(r) == lba && Addressed(Loaded(r), DISK_SECTORS) && Address(Loaded(r)) == lba
  {
    var t := lba / 17;
    assert lba == 17 * t + lba % 17 && t == 5 * (t / 5) + t % 5;
    RecombineIsLba(Split(lba, bh));
  }

  lemma RecombineIsLba(r: Request)
    requires r.hd == 0 && OnDisk(r)
    ensures 0 <= Lba(r) < DISK_SECTORS
    ensures Addressed(Loaded(r), DISK_SECTORS) && Address(Loaded(r)) == Lba(r)
    ensures Split(Lba(r), r.bh) == r
  {
    assert r.cyl / 256 % 256 == r.cyl / 256 && Cylinder(Loaded(r)) == r.cyl;
    var v := r.cyl * 5 + r.head;
    assert Lba(r) / 17 == v && v / 5 == r.cyl && v % 5 == r.head && Lba(r) % 17 == r.sector - 1;
    assert (0xa0 + r.head) % 16 == r.head && (0xa0 + r.head) / 16 % 2 == 0;
  }

  // ---------- scripts of port accesses ----------

  /** The power is on and stays on. */
  ghost predicate Steady(d: Ide) {
    d.host.cut == NoCut && !d.host.off && |d.disk| == DISK_SECTORS
  }

  ghost predicate FaultFree(d: Ide) {
    d.host.fault == NoFault && Steady(d)
  }

  /** Ready for a command, whatever faults await it. */
  ghost predicate Quiescent(d: Ide) {
    Inv(d) && Steady(d) && d.status == IDLE && !d.pending && !d.control.srst
  }

  /** Ready for a command, with no interrupt requested. */
  ghost predicate Ready(d: Ide) {
    Inv(d) && FaultFree(d) && d.status == IDLE && !d.pending && d.control == Control(false, false)
  }

  /** The six registers and the command. */
  function Load(d: Ide, r: Request, c: int): Ide
    requires r.hd == 0 && OnDisk(r)
  {
    var d := d.(regs := Latch(d.regs, Precomp, WPCOM));
    var d := d.(regs := Latch(d.regs, Count, 2));
    var d := d.(regs := Latch(d.regs, Register.Sector, r.sector));
    var d := d.(regs := Latch(d.regs, CylLow, r.cyl % 256));
    var d := d.(regs := Latch(d.regs, CylHigh, r.cyl / 256 % 256));
    var d := d.(regs := Latch(d.regs, Current, 0xa0 + r.head));
    Command(d, c)
  }

  /** `hd_out` with a write, on a controller that is ready at the first look. */
  function HdOut(d: Ide, r: Request): Ide
    requires r.hd == 0 && OnDisk(r)
  {
    Load(SetControl(ClearIrq(d), Control(false, false)), r, WIN_WRITE)
  }

  /** `port_write` and `port_read` move 256 two-byte words. */
  function PortWrite(d: Ide, bytes: seq<Byte>): Ide
    decreases |bytes|
  {
    if |bytes| < 2 then d else PortWrite(DataOut(d, bytes[..2]), bytes[2..])
  }

  function PortRead(d: Ide, words: nat): (Ide, seq<Byte>)
    decreases words
  {
    if words == 0 then (d, [])
    else
      var (e, w) := DataIn(d, 2);
      var (r, rest) := PortRead(e, words - 1);
      (r, w + rest)
  }

  lemma LoadStarts(d: Ide, r: Request, c: int)
    requires Inv(d) && Steady(d) && !d.pending
    requires r.hd == 0 && OnDisk(r) && (c == WIN_READ || c == WIN_WRITE)
    requires Lba(r) >= 0 ==> !Faulty(d, c == WIN_WRITE, Lba(r))
    ensures Load(d, r, c) == d.(regs := Loaded(r), x := Xfer(Lba(r), 2, 0, c == WIN_WRITE), error := 0,
      status := WANTS_DATA, pending := c == WIN_READ, line := c == WIN_READ && !d.control.nien)
  {
    RecombineIsLba(r);
    hide Addressed, Address, Lba;
  }

  /** A sector sent to a drive that wants one: on the disk when the last word is in, with an
      interrupt requested, for the next sector or for the end. */
  function AfterSector(d: Ide, bytes: seq<Byte>): Ide
    requires d.x.lba < |d.disk| && d.x.remaining > 0
  {
    d.(x := Xfer(d.x.lba + 1, d.x.remaining - 1, 0, true), status := if d.x.remaining > 1 then WANTS_DATA else IDLE,
       pending := true, line := true, buffer := bytes, disk := d.disk[d.x.lba := bytes])
  }

  lemma SectorSent(d: Ide, bytes: seq<Byte>)
    requires Inv(d) && Steady(d) && Receiving(d) && !d.control.nien && d.x.pos == 0
    requires |bytes| == SECTOR_LEN
    requires d.x.remaining > 1 ==> d.x.lba + 1 < DISK_SECTORS && !Faulty(d, true, d.x.lba + 1)
    ensures PortWrite(d, bytes) == AfterSector(d, bytes) && Inv(AfterSector(d, bytes))
  {
    WordsFill(d, bytes);
    var f := Filled(d, bytes);
    assert d.buffer[..0] + bytes[..SECTOR_LEN] == bytes;
    assert f.buffer == bytes;
    SectorFullKeeps(f);
  }

  /** Word by word is as good as all at once. */
  lemma {:induction false} WordsFill(d: Ide, bytes: seq<Byte>)
    requires Inv(d) && Receiving(d) && d.x.pos + |bytes| == SECTOR_LEN && |bytes| % 2 == 0 && bytes != []
    ensures PortWrite(d, bytes) == SectorFull(Filled(d, bytes))
    decreases |bytes|
  {
    hide SectorFull, Inv, DataOut, Filled;
    InvFields(d);
    OutKeeps(d, bytes[..2]);
    if |bytes| == 2 {
      assert bytes[..2] == bytes && bytes[2..] == [];
      assert PortWrite(d, bytes) == PortWrite(DataOut(d, bytes), []);
    } else {
      var e := DataOut(d, bytes[..2]);
      InvFields(e);
      FilledLater(d, e, bytes);
      WordsFill(e, bytes[2..]);
    }
  }

  lemma FilledLater(d: Ide, e: Ide, bytes: seq<Byte>)
    requires |d.buffer| == |e.buffer| == SECTOR_LEN && |bytes| > 2 && d.x.pos + |bytes| == SECTOR_LEN
    requires e == d.(buffer := e.buffer, x := d.x.(pos := d.x.pos + 2))
    requires e.buffer[..e.x.pos] == d.buffer[..d.x.pos] + bytes[..2]
    ensures Filled(e, bytes[2..]) == Filled(d, bytes)
  {
    assert bytes == bytes[..2] + bytes[2..];
    assert e.buffer[..e.x.pos] + bytes[2..] == d.buffer[..d.x.pos] + bytes;
    assert bytes[2..][..SECTOR_LEN - e.x.pos] == bytes[2..] && bytes[..SECTOR_LEN - d.x.pos] == bytes;
  }

  /** A whole sector read a word at a time. */
  lemma {:induction false} WordsRead(d: Ide, words: nat)
    requires Inv(d) && Sending(d) && d.x.pos + 2 * words == SECTOR_LEN && words > 0
    ensures d.x.lba < |d.disk| && |d.disk[d.x.lba]| == SECTOR_LEN
    ensures PortRead(d, words) == (SectorDone(d.(x := d.x.(pos := SECTOR_LEN))).0, d.disk[d.x.lba][d.x.pos..])
    decreases words
  {
    hide SectorDone, Pull, Inv;
    InvFields(d);
    PullClosed(d, 2);
    InKeeps(d, 2);
    var sector, pos := d.disk[d.x.lba], d.x.pos;
    if words > 1 {
      WordsRead(DataIn(d, 2).0, words - 1);
      assert sector[pos..] == sector[pos..pos + 2] + sector[pos + 2..];
    } else {
      assert PortRead(DataIn(d, 2).0, 0).1 == [] && sector[pos..] + [] == sector[pos..];
    }
  }

  /** One attempt of `read_abs_hd`, which asks for no interrupts, up to each of its halves. */
  function ReadStarted(d: Ide, r: Request): Ide
    requires r.hd == 0 && OnDisk(r)
  {
    Load(ClearIrq(SetControl(d, Control(false, true))), r, WIN_READ)
  }

  function ReadFirst(d: Ide, r: Request): (Ide, seq<Byte>)
    requires r.hd == 0 && OnDisk(r)
  {
    PortRead(ClearIrq(ReadStarted(d, r)), 256)
  }

  function ReadSecond(d: Ide, r: Request): (Ide, seq<Byte>)
    requires r.hd == 0 && OnDisk(r)
  {
    PortRead(ClearIrq(ReadFirst(d, r).0), 256)
  }

  function ReadBlock(d: Ide, r: Request): (Ide, seq<Byte>)
    requires r.hd == 0 && OnDisk(r)
  {
    (SetControl(ClearIrq(ReadSecond(d, r).0), Control(false, false)), ReadFirst(d, r).1 + ReadSecond(d, r).1)
  }

  predicate BlockOk(r: Request) {
    r.hd == 0 && OnDisk(r) && Lba(r) + 1 < DISK_SECTORS
  }

  lemma ReadSector(d: Ide)
    requires Inv(d) && Steady(d) && Sending(d) && d.x.pos == 0 && d.control.nien
    requires d.x.remaining > 1 ==> d.x.lba + 1 < DISK_SECTORS && !Faulty(d, false, d.x.lba + 1)
    ensures d.x.lba < |d.disk|
    ensures ClearIrq(PortRead(d, 256).0) == d.(x := Xfer(d.x.lba + 1, d.x.remaining - 1, 0, false),
      status := if d.x.remaining > 1 then WANTS_DATA else IDLE, pending := false, line := false)
    ensures PortRead(d, 256).1 == d.disk[d.x.lba]
  {
    hide SectorDone, PortRead, Whole;
    WordsRead(d, 256);
    SectorReadDone(d.(x := d.x.(pos := SECTOR_LEN)));
    assert d.disk[d.x.lba][0..] == d.disk[d.x.lba];
  }

  lemma SectorReadDone(d: Ide)
    requires Steady(d) && !d.x.writing && d.x.remaining > 0 && d.control.nien
    requires d.x.remaining > 1 ==> d.x.lba + 1 < DISK_SECTORS && !Faulty(d, false, d.x.lba + 1)
    ensures ClearIrq(SectorDone(d).0) == d.(x := Xfer(d.x.lba + 1, d.x.remaining - 1, 0, false),
      status := if d.x.remaining > 1 then WANTS_DATA else IDLE, pending := false, line := false)
  {
  }

  /** The fault that awaits the drive is for one of the two sectors of a read of this block. */
  predicate Spoils(d: Ide, r: Request)
    requires r.hd == 0 && OnDisk(r)
  {
    Lba(r) >= 0 && (Faulty(d, false, Lba(r)) || Faulty(d, false, Lba(r) + 1))
  }

  /** A polled read without a fault returns the two sectors, changes no sector, and leaves the
      controller ready with no interrupt requested; no status it looks at on the way makes it retry. */
  lemma ReadBlockWorks(d: Ide, r: Request)
    requires Quiescent(d) && BlockOk(r) && !Spoils(d, r)
    ensures 0 <= Lba(r) && ReadBlock(d, r).1 == d.disk[Lba(r)] + d.disk[Lba(r) + 1]
    ensures var e := ReadBlock(d, r).0; e.disk == d.disk && e.host == d.host && Quiescent(e) && e.control == Control(false, false)
    ensures SetControl(d, Control(false, true)).status == IDLE && ReadStarted(d, r).status == WANTS_DATA
    ensures ReadFirst(d, r).0.status == WANTS_DATA && ReadSecond(d, r).0.status == IDLE
  {
    RecombineIsLba(r);
    var a := ClearIrq(SetControl(d, Control(false, true)));
    LoadStarts(a, r, WIN_READ);
    hide PortRead, Load, Lba, OnDisk;
    ReadSector(ClearIrq(ReadStarted(d, r)));
    ReadSector(ClearIrq(ReadFirst(d, r).0));
  }

  lemma ReadyIs(d: Ide, r: Request)
    requires r.hd == 0 && OnDisk(r)
    ensures Ready(d) ==> Quiescent(d) && !Spoils(d, r) && d.host.fault == NoFault
    ensures Quiescent(d) && d.control == Control(false, false) && d.host.fault == NoFault ==> Ready(d)
  {
  }

  // ---------- a read that fails ----------

  /** A drive that has reported an error to a driver that polls; the fault is used up. */
  ghost predicate Stopped(d: Ide, e: Ide) {
    && Inv(e) && Steady(e) && e.disk == d.disk && e.host == d.host.(fault := NoFault)
    && e.control == Control(false, true)
    && e.status.err && !e.status.busy
  }

  /** With a fault for the first sector the command itself reports it; with one for the second,
      the end of the first sector does. */
  lemma FaultStopsRead(d: Ide, r: Request)
    requires Quiescent(d) && BlockOk(r) && Spoils(d, r)
    ensures SetControl(d, Control(false, true)).status == IDLE && 0 <= Lba(r)
    ensures Faulty(d, false, Lba(r)) ==> Stopped(d, ReadStarted(d, r))
    ensures Faulty(d, false, Lba(r) + 1) ==> ReadStarted(d, r).status == WANTS_DATA && Stopped(d, ReadFirst(d, r).0)
  {
    RecombineIsLba(r);
    var a := ClearIrq(SetControl(d, Control(false, true)));
    if Faulty(d, false, Lba(r)) {
      LoadFails(a, r, WIN_READ);
    } else {
      LoadStarts(a, r, WIN_READ);
      hide PortRead, Load, Lba, OnDisk;
      SectorThenError(ClearIrq(ReadStarted(d, r)));
    }
  }

  lemma LoadFails(d: Ide, r: Request, c: int)
    requires Inv(d) && Steady(d) && !d.pending
    requires r.hd == 0 && OnDisk(r) && (c == WIN_READ || c == WIN_WRITE)
    requires Lba(r) >= 0 && Faulty(d, c == WIN_WRITE, Lba(r))
    ensures var e := Load(d, r, c);
      && Inv(e) && e.disk == d.disk && e.control == d.control && e.host == d.host.(fault := NoFault)
      && e.status.err && !e.status.drq && !e.status.busy
  {
    RecombineIsLba(r);
    hide Addressed, Address, Lba;
  }

  lemma SectorThenError(d: Ide)
    requires Inv(d) && Steady(d) && Sending(d) && d.x.pos == 0 && d.control == Control(false, true)
    requires d.x.remaining > 1 && d.x.lba + 1 < DISK_SECTORS && Faulty(d, false, d.x.lba + 1)
    ensures Stopped(d, PortRead(d, 256).0)
  {
    hide SectorDone, PortRead, Whole;
    WordsRead(d, 256);
    ErrorAfterSector(d.(x := d.x.(pos := SECTOR_LEN)));
    SectorDoneKeeps(d.(x := d.x.(pos := SECTOR_LEN)));
  }

  lemma ErrorAfterSector(d: Ide)
    requires d.x.remaining > 1 && !d.host.off && d.x.lba + 1 < |d.disk| && Faulty(d, d.x.writing, d.x.lba + 1)
    ensures var e := SectorDone(d).0;
      && e.disk == d.disk && e.control == d.control && e.host == d.host.(fault := NoFault)
      && e.status.err && !e.status.drq && !e.status.busy
  {
  }

  // ---------- a write that fails ----------

  /** The whole way of the first sector of a write: the drive asks for data unless there is a fault
      for that sector, and after taking it reports an error exactly if there is one for the next. */
  lemma WriteReported(d: Ide, r: Request, bytes: seq<Byte>)
    requires Quiescent(d) && BlockOk(r) && |bytes| == SECTOR_LEN
    ensures 0 <= Lba(r) && Lba(r) + 1 < |d.disk|
    ensures var a := HdOut(d, r); var e := PortWrite(ClearIrq(a), bytes);
      && (a.status.drq <==> !Faulty(d, true, Lba(r)))
      && (!a.status.drq ==> a.status.err && a.disk == d.disk)
      && (a.status.drq ==>
           && e.disk == d.disk[Lba(r) := bytes] && e.pending && !e.status.busy && e.status.ready && e.status.seek
           && (e.status.err <==> Faulty(d, true, Lba(r) + 1)))
  {
    RecombineIsLba(r);
    var b := SetControl(ClearIrq(d), Control(false, false));
    if Faulty(d, true, Lba(r)) {
      LoadFails(b, r, WIN_WRITE);
    } else {
      LoadStarts(b, r, WIN_WRITE);
      hide PortWrite, Load, Lba, OnDisk;
      SectorTaken(ClearIrq(HdOut(d, r)), bytes);
    }
  }

  lemma SectorTaken(d: Ide, bytes: seq<Byte>)
    requires Inv(d) && Steady(d) && Receiving(d) && !d.control.nien && d.x.pos == 0 && d.x.remaining == 2
    requires |bytes| == SECTOR_LEN && d.x.lba + 1 < DISK_SECTORS
    ensures var e := PortWrite(d, bytes);
      && e.disk == d.disk[d.x.lba := bytes] && e.pending && !e.status.busy && e.status.ready && e.status.seek
      && (e.status.err <==> Faulty(d, true, d.x.lba + 1))
  {
    WordsFill(d, bytes);
    var f := Filled(d, bytes);
    assert d.buffer[..0] + bytes[..SECTOR_LEN] == bytes;
    assert f.buffer == bytes;
    SectorFullKeeps(f);
    if Faulty(d, true, d.x.lba + 1) {
      ErrorAfterSector(Committed(f));
    }
  }

  // ---------- the reset between two attempts ----------

  /** `reset_controller_quiet`, with interrupts held off. */
  function ResetQuiet(d: Ide): Ide {
    ClearIrq(SetControl(SetControl(d, Control(true, true)), Control(false, true)))
  }

  lemma ResetRevives(d: Ide)
    requires Inv(d) && Steady(d) && d.control == Control(false, true)
    ensures var e := ResetQuiet(d);
      && Quiescent(e) && e.disk == d.disk && e.host == d.host && e.control == Control(false, true)
      && SetControl(SetControl(d, Control(true, true)), Control(false, true)).status == IDLE
  {
    ControlKeeps(d, Control(true, true));
    ControlKeeps(SetControl(d, Control(true, true)), Control(false, true));
  }

  // ---------- the driver ----------

  /** `left` is `nsector` of the request in service, `handler` that `do_hd` is not null, and
      `data[bh]` the block in buffer `bh`, which is locked while a request names it. */
  datatype Hd = Hd(ide: Ide, queue: seq<Request>, left: nat, handler: bool, data: seq<seq<Byte>>)

  ghost predicate RequestOk(r: Request, data: seq<seq<Byte>>) {
    BlockOk(r) && r.bh < |data| && |data[r.bh]| == BLOCK_LEN
  }

  ghost predicate QueueOk(q: seq<Request>, data: seq<seq<Byte>>) {
    forall i :: 0 <= i < |q| ==> RequestOk(q[i], data)
  }

  function Half(data: seq<seq<Byte>>, bh: nat, k: nat): seq<Byte>
    requires bh < |data| && |data[bh]| == BLOCK_LEN && k < 2
  {
    data[bh][k * SECTOR_LEN..(k + 1) * SECTOR_LEN]
  }

  /** `do_request`, on a driver that is not in the middle of `add_request`. */
  ghost function DoRequest(h: Hd): Hd
    requires QueueOk(h.queue, h.data)
  {
    if h.queue == [] then h.(handler := false)
    else
      var r := h.queue[0];
      h.(ide := PortWrite(ClearIrq(HdOut(h.ide, r)), Half(h.data, r.bh, 0)), left := 2, handler := true)
  }

  /** `write_intr`, after a command that went well. */
  ghost function WriteIntr(h: Hd): Hd
    requires QueueOk(h.queue, h.data) && h.queue != [] && h.left > 0
  {
    if h.left > 1 then h.(ide := PortWrite(ClearIrq(h.ide), Half(h.data, h.queue[0].bh, 1)), left := h.left - 1)
    else DoRequest(h.(ide := ClearIrq(h.ide), queue := h.queue[1..], left := 0))
  }

  /** `add_request` with interrupts held off; see `Elevator` for what happens otherwise. */
  ghost function Submit(h: Hd, r: Request): Hd
    requires QueueOk(h.queue, h.data) && RequestOk(r, h.data)
  {
    InsertKeepsOk(h.queue, r, h.data);
    var n := h.(queue := Insert(h.queue, r));
    if h.handler then n else DoRequest(n)
  }

  lemma InsertKeepsOk(q: seq<Request>, r: Request, data: seq<seq<Byte>>)
    requires QueueOk(q, data) && RequestOk(r, data)
    ensures QueueOk(Insert(q, r), data)
  {
    var k := InsertAt(q, r);
  }

  /** Inserting splits the queue at one point, behind the request in service if there is one. */
  lemma InsertAt(q: seq<Request>, r: Request) returns (k: nat)
    ensures k <= |q| && Insert(q, r) == q[..k] + [r] + q[k..] && (q != [] ==> k > 0)
  {
    if |q| < 2 {
      k := |q|;
    } else {
      var j := PlacedAt(q[1..], r);
      k := j + 2;
      assert q[..k] == [q[0]] + q[1..][..j + 1] && q[k..] == q[1..][j + 1..];
    }
  }

  // ---------- the disk as it will be ----------

  function WriteSector(disk: seq<seq<Byte>>, lba: int, bytes: seq<Byte>): (r: seq<seq<Byte>>)
    ensures |r| == |disk|
  {
    if 0 <= lba < |disk| then disk[lba := bytes] else disk
  }

  ghost function WriteBlock(disk: seq<seq<Byte>>, r: Request, data: seq<seq<Byte>>): (d: seq<seq<Byte>>)
    requires RequestOk(r, data)
    ensures |d| == |disk|
  {
    WriteSector(WriteSector(disk, Lba(r), Half(data, r.bh, 0)), Lba(r) + 1, Half(data, r.bh, 1))
  }

  /** What the disk will hold when every queued write has been carried out, in queue order. */
  ghost function Written(disk: seq<seq<Byte>>, q: seq<Request>, data: seq<seq<Byte>>): (d: seq<seq<Byte>>)
    requires QueueOk(q, data)
    ensures |d| == |disk|
    decreases |q|
  {
    if q == [] then disk else Written(WriteBlock(disk, q[0], data), q[1..], data)
  }

  predicate Apart(a: Request, b: Request) {
    Lba(a) + 1 < Lba(b) || Lba(b) + 1 < Lba(a)
  }

  lemma WritesCommute(disk: seq<seq<Byte>>, a: Request, b: Request, data: seq<seq<Byte>>)
    requires RequestOk(a, data) && RequestOk(b, data) && Apart(a, b)
    ensures WriteBlock(WriteBlock(disk, a, data), b, data) == WriteBlock(WriteBlock(disk, b, data), a, data)
  {
    hide Half, Lba;
  }

  lemma {:induction false} WriteFirst(disk: seq<seq<Byte>>, q: seq<Request>, r: Request, data: seq<seq<Byte>>)
    requires QueueOk(q, data) && RequestOk(r, data) && forall i :: 0 <= i < |q| ==> Apart(q[i], r)
    ensures Written(WriteBlock(disk, r, data), q, data) == WriteBlock(Written(disk, q, data), r, data)
    decreases |q|
  {
    hide WriteBlock, Apart;
    if q != [] {
      WritesCommute(disk, q[0], r, data);
      WriteFirst(WriteBlock(disk, q[0], data), q[1..], r, data);
    }
  }

  /** The place the elevator gives a request does not change what ends up on the disk. */
  lemma {:induction false} WrittenInserted(disk: seq<seq<Byte>>, q: seq<Request>, k: nat, r: Request, data: seq<seq<Byte>>)
    requires QueueOk(q, data) && RequestOk(r, data) && forall i :: 0 <= i < |q| ==> Apart(q[i], r)
    requires k <= |q|
    ensures QueueOk(q[..k] + [r] + q[k..], data)
    ensures Written(disk, q[..k] + [r] + q[k..], data) == WriteBlock(Written(disk, q, data), r, data)
    decreases k
  {
    hide WriteBlock, Apart;
    var n := q[..k] + [r] + q[k..];
    if k == 0 {
      assert n[1..] == q;
      WriteFirst(disk, q, r, data);
    } else {
      assert n[1..] == q[1..][..k - 1] + [r] + q[1..][k - 1..];
      WrittenInserted(WriteBlock(disk, q[0], data), q[1..], k - 1, r, data);
    }
  }

  /** Carrying out a half of the first request ahead of time changes nothing. */
  lemma HalfDone(disk: seq<seq<Byte>>, r: Request, data: seq<seq<Byte>>)
    requires RequestOk(r, data)
    ensures WriteBlock(WriteSector(disk, Lba(r), Half(data, r.bh, 0)), r, data) == WriteBlock(disk, r, data)
    ensures WriteBlock(WriteBlock(disk, r, data), r, data) == WriteBlock(disk, r, data)
  {
    hide Half, Lba;
  }

  // ---------- what every step keeps ----------

  /** The controller between the sectors of request `r`, `left` of which it still owes an
      interrupt for. */
  ghost predicate Serving(d: Ide, r: Request, left: nat, data: seq<seq<Byte>>)
    requires RequestOk(r, data)
  {
    && d.pending && 1 <= left <= 2 && 0 <= Lba(r) && Lba(r) + 1 < |d.disk|
    && d.x == Xfer(Lba(r) + 3 - left, left - 1, 0, true) && d.status == (if left == 2 then WANTS_DATA else IDLE)
    && d.disk[Lba(r)] == Half(data, r.bh, 0) && (left == 1 ==> d.disk[Lba(r) + 1] == Half(data, r.bh, 1))
  }

  /** With an empty queue the controller is ready and quiet; otherwise it owes an interrupt for
      the request at the head and for no other. */
  ghost predicate Good(h: Hd) {
    && QueueOk(h.queue, h.data) && Inv(h.ide) && FaultFree(h.ide) && h.ide.control == Control(false, false)
    && h.handler == (h.queue != [])
    && if h.queue == [] then Ready(h.ide) else Serving(h.ide, h.queue[0], h.left, h.data)
  }

  ghost function View(h: Hd): seq<seq<Byte>>
    requires QueueOk(h.queue, h.data)
  {
    Written(h.ide.disk, h.queue, h.data)
  }

  /** Interrupts still to come. */
  function Work(h: Hd): nat {
    if h.queue == [] then 0 else 2 * (|h.queue| - 1) + h.left
  }

  lemma HalfLength(data: seq<seq<Byte>>, bh: nat, k: nat)
    requires bh < |data| && |data[bh]| == BLOCK_LEN && k < 2
    ensures |Half(data, bh, k)| == SECTOR_LEN
  {
  }

  lemma Begins(d: Ide, r: Request, data: seq<seq<Byte>>)
    requires RequestOk(r, data) && Inv(d) && FaultFree(d) && d.status == IDLE && !d.control.srst
    ensures var e := PortWrite(ClearIrq(HdOut(d, r)), Half(data, r.bh, 0));
      Inv(e) && FaultFree(e) && e.control == Control(false, false) && Serving(e, r, 2, data)
      && e.disk == WriteSector(d.disk, Lba(r), Half(data, r.bh, 0))
  {
    hide PortWrite, Load, Half, Lba, OnDisk;
    HalfLength(data, r.bh, 0);
    var a := SetControl(ClearIrq(d), Control(false, false));
    ControlKeeps(ClearIrq(d), Control(false, false));
    LoadStarts(a, r, WIN_WRITE);
    RecombineIsLba(r);
    SectorSent(Load(a, r, WIN_WRITE), Half(data, r.bh, 0));
  }

  lemma Continues(d: Ide, r: Request, data: seq<seq<Byte>>)
    requires RequestOk(r, data) && Inv(d) && FaultFree(d) && d.control == Control(false, false) && Serving(d, r, 2, data)
    ensures var e := PortWrite(ClearIrq(d), Half(data, r.bh, 1));
      Inv(e) && FaultFree(e) && e.control == Control(false, false) && Serving(e, r, 1, data)
      && e.disk == WriteSector(d.disk, Lba(r) + 1, Half(data, r.bh, 1))
  {
    hide PortWrite, Half, Lba, OnDisk;
    HalfLength(data, r.bh, 1);
    SectorSent(ClearIrq(d), Half(data, r.bh, 1));
  }

  /** Starting the next request. */
  lemma RequestStarts(h: Hd)
    requires QueueOk(h.queue, h.data) && Inv(h.ide) && FaultFree(h.ide) && h.ide.control == Control(false, false)
    requires h.ide.status == IDLE && !h.ide.pending
    ensures Good(DoRequest(h)) && View(DoRequest(h)) == View(h)
    ensures DoRequest(h).queue == h.queue && DoRequest(h).data == h.data
    ensures h.queue != [] ==> DoRequest(h).left == 2
  {
    if h.queue != [] {
      hide PortWrite, Half, Lba, HdOut, WriteBlock, Serving, WriteSector;
      Begins(h.ide, h.queue[0], h.data);
      HalfDone(h.ide.disk, h.queue[0], h.data);
    }
  }

  /** A disk that already holds a block is not changed by writing it again. */
  lemma AlreadyWritten(disk: seq<seq<Byte>>, r: Request, data: seq<seq<Byte>>)
    requires RequestOk(r, data) && 0 <= Lba(r) && Lba(r) + 1 < |disk|
    requires disk[Lba(r)] == Half(data, r.bh, 0)
    ensures WriteSector(disk, Lba(r) + 1, Half(data, r.bh, 1)) == WriteBlock(disk, r, data)
    ensures disk[Lba(r) + 1] == Half(data, r.bh, 1) ==> WriteBlock(disk, r, data) == disk
  {
    hide Half, Lba;
  }

  /** Each interrupt does one sector of the work, and never changes what the disk will be once
      all the work is done. */
  lemma InterruptKeeps(h: Hd)
    requires Good(h) && h.queue != []
    ensures h.left > 0 && h.ide.line
    ensures var n := WriteIntr(h); Good(n) && View(n) == View(h) && Work(n) == Work(h) - 1
    ensures WriteIntr(h).data == h.data
  {
    var r := h.queue[0];
    ServingDisk(h.ide, r, h.left, h.data);
    if h.left == 2 {
      hide PortWrite, Half, Lba, WriteBlock, Serving, WriteSector;
      Continues(h.ide, r, h.data);
      AlreadyWritten(h.ide.disk, r, h.data);
      HalfDone(h.ide.disk, r, h.data);
    } else {
      hide Half, Lba, WriteBlock, DoRequest;
      AlreadyWritten(h.ide.disk, r, h.data);
      RequestStarts(h.(ide := ClearIrq(h.ide), queue := h.queue[1..], left := 0));
    }
  }

  lemma ServingDisk(d: Ide, r: Request, left: nat, data: seq<seq<Byte>>)
    requires RequestOk(r, data) && Serving(d, r, left, data)
    ensures 0 <= Lba(r) && Lba(r) + 1 < |d.disk| && d.disk[Lba(r)] == Half(data, r.bh, 0) && 1 <= left <= 2
    ensures left == 1 ==> d.disk[Lba(r) + 1] == Half(data, r.bh, 1)
  {
  }

  /** Queueing a write changes what the disk will be by exactly that block. */
  lemma SubmitKeeps(h: Hd, r: Request)
    requires Good(h) && RequestOk(r, h.data) && forall i :: 0 <= i < |h.queue| ==> Apart(h.queue[i], r)
    ensures Good(Submit(h, r)) && View(Submit(h, r)) == WriteBlock(View(h), r, h.data)
    ensures Submit(h, r).data == h.data && Submit(h, r).queue == Insert(h.queue, r)
    ensures Work(Submit(h, r)) == Work(h) + 2
  {
    hide Serving, WriteBlock, Insert, DoRequest;
    InsertKeepsOk(h.queue, r, h.data);
    var k := InsertAt(h.queue, r);
    WrittenInserted(h.ide.disk, h.queue, k, r, h.data);
    if h.queue == [] {
      RequestStarts(h.(queue := Insert(h.queue, r)));
    }
  }

  /** Let every interrupt that is owed arrive. */
  ghost function Settle(h: Hd): (s: Hd)
    requires Good(h)
    ensures s.data == h.data
    decreases Work(h)
  {
    if h.queue == [] then h
    else
      InterruptKeeps(h);
      Settle(WriteIntr(h))
  }

  /** Every queued write reaches its own two sectors and nothing else changes. */
  lemma {:induction false} SettleWrites(h: Hd)
    requires Good(h)
    ensures Good(Settle(h)) && Settle(h).queue == [] && Settle(h).ide.disk == View(h)
    decreases Work(h)
  {
    if h.queue != [] {
      hide WriteIntr, Good;
      InterruptKeeps(h);
      SettleWrites(WriteIntr(h));
    } else {
      assert View(h) == h.ide.disk;
    }
  }

  /** A write that has settled is read back, and a read of any other block returns what the
      disk held, with the writes queued before. */
  lemma ReadAfterWrite(h: Hd, r: Request, t: Request)
    requires Good(h) && RequestOk(r, h.data) && forall i :: 0 <= i < |h.queue| ==> Apart(h.queue[i], r)
    requires BlockOk(t) && (Lba(t) == Lba(r) || Apart(t, r))
    ensures Good(Submit(h, r)) && 0 <= Lba(t) && Lba(t) + 1 < |View(h)|
    ensures ReadBlock(Settle(Submit(h, r)).ide, t).1
         == if Lba(t) == Lba(r) then h.data[r.bh] else View(h)[Lba(t)] + View(h)[Lba(t) + 1]
  {
    hide Good, ReadBlock, ReadStarted, ReadFirst, ReadSecond, Ready, Submit, Settle, Lba, OnDisk, SetControl, WriteBlock;
    GoodDisk(h);
    SubmitKeeps(h, r);
    var s := Settle(Submit(h, r));
    SettleWrites(Submit(h, r));
    GoodDisk(s);
    ReadyIs(s.ide, t);
    ReadBlockWorks(s.ide, t);
    BlockWritten(View(h), r, t, h.data);
  }

  lemma BlockWritten(disk: seq<seq<Byte>>, r: Request, t: Request, data: seq<seq<Byte>>)
    requires RequestOk(r, data) && 0 <= Lba(t) && Lba(t) + 1 < |disk|
    requires Lba(t) == Lba(r) || Apart(t, r)
    ensures var d := WriteBlock(disk, r, data);
      d[Lba(t)] + d[Lba(t) + 1] == if Lba(t) == Lba(r) then data[r.bh] else disk[Lba(t)] + disk[Lba(t) + 1]
  {
    hide Lba;
    assert Half(data, r.bh, 0) + Half(data, r.bh, 1) == data[r.bh];
  }

  lemma GoodDisk(h: Hd)
    requires Good(h)
    ensures QueueOk(h.queue, h.data) && |h.ide.disk| == DISK_SECTORS
    ensures h.queue == [] ==> Ready(h.ide)
  {
  }

  // ---------- blocks of a partition ----------

  datatype Partition = Partition(start: nat, count: nat)

  /** `rw_hd` quietly does nothing with any other block. */
  predicate Within(p: Partition, block: nat) {
    2 * block + 2 <= p.count
  }

  function BlockAt(p: Partition, block: nat, bh: nat): Request
    requires Within(p, block) && p.start + p.count <= DISK_SECTORS
  {
    Split(p.start + 2 * block, bh)
  }

  /** Every block of a partition that fits the disk is a request the driver serves, on its own
      two sectors inside the partition; different blocks never share a sector. */
  lemma BlockPlaces(p: Partition, a: nat, b: nat, bh: nat)
    requires 2 * a + 2 <= p.count && 2 * b + 2 <= p.count && p.start + p.count <= DISK_SECTORS
    ensures BlockOk(BlockAt(p, a, bh)) && Lba(BlockAt(p, a, bh)) == p.start + 2 * a
    ensures a != b ==> Apart(BlockAt(p, a, bh), BlockAt(p, b, bh))
  {
    hide Split, Lba;
    SplitAndRecombine(p.start + 2 * a, bh);
    SplitAndRecombine(p.start + 2 * b, bh);
    SplitDrive(p.start + 2 * a, bh);
  }

  lemma SplitDrive(lba: nat, bh: nat)
    requires lba < DISK_SECTORS
    ensures Split(lba, bh).hd == 0
  {
  }
}
