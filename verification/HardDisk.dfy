/** The code of kernel/hd.c, driving the `Drive` of `IdeController` and the request table of
    `Elevator`.  Each method is proved against the functions of `HdDriver`. */
module HardDisk {
  import opened IdeController
  import opened Elevator
  import opened HdDriver

  /** `controller_ready`: look at the status register until it says so, at most 999 times. */
  method ControllerReady(ide: Drive) returns (ok: bool)
    requires ide.Valid()
    modifies ide
    ensures ide.Valid() && ide.Snap() == ClearIrq(old(ide.Snap()))
    ensures ok <==> old(ide.status).ready && !old(ide.status).busy
  {
    var retries := 999;
    while retries > 0
      invariant 0 <= retries <= 999 && ide.Valid() && ide.status == old(ide.status)
      invariant ide.Snap() == if retries == 999 then old(ide.Snap()) else ClearIrq(old(ide.Snap()))
      invariant retries < 999 ==> ide.status.busy || !ide.status.ready
    {
      var s := ide.ReadStatus();
      if !s.busy && s.ready {
        break;
      }
      retries := retries - 1;
    }
    ok := retries > 0;
  }

  /** The loop of `do_request` that waits for the controller to ask for data. */
  method WaitForData(ide: Drive) returns (wanted: bool)
    requires ide.Valid()
    modifies ide
    ensures ide.Valid() && ide.Snap() == ClearIrq(old(ide.Snap())) && wanted == old(ide.status).drq
  {
    var i := 0;
    var s := ide.ReadStatus();
    while i < 2999 && !s.drq
      invariant i <= 2999 && s == old(ide.status) && ide.Valid() && ide.Snap() == ClearIrq(old(ide.Snap()))
    {
      s := ide.ReadStatus();
      i := i + 1;
    }
    wanted := s.drq;
  }

  /** The loop of `read_abs_hd` that waits for a sector, giving up on an error. */
  method WaitForSector(ide: Drive) returns (ok: bool)
    requires ide.Valid()
    modifies ide
    ensures ide.Valid() && ide.Snap() == ClearIrq(old(ide.Snap()))
    ensures ok <==> !old(ide.status).err && old(ide.status).drq && !old(ide.status).busy
  {
    var retries := 100000;
    while true
      invariant 0 < retries <= 100000 && ide.Valid() && ide.status == old(ide.status)
      invariant ide.Snap() == if retries == 100000 then old(ide.Snap()) else ClearIrq(old(ide.Snap()))
      invariant retries < 100000 ==> ide.status.busy || !ide.status.drq
      decreases retries
    {
      var s := ide.ReadStatus();
      if s.err {
        return false;
      }
      retries := retries - 1;
      if retries == 0 || (!s.busy && s.drq) {
        return retries > 0 && !s.busy && s.drq;
      }
    }
  }

  /** `win_result`: true when the command went well. */
  method WinResult(ide: Drive) returns (ok: bool)
    requires ide.Valid()
    modifies ide
    ensures ide.Valid() && ide.Snap() == ClearIrq(old(ide.Snap()))
    ensures ok <==> !old(ide.status).busy && old(ide.status).ready && old(ide.status).seek && !old(ide.status).err
  {
    var s := ide.ReadStatus();
    ok := !s.busy && s.ready && s.seek && !s.err;
  }

  method SendWords(ide: Drive, bytes: seq<Byte>)
    requires ide.Valid() && |bytes| % 2 == 0
    modifies ide, ide.buffer, ide.disk
    ensures ide.Valid() && ide.Snap() == PortWrite(old(ide.Snap()), bytes)
  {
    hide Inv, DataOut;
    var k := 0;
    assert bytes[0..] == bytes;
    while k < |bytes|
      invariant 0 <= k <= |bytes| && k % 2 == 0 && ide.Valid()
      invariant PortWrite(old(ide.Snap()), bytes) == PortWrite(ide.Snap(), bytes[k..])
    {
      assert bytes[k..][..2] == bytes[k..k + 2] && bytes[k..][2..] == bytes[k + 2..];
      ide.WriteData(bytes[k..k + 2]);
      k := k + 2;
    }
  }

  method ReceiveWords(ide: Drive, words: nat) returns (bytes: seq<Byte>)
    requires ide.Valid()
    modifies ide, ide.buffer
    ensures ide.Valid() && (ide.Snap(), bytes) == PortRead(old(ide.Snap()), words)
  {
    hide Inv, DataIn;
    bytes := [];
    var k := 0;
    ghost var s0 := ide.Snap();
    assert [] + PortRead(s0, words).1 == PortRead(s0, words).1;
    while k < words
      invariant k <= words && ide.Valid()
      invariant PortRead(s0, words).0 == PortRead(ide.Snap(), words - k).0
      invariant PortRead(s0, words).1 == bytes + PortRead(ide.Snap(), words - k).1
    {
      ghost var s, got := ide.Snap(), bytes;
      var w := ide.ReadData(2);
      bytes := bytes + w;
      assert got + (w + PortRead(ide.Snap(), words - k - 1).1) == bytes + PortRead(ide.Snap(), words - k - 1).1;
      k := k + 1;
    }
    assert bytes + [] == bytes;
  }

  method LoadRegisters(ide: Drive, r: Request, c: Byte)
    requires ide.Valid() && r.hd == 0 && OnDisk(r)
    modifies ide, ide.buffer
    ensures ide.Valid() && ide.Snap() == Load(old(ide.Snap()), r, c)
  {
    hide Inv, Command, Latch;
    ide.LatchRegister(Precomp, WPCOM);
    ide.LatchRegister(Count, 2);
    ide.LatchRegister(Register.Sector, r.sector);
    ide.LatchRegister(CylLow, r.cyl % 256);
    ide.LatchRegister(CylHigh, r.cyl / 256 % 256);
    ide.LatchRegister(Current, 0xa0 + r.head);
    ide.WriteCommand(c);
  }

  lemma InService(t: RequestTable)
    requires t.Valid()
    ensures t.thisRequest == NULL <==> t.chain == []
    ensures t.chain != [] ==> 0 <= t.thisRequest < t.request.Length && t.request[t.thisRequest] == t.Queue()[0]
  {
  }

  class Driver {
    const ide: Drive
    const table: RequestTable
    const data: array<seq<Byte>>
    var left: nat
    var handler: bool

    /** No two of the parts share an array. */
    ghost predicate Separate()
      reads this, table
    {
      && (ide.disk as object) != (data as object)
      && (ide.buffer as object) !in {table.request as object, table.next as object, data as object}
      && (ide.disk as object) !in {table.request as object, table.next as object}
      && (data as object) !in {table.request as object, table.next as object}
    }

    ghost function Snap(): Hd
      requires Chained(table.chain, table.next[..]) && table.request.Length == table.next.Length
      reads this, ide, ide.buffer, ide.disk, table, table.request, table.next, data
    {
      Hd(ide.Snap(), table.Queue(), left, handler, data[..])
    }

    ghost predicate Shaped()
      reads this, ide, ide.buffer, ide.disk, table, table.request, table.next, data
    {
      Separate() && table.Valid() && ide.Valid() && QueueOk(table.Queue(), data[..])
    }

    ghost predicate Valid()
      reads this, ide, ide.buffer, ide.disk, table, table.request, table.next, data
    {
      Shaped() && Good(Snap())
    }

    constructor (d: Drive, t: RequestTable, buffers: array<seq<Byte>>)
      requires t.Valid() && t.chain == [] && Ready(d.Snap()) && d.Valid()
      requires (d.disk as object) != (buffers as object)
      requires (d.buffer as object) !in {t.request as object, t.next as object, buffers as object}
      requires (d.disk as object) !in {t.request as object, t.next as object}
      requires (buffers as object) !in {t.request as object, t.next as object}
      ensures Valid() && ide == d && table == t && data == buffers && Snap().queue == []
    {
      ide, table, data := d, t, buffers;
      left, handler := 0, false;
    }

    /** `do_request`, with `sorting` clear. */
    method StartRequest()
      requires Shaped() && FaultFree(ide.Snap()) && ide.status == IDLE
      modifies this, ide, ide.buffer, ide.disk
      ensures Shaped() && Snap() == HdDriver.DoRequest(old(Snap()))
    {
      hide Load, PortWrite, Inv, OnDisk, SetControl, Chained;
      InService(table);
      assert table.chain != [] ==> RequestOk(table.Queue()[0], data[..]);
      if table.thisRequest == NULL {
        handler := false;
        return;
      }
      var r := table.request[table.thisRequest];
      var ready := ControllerReady(ide);
      if !ready {
        assert false;
      }
      handler := true;
      WantsAfterLoad(old(ide.Snap()), r);
      ide.WriteControl(Control(false, false));
      LoadRegisters(ide, r, WIN_WRITE);
      var wanted := WaitForData(ide);
      if !wanted {
        assert false;
      }
      left := 2;
      SendWords(ide, data[r.bh][..SECTOR_LEN]);
    }

    /** `write_intr`, on the interrupt the controller owes. */
    method Interrupt()
      requires Valid() && ide.line
      modifies this, ide, ide.buffer, ide.disk, table, table.request
      ensures Valid() && Snap() == WriteIntr(old(Snap())) && View(Snap()) == View(old(Snap()))
      ensures Work(Snap()) == Work(old(Snap())) - 1
    {
      hide Half, HdDriver.DoRequest, PortWrite, Inv, OnDisk, Chained, Work, View, Good;
      ghost var h := Snap();
      InterruptNeeds(h);
      InterruptKeeps(h);
      InService(table);
      var r := table.request[table.thisRequest];
      var ok := WinResult(ide);
      if !ok {
        assert false;
      }
      left := left - 1;
      if left > 0 {
        SendWords(ide, data[r.bh][SECTOR_LEN..]);
      } else {
        var _ := table.Complete();
        StartRequest();
      }
    }

    /** The write half of `rw_abs_hd`: `done` is false when the table is full and the caller
        must sleep for a slot. */
    method Write(r: Request) returns (done: bool)
      requires Valid() && RequestOk(r, data[..])
      requires forall i :: 0 <= i < |Snap().queue| ==> Apart(Snap().queue[i], r)
      modifies this, ide, ide.buffer, ide.disk, table, table.request, table.next
      ensures Valid() && data[..] == old(data[..])
      ensures done ==> Snap() == Submit(old(Snap()), r) && View(Snap()) == WriteBlock(View(old(Snap())), r, data[..])
      ensures !done ==> Snap() == old(Snap())
    {
      hide HdDriver.DoRequest, Inv, OnDisk, Chained, View, Good, WriteBlock, Insert, Apart;
      ghost var h := Snap();
      SubmitKeeps(h, r);
      SubmitNeeds(h, r);
      done := table.Enqueue(r);
      if done && !handler {
        StartRequest();
      }
    }

    /** `read_abs_hd`, once no write is queued, with whatever fault awaits the drive. */
    method Read(r: Request) returns (ok: bool, bytes: seq<Byte>)
      requires Separate() && table.Valid() && table.chain == [] && ide.Valid() && Quiescent(ide.Snap()) && BlockOk(r)
      modifies ide, ide.buffer
      ensures ide.Valid() && Quiescent(ide.Snap()) && ide.disk[..] == old(ide.disk[..]) && Snap().queue == []
      ensures ok && 0 <= Lba(r) && Lba(r) + 1 < ide.disk.Length && bytes == ide.disk[Lba(r)] + ide.disk[Lba(r) + 1]
      ensures old(Valid()) ==> Valid()
    {
      hide Inv, OnDisk, Lba, Chained, ReadBlock, SetControl, Ready, Quiescent, Spoils, Good, FaultFree;
      ghost var h := Snap();
      if Good(h) {
        GoodDisk(h);
        ReadyIs(h.ide, r);
      }
      ok, bytes := ReadBack(ide, r);
      ReadyIs(ide.Snap(), r);
      if Good(h) {
        StillGood(h, ide.Snap());
      }
    }
  }

  const MAX_ERRORS: nat := 5

  /** `read_abs_hd`: a fault spoils one attempt at most, so the block is read. */
  method ReadBack(ide: Drive, r: Request) returns (ok: bool, bytes: seq<Byte>)
    requires ide.Valid() && Quiescent(ide.Snap()) && BlockOk(r)
    modifies ide, ide.buffer
    ensures ide.Valid() && ide.disk[..] == old(ide.disk[..])
    ensures ok && 0 <= Lba(r) && Lba(r) + 1 < ide.disk.Length && bytes == ide.disk[Lba(r)] + ide.disk[Lba(r) + 1]
    ensures Quiescent(ide.Snap()) && ide.control == Control(false, false)
    ensures ide.host == if Spoils(old(ide.Snap()), r) then old(ide.host).(fault := NoFault) else old(ide.host)
  {
    hide Inv, OnDisk, Lba, ReadBlock, SetControl, Quiescent, Spoils, Stopped, BlockOk;
    ok, bytes := false, [];
    ghost var s := ide.Snap();
    NoFaultSpoilsNone(r);
    var attempt := 0;
    while attempt < MAX_ERRORS
      invariant attempt <= 1 && ide.Valid() && Quiescent(ide.Snap()) && ide.disk[..] == s.disk
      invariant ide.host == if attempt == 0 then s.host else s.host.(fault := NoFault)
      invariant attempt > 0 ==> Spoils(s, r)
      invariant attempt == 0 ==> ide.Snap() == s
    {
      ghost var d := ide.Snap();
      ReadSpace(d, r);
      ok, bytes := ReadAttempt(ide, r);
      if ok {
        ReadBlockWorks(d, r);
        return;
      }
      Acknowledged(ide.Snap());
      var _ := ide.ReadStatus();
      StoppedIs(d, ide.Snap());
      ResetController(ide);
      attempt := attempt + 1;
    }
    assert false;
  }

  lemma NoFaultSpoilsNone(r: Request)
    requires BlockOk(r)
    ensures r.hd == 0 && OnDisk(r) && forall d: Ide :: d.host.fault == NoFault ==> !Spoils(d, r)
  {
  }

  lemma ReadSpace(d: Ide, r: Request)
    requires Quiescent(d) && BlockOk(r)
    ensures r.hd == 0 && OnDisk(r) && (!Spoils(d, r) ==> 0 <= Lba(r) && Lba(r) + 1 < |d.disk|)
  {
    RecombineIsLba(r);
  }
  /** One attempt: it fails exactly if the fault that awaits the drive is for one of its sectors,
      and then no fault is left. */
  method ReadAttempt(ide: Drive, r: Request) returns (ok: bool, bytes: seq<Byte>)
    requires ide.Valid() && Quiescent(ide.Snap()) && BlockOk(r)
    modifies ide, ide.buffer
    ensures ide.Valid() && (ok <==> !Spoils(old(ide.Snap()), r))
    ensures ok ==> (ide.Snap(), bytes) == ReadBlock(old(ide.Snap()), r)
    ensures !ok ==> Stopped(old(ide.Snap()), ide.Snap())
  {
    hide Inv, OnDisk, Lba, Load, PortRead, SetControl, Quiescent, Faulty;
    bytes := [];
    ghost var d := ide.Snap();
    if Spoils(d, r) {
      FaultStopsRead(d, r);
    } else {
      ReadBlockWorks(d, r);
    }
    ide.WriteControl(Control(false, true));
    ok := ControllerReady(ide);
    if !ok {
      return;
    }
    LoadRegisters(ide, r, WIN_READ);
    Acknowledged(ide.Snap());
    ok := WaitForSector(ide);
    if !ok {
      return;
    }
    bytes := ReceiveWords(ide, 256);
    Acknowledged(ide.Snap());
    ok := WaitForSector(ide);
    if !ok {
      return;
    }
    var second := ReceiveWords(ide, 256);
    bytes := bytes + second;
    var s := ide.ReadStatus();
    ok := !s.busy && !s.drq && !s.err;
    if !ok {
      return;
    }
    ide.WriteControl(Control(false, false));
  }

  /** Looking at the status changes nothing but the pending interrupt. */
  lemma Acknowledged(e: Ide)
    ensures forall d :: Stopped(d, e) ==> Stopped(d, ClearIrq(e))
  {
  }

  lemma StoppedIs(d: Ide, e: Ide)
    requires Stopped(d, e)
    ensures Steady(e) && e.control == Control(false, true) && e.disk == d.disk && e.host == d.host.(fault := NoFault)
  {
  }

  /** `drive_busy`. */
  method DriveBusy(ide: Drive) returns (busy: bool)
    requires ide.Valid()
    modifies ide
    ensures ide.Valid() && ide.Snap() == ClearIrq(old(ide.Snap()))
    ensures busy <==> old(ide.status).busy || !old(ide.status).ready || !old(ide.status).seek
  {
    var i := 0;
    while i < 100000
      invariant i <= 100000 && ide.Valid() && ide.status == old(ide.status)
      invariant ide.Snap() == if i == 0 then old(ide.Snap()) else ClearIrq(old(ide.Snap()))
    {
      var s := ide.ReadStatus();
      if s.ready && !s.busy {
        break;
      }
      i := i + 1;
    }
    var s := ide.ReadStatus();
    busy := s.busy || !s.ready || !s.seek;
  }

  /** `reset_controller_quiet`. */
  method ResetController(ide: Drive)
    requires ide.Valid() && Steady(ide.Snap()) && ide.control == Control(false, true)
    modifies ide, ide.buffer
    ensures ide.Valid() && ide.Snap() == ResetQuiet(old(ide.Snap())) && Quiescent(ide.Snap())
    ensures ide.disk[..] == old(ide.disk[..]) && ide.host == old(ide.host)
  {
    hide Inv, SetControl;
    ghost var d := ide.Snap();
    ide.WriteControl(Control(true, true));
    ide.WriteControl(Control(false, true));
    var i := 0;
    while i < 10000
      invariant i <= 10000 && ide.Valid() && ClearIrq(ide.Snap()) == ResetQuiet(d)
    {
      var busy := DriveBusy(ide);
      if !busy {
        break;
      }
      i := i + 1;
    }
    var _ := ide.ReadStatus();
    ResetRevives(d);
  }

  /** The first sector of a write as far as `write_intr`'s look at the status: a fault for that
      sector keeps the drive from asking for data, and one for the next is seen by `win_result`. */
  method WriteAttempt(ide: Drive, r: Request, bytes: seq<Byte>) returns (wanted: bool, ok: bool)
    requires ide.Valid() && Quiescent(ide.Snap()) && BlockOk(r) && |bytes| == SECTOR_LEN
    modifies ide, ide.buffer, ide.disk
    ensures ide.Valid() && 0 <= Lba(r) && Lba(r) + 1 < ide.disk.Length
    ensures wanted <==> !Faulty(old(ide.Snap()), true, Lba(r))
    ensures ok <==> wanted && !Faulty(old(ide.Snap()), true, Lba(r) + 1)
    ensures ide.disk[..] == if wanted then old(ide.disk[..])[Lba(r) := bytes] else old(ide.disk[..])
  {
    hide Inv, OnDisk, Lba, Load, PortWrite, SetControl, Faulty;
    ok := false;
    WriteReported(ide.Snap(), r, bytes);
    var ready := ControllerReady(ide);
    if !ready {
      assert false;
    }
    ide.WriteControl(Control(false, false));
    LoadRegisters(ide, r, WIN_WRITE);
    wanted := WaitForData(ide);
    if !wanted {
      return;
    }
    SendWords(ide, bytes);
    ok := WinResult(ide);
  }

  lemma StillGood(h: Hd, d: Ide)
    requires Good(h) && h.queue == [] && Ready(d)
    ensures Good(h.(ide := d))
  {
  }

  /** A write command on a free drive makes it ask for data. */
  lemma WantsAfterLoad(s: Ide, r: Request)
    requires Inv(s) && FaultFree(s) && r.hd == 0 && OnDisk(r)
    ensures Load(SetControl(ClearIrq(s), Control(false, false)), r, WIN_WRITE).status == WANTS_DATA
  {
    var d := SetControl(ClearIrq(s), Control(false, false));
    ControlKeeps(ClearIrq(s), Control(false, false));
    LoadStarts(d, r, WIN_WRITE);
  }

  lemma SubmitNeeds(h: Hd, r: Request)
    requires Good(h) && RequestOk(r, h.data)
    ensures FaultFree(h.ide) && (!h.handler ==> h.ide.status == IDLE) && QueueOk(Insert(h.queue, r), h.data)
    ensures BlockOk(r)
  {
    InsertKeepsOk(h.queue, r, h.data);
  }

  lemma InterruptNeeds(h: Hd)
    requires Good(h) && h.ide.line
    ensures h.queue != [] && 1 <= h.left <= 2 && FaultFree(h.ide)
    ensures QueueOk(h.queue, h.data) && RequestOk(h.queue[0], h.data) && QueueOk(h.queue[1..], h.data)
    ensures Half(h.data, h.queue[0].bh, 1) == h.data[h.queue[0].bh][SECTOR_LEN..]
    ensures h.ide.status == if h.left == 2 then WANTS_DATA else IDLE
  {
  }
}
