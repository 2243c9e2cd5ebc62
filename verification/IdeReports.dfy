/** What the drive of bemu/ide.c reports: which accesses fail, and what a driver then finds in the
    status and error registers. */
module IdeReports {
  import opened IdeController

  /** The sector that the registers name, and whether the disk has it. */
  function Named(r: Regs): int {
    ((r.lcyl + 256 * r.hcyl) * 5 + r.current % 16) * 17 + r.sector - 1
  }

  predicate Exists(r: Regs, sectors: nat) {
    && r.current / 16 % 2 == 0 && r.lcyl + 256 * r.hcyl < 977 && r.current % 16 < 5 && 1 <= r.sector <= 17
    && Named(r) < sectors
  }

  /** The injected fault hits an access to this sector. */
  predicate Hit(d: Ide, writing: bool, lba: int) {
    lba >= 0 && d.host.fault == if writing then WriteFault(lba) else ReadFault(lba)
  }

  /** A command fails for one of three reasons. */
  predicate Refused(d: Ide, c: Byte) {
    || c !in {0x10, 0x20, 0x30, 0x91}
    || (c in {0x20, 0x30} && (!Exists(d.regs, |d.disk|) || Hit(d, c == 0x30, Named(d.regs))))
  }

  /** An access that failed: ready, seek complete and error, nothing to transfer, and an interrupt. */
  predicate ReportsError(r: Ide) {
    && r.status.err && !r.status.drq && !r.status.busy && r.status.ready && r.status.seek
    && r.error == 4 && r.pending && r.x.remaining == 0 && !r.x.writing
  }

  /** After any command with the power on: the error bit is set exactly if the command is refused,
      and the rest of the status and the transfer are what the command asked for. */
  lemma CommandReports(d: Ide, c: Byte)
    requires Inv(d) && !d.host.off
    ensures var r := Next(d, OpCommand(c)); var cut := c == 0x30 && d.host.cut == Armed(WriteAccepted, if Named(d.regs) >= 0 then Named(d.regs) else 0);
      && r.disk == d.disk
      && (r.status.err <==> Refused(d, c))
      && (Refused(d, c) ==> ReportsError(r) && !r.host.off)
      && (r.host.off <==> !Refused(d, c) && cut)
      && (!Refused(d, c) && !cut ==>
           && !r.status.busy && r.status.ready && r.status.seek && (r.status.drq <==> c in {0x20, 0x30})
           && r.error == 0 && (r.pending <==> c != 0x30) && r.host == d.host
           && (c in {0x20, 0x30} ==>
                Named(d.regs) >= 0 && r.x == Xfer(Named(d.regs), if d.regs.count == 0 then 256 else d.regs.count, 0, c == 0x30)))
  {
    NamedIsAddress(d.regs);
    hide Inv;
    assert Addressed(d.regs, |d.disk|) == Exists(d.regs, |d.disk|);
    hide Addressed, Exists, Address, Named;
  }

  lemma NamedIsAddress(r: Regs)
    ensures Address(r) == Named(r) && (r.sector >= 1 ==> Named(r) >= 0)
  {
  }

  /** The next sector of the transfer cannot be had. */
  predicate NextFails(d: Ide) {
    d.x.remaining > 1 && (d.x.lba + 1 >= |d.disk| || Hit(d, d.x.writing, d.x.lba + 1))
  }

  /** What a drive that is still on says once a sector is through: an error exactly if there is to
      be another and it cannot be had, data wanted if it can, and nothing more after the last. */
  predicate ReportsSector(d: Ide, r: Ide)
    requires d.x.remaining > 0
  {
    && (r.status.err <==> NextFails(d))
    && (NextFails(d) ==> ReportsError(r))
    && (!NextFails(d) ==>
         && !r.status.busy && r.status.ready && r.status.seek && (r.status.drq <==> d.x.remaining > 1)
         && r.x == Xfer(d.x.lba + 1, d.x.remaining - 1, 0, d.x.writing)
         && (d.x.remaining > 1 || d.x.writing ==> r.pending))
  }

  lemma SectorReports(d: Ide)
    requires d.x.remaining > 0 && !d.host.off
    ensures var r := SectorDone(d).0;
      && r.disk == d.disk && (r.host.off ==> d.host.cut == Armed(WriteAccepted, d.x.lba + 1))
      && (!r.host.off ==> ReportsSector(d, r))
  {
  }

  /** A read that takes the last byte of a sector. */
  lemma ReadReports(d: Ide, size: nat)
    requires Inv(d) && Sending(d) && d.x.pos + size >= 512
    ensures var r := Next(d, OpIn(size)); r.disk == d.disk && !r.host.off && ReportsSector(d, r)
  {
    PullClosed(d, size);
    hide SectorDone;
    SectorReports(d.(x := d.x.(pos := SECTOR_LEN)));
    ReadingStaysOn(d.(x := d.x.(pos := SECTOR_LEN)));
  }

  lemma ReadingStaysOn(d: Ide)
    requires !d.x.writing && !d.host.off
    ensures !SectorDone(d).0.host.off
  {
  }

  /** A write that brings the last byte of a sector: unless the power is cut, the sector is on the
      disk, and the report is about the next one. */
  lemma WriteReports(d: Ide, bytes: seq<Byte>)
    requires Inv(d) && Receiving(d) && d.x.pos + |bytes| >= 512
    ensures var r := Next(d, OpOut(bytes));
      !r.host.off ==>
        && r.disk == d.disk[d.x.lba := d.buffer[..d.x.pos] + bytes[..512 - d.x.pos]] && ReportsSector(d, r)
  {
    PushClosed(d, bytes);
    var f := Filled(d, bytes);
    hide SectorDone, Filled, PowerOff;
    assert f.x == d.x.(pos := SECTOR_LEN) && f.host == d.host && f.disk == d.disk && |f.disk| == |Committed(f).disk|;
    CutMeansOff(f);
    SectorReports(Committed(f));
  }

  lemma CutMeansOff(d: Ide)
    ensures TakeCut(d).host.off
  {
  }

  /** A reset takes the controller through busy to ready, with error code 1 and nothing else left. */
  lemma ResetReports(d: Ide, nien: bool)
    requires Inv(d) && !d.host.off && !d.control.srst
    ensures var a := Next(d, OpControl(Control(true, nien))); var r := Next(a, OpControl(Control(false, nien)));
      && a.status.busy && !a.status.ready && !a.status.seek && !a.status.drq && !a.status.err && !a.pending
      && !r.status.busy && r.status.ready && r.status.seek && !r.status.drq && !r.status.err
      && r.error == 1 && r.x.remaining == 0 && !r.pending && r.disk == d.disk && r.host == d.host
  {
  }

  /** With the power off every bit of the status reads 0, and stays so. */
  lemma {:induction false} OffReports(d: Ide, os: seq<Op>)
    requires d.host.off && d.status == DOWN && !d.pending
    ensures var r := Run(d, os);
      && r.host.off && !r.pending && !r.status.busy && !r.status.ready && !r.status.seek && !r.status.drq && !r.status.err
    decreases |os|
  {
    if os != [] {
      StaysDown(d, os[0]);
      OffReports(Next(d, os[0]), os[1..]);
    }
  }

  lemma StaysDown(d: Ide, o: Op)
    requires d.host.off && d.status == DOWN && !d.pending
    ensures var r := Next(d, o); r.host.off && r.status == DOWN && !r.pending
  {
  }

  lemma OffIsDown(d: Ide)
    ensures var r := Next(d, OpPowerOff); r.host.off && r.status == DOWN && !r.pending && !r.line && r.error == 0 && r.disk == d.disk
  {
  }

  // ---------- what changes nothing else ----------

  predicate SameTransfer(d: Ide, r: Ide) {
    && r.disk == d.disk && r.buffer == d.buffer && r.x == d.x && r.status == d.status && r.error == d.error
    && r.host.off == d.host.off
  }

  /** Unmasking or masking the interrupt, without a reset, shows or hides one that is pending and
      loses neither it nor the transfer. */
  lemma MaskKeeps(d: Ide, nien: bool)
    requires Inv(d) && !d.host.off
    ensures var r := Next(d, OpControl(Control(d.control.srst, nien)));
      && SameTransfer(d, r) && r.regs == d.regs && r.pending == d.pending && r.line == (d.pending && !nien)
      && r.control == Control(d.control.srst, nien) && r.host == d.host
  {
  }

  /** Reading the status acknowledges the interrupt; reading it at the other port does not. */
  lemma StatusKeeps(d: Ide)
    ensures var r := Next(d, OpStatus);
      SameTransfer(d, r) && r.regs == d.regs && r.host == d.host && !r.pending && !r.line
    ensures Next(d, OpAltStatus) == d
  {
  }

  /** The registers hold what was written to them, the drive and head in one. */
  lemma LatchKeeps(d: Ide, which: Register, v: Byte)
    ensures var r := Next(d, OpLatch(which, v)); var a, b := d.regs, r.regs;
      && SameTransfer(d, r) && r.host == d.host && r.pending == d.pending && r.line == d.line
      && b.count == (if which == Count then v else a.count) && b.sector == (if which == Sector then v else a.sector)
      && b.lcyl == (if which == CylLow then v else a.lcyl) && b.hcyl == (if which == CylHigh then v else a.hcyl)
      && b.current == (if which == Current then v else a.current)
  {
  }

  /** A cut is armed if none was, the drive is on and has the sector, and has then yet to fire. */
  lemma ArmKeeps(d: Ide, b: Boundary, lba: nat)
    ensures var r := Next(d, OpArm(b, lba));
      && SameTransfer(d, r) && r.regs == d.regs && r.pending == d.pending && r.line == d.line && r.host.fault == d.host.fault
      && if d.host.cut == NoCut && !d.host.off && lba < |d.disk| then r.host.cut == Armed(b, lba) && !r.host.triggered
         else r.host == d.host
  {
  }

  /** A fault that is injected stays, in place of any other, until an access meets it. */
  lemma InjectKeeps(d: Ide, f: Fault)
    ensures var r := Next(d, OpInject(f));
      && SameTransfer(d, r) && r.regs == d.regs && r.pending == d.pending && r.line == d.line
      && r.host.fault == f && r.host.cut == d.host.cut && r.host.triggered == d.host.triggered
  {
  }
}
