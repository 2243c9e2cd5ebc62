/** mm/memory.c and the memory side of kernel/fork.c: the arrays the kernel updates in
    place, proved step by step against PageModel. */
module Memory {
  import opened PageModel
  import opened PageInvariant
  import opened PageCore
  import opened PageSteps
  import opened PageFork
  import opened PageFaults
  import opened PageSupply

  const LOW_MEM: nat := 0x200000
  const HIGH_MEMORY: nat := 0x800000
  const FOUR_MB: nat := 0x400000
  const TASK_SIZE: nat := 0x4000000

  class PageMemory {
    const memMap: array<nat>
    var freePageHint: nat
    const pgDir: array<Word>
    const frames: array<seq<Word>>

    /** The pages the kernel itself owns: task structures, and pages in transit. */
    ghost var held: multiset<nat>

    ghost predicate Shape()
      reads this, memMap, pgDir, frames
    {
      memMap.Length == PAGES && pgDir.Length == ENTRIES && frames.Length == HIGH && Sized(Snap())
    }

    ghost function Snap(): Mem
      reads this, memMap, pgDir, frames
    {
      Mem(memMap[..], freePageHint, pgDir[..], frames[..])
    }

    ghost predicate Valid()
      reads this, memMap, pgDir, frames
    {
      Shape() && Inv(Snap(), held)
    }

    /** The scan of `get_free_page`: from the hint up, then from the bottom up to the hint. */
    method FindFree() returns (i: nat)
      requires Shape()
      ensures i == NextFit(Snap())
    {
      var start := freePageHint;
      i := start;
      while i < PAGES && memMap[i] != 0
        invariant start <= i <= PAGES
        invariant FirstFree(memMap[..], start, PAGES) == FirstFree(memMap[..], i, PAGES)
      {
        i := i + 1;
      }
      if i == PAGES {
        i := 0;
        while i < start && memMap[i] != 0
          invariant 0 <= i <= start
          invariant FirstFree(memMap[..], 0, start) == FirstFree(memMap[..], i, start)
        {
          i := i + 1;
        }
        if i == start {
          i := PAGES;
        }
      }
    }

    /** The address of a free page, now zeroed and counted once, or 0. */
    method GetFreePage() returns (addr: nat)
      requires Shape()
      modifies this`freePageHint, memMap, frames
      ensures Shape()
      ensures (Snap(), addr / 4096) == GetFree(old(Snap())) && addr % 4096 == 0
      ensures addr == 0 <==> GetFree(old(Snap())).1 == 0
    {
      hide NextFit, ZeroPage, FirstFree, GetFree, Sized;
      var i := FindFree();
      ghost var s := Snap();
      if i == PAGES {
        GetFreeFails(s);
        return 0;
      }
      memMap[i] := 1;
      HintWraps(i);
      freePageHint := (i + 1) % 0x10000;
      if freePageHint >= PAGES {
        freePageHint := 0;
      }
      frames[LOW + i] := ZeroPage();
      addr := LOW_MEM + i * 4096;
      GetFreeIs(s, i);
      assert memMap[..] == s.count[i := 1];
      assert frames[..] == s.frames[LOW + i := ZeroPage()];
      assert freePageHint == (i + 1) % PAGES && addr / 4096 == LOW + i;
    }

    /** False where the kernel panics. */
    method FreePage(addr: nat) returns (ok: bool)
      requires Shape()
      modifies memMap
      ensures Shape()
      ensures ok <==> addr < LOW_MEM || (addr < HIGH_MEMORY && addr % 4096 == 0 && old(memMap[addr / 4096 - LOW]) != 0)
      ensures Snap() == if ok then Release(old(Snap()), addr / 4096) else old(Snap())
    {
      ghost var s := Snap();
      if addr < LOW_MEM {
        return true;
      }
      if addr >= HIGH_MEMORY || addr % 4096 != 0 {
        return false;
      }
      var nr := (addr - LOW_MEM) / 4096;
      if memMap[nr] == 0 {
        return false;
      }
      memMap[nr] := memMap[nr] - 1;
      ok := true;
      assert Snap() == Release(s, addr / 4096);
    }

    /** The innermost step of `free_page_tables`: give up the page an entry names, clear the entry.
        `free_page` never panics here. */
    method FreeEntry(d: nat, nr: nat)
      requires Valid() && SLOT_DIRS <= d < ENTRIES && nr < 1024 && pgDir[d].p
      modifies memMap, frames
      ensures Valid() && pgDir[..] == old(pgDir[..])
      ensures HasTable(old(Snap()), d * 1024 + nr) && Snap() == Unmap(old(Snap()), d * 1024 + nr)
    {
      hide Inv, Entries;
      ghost var s, v := Snap(), d * 1024 + nr;
      TableInRam(s, held, d);
      UnderDir(s, d, nr);
      UnmapKeeps(s, held, v);
      EntryCounted(s, held, v);
      assert v / 1024 == d && v % 1024 == nr;
      var table := pgDir[d].page;
      var e := frames[table][nr];
      assert Entry(s, v) == e;
      if e.p {
        var ok := FreePage(e.page * 4096);
        assert ok;
      }
      frames[table] := frames[table][nr := ZERO];
      assert Snap() == Unmap(s, v);
    }

    /** All 1024 entries of one page table. */
    method FreeTable(d: nat)
      requires Valid() && SLOT_DIRS <= d < ENTRIES && pgDir[d].p
      modifies memMap, frames
      ensures Valid() && pgDir[..] == old(pgDir[..]) && pgDir[d].page < HIGH
      ensures Snap() == ClearEntries(old(Snap()), d, 1024)
    {
      hide Inv, Unmap, HasTable, Frames;
      ghost var s := Snap();
      TableInRam(s, held, d);
      for nr := 0 to 1024
        invariant Valid() && pgDir[..] == s.dir
        invariant Snap() == ClearEntries(s, d, nr)
      {
        FreeEntry(d, nr);
      }
    }

    /** One directory entry of `free_page_tables`. */
    method FreeDirectory(d: nat)
      requires Valid() && SLOT_DIRS <= d < ENTRIES
      modifies memMap, pgDir, frames
      ensures Valid()
      ensures Snap() == FreeDir(old(Snap()), d)
    {
      if !pgDir[d].p {
        return;
      }
      hide Inv, ClearEntries, Entries, View, Frames;
      ghost var s := Snap();
      var table := pgDir[d].page;
      FreeDirKeeps(s, held, d);
      FreeTable(d);
      TableInRam(Snap(), held, d);
      var ok := FreePage(table * 4096);
      assert ok;
      pgDir[d] := ZERO;
      assert pgDir[..] == s.dir[d := ZERO];
      assert Snap() == FreeDir(s, d);
    }

    /** `free_page_tables(from, size)`: panics on a bad alignment and on address 0 only. */
    method FreePageTables(from: nat, size: nat) returns (st: Status)
      requires Valid()
      requires from % FOUR_MB == 0 && from != 0 ==> TASK_SIZE <= from && from / FOUR_MB + Dirs(size) <= ENTRIES
      modifies memMap, pgDir, frames
      ensures Valid()
      ensures st == if from % FOUR_MB != 0 || from == 0 then Panic else Done
      ensures Snap() == if st == Panic then old(Snap()) else FreeDirs(old(Snap()), from / FOUR_MB, Dirs(size))
    {
      if from % FOUR_MB != 0 || from == 0 {
        return Panic;
      }
      hide Inv, FreeDir;
      ghost var s := Snap();
      var d := from / FOUR_MB;
      for i := 0 to Dirs(size)
        invariant Valid() && Snap() == FreeDirs(s, d, i)
      {
        FreeDirectory(d + i);
      }
      st := Done;
    }

    // ---------- copy_page_tables ----------

    /** The innermost step of `copy_page_tables`. */
    method ShareEntry(f: nat, t: nat, i: nat)
      requires Valid() && SLOT_DIRS <= f < ENTRIES && SLOT_DIRS <= t < ENTRIES && f != t && i < 1024
      requires pgDir[f].p && pgDir[t].p && (t - f) % SLOT_DIRS == 0
      requires t * 1024 + i !in Entries(Snap())
      modifies memMap, frames
      ensures Valid() && pgDir[..] == old(pgDir[..])
      ensures HasTable(old(Snap()), f * 1024 + i) && HasTable(old(Snap()), t * 1024 + i)
      ensures Snap() == Share(old(Snap()), f * 1024 + i, t * 1024 + i)
    {
      hide Inv, Entries, HasTable, Share;
      ghost var s := Snap();
      ShareFacts(s, held, f, t, i);
      var from, to := pgDir[f].page, pgDir[t].page;
      var page := frames[from][i];
      if page.p {
        page := page.(rw := false);
        frames[to] := frames[to][i := page];
        if page.page >= LOW {
          frames[from] := frames[from][i := page];
          var nr := page.page - LOW;
          memMap[nr] := (memMap[nr] + 1) % 0x10000;
        }
      }
      assert Snap() == ShareAt(s, from, to, i);
    }

    /** All 1024 entries of one page table. */
    method ShareTable(f: nat, t: nat)
      requires Valid() && CanShare(Snap(), f, t) && NoneIn(Names(Snap()), t * 1024, 1024)
      modifies memMap, frames
      ensures Valid() && pgDir[..] == old(pgDir[..])
      ensures Snap() == ShareEntries(old(Snap()), f, t, 1024)
    {
      hide Inv, Share, HasTable, Frames, NoneIn, Names;
      ghost var s := Snap();
      for i := 0 to 1024
        invariant Valid() && pgDir[..] == s.dir
        invariant Snap() == ShareEntries(s, f, t, i)
      {
        NotYetShared(s, held, f, t, i);
        ShareEntry(f, t, i);
      }
    }

    /** One directory entry of `copy_page_tables`. */
    method CopyDirectory(f: nat, t: nat) returns (st: Status)
      requires Valid() && SLOT_DIRS <= f < ENTRIES && SLOT_DIRS <= t < ENTRIES && f != t && (t - f) % SLOT_DIRS == 0
      modifies this`freePageHint, memMap, pgDir, frames
      ensures Valid()
      ensures (Snap(), st) == CopyDir(old(Snap()), f, t)
    {
      hide Inv, ShareEntries, Names, GetFree, NoneIn, Frames;
      if pgDir[t].p {
        return Panic;
      }
      ghost var s := Snap();
      if !pgDir[f].p {
        return Done;
      }
      TableInRam(s, held, f);
      NewTableReady(s, held, t);
      var page := GetFreePage();
      if page == 0 {
        return NoMemory;
      }
      pgDir[t] := Full(page / 4096);
      assert Snap() == NewTable(s, t).0;
      ShareTable(f, t);
      st := Done;
    }

    /** `copy_page_tables(from, to, size)` between two task slots. */
    method CopyPageTables(from: nat, to: nat, size: nat) returns (st: Status)
      requires Valid()
      requires TASK_SIZE <= from && TASK_SIZE <= to && (to - from) % TASK_SIZE == 0
      requires from / FOUR_MB + Dirs(size) <= ENTRIES && to / FOUR_MB + Dirs(size) <= ENTRIES
      requires from / FOUR_MB + Dirs(size) <= to / FOUR_MB || to / FOUR_MB + Dirs(size) <= from / FOUR_MB
      modifies this`freePageHint, memMap, pgDir, frames
      ensures Valid()
      ensures from % FOUR_MB != 0 || to % FOUR_MB != 0 ==> st == Panic && Snap() == old(Snap())
      ensures from % FOUR_MB == 0 && to % FOUR_MB == 0 ==>
        (Snap(), st) == CopyDirs(old(Snap()), from / FOUR_MB, to / FOUR_MB, Dirs(size))
      ensures from % FOUR_MB == 0 && to % FOUR_MB == 0
              && old(CanCopy(Snap(), from / FOUR_MB, to / FOUR_MB, Dirs(size))) ==>
        (st == Done <==> |Present(old(pgDir[..]), from / FOUR_MB, Dirs(size))| <= Free(old(memMap[..])))
    {
      hide Inv, CopyDir, Frames, CanCopy, Present, Free;
      CopySupply(Snap(), held, from, to, size);
      if from % FOUR_MB != 0 || to % FOUR_MB != 0 {
        return Panic;
      }
      ghost var s := Snap();
      var f, t, n := from / FOUR_MB, to / FOUR_MB, Dirs(size);
      if n == 0 {
        return Done;
      }
      assert (t - f) % SLOT_DIRS == 0;
      for i := 0 to n
        invariant Valid() && CopyDirs(s, f, t, i) == (Snap(), Done)
      {
        st := CopyDirectory(f + i, t + i);
        if st != Done {
          CopyStops(s, f, t, i + 1, n);
          return;
        }
      }
      st := Done;
    }

    // ---------- faults ----------

    /** `put_page` for a page the kernel holds; 0 when it refuses. */
    method PutPage(page: nat, address: nat) returns (r: nat)
      requires Valid() && page / 4096 < HIGH && TASK_SIZE <= address < 0x1_0000_0000
      modifies this`freePageHint, memMap, pgDir, frames
      ensures Shape()
      ensures page % 4096 == 0 ==>
        (Snap(), r != 0) == PageModel.PutPage(old(Snap()), page / 4096, address / 4096)
      ensures page % 4096 != 0 ==> r == 0 && Snap() == old(Snap())
      ensures r == 0 || r == page
    {
      hide Inv;
      ghost var s := Snap();
      if page < LOW_MEM || page >= HIGH_MEMORY || page % 4096 != 0 {
        return 0;
      }
      if memMap[(page - LOW_MEM) / 4096] != 1 {
        return 0;
      }
      var d := address / FOUR_MB;
      var table;
      assert address / 4096 / 1024 == d;
      if pgDir[d].p {
        TableInRam(s, held, d);
        table := pgDir[d].page;
      } else {
        var tmp := GetFreePage();
        if tmp == 0 {
          return 0;
        }
        table := tmp / 4096;
        pgDir[d] := Full(table);
      }
      frames[table] := frames[table][address / 4096 % 1024 := Full(page / 4096)];
      r := page;
    }

    /** `un_wp_page` on the entry for virtual page `v`; false where the task is killed. */
    method UnWpPage(v: nat) returns (ok: bool)
      requires Valid() && User(v) && v in Entries(Snap())
      modifies this`freePageHint, memMap, frames
      ensures Valid()
      ensures HasTable(old(Snap()), v) && Entry(old(Snap()), v).page < HIGH
      ensures (Snap(), ok) == UnWp(old(Snap()), v)
      ensures View(Snap()) == View(old(Snap()))
      ensures ok ==> v in Entries(Snap()) && Entries(Snap())[v].rw
    {
      hide Inv, Entries, View, UnWp, GetFree, Frames, PutEntry, Release, HasTable;
      ghost var s := Snap();
      EntryKnown(s, held, v);
      UnWpKeeps(s, held, v);
      EntryPlace(s, v);
      var table, i := pgDir[v / 1024].page, v % 1024;
      var e := frames[table][i];
      if e.page >= LOW && memMap[e.page - LOW] == 1 {
        UnWpSole(s, v);
        frames[table] := frames[table][i := e.(rw := true)];
        return true;
      }
      var page := GetFreePage();
      if page == 0 {
        UnWpFails(s, v);
        return false;
      }
      ghost var g := Snap();
      GetFreeElsewhere(s, held, v);
      UnWpFull(s, v);
      if e.page >= LOW {
        memMap[e.page - LOW] := memMap[e.page - LOW] - 1;
      }
      frames[table] := frames[table][i := Full(page / 4096)];
      frames[page / 4096] := frames[e.page];
      assert Snap() == CopyOutAt(g, table, i, e.page, page / 4096);
      ok := true;
    }

    /** `do_wp_page`: the processor's fault on a store to a present, read-only page. */
    method DoWpPage(address: nat) returns (ok: bool)
      requires Valid() && TASK_SIZE <= address < 0x1_0000_0000 && address / 4096 in Entries(Snap())
      modifies this`freePageHint, memMap, frames
      ensures Valid()
      ensures HasTable(old(Snap()), address / 4096) && Entry(old(Snap()), address / 4096).page < HIGH
      ensures (Snap(), ok) == UnWp(old(Snap()), address / 4096)
    {
      hide Inv, Entries, View, UnWp, Frames;
      ok := UnWpPage(address / 4096);
    }

    /** `write_verify`: the kernel's own stores ignore the read-only bit, so it makes the
        page private first. */
    method WriteVerify(address: nat) returns (ok: bool)
      requires Valid() && TASK_SIZE <= address < 0x1_0000_0000
      modifies this`freePageHint, memMap, frames
      ensures Valid()
      ensures (Snap(), ok) == PageModel.WriteVerify(old(Snap()), address / 4096)
    {
      hide Inv, Entries, View, UnWp, Frames;
      ghost var s := Snap();
      var v := address / 4096;
      PresentEntries(s, held, v);
      var d := address / FOUR_MB;
      assert v / 1024 == d;
      if !pgDir[d].p {
        return true;
      }
      TableInRam(s, held, d);
      var e := FrameWord(pgDir[d].page, v % 1024);
      if e.p && !e.rw {
        ok := UnWpPage(v);
      } else {
        ok := true;
      }
    }

    /** `verify_read_area`: whether `size` bytes at `addr` lie in the segment. */
    method VerifyReadArea(addr: nat, size: int, base: nat, limit: nat) returns (ok: bool)
      requires addr < 0x1_0000_0000 && base < 0x1_0000_0000
      ensures ok == (addr != 0 && size >= 0 &&
                     (size == 0 || (addr + size <= limit && base + addr + size <= 0x1_0000_0000)))
    {
      if addr == 0 || size < 0 {
        return false;
      }
      if size == 0 {
        return true;
      }
      if addr >= limit || size > limit - addr {
        return false;
      }
      var end := addr + size - 1;
      ok := addr <= 0xffffffff - base && end <= 0xffffffff - base;
    }

    /** `verify_area`: after it every mapped page of the area is private and writable, so the
        kernel's own store cannot reach another task; it fails only for an area outside the
        segment, or when no page is free and one of the area is still to be copied. */
    method VerifyArea(addr: nat, size: int, base: nat, limit: nat) returns (ok: bool)
      requires Valid() && addr < 0x1_0000_0000 && TASK_SIZE <= base < 0x1_0000_0000 && base % 4096 == 0
      modifies this`freePageHint, memMap, frames
      ensures Valid() && View(Snap()) == View(old(Snap()))
      ensures ok ==> addr != 0 && size >= 0 && (size == 0 || (addr + size <= limit && base + addr + size <= 0x1_0000_0000))
      ensures ok ==> forall b :: addr <= b < addr + size ==> ByteWritable(Snap(), base, b)
      ensures addr != 0 && size >= 0 && (size == 0 || (addr + size <= limit && base + addr + size <= 0x1_0000_0000)) && !ok ==>
        Short(Snap(), (base + addr) / 4096, (base + addr + size - 1) / 4096)
    {
      hide Inv, View, Entries, Frames, PageModel.WriteVerify;
      var readable := VerifyReadArea(addr, size, base, limit);
      if !readable || size == 0 {
        return readable;
      }
      ghost var s := Snap();
      var remaining := size + addr % 4096;
      var start := addr - addr % 4096 + base;
      ghost var first := start / 4096;
      while true
        invariant Valid() && View(Snap()) == View(s)
        invariant start % 4096 == 0 && first <= start / 4096 && 0 < remaining
        invariant start + remaining == base + addr + size
        invariant Writable(Snap(), first, start / 4096)
        decreases remaining
      {
        ghost var m := Snap();
        ok := WriteVerify(start);
        WriteVerifyKeeps(m, held, start / 4096);
        VerifySucceedsExactlyWhen(m, held, start / 4096);
        if !ok {
          return;
        }
        WritableMore(m, Snap(), first, start / 4096);
        if remaining <= 4096 {
          break;
        }
        remaining := remaining - 4096;
        start := start + 4096;
      }
      WritableBytes(Snap(), first, start / 4096, addr, size, base);
    }

    method FrameWord(page: nat, i: nat) returns (w: Word)
      requires Shape() && page < HIGH && i < 1024
      ensures w == frames[page][i]
    {
      w := frames[page][i];
    }

    /** `do_no_page`; false where the task is killed. */
    method DoNoPage(address: nat) returns (ok: bool)
      requires Valid() && TASK_SIZE <= address < 0x1_0000_0000 && address / 4096 !in Entries(Snap())
      modifies this, memMap, pgDir, frames
      ensures Valid() && held == old(held)
      ensures (Snap(), ok) == NoPage(old(Snap()), address / 4096)
    {
      hide Inv, Entries, View, PageModel.PutPage, GetFree, Frames;
      ghost var s := Snap();
      NoPageKeeps(s, held, address / 4096);
      var tmp := GetFreePage();
      if tmp != 0 {
        ghost var g := Snap();
        GetFreeKeeps(s, held);
        held := held + multiset{tmp / 4096};
        var r := PutPage(tmp, address);
        held := held - multiset{tmp / 4096};
        assert held == old(held);
        if r != 0 {
          return true;
        }
        var freed := FreePage(tmp);
      }
      ok := false;
    }

    // ---------- fork ----------

    /** `copy_mem`: shares the parent's pages with the child, or frees what it had set up. */
    method CopyMem(from: nat, to: nat, limit: nat) returns (ok: bool)
      requires Valid() && TASK_SIZE <= from && TASK_SIZE <= to && from % TASK_SIZE == 0 && to % TASK_SIZE == 0
      requires CanCopy(Snap(), from / FOUR_MB, to / FOUR_MB, Dirs(limit))
      modifies this`freePageHint, memMap, pgDir, frames
      ensures Valid()
      ensures var (c, st) := CopyDirs(old(Snap()), from / FOUR_MB, to / FOUR_MB, Dirs(limit));
        && ok == (st == Done)
        && Snap() == if ok then c else FreeDirs(c, to / FOUR_MB, Dirs(limit))
    {
      hide Inv, CopyDirs, FreeDirs, Frames, Copied, DirKeptOutside, CanCopy, Dirs;
      SlotsApart(Snap(), from, to, Dirs(limit));
      CopyDirsKeeps(Snap(), held, from / FOUR_MB, to / FOUR_MB, Dirs(limit));
      var st := CopyPageTables(from, to, limit);
      if st != Done {
        var freed := FreePageTables(to, limit);
      }
      ok := st == Done;
    }

    /** The memory side of `copy_process`: the address of the new task's structure, or 0
        when memory ran out and everything taken so far was given back. */
    method CopyProcess(from: nat, to: nat, limit: nat) returns (task: nat)
      requires Valid() && TASK_SIZE <= from && TASK_SIZE <= to && from % TASK_SIZE == 0 && to % TASK_SIZE == 0
      requires CanCopy(Snap(), from / FOUR_MB, to / FOUR_MB, Dirs(limit))
      modifies this, memMap, pgDir, frames
      ensures Valid()
      ensures (Snap(), task / 4096) == Fork(old(Snap()), from / FOUR_MB, to / FOUR_MB, Dirs(limit)) && task % 4096 == 0
      ensures held == if task == 0 then old(held) else old(held) + multiset{task / 4096}
    {
      hide Inv, Entries, View, CopyDirs, FreeDirs, GetFree, Frames, HasTable, CanCopy, Release, Dirs, Fork;
      ghost var s, h := Snap(), held;
      ghost var f, t, n := from / FOUR_MB, to / FOUR_MB, Dirs(limit);
      CanFork(s, f, t, n);
      task := GetFreePage();
      if task == 0 {
        return;
      }
      ghost var k := task / 4096;
      GetFreeKeeps(s, h);
      StillCopies(s, h, f, t, n);
      held := held + multiset{k};
      var ok := CopyMem(from, to, limit);
      if !ok {
        assert held - multiset{k} == h && held[k] > 0;
        ReleaseHeldKeeps(Snap(), held, k);
        HeldCounted(Snap(), held, k);
        var freed := FreePage(task);
        held := h;
        task := 0;
      }
    }

    /** The same, in terms of what the tasks read. */
    method ForkTask(from: nat, to: nat, limit: nat) returns (task: nat)
      requires Valid() && TASK_SIZE <= from && TASK_SIZE <= to && from % TASK_SIZE == 0 && to % TASK_SIZE == 0
      requires CanCopy(Snap(), from / FOUR_MB, to / FOUR_MB, Dirs(limit))
      modifies this, memMap, pgDir, frames
      ensures Valid()
      ensures task == 0 ==> memMap[..] == old(memMap[..]) && View(Snap()) == View(old(Snap()))
      ensures task != 0 ==>
        View(Snap()) == Shared(View(old(Snap())), from / FOUR_MB * 1024, to / FOUR_MB * 1024, Dirs(limit) * 1024)
      ensures task != 0 <==> 1 + |Present(old(pgDir[..]), from / FOUR_MB, Dirs(limit))| <= Free(old(memMap[..]))
    {
      hide Inv, Entries, View, Names, Shared, Fork, Frames, HasTable, Present, Free, Dirs;
      ghost var s, h := Snap(), held;
      ghost var f, t, n := from / FOUR_MB, to / FOUR_MB, Dirs(limit);
      ForkSucceedsExactlyWhen(s, h, f, t, n);
      task := CopyProcess(from, to, limit);
      if task == 0 {
        ForkUndone(s, h, f, t, n);
      } else {
        ForkWorks(s, h, f, t, n);
      }
    }
  }

  /** The mapped pages in `first .. end` are writable. */
  ghost predicate Writable(s: Mem, first: nat, end: nat)
    requires Sized(s)
  {
    forall v :: first <= v < end && v in Entries(s) ==> Entries(s)[v].rw
  }

  lemma WritableMore(m: Mem, r: Mem, first: nat, v: nat)
    requires Sized(m) && Sized(r) && first <= v && Writable(m, first, v)
    requires Entries(r).Keys == Entries(m).Keys && (v in Entries(r) ==> Entries(r)[v].rw)
    requires forall u :: u in Entries(m) && u != v ==> Entries(r)[u] == Entries(m)[u]
    ensures Writable(r, first, v + 1)
  {
    hide Entries;
    forall u | first <= u < v + 1 && u in Entries(r)
      ensures Entries(r)[u].rw
    {
      assert u in Entries(m).Keys;
    }
  }

  lemma WritableBytes(s: Mem, first: nat, last: nat, addr: nat, size: int, base: nat)
    requires Sized(s) && Writable(s, first, last + 1) && base % 4096 == 0
    requires first == (addr - addr % 4096 + base) / 4096 && base + addr + size <= last * 4096 + 4096
    ensures forall b :: addr <= b < addr + size ==> ByteWritable(s, base, b)
  {
    hide Entries;
    forall b | addr <= b < addr + size
      ensures ByteWritable(s, base, b)
    {
      assert first <= (base + b) / 4096 <= last;
    }
  }

  /** Byte `b` of the segment at `base` lies in a page that is unmapped or writable. */
  ghost predicate ByteWritable(s: Mem, base: nat, b: int)
    requires Sized(s)
  {
    (base + b) / 4096 in Entries(s) ==> Entries(s)[(base + b) / 4096].rw
  }

  /** No page is free, and between `lo` and `hi` one is mapped and cannot be written. */
  ghost predicate Short(s: Mem, lo: int, hi: int)
    requires Sized(s)
  {
    Free(s.count) == 0 && exists v :: lo <= v <= hi && v in Entries(s) && !Entries(s)[v].rw
  }

  lemma PresentEntries(s: Mem, held: multiset<nat>, v: nat)
    requires Inv(s, held) && User(v)
    ensures Entry(s, v).p <==> v in Entries(s)
    ensures Entry(s, v).p ==> Entry(s, v).page < HIGH
  {
  }

  /** Taking a free page disturbs neither an entry nor the count of the page it names. */
  lemma GetFreeElsewhere(s: Mem, held: multiset<nat>, v: nat)
    requires Inv(s, held) && User(v) && v in Entries(s) && GetFree(s).1 != 0
    ensures HasTable(s, v) && Entry(s, v).page < HIGH && LOW <= s.dir[v / 1024].page < HIGH
    ensures var (g, k) := GetFree(s);
      && k < HIGH && g.dir == s.dir && g.frames[s.dir[v / 1024].page] == s.frames[s.dir[v / 1024].page]
      && (Entry(s, v).page >= LOW ==>
            g.count[Entry(s, v).page - LOW] == s.count[Entry(s, v).page - LOW] && g.count[Entry(s, v).page - LOW] > 0)
  {
    EntryKnown(s, held, v);
    EntryCounted(s, held, v);
    TableInRam(s, held, v / 1024);
  }

  lemma GetFreeIs(s: Mem, i: nat)
    requires Sized(s) && i < PAGES && i == NextFit(s)
    ensures GetFree(s)
         == (s.(count := s.count[i := 1], hint := (i + 1) % PAGES, frames := s.frames[LOW + i := ZeroPage()]), LOW + i)
  {
  }

  lemma HintWraps(i: nat)
    requires i < PAGES
    ensures (i + 1) % 0x10000 == i + 1
    ensures (i + 1) % PAGES == if i + 1 == PAGES then 0 else i + 1
  {
  }

  lemma GetFreeFails(s: Mem)
    requires Sized(s) && NextFit(s) == PAGES
    ensures GetFree(s) == (s, 0)
  {
  }

  lemma NotYetShared(s: Mem, held: multiset<nat>, f: nat, t: nat, i: nat)
    requires Inv(s, held) && CanShare(s, f, t) && i < 1024 && NoneIn(Names(s), t * 1024, 1024)
    ensures var c := ShareEntries(s, f, t, i);
      t * 1024 + i !in Entries(c) && HasTable(c, f * 1024 + i) && HasTable(c, t * 1024 + i)
      && ShareEntries(s, f, t, i + 1) == Share(c, f * 1024 + i, t * 1024 + i)
  {
    assert NoneIn(Names(s), t * 1024, i + 1);
    ShareReady(s, held, f, t, i);
    hide *;
    ShareEntriesKeeps(s, held, f, t, i);
    SharedMore(Names(s), f * 1024, t * 1024, i);
    Spaces(ShareEntries(s, f, t, i), held);
  }

  /** A new table can be hung and shared into. */
  lemma NewTableReady(s: Mem, held: multiset<nat>, t: nat)
    requires Inv(s, held) && SLOT_DIRS <= t < ENTRIES && !s.dir[t].p
    ensures var (a, ok) := NewTable(s, t);
      Inv(a, held) && NoneIn(Names(a), t * 1024, 1024)
  {
    NewTableKeeps(s, held, t);
    FreshDirIsEmpty(s, held, t);
    NamesFromEntries(s, NewTable(s, t).0);
  }

  /** Once the copy has stopped it stays stopped. */
  lemma {:induction false} CopyStops(s: Mem, f: nat, t: nat, i: nat, n: nat)
    requires Sized(s) && i <= n && f + n <= ENTRIES && t + n <= ENTRIES
    requires CopyDirs(s, f, t, i).1 != Done
    ensures CopyDirs(s, f, t, n) == CopyDirs(s, f, t, i)
  {
    if i < n {
      CopyStops(s, f, t, i, n - 1);
    }
  }

  /** What the step needs to know, and what it amounts to on the tables themselves. */
  lemma ShareFacts(s: Mem, held: multiset<nat>, f: nat, t: nat, i: nat)
    requires Inv(s, held) && SLOT_DIRS <= f < ENTRIES && SLOT_DIRS <= t < ENTRIES && f != t && i < 1024
    requires s.dir[f].p && s.dir[t].p && (t - f) % SLOT_DIRS == 0
    requires t * 1024 + i !in Entries(s)
    ensures HasTable(s, f * 1024 + i) && HasTable(s, t * 1024 + i) && f * 1024 + i < VPAGES && t * 1024 + i < VPAGES
    ensures LOW <= s.dir[f].page < HIGH && LOW <= s.dir[t].page < HIGH && Inv(Share(s, f * 1024 + i, t * 1024 + i), held)
    ensures var e := s.frames[s.dir[f].page][i];
      && (e.p ==> e.page < HIGH)
      && Share(s, f * 1024 + i, t * 1024 + i) == ShareAt(s, s.dir[f].page, s.dir[t].page, i)
  {
    hide Inv, Entries, View, Names, Share, ShareAt, Frames;
    ghost var v, w := f * 1024 + i, t * 1024 + i;
    TableInRam(s, held, f);
    TableInRam(s, held, t);
    InvSized(s, held);
    UnderDir(s, f, i);
    UnderDir(s, t, i);
    SameOffset(f, t, i);
    ShareKeeps(s, held, v, w);
    EntryCounted(s, held, v);
    EntryAt(s, f, i);
    ShareIsAt(s, f, t, i);
  }

  /** Two task slots, in bytes and in directory entries. */
  lemma SlotsApart(s: Mem, from: nat, to: nat, n: nat)
    requires TASK_SIZE <= from && TASK_SIZE <= to && from % TASK_SIZE == 0 && to % TASK_SIZE == 0
    requires CanCopy(s, from / FOUR_MB, to / FOUR_MB, n)
    ensures (to - from) % TASK_SIZE == 0 && from % FOUR_MB == 0 && to % FOUR_MB == 0
    ensures from / FOUR_MB + n <= ENTRIES && to / FOUR_MB + n <= ENTRIES
    ensures from / FOUR_MB + n <= to / FOUR_MB || to / FOUR_MB + n <= from / FOUR_MB
  {
  }

  lemma InvSized(s: Mem, held: multiset<nat>)
    requires Inv(s, held)
    ensures Sized(s)
  {
  }

  lemma EntryAt(s: Mem, f: nat, i: nat)
    requires Sized(s) && f < ENTRIES && i < 1024 && s.dir[f].p && s.dir[f].page < HIGH
    ensures f * 1024 + i < VPAGES && Entry(s, f * 1024 + i) == s.frames[s.dir[f].page][i]
  {
    assert (f * 1024 + i) / 1024 == f && (f * 1024 + i) % 1024 == i;
  }

  lemma PutEntryIs(s: Mem, d: nat, i: nat, w: Word)
    requires Sized(s) && d < ENTRIES && i < 1024 && s.dir[d].p && s.dir[d].page < HIGH
    ensures d * 1024 + i < VPAGES && HasTable(s, d * 1024 + i)
    ensures var t := s.dir[d].page; PutEntry(s, d * 1024 + i, w) == s.(frames := s.frames[t := s.frames[t][i := w]])
  {
    assert (d * 1024 + i) / 1024 == d && (d * 1024 + i) % 1024 == i;
  }

  lemma ShareIsAt(s: Mem, f: nat, t: nat, i: nat)
    requires Sized(s) && f < ENTRIES && t < ENTRIES && i < 1024 && f * 1024 + i < VPAGES && t * 1024 + i < VPAGES
    requires s.dir[f].p && s.dir[f].page < HIGH && s.dir[t].p && s.dir[t].page < HIGH
    requires HasTable(s, f * 1024 + i) && HasTable(s, t * 1024 + i)
    ensures Share(s, f * 1024 + i, t * 1024 + i) == ShareAt(s, s.dir[f].page, s.dir[t].page, i)
  {
    hide PutEntry, Entry, Bump;
    EntryAt(s, f, i);
    var ro := s.frames[s.dir[f].page][i].(rw := false);
    PutEntryIs(s, t, i, ro);
    PutEntryIs(PutEntry(s, t * 1024 + i, ro), f, i, ro);
  }

  /** `Share`, with the two page tables named. */
  ghost function ShareAt(s: Mem, from: nat, to: nat, i: nat): Mem
    requires Sized(s) && from < HIGH && to < HIGH && i < 1024
  {
    var e := s.frames[from][i];
    var ro := e.(rw := false);
    if !e.p then s
    else if e.page < LOW then s.(frames := s.frames[to := s.frames[to][i := ro]])
    else
      var a := s.frames[to := s.frames[to][i := ro]];
      Bump(s.(frames := a[from := a[from][i := ro]]), e.page)
  }

  /** Where the entry for `v` is kept. */
  lemma EntryPlace(s: Mem, v: nat)
    requires Sized(s) && v < VPAGES && HasTable(s, v)
    ensures s.dir[v / 1024].page < HIGH && |s.frames[s.dir[v / 1024].page]| == ENTRIES
    ensures s.frames[s.dir[v / 1024].page][v % 1024] == Entry(s, v)
  {
  }

  lemma UnWpSole(s: Mem, v: nat)
    requires Sized(s) && v < VPAGES && HasTable(s, v) && LOW <= Entry(s, v).page < HIGH
    requires s.count[Entry(s, v).page - LOW] == 1
    ensures var t, e := s.dir[v / 1024].page, Entry(s, v);
      && t < HIGH
      && UnWp(s, v) == (s.(frames := s.frames[t := s.frames[t][v % 1024 := e.(rw := true)]]), true)
  {
    hide GetFree;
  }

  /** The copying half of `un_wp_page`, with the page table named. */
  ghost function CopyOutAt(g: Mem, table: nat, i: nat, page: nat, k: nat): Mem
    requires Sized(g) && table < HIGH && i < 1024 && page < HIGH && k < HIGH
    requires page >= LOW ==> g.count[page - LOW] > 0
  {
    var a := g.frames[table := g.frames[table][i := Full(k)]];
    Mem(if page < LOW then g.count else g.count[page - LOW := g.count[page - LOW] - 1], g.hint, g.dir, a[k := a[page]])
  }

  lemma UnWpFull(s: Mem, v: nat)
    requires Sized(s) && v < VPAGES && HasTable(s, v) && Entry(s, v).page < HIGH && GetFree(s).1 != 0
    requires Entry(s, v).page >= LOW ==> s.count[Entry(s, v).page - LOW] != 1
    requires var (g, k) := GetFree(s);
      && k < HIGH && g.dir == s.dir && g.frames[s.dir[v / 1024].page] == s.frames[s.dir[v / 1024].page]
      && (Entry(s, v).page >= LOW ==> g.count[Entry(s, v).page - LOW] > 0)
    ensures var (g, k) := GetFree(s);
      UnWp(s, v) == (CopyOutAt(g, s.dir[v / 1024].page, v % 1024, Entry(s, v).page, k), true)
  {
    hide GetFree;
  }

  /** The two ways a fork fails, and the one in which it does not. */
  lemma CanFork(s: Mem, f: nat, t: nat, n: nat)
    requires CanCopy(s, f, t, n)
    ensures f + n <= ENTRIES && t + n <= ENTRIES
    ensures var (g, k) := GetFree(s); var (c, st) := CopyDirs(g, f, t, n);
      && (k == 0 ==> Fork(s, f, t, n) == (s, 0))
      && (k != 0 && st == Done ==> Fork(s, f, t, n) == (c, k))
      && (k != 0 && st != Done ==> Fork(s, f, t, n) == (Release(FreeDirs(c, t, n), k), 0))
  {
    hide GetFree, CopyDirs, FreeDirs, Release;
  }

  lemma StillCopies(s: Mem, held: multiset<nat>, f: nat, t: nat, n: nat)
    requires Inv(s, held) && GetFree(s).1 != 0 && CanCopy(s, f, t, n)
    ensures CanCopy(GetFree(s).0, f, t, n)
  {
    hide Inv, Entries, View, GetFree;
    GetFreeKeeps(s, held);
  }

  /** A page the kernel holds is counted. */
  lemma HeldCounted(s: Mem, held: multiset<nat>, k: nat)
    requires Inv(s, held) && LOW <= k < HIGH && held[k] > 0
    ensures Sized(s) && s.count[k - LOW] > 0
  {
    GiveBack(Entries(s), s.dir, s.count, held, k);
  }

  lemma CopySupply(s: Mem, held: multiset<nat>, from: nat, to: nat, size: nat)
    requires Inv(s, held) && from / FOUR_MB + Dirs(size) <= ENTRIES && to / FOUR_MB + Dirs(size) <= ENTRIES
    ensures Sized(s)
    ensures CanCopy(s, from / FOUR_MB, to / FOUR_MB, Dirs(size)) ==>
      (CopyDirs(s, from / FOUR_MB, to / FOUR_MB, Dirs(size)).1 == Done
       <==> |Present(s.dir, from / FOUR_MB, Dirs(size))| <= Free(s.count))
  {
    assert Sized(s);
    hide Inv, Dirs, Present, Free, CopyDirs, CanCopy;
    if CanCopy(s, from / FOUR_MB, to / FOUR_MB, Dirs(size)) {
      CopySucceedsExactlyWhen(s, held, from / FOUR_MB, to / FOUR_MB, Dirs(size));
    }
  }

  /** A byte count rounded up to whole 4 MB directory entries. */
  function Dirs(size: nat): nat { (size + 0x3fffff) / FOUR_MB }

  lemma EntryCounted(s: Mem, held: multiset<nat>, v: nat)
    requires Inv(s, held) && User(v)
    ensures var k := Entry(s, v).page;
      Entry(s, v).p ==> k < HIGH && (k >= LOW ==> s.count[k - LOW] > 0)
  {
    assert Entry(s, v).p ==> v in Entries(s) && Entries(s)[v] == Entry(s, v);
    if Entry(s, v).p && Entry(s, v).page >= LOW {
      CountBound(Entries(s), s.dir, s.count, held, v);
    }
  }
}
