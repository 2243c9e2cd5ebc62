/** Physical pages, reference counts and two-level page tables: the state that
    mm/memory.c changes, and each of its operations as a function on that state.

    Pages are named by physical page number (address >> 12).  A 32-bit word is
    split into the fields the paging unit reads, so `& ~2`, `| 2`, `| 7` and
    `& 0xfffff000` are field updates and selections; page tables live in ordinary
    pages and are read through the same words as user data. */
module PageModel {

  const LOW: nat := 0x200000 / 4096
  const HIGH: nat := 0x800000 / 4096
  const PAGES: nat := HIGH - LOW
  const ENTRIES: nat := 1024

  /** Virtual page numbers: 1024 per directory entry, 16384 per 64 MB task slot. */
  const SLOT: nat := 16384
  const SLOT_DIRS: nat := 16
  const VPAGES: nat := 1048576

  datatype Word = Word(page: nat, avail: nat, user: bool, rw: bool, p: bool)

  const ZERO: Word := Word(0, 0, false, false, false)

  /** `page | 7`: present, writable, user. */
  function Full(page: nat): Word { Word(page, 0, true, true, true) }

  /** The 32 bits of a word. */
  function Number(w: Word): nat {
    4096 * w.page + 8 * w.avail + (if w.user then 4 else 0) + (if w.rw then 2 else 0) + if w.p then 1 else 0
  }

  /** A cleared word is 0, an entry for a page is its address with the three low bits set, and
      taking away the right to write takes 2 away. */
  lemma WordsMean(page: nat, w: Word)
    ensures Number(ZERO) == 0 && Number(Full(page)) == 4096 * page + 7
    ensures w.rw ==> Number(w.(rw := false)) == Number(w) - 2
    ensures forall i :: 0 <= i < 1024 ==> Number(ZeroPage()[i]) == 0
  {
  }

  function ZeroPage(): (r: seq<Word>)
    ensures |r| == ENTRIES && forall i :: 0 <= i < ENTRIES ==> r[i] == ZERO
  {
    seq(ENTRIES, i => ZERO)
  }

  datatype Mem = Mem(count: seq<nat>, hint: nat, dir: seq<Word>, frames: seq<seq<Word>>)

  datatype Status = Done | NoMemory | Panic

  predicate Sized(s: Mem) {
    && |s.count| == PAGES && s.hint < PAGES
    && |s.dir| == ENTRIES && Frames(s.frames)
  }

  /** User pages: everything above task 0's slot, which is the kernel's identity map. */
  predicate User(v: int) { SLOT <= v < VPAGES }

  predicate Frames(frames: seq<seq<Word>>) {
    |frames| == HIGH && forall f :: 0 <= f < HIGH ==> |frames[f]| == ENTRIES
  }

  predicate HasTable(s: Mem, v: nat)
    requires Sized(s) && v < VPAGES
  {
    s.dir[v / 1024].p && s.dir[v / 1024].page < HIGH
  }

  /** The page table entry that translates virtual page `v`. */
  function Entry(s: Mem, v: nat): Word
    requires Sized(s) && v < VPAGES
  {
    EntryIn(s.dir, s.frames, v)
  }

  function EntryIn(dir: seq<Word>, frames: seq<seq<Word>>, v: nat): Word
    requires |dir| == ENTRIES && Frames(frames) && v < VPAGES
  {
    var d := dir[v / 1024];
    if d.p && d.page < HIGH then frames[d.page][v % 1024] else ZERO
  }

  function PutEntry(s: Mem, v: nat, w: Word): (r: Mem)
    requires Sized(s) && v < VPAGES && HasTable(s, v)
    ensures Sized(r)
  {
    var t := s.dir[v / 1024].page;
    s.(frames := s.frames[t := s.frames[t][v % 1024 := w]])
  }

  // ---------- get_free_page, free_page ----------

  /** The first free page at or after `lo`, or `hi`. */
  function FirstFree(count: seq<nat>, lo: nat, hi: nat): (i: nat)
    requires lo <= hi <= |count|
    ensures lo <= i <= hi
    ensures i < hi ==> count[i] == 0
    ensures forall j :: lo <= j < i ==> count[j] != 0
    decreases hi - lo
  {
    if lo == hi || count[lo] == 0 then lo else FirstFree(count, lo + 1, hi)
  }

  /** Next fit from the hint, then wrapping round; PAGES when every page is in use. */
  function NextFit(s: Mem): (i: nat)
    requires Sized(s)
    ensures i <= PAGES && (i < PAGES ==> s.count[i] == 0)
    ensures i == PAGES <==> forall j :: 0 <= j < PAGES ==> s.count[j] != 0
  {
    var i := FirstFree(s.count, s.hint, PAGES);
    if i < PAGES then i
    else
      var j := FirstFree(s.count, 0, s.hint);
      if j < s.hint then j else PAGES
  }

  /** The page number obtained, or 0. */
  function GetFree(s: Mem): (r: (Mem, nat))
    requires Sized(s)
    ensures Sized(r.0) && (r.1 == 0 ==> r.0 == s)
  {
    var i := NextFit(s);
    if i == PAGES then (s, 0)
    else
      (s.(count := s.count[i := 1], hint := (i + 1) % PAGES, frames := s.frames[LOW + i := ZeroPage()]), LOW + i)
  }

  /** `free_page` for a page it does not panic on. */
  function Release(s: Mem, page: nat): (r: Mem)
    requires Sized(s)
    ensures Sized(r)
  {
    if LOW <= page < HIGH && s.count[page - LOW] > 0
    then s.(count := s.count[page - LOW := s.count[page - LOW] - 1])
    else s
  }

  // ---------- free_page_tables ----------

  function Unmap(s: Mem, v: nat): (r: Mem)
    requires Sized(s) && v < VPAGES && HasTable(s, v)
    ensures Sized(r) && r.dir == s.dir
  {
    var e := Entry(s, v);
    PutEntry(if e.p then Release(s, e.page) else s, v, ZERO)
  }

  /** The first `n` entries of directory entry `d` given up. */
  function ClearEntries(s: Mem, d: nat, n: nat): (r: Mem)
    requires Sized(s) && d < ENTRIES && n <= ENTRIES && s.dir[d].p && s.dir[d].page < HIGH
    ensures Sized(r) && r.dir == s.dir
  {
    if n == 0 then s else Unmap(ClearEntries(s, d, n - 1), d * 1024 + (n - 1))
  }

  function FreeDir(s: Mem, d: nat): (r: Mem)
    requires Sized(s) && d < ENTRIES
    ensures Sized(r)
  {
    if !s.dir[d].p || s.dir[d].page >= HIGH then s
    else
      var c := Release(ClearEntries(s, d, 1024), s.dir[d].page);
      c.(dir := c.dir[d := ZERO])
  }

  function FreeDirs(s: Mem, d: nat, n: nat): (r: Mem)
    requires Sized(s) && d + n <= ENTRIES
    ensures Sized(r)
  {
    if n == 0 then s else FreeDir(FreeDirs(s, d, n - 1), d + n - 1)
  }

  // ---------- copy_page_tables ----------

  /** A 16-bit counter. */
  function Bump(s: Mem, page: nat): (r: Mem)
    requires Sized(s)
    ensures Sized(r)
  {
    if LOW <= page < HIGH
    then s.(count := s.count[page - LOW := (s.count[page - LOW] + 1) % 0x10000])
    else s
  }

  /** Page `v` made visible at `w` too; a counted page becomes read-only in both.
      A present entry is an odd number, so `this_page > LOW_MEM` holds of page LOW. */
  function Share(s: Mem, v: nat, w: nat): (r: Mem)
    requires Sized(s) && v < VPAGES && w < VPAGES && HasTable(s, v) && HasTable(s, w)
    ensures Sized(r) && r.dir == s.dir
  {
    var e := Entry(s, v);
    if !e.p then s
    else
      var ro := e.(rw := false);
      var a := PutEntry(s, w, ro);
      if e.page < LOW then a else Bump(PutEntry(a, v, ro), e.page)
  }

  function ShareEntries(s: Mem, f: nat, t: nat, n: nat): (r: Mem)
    requires Sized(s) && f < ENTRIES && t < ENTRIES && n <= ENTRIES
    requires s.dir[f].p && s.dir[f].page < HIGH && s.dir[t].p && s.dir[t].page < HIGH
    ensures Sized(r) && r.dir == s.dir
  {
    if n == 0 then s else Share(ShareEntries(s, f, t, n - 1), f * 1024 + (n - 1), t * 1024 + (n - 1))
  }

  /** A fresh table hung on directory entry `d`. */
  function NewTable(s: Mem, d: nat): (r: (Mem, bool))
    requires Sized(s) && d < ENTRIES
    ensures Sized(r.0)
    ensures r.1 ==> r.0.dir == s.dir[d := Full(r.0.dir[d].page)] && LOW <= r.0.dir[d].page < HIGH
    ensures !r.1 ==> r.0 == s
  {
    var g := GetFree(s);
    if g.1 == 0 then (s, false) else (g.0.(dir := g.0.dir[d := Full(g.1)]), true)
  }

  function CopyDir(s: Mem, f: nat, t: nat): (r: (Mem, Status))
    requires Sized(s) && f < ENTRIES && t < ENTRIES
    ensures Sized(r.0)
  {
    if s.dir[t].p then (s, Panic)
    else if !s.dir[f].p || s.dir[f].page >= HIGH then (s, Done)
    else
      var a := NewTable(s, t);
      if !a.1 then (s, NoMemory) else (ShareEntries(a.0, f, t, 1024), Done)
  }

  function CopyDirs(s: Mem, f: nat, t: nat, n: nat): (r: (Mem, Status))
    requires Sized(s) && f + n <= ENTRIES && t + n <= ENTRIES
    ensures Sized(r.0)
  {
    if n == 0 then (s, Done)
    else
      var c := CopyDirs(s, f, t, n - 1);
      if c.1 != Done then c else CopyDir(c.0, f + n - 1, t + n - 1)
  }

  // ---------- faults, stores ----------

  /** `put_page` of a page whose count is 1: the page number, or 0. */
  function PutPage(s: Mem, page: nat, v: nat): (r: (Mem, bool))
    requires Sized(s) && v < VPAGES && page < HIGH
    ensures Sized(r.0)
  {
    if page < LOW || s.count[page - LOW] != 1 then (s, false)
    else
      var a := if s.dir[v / 1024].p then (s, true) else NewTable(s, v / 1024);
      if !a.1 || !HasTable(a.0, v) then (s, false) else (PutEntry(a.0, v, Full(page)), true)
  }

  /** `do_no_page`; false means the task is killed. */
  function NoPage(s: Mem, v: nat): (r: (Mem, bool))
    requires Sized(s) && v < VPAGES
    ensures Sized(r.0)
  {
    var g := GetFree(s);
    if g.1 == 0 then (s, false)
    else
      var a := PutPage(g.0, g.1, v);
      if a.1 then a else (Release(a.0, g.1), false)
  }

  /** `un_wp_page`; false means the task is killed. */
  function UnWp(s: Mem, v: nat): (r: (Mem, bool))
    requires Sized(s) && v < VPAGES && HasTable(s, v) && Entry(s, v).page < HIGH
    ensures Sized(r.0)
  {
    var e := Entry(s, v);
    if e.page >= LOW && s.count[e.page - LOW] == 1 then (PutEntry(s, v, e.(rw := true)), true)
    else
      var g := GetFree(s);
      if g.1 == 0 then (s, false)
      else
        var a := Release(g.0, e.page);
        if !HasTable(a, v) then (s, false)
        else
          var b := PutEntry(a, v, Full(g.1));
          (b.(frames := b.frames[g.1 := b.frames[e.page]]), true)
  }

  /** `write_verify`: what the kernel does before it stores to a user page. */
  function WriteVerify(s: Mem, v: nat): (r: (Mem, bool))
    requires Sized(s) && v < VPAGES
    ensures Sized(r.0)
  {
    var e := Entry(s, v);
    if HasTable(s, v) && e.p && !e.rw && e.page < HIGH then UnWp(s, v) else (s, true)
  }

  /** A store by the processor; it faults instead unless the page is present and writable. */
  function Store(s: Mem, v: nat, at: nat, w: Word): (r: Mem)
    requires Sized(s) && v < VPAGES && at < 1024
    ensures Sized(r)
  {
    var e := Entry(s, v);
    if e.p && e.rw && e.page < HIGH then s.(frames := s.frames[e.page := s.frames[e.page][at := w]]) else s
  }

  // ---------- fork ----------

  /** The memory side of `copy_process`: the page of the new task structure, or 0. */
  function Fork(s: Mem, f: nat, t: nat, n: nat): (r: (Mem, nat))
    requires Sized(s) && f + n <= ENTRIES && t + n <= ENTRIES
    ensures Sized(r.0)
  {
    var g := GetFree(s);
    if g.1 == 0 then (s, 0)
    else
      var c := CopyDirs(g.0, f, t, n);
      if c.1 == Done then (c.0, g.1)
      else (Release(FreeDirs(c.0, t, n), g.1), 0)
  }
}
