/** Each operation of mm/memory.c keeps the invariant and has one simple effect on
    what the address spaces read. */
module PageSteps {
  import opened PageModel
  import opened PageInvariant
  import opened PageCore

  // ---------- one entry ----------

  lemma PutEntryAt(s: Mem, v: nat, w: Word)
    requires Sized(s) && User(v) && HasTable(s, v) && TablesDistinct(s.dir)
    ensures var r := PutEntry(s, v, w);
      forall u :: User(u) ==> EntryIn(r.dir, r.frames, u) == if u == v then w else EntryIn(s.dir, s.frames, u)
  {
    var r := PutEntry(s, v, w);
    forall u | User(u)
      ensures EntryIn(r.dir, r.frames, u) == if u == v then w else EntryIn(s.dir, s.frames, u)
    {
      assert u == 1024 * (u / 1024) + u % 1024 && v == 1024 * (v / 1024) + v % 1024;
      assert DistinctTables(s.dir, u / 1024, v / 1024);
    }
  }

  lemma PutEntryMap(s: Mem, v: nat, w: Word)
    requires Sized(s) && User(v) && HasTable(s, v) && TablesDistinct(s.dir)
    ensures w.p ==> Entries(PutEntry(s, v, w)) == Entries(s)[v := w]
    ensures !w.p ==> Entries(PutEntry(s, v, w)) == Entries(s) - {v}
  {
    PutEntryAt(s, v, w);
    hide PutEntry, EntryIn, TablesDistinct, HasTable, Frames;
  }

  /** Writing a page table changes no user page. */
  lemma PutEntryContents(s: Mem, v: nat, w: Word, es: map<int, Word>)
    requires Sized(s) && User(v) && HasTable(s, v) && TablesPrivate(es, s.dir)
    ensures Contents(es, PutEntry(s, v, w).frames) == Contents(es, s.frames)
  {
    var r, d := PutEntry(s, v, w), v / 1024;
    assert SLOT_DIRS <= d < |s.dir| && s.dir[d].p;
    forall u | u in es && es[u].page < HIGH
      ensures r.frames[es[u].page] == s.frames[es[u].page]
    {
      assert NotTheTable(es, s.dir, d, u);
    }
  }

  // ---------- taking and giving back a page ----------

  lemma GetFreeKeeps(s: Mem, held: multiset<nat>)
    requires Inv(s, held) && GetFree(s).1 != 0
    ensures var (g, k) := GetFree(s);
      && LOW <= k < HIGH && held[k] == 0 && g.count[k - LOW] == 1 && g.frames[k] == ZeroPage()
      && Inv(g, held + multiset{k}) && g.dir == s.dir
      && Entries(g) == Entries(s) && View(g) == View(s)
  {
    var (g, k) := GetFree(s);
    FreeIsUnused(Entries(s), s.dir, s.count, held, k);
    forall u | User(u)
      ensures Entry(g, u) == Entry(s, u)
    {
    }
    assert Entries(g) == Entries(s);
    Take(Entries(s), s.dir, s.count, held, k);
  }

  lemma ReleaseHeldKeeps(s: Mem, held: multiset<nat>, k: nat)
    requires Inv(s, held) && LOW <= k < HIGH && held[k] > 0
    ensures var r := Release(s, k);
      Inv(r, held - multiset{k}) && Entries(r) == Entries(s) && View(r) == View(s) && r.dir == s.dir
  {
    GiveBack(Entries(s), s.dir, s.count, held, k);
    assert Entries(Release(s, k)) == Entries(s);
  }

  // ---------- page tables ----------

  lemma HangTable(s: Mem, held: multiset<nat>, d: nat, k: nat)
    requires Inv(s, held) && SLOT_DIRS <= d < ENTRIES && !s.dir[d].p
    requires LOW <= k < HIGH && held[k] == 1 && s.count[k - LOW] == 1 && s.frames[k] == ZeroPage()
    ensures var r := s.(dir := s.dir[d := Full(k)]);
      Inv(r, held - multiset{k}) && Entries(r) == Entries(s) && View(r) == View(s)
  {
    var r := s.(dir := s.dir[d := Full(k)]);
    forall u | User(u)
      ensures Entry(r, u) == Entry(s, u)
    {
    }
    assert Entries(r) == Entries(s);
    Hang(Entries(s), s.dir, s.count, held, d, k);
  }

  lemma NewTableKeeps(s: Mem, held: multiset<nat>, d: nat)
    requires Inv(s, held) && SLOT_DIRS <= d < ENTRIES && !s.dir[d].p
    ensures var r := NewTable(s, d).0;
      && Inv(r, held) && Entries(r) == Entries(s) && View(r) == View(s)
  {
    var (g, k) := GetFree(s);
    if k != 0 {
      GetFreeKeeps(s, held);
      HangTable(g, held + multiset{k}, d, k);
      assert held + multiset{k} - multiset{k} == held;
    }
  }

  /** No mapped page is left under directory entry `d`. */
  ghost predicate Cleared(s: Mem, d: nat)
    requires Sized(s)
  {
    forall v :: v in Entries(s) ==> v / 1024 != d
  }

  lemma DropTable(s: Mem, held: multiset<nat>, d: nat)
    requires Inv(s, held) && SLOT_DIRS <= d < ENTRIES && s.dir[d].p && Cleared(s, d)
    ensures var c := Release(s, s.dir[d].page);
      var r := c.(dir := c.dir[d := ZERO]);
      Inv(r, held) && Entries(r) == Entries(s) && View(r) == View(s)
  {
    hide Entries, Core, Frames, View;
    var c := Release(s, s.dir[d].page);
    var r := c.(dir := c.dir[d := ZERO]);
    ClearedEntries(s, d);
    TableInRam(s, held, d);
    Drop(Entries(s), s.dir, s.count, held, d);
    SameView(s, r);
  }

  /** An empty table taken off the directory held no entry. */
  lemma ClearedEntries(s: Mem, d: nat)
    requires Sized(s) && SLOT_DIRS <= d < ENTRIES && s.dir[d].p && Cleared(s, d)
    ensures var c := Release(s, s.dir[d].page); Entries(c.(dir := c.dir[d := ZERO])) == Entries(s)
  {
    var c := Release(s, s.dir[d].page);
    var r := c.(dir := c.dir[d := ZERO]);
    hide Release;
    forall u | User(u)
      ensures Entry(r, u).p == Entry(s, u).p && (Entry(s, u).p ==> Entry(r, u) == Entry(s, u))
    {
      if u / 1024 == d {
        assert u !in Entries(s);
      }
    }
  }

  lemma SameView(s: Mem, r: Mem)
    requires Sized(s) && Sized(r) && Entries(r) == Entries(s) && r.frames == s.frames
    ensures View(r) == View(s)
  {
  }

  // ---------- freeing an address space ----------

  /** A map without the keys `lo .. lo + n`. */
  ghost function Without<T>(m: map<int, T>, lo: nat, n: nat): map<int, T> {
    map v | v in m && !(lo <= v < lo + n) :: m[v]
  }

  lemma ReleaseEntries(s: Mem, k: nat)
    requires Sized(s)
    ensures Entries(Release(s, k)) == Entries(s) && Release(s, k).dir == s.dir && Release(s, k).frames == s.frames
  {
  }

  lemma ContentsWithout(es: map<int, Word>, frames: seq<seq<Word>>, v: int)
    ensures Contents(es - {v}, frames) == Contents(es, frames) - {v}
  {
  }

  lemma PrivateWithout(es: map<int, Word>, dir: seq<Word>, v: int)
    requires TablesPrivate(es, dir)
    ensures TablesPrivate(es - {v}, dir)
  {
    assert forall d, u :: NotTheTable(es, dir, d, u) ==> NotTheTable(es - {v}, dir, d, u);
  }

  lemma ClearEntry(s: Mem, v: nat)
    requires Sized(s) && User(v) && HasTable(s, v) && TablesDistinct(s.dir) && TablesPrivate(Entries(s), s.dir)
    ensures var r := PutEntry(s, v, ZERO);
      Entries(r) == Entries(s) - {v} && View(r) == View(s) - {v}
  {
    hide Entries, PutEntry, TablesDistinct, TablesPrivate, Contents, HasTable;
    PutEntryMap(s, v, ZERO);
    PrivateWithout(Entries(s), s.dir, v);
    PutEntryContents(s, v, ZERO, Entries(s) - {v});
    ContentsWithout(Entries(s), s.frames, v);
  }

  lemma UnmapEntry(s: Mem, held: multiset<nat>, v: nat)
    requires Inv(s, held) && User(v) && HasTable(s, v)
    ensures var r := Unmap(s, v);
      Entries(r) == Entries(s) - {v} && View(r) == View(s) - {v}
  {
    TablesApart(Entries(s), s.dir, s.count, held);
    hide Release, Entries, PutEntry, Core, TablesDistinct, TablesPrivate, Contents, EntryIn;
    var e := Entry(s, v);
    if e.p {
      ReleaseEntries(s, e.page);
      ClearEntry(Release(s, e.page), v);
    } else {
      ClearEntry(s, v);
    }
  }

  lemma UnmapKeeps(s: Mem, held: multiset<nat>, v: nat)
    requires Inv(s, held) && User(v) && HasTable(s, v)
    ensures Inv(Unmap(s, v), held)
  {
    hide Entries, Core, EntryIn, Contents, PutEntry, View;
    var es := Entries(s);
    UnmapEntry(s, held, v);
    EntryPresent(s, v);
    UnmapIs(s, v);
    if v in es {
      Remove(es, s.dir, s.count, held, v);
      PresentInRam(es, s.dir, s.count, held, v);
    } else {
      assert es - {v} == es;
    }
  }

  lemma EntryPresent(s: Mem, v: nat)
    requires Sized(s) && User(v)
    ensures v in Entries(s) <==> Entry(s, v).p
    ensures v in Entries(s) ==> Entries(s)[v] == Entry(s, v)
  {
  }

  lemma UnmapIs(s: Mem, v: nat)
    requires Sized(s) && v < VPAGES && HasTable(s, v)
    ensures Unmap(s, v).count == (if Entry(s, v).p then Release(s, Entry(s, v).page) else s).count && Unmap(s, v).dir == s.dir
  {
    hide Entry;
  }

  lemma PresentInRam(es: map<int, Word>, dir: seq<Word>, count: seq<nat>, held: multiset<nat>, v: int)
    requires Core(es, dir, count, held) && v in es
    ensures es[v].page < HIGH
  {
  }

  lemma {:induction false} ClearEntriesKeeps(s: Mem, held: multiset<nat>, d: nat, n: nat)
    requires Inv(s, held) && SLOT_DIRS <= d < ENTRIES && s.dir[d].p && n <= 1024
    ensures s.dir[d].page < HIGH
    ensures var r := ClearEntries(s, d, n);
      && Inv(r, held)
      && Entries(r) == Without(Entries(s), d * 1024, n) && View(r) == Without(View(s), d * 1024, n)
  {
    hide *;
    if n == 0 {
      ClearNone(s, held, d);
    } else {
      var v := d * 1024 + (n - 1);
      ClearReady(s, held, d, n - 1);
      ClearEntriesKeeps(s, held, d, n - 1);
      var c := ClearEntries(s, d, n - 1);
      UnmapEntry(c, held, v);
      UnmapKeeps(c, held, v);
      WithoutMore(Entries(s), d * 1024, n - 1);
      WithoutMore(View(s), d * 1024, n - 1);
    }
  }

  lemma ClearNone(s: Mem, held: multiset<nat>, d: nat)
    requires Inv(s, held) && SLOT_DIRS <= d < ENTRIES && s.dir[d].p
    ensures s.dir[d].page < HIGH && ClearEntries(s, d, 0) == s
    ensures Without(Entries(s), d * 1024, 0) == Entries(s) && Without(View(s), d * 1024, 0) == View(s)
  {
    TableInRam(s, held, d);
    hide Inv, Entries, View, Without;
    WithoutNone(Entries(s), d * 1024);
    WithoutNone(View(s), d * 1024);
  }

  lemma ClearReady(s: Mem, held: multiset<nat>, d: nat, i: nat)
    requires Inv(s, held) && SLOT_DIRS <= d < ENTRIES && s.dir[d].p && i < 1024
    ensures Sized(s) && d < ENTRIES && i < ENTRIES && s.dir[d].page < HIGH && d * 1024 + i < VPAGES && User(d * 1024 + i)
    ensures var c := ClearEntries(s, d, i);
      Sized(c) && HasTable(c, d * 1024 + i) && ClearEntries(s, d, i + 1) == Unmap(c, d * 1024 + i)
  {
    TableInRam(s, held, d);
    hide Inv, Unmap;
    UnderDir(ClearEntries(s, d, i), d, i);
  }

  lemma UnderDir(s: Mem, d: nat, t: nat)
    requires Sized(s) && SLOT_DIRS <= d < ENTRIES && t < 1024 && s.dir[d].p && s.dir[d].page < HIGH
    ensures User(d * 1024 + t) && HasTable(s, d * 1024 + t)
  {
  }

  lemma TableInRam(s: Mem, held: multiset<nat>, d: nat)
    requires Inv(s, held) && SLOT_DIRS <= d < ENTRIES && s.dir[d].p
    ensures LOW <= s.dir[d].page < HIGH && s.count[s.dir[d].page - LOW] == 1
  {
  }

  lemma WithoutNone<T>(m: map<int, T>, lo: nat)
    ensures Without(m, lo, 0) == m
  {
  }

  lemma WithoutMore<T>(m: map<int, T>, lo: nat, n: nat)
    ensures Without(m, lo, n + 1) == Without(m, lo, n) - {lo + n}
  {
  }

  lemma WithoutRun<T>(m: map<int, T>, lo: nat, n: nat, k: nat)
    ensures Without(m, lo, n + k) == Without(Without(m, lo, n), lo + n, k)
  {
  }

  lemma FreeDirKeeps(s: Mem, held: multiset<nat>, d: nat)
    requires Inv(s, held) && SLOT_DIRS <= d < ENTRIES
    ensures var r := FreeDir(s, d);
      && Inv(r, held) && r.dir == (if s.dir[d].p then s.dir[d := ZERO] else s.dir)
      && Entries(r) == Without(Entries(s), d * 1024, 1024) && View(r) == Without(View(s), d * 1024, 1024)
  {
    if s.dir[d].p {
      ClearEntriesKeeps(s, held, d, 1024);
      var c := ClearEntries(s, d, 1024);
      assert Cleared(c, d);
      hide Entries, View, Core, ClearEntries, Without, Cleared, Release;
      DropTable(c, held, d);
    } else {
      NoTableNoEntries(s, d);
      WithoutAbsent(Entries(s), d * 1024, 1024);
      WithoutAbsent(View(s), d * 1024, 1024);
    }
  }

  lemma NoTableNoEntries(s: Mem, d: nat)
    requires Sized(s) && d < ENTRIES && !s.dir[d].p
    ensures forall v :: d * 1024 <= v < d * 1024 + 1024 ==> v !in Entries(s)
  {
  }

  lemma WithoutAbsent<T>(m: map<int, T>, lo: nat, n: nat)
    requires forall v :: lo <= v < lo + n ==> v !in m
    ensures Without(m, lo, n) == m
  {
  }

  lemma {:induction false} FreeDirsKeeps(s: Mem, held: multiset<nat>, d: nat, n: nat)
    requires Inv(s, held) && SLOT_DIRS <= d && d + n <= ENTRIES
    ensures var r := FreeDirs(s, d, n);
      && Inv(r, held)
      && Entries(r) == Without(Entries(s), d * 1024, n * 1024) && View(r) == Without(View(s), d * 1024, n * 1024)
      && (forall i :: 0 <= i < ENTRIES ==> r.dir[i].p == (s.dir[i].p && !(d <= i < d + n)))
      && (forall i :: 0 <= i < ENTRIES && r.dir[i].p ==> r.dir[i] == s.dir[i])
  {
    hide Entries, View, Core, FreeDir, Without;
    if n == 0 {
      WithoutNone(Entries(s), d * 1024);
      WithoutNone(View(s), d * 1024);
    } else {
      FreeDirsKeeps(s, held, d, n - 1);
      FreeDirKeeps(FreeDirs(s, d, n - 1), held, d + n - 1);
      WithoutRun(Entries(s), d * 1024, (n - 1) * 1024, 1024);
      WithoutRun(View(s), d * 1024, (n - 1) * 1024, 1024);
    }
  }

  // ---------- sharing an address space ----------

  /** The page whose reading page `w` shows once `n` pages from `from` are shared at `to`. */
  function Source(w: int, from: nat, to: nat, n: nat): int {
    if to <= w < to + n then w - to + from else w
  }

  /** `n` pages from `from` visible also from `to`. */
  ghost function Shared<T>(m: map<int, T>, from: nat, to: nat, n: nat): map<int, T> {
    map w: int | 0 <= w < VPAGES && Source(w, from, to, n) in m :: m[Source(w, from, to, n)]
  }

  ghost predicate NoneIn<T>(m: map<int, T>, lo: nat, n: nat) {
    forall w :: lo <= w < lo + n ==> w !in m
  }

  ghost predicate InSpace<T>(m: map<int, T>) {
    forall w :: w in m ==> 0 <= w < VPAGES
  }

  lemma SharedNone<T>(m: map<int, T>, from: nat, to: nat)
    requires InSpace(m)
    ensures Shared(m, from, to, 0) == m
  {
    assert forall w :: Source(w, from, to, 0) == w;
  }

  lemma SharedMore<T>(m: map<int, T>, from: nat, to: nat, n: nat)
    requires InSpace(m) && to + n < VPAGES && NoneIn(m, to, n + 1)
    requires from + n < to || to + n < from
    ensures var c := Shared(m, from, to, n);
      && to + n !in c && (from + n in c <==> from + n in m)
      && (from + n in m ==> c[from + n] == m[from + n] && Shared(m, from, to, n + 1) == c[to + n := m[from + n]])
      && (from + n !in m ==> Shared(m, from, to, n + 1) == c)
  {
    forall w | w != to + n
      ensures Source(w, from, to, n + 1) == Source(w, from, to, n)
    {
    }
    assert Source(to + n, from, to, n) == to + n && Source(from + n, from, to, n) == from + n;
    assert Source(to + n, from, to, n + 1) == from + n;
  }

  lemma SharedRun<T>(m: map<int, T>, from: nat, to: nat, n: nat, k: nat)
    requires from + n + k <= to || to + n + k <= from
    requires to + n + k <= VPAGES && InSpace(m)
    ensures Shared(Shared(m, from, to, n), from + n, to + n, k) == Shared(m, from, to, n + k)
  {
    var c, f, t, nk := Shared(m, from, to, n), from + n, to + n, n + k;
    forall w | 0 <= w < VPAGES
      ensures Source(w, f, t, k) in c <==> Source(w, from, to, nk) in m
      ensures Source(w, from, to, nk) in m ==> c[Source(w, f, t, k)] == m[Source(w, from, to, nk)]
    {
      assert Source(Source(w, f, t, k), from, to, n) == Source(w, from, to, nk);
    }
  }

  lemma SharedNothing<T>(m: map<int, T>, from: nat, to: nat, n: nat)
    requires InSpace(m) && NoneIn(m, from, n) && NoneIn(m, to, n)
    ensures Shared(m, from, to, n) == m
  {
  }

  lemma SharedUndone<T>(m: map<int, T>, from: nat, to: nat, n: nat)
    requires InSpace(m) && NoneIn(m, to, n)
    ensures Without(Shared(m, from, to, n), to, n) == m
  {
  }

  /** Which physical page each mapped user page names. */
  ghost function Names(s: Mem): map<int, nat>
    requires Sized(s)
  {
    NamesOf(Entries(s))
  }

  ghost function NamesOf(es: map<int, Word>): map<int, nat> {
    map v | v in es :: es[v].page
  }

  lemma ContentsMore(es: map<int, Word>, frames: seq<seq<Word>>, w: int, e: Word)
    requires e.page < |frames|
    ensures Contents(es[w := e], frames) == Contents(es, frames)[w := frames[e.page]]
  {
  }

  lemma ContentsByName(es: map<int, Word>, frames: seq<seq<Word>>, v: int, e: Word)
    requires v in es && es[v].page == e.page
    ensures Contents(es[v := e], frames) == Contents(es, frames)
    ensures NamesOf(es[v := e]) == NamesOf(es)
  {
  }

  lemma PrivateMore(es: map<int, Word>, dir: seq<Word>, v: int, w: int, e: Word)
    requires TablesPrivate(es, dir) && v in es && e.page == es[v].page
    ensures TablesPrivate(es[w := e], dir)
  {
    var es' := es[w := e];
    forall d, u
      ensures NotTheTable(es', dir, d, u)
    {
      assert NotTheTable(es, dir, d, if u == w then v else u);
    }
  }

  /** A second entry for the page that `v` names. */
  lemma AddEntry(s: Mem, v: nat, w: nat, e: Word)
    requires Sized(s) && User(w) && HasTable(s, w) && TablesDistinct(s.dir) && TablesPrivate(Entries(s), s.dir)
    requires v in Entries(s) && e.p && e.page == Entries(s)[v].page < HIGH
    ensures var r := PutEntry(s, w, e);
      && Entries(r) == Entries(s)[w := e]
      && View(r) == View(s)[w := s.frames[e.page]]
      && TablesPrivate(Entries(r), r.dir) && r.dir == s.dir && r.frames[e.page] == s.frames[e.page]
  {
    var es := Entries(s);
    PrivateMore(es, s.dir, v, w, e);
    PutEntryMap(s, w, e);
    PutEntryContents(s, w, e, es[w := e]);
    ContentsMore(es, s.frames, w, e);
    assert NotTheTable(es, s.dir, w / 1024, v);
  }

  ghost predicate Apart(s: Mem)
    requires Sized(s)
  {
    TablesDistinct(s.dir) && TablesPrivate(Entries(s), s.dir)
  }

  lemma ShareHighEffect(s: Mem, v: nat, w: nat)
    requires Sized(s) && Apart(s) && User(v) && User(w) && v != w && HasTable(s, v) && HasTable(s, w)
    requires v in Entries(s) && LOW <= Entries(s)[v].page < HIGH
    ensures var r := Share(s, v, w);
      var ro := Entries(s)[v].(rw := false);
      && Entries(r) == Entries(s)[w := ro][v := ro]
      && View(r) == View(s)[w := s.frames[ro.page]]
  {
    var ro := Entry(s, v).(rw := false);
    ViewAt(s, v);
    hide Entries, EntryIn, Contents, TablesDistinct, TablesPrivate, Frames;
    AddEntry(s, v, w, ro);
    var a := PutEntry(s, w, ro);
    AddEntry(a, v, v, ro);
    assert View(s)[w := s.frames[ro.page]][v := s.frames[ro.page]] == View(s)[w := s.frames[ro.page]];
    var b := PutEntry(a, v, ro);
    BumpEntries(b, ro.page);
  }

  lemma ViewAt(s: Mem, v: int)
    requires Sized(s) && v in Entries(s) && Entries(s)[v].page < HIGH
    ensures Entry(s, v) == Entries(s)[v] && v in View(s) && View(s)[v] == s.frames[Entries(s)[v].page]
  {
  }

  lemma BumpEntries(s: Mem, k: nat)
    requires Sized(s)
    ensures Entries(Bump(s, k)) == Entries(s) && View(Bump(s, k)) == View(s)
  {
  }

  lemma ShareLowEffect(s: Mem, v: nat, w: nat)
    requires Sized(s) && Apart(s) && User(v) && User(w) && v != w && HasTable(s, v) && HasTable(s, w)
    requires v in Entries(s) && Entries(s)[v].page < LOW
    ensures var r := Share(s, v, w);
      var ro := Entries(s)[v].(rw := false);
      && Entries(r) == Entries(s)[w := ro]
      && View(r) == View(s)[w := s.frames[ro.page]]
  {
    ViewAt(s, v);
    hide Entries, EntryIn, Contents, TablesDistinct, TablesPrivate, Frames;
    AddEntry(s, v, w, Entry(s, v).(rw := false));
  }

  lemma NamesAdd(es: map<int, Word>, w: int, e: Word)
    ensures NamesOf(es[w := e]) == NamesOf(es)[w := e.page]
  {
  }

  /** What sharing a page does to the entries, up to the write permission. */
  lemma ShareNames(s: Mem, v: nat, w: nat)
    requires Sized(s) && Apart(s) && User(v) && User(w) && v != w && HasTable(s, v) && HasTable(s, w)
    requires v in Entries(s) && Entries(s)[v].page < HIGH
    ensures var r := Share(s, v, w);
      && v in Names(s) && v in View(s)
      && Names(r) == Names(s)[w := Names(s)[v]] && View(r) == View(s)[w := View(s)[v]]
  {
    var es := Entries(s);
    var ro := es[v].(rw := false);
    ViewAt(s, v);
    assert NamesOf(es)[v] == ro.page;
    NamesAdd(es, w, ro);
    ContentsByName(es[w := ro], s.frames, v, ro);
    assert Names(s) == NamesOf(es) && Names(Share(s, v, w)) == NamesOf(Entries(Share(s, v, w)));
    hide *;
    if ro.page < LOW {
      ShareLowEffect(s, v, w);
    } else {
      ShareHighEffect(s, v, w);
    }
  }

  lemma InvFrom(s: Mem, held: multiset<nat>, es: map<int, Word>)
    requires Sized(s) && Entries(s) == es && Core(es, s.dir, s.count, held)
    ensures Inv(s, held)
  {
  }

  lemma ShareLowInv(s: Mem, held: multiset<nat>, v: nat, w: nat)
    requires Sized(s) && Core(Entries(s), s.dir, s.count, held)
    requires User(v) && User(w) && v < VPAGES && w < VPAGES && HasTable(s, v) && HasTable(s, w)
    requires Apart(s) && v in Entries(s) && w !in Entries(s) && v != w
    requires Entries(s)[v].p && Entries(s)[v].user && Entries(s)[v].page < LOW < HIGH
    ensures Inv(Share(s, v, w), held)
  {
    hide *;
    var ro := Entries(s)[v].(rw := false);
    ViewAt(s, v);
    ShareLowEffect(s, v, w);
    ShareLow(Entries(s), s.dir, s.count, held, w, ro);
    ShareCount(s, v, w);
    InvFrom(Share(s, v, w), held, Entries(s)[w := ro]);
  }

  lemma ShareHighInv(s: Mem, held: multiset<nat>, v: nat, w: nat)
    requires Sized(s) && Core(Entries(s), s.dir, s.count, held)
    requires User(v) && User(w) && v < VPAGES && w < VPAGES && HasTable(s, v) && HasTable(s, w)
    requires v % SLOT == w % SLOT
    requires Apart(s) && v in Entries(s) && w !in Entries(s) && v != w
    requires Entries(s)[v].p && LOW <= Entries(s)[v].page < HIGH
    ensures Inv(Share(s, v, w), held)
  {
    hide *;
    var ro := Entries(s)[v].(rw := false);
    ViewAt(s, v);
    ShareHighEffect(s, v, w);
    ShareHighCore(Entries(s), s.dir, s.count, held, v, w);
    ShareCount(s, v, w);
    InvFrom(Share(s, v, w), held, Entries(s)[w := ro][v := ro]);
  }

  lemma ShareInv(s: Mem, held: multiset<nat>, v: nat, w: nat)
    requires Inv(s, held) && User(v) && User(w) && v % SLOT == w % SLOT && HasTable(s, v) && HasTable(s, w)
    requires Apart(s) && v in Entries(s) && w !in Entries(s)
    ensures Inv(Share(s, v, w), held)
  {
    assert Core(Entries(s), s.dir, s.count, held) && Sized(s);
    assert Entries(s)[v].p && Entries(s)[v].page < HIGH && v < VPAGES && w < VPAGES;
    hide *;
    if Entries(s)[v].page < LOW {
      ShareLowInv(s, held, v, w);
    } else {
      ShareHighInv(s, held, v, w);
    }
  }

  lemma ShareHighCore(es: map<int, Word>, dir: seq<Word>, count: seq<nat>, held: multiset<nat>, v: int, w: int)
    requires Core(es, dir, count, held) && v in es && w !in es && User(w) && v % SLOT == w % SLOT
    requires es[v].page >= LOW
    ensures var k := es[v].page - LOW;
      var ro := es[v].(rw := false);
      Core(es[w := ro][v := ro], dir, count[k := (count[k] + 1) % 0x10000], held)
  {
    var ro := es[v].(rw := false);
    ShareHigh(es, dir, count, held, v, w);
    assert es[w := ro][v := ro] == es[v := ro][w := ro];
  }

  /** One page shared: the same physical page is named, so the same contents are read. */
  lemma ShareKeeps(s: Mem, held: multiset<nat>, v: nat, w: nat)
    requires Inv(s, held) && User(v) && User(w) && v % SLOT == w % SLOT && HasTable(s, v) && HasTable(s, w)
    requires v != w && w !in Entries(s)
    ensures var r := Share(s, v, w);
      && Inv(r, held)
      && Names(r) == (if v in Names(s) then Names(s)[w := Names(s)[v]] else Names(s))
      && View(r) == (if v in View(s) then View(s)[w := View(s)[v]] else View(s))
  {
    Spaces(s, held);
    TablesApart(Entries(s), s.dir, s.count, held);
    assert v in Entries(s) <==> Entry(s, v).p;
    assert v in Entries(s) ==> Entries(s)[v].page < HIGH;
    hide Entries, Names, View, Core, TablesDistinct, TablesPrivate, EntryIn;
    if v in Entries(s) {
      ShareNames(s, v, w);
      ShareInv(s, held, v, w);
    }
  }

  lemma ShareCount(s: Mem, v: nat, w: nat)
    requires Sized(s) && v < VPAGES && w < VPAGES && HasTable(s, v) && HasTable(s, w)
    ensures var r := Share(s, v, w);
      var e := Entry(s, v);
      && (e.p && LOW <= e.page < HIGH ==> r.count == s.count[e.page - LOW := (s.count[e.page - LOW] + 1) % 0x10000])
      && (e.p && e.page < LOW ==> r.count == s.count)
  {
  }

  /** The keys of the view are the keys of the names, and all are user pages. */
  lemma Spaces(s: Mem, held: multiset<nat>)
    requires Inv(s, held)
    ensures InSpace(Names(s)) && InSpace(View(s))
    ensures forall v :: v in Entries(s) <==> v in View(s)
    ensures forall v :: v in Entries(s) <==> v in Names(s)
  {
  }

  lemma ShareEntriesUnfold(s: Mem, f: nat, t: nat, i: nat)
    requires Sized(s) && f < ENTRIES && t < ENTRIES && i < 1024
    requires s.dir[f].p && s.dir[f].page < HIGH && s.dir[t].p && s.dir[t].page < HIGH
    ensures ShareEntries(s, f, t, 0) == s
    ensures var c := ShareEntries(s, f, t, i);
      && HasTable(c, f * 1024 + i) && HasTable(c, t * 1024 + i)
      && ShareEntries(s, f, t, i + 1) == Share(c, f * 1024 + i, t * 1024 + i)
  {
    hide Share;
    var c := ShareEntries(s, f, t, i);
    TableUnder(c, f, i);
    TableUnder(c, t, i);
  }

  lemma TableUnder(s: Mem, d: nat, i: nat)
    requires Sized(s) && d < ENTRIES && i < 1024 && s.dir[d].p && s.dir[d].page < HIGH
    ensures d * 1024 + i < VPAGES && HasTable(s, d * 1024 + i)
  {
    assert (d * 1024 + i) / 1024 == d;
  }

  ghost predicate CanShare(s: Mem, f: nat, t: nat) {
    && Sized(s) && SLOT_DIRS <= f < ENTRIES && SLOT_DIRS <= t < ENTRIES && f != t
    && s.dir[f].p && s.dir[f].page < HIGH && s.dir[t].p && s.dir[t].page < HIGH
    && (t - f) % SLOT_DIRS == 0
  }

  lemma {:induction false} ShareEntriesKeeps(s: Mem, held: multiset<nat>, f: nat, t: nat, n: nat)
    requires Inv(s, held) && CanShare(s, f, t) && n <= 1024 && NoneIn(Names(s), t * 1024, n)
    ensures var r := ShareEntries(s, f, t, n);
      && Inv(r, held)
      && Names(r) == Shared(Names(s), f * 1024, t * 1024, n) && View(r) == Shared(View(s), f * 1024, t * 1024, n)
  {
    hide *;
    if n == 0 {
      ShareNone(s, held, f, t);
    } else {
      ShareReady(s, held, f, t, n - 1);
      ShareEntriesKeeps(s, held, f, t, n - 1);
      var c, from, to := ShareEntries(s, f, t, n - 1), f * 1024, t * 1024;
      SharedMore(Names(s), from, to, n - 1);
      SharedMore(View(s), from, to, n - 1);
      Spaces(c, held);
      ShareKeeps(c, held, from + (n - 1), to + (n - 1));
    }
  }

  lemma ShareNone(s: Mem, held: multiset<nat>, f: nat, t: nat)
    requires Inv(s, held) && CanShare(s, f, t)
    ensures ShareEntries(s, f, t, 0) == s
    ensures Names(s) == Shared(Names(s), f * 1024, t * 1024, 0) && View(s) == Shared(View(s), f * 1024, t * 1024, 0)
  {
    Spaces(s, held);
    hide Names, View, Inv;
    SharedNone(Names(s), f * 1024, t * 1024);
    SharedNone(View(s), f * 1024, t * 1024);
  }

  /** All that the next step of the sharing loop relies on. */
  lemma ShareReady(s: Mem, held: multiset<nat>, f: nat, t: nat, i: nat)
    requires Inv(s, held) && CanShare(s, f, t) && i < 1024 && NoneIn(Names(s), t * 1024, i + 1)
    ensures |s.dir| == ENTRIES && f < ENTRIES && t < ENTRIES && i < ENTRIES
    ensures s.dir[f].p && s.dir[f].page < HIGH && s.dir[t].p && s.dir[t].page < HIGH
    ensures Sized(s) && NoneIn(Names(s), t * 1024, i)
    ensures InSpace(Names(s)) && InSpace(View(s)) && NoneIn(View(s), t * 1024, i + 1)
    ensures User(f * 1024 + i) && User(t * 1024 + i) && f * 1024 + i < VPAGES && t * 1024 + i < VPAGES
    ensures f * 1024 + i < t * 1024 || t * 1024 + i < f * 1024
    ensures (f * 1024 + i) % SLOT == (t * 1024 + i) % SLOT
    ensures var c := ShareEntries(s, f, t, i);
      && Sized(c) && HasTable(c, f * 1024 + i) && HasTable(c, t * 1024 + i)
      && ShareEntries(s, f, t, i + 1) == Share(c, f * 1024 + i, t * 1024 + i)
  {
    Spaces(s, held);
    hide Inv, Entries, Names, View;
    ShareEntriesUnfold(s, f, t, i);
    SameOffset(f, t, i);
  }

  lemma SameOffset(f: nat, t: nat, i: nat)
    requires (t - f) % SLOT_DIRS == 0
    ensures (f * 1024 + i) % SLOT == (t * 1024 + i) % SLOT
  {
    var q := (t - f) / SLOT_DIRS;
    assert t * 1024 + i == f * 1024 + i + SLOT * q;
  }

  // ---------- copying directory entries ----------

  /** What `copy_page_tables` finds when fork calls it: task slots at the same offset,
      and nothing yet in the destination. */
  ghost predicate CanCopy(s: Mem, f: nat, t: nat, n: nat) {
    && Sized(s) && SLOT_DIRS <= f && SLOT_DIRS <= t && f + n <= ENTRIES && t + n <= ENTRIES
    && (f + n <= t || t + n <= f) && (t - f) % SLOT_DIRS == 0
    && forall d :: t <= d < t + n ==> !s.dir[d].p
  }

  /** The directory changes only inside `t .. t + n`. */
  ghost predicate DirKeptOutside(a: seq<Word>, b: seq<Word>, t: nat, n: nat) {
    |a| == |b| && forall d :: 0 <= d < |a| && !(t <= d < t + n) ==> a[d] == b[d]
  }

  lemma FreshDirIsEmpty(s: Mem, held: multiset<nat>, d: nat)
    requires Inv(s, held) && d < ENTRIES && !s.dir[d].p
    ensures NoneIn(Names(s), d * 1024, 1024) && NoneIn(View(s), d * 1024, 1024)
    ensures InSpace(Names(s)) && InSpace(View(s))
  {
    Spaces(s, held);
    NoTableNoEntries(s, d);
  }

  lemma CopyDirKeeps(s: Mem, held: multiset<nat>, f: nat, t: nat)
    requires Inv(s, held) && CanCopy(s, f, t, 1)
    ensures var (r, st) := CopyDir(s, f, t);
      && Inv(r, held) && st != Panic && DirKeptOutside(s.dir, r.dir, t, 1)
      && (st == Done ==>
           && Names(r) == Shared(Names(s), f * 1024, t * 1024, 1024)
           && View(r) == Shared(View(s), f * 1024, t * 1024, 1024))
      && (st == NoMemory ==> r == s)
  {
    FreshDirIsEmpty(s, held, t);
    if !s.dir[f].p {
      FreshDirIsEmpty(s, held, f);
      SharedNothing(Names(s), f * 1024, t * 1024, 1024);
      SharedNothing(View(s), f * 1024, t * 1024, 1024);
    } else {
      TableInRam(s, held, f);
      var (a, ok) := NewTable(s, t);
      NewTableKeeps(s, held, t);
      hide Inv, Entries, Names, View, Shared, NewTable, ShareEntries, NoneIn;
      if ok {
        NamesFromEntries(s, a);
        ShareEntriesKeeps(a, held, f, t, 1024);
      }
    }
  }

  lemma NamesFromEntries(s: Mem, a: Mem)
    requires Sized(s) && Sized(a) && Entries(a) == Entries(s)
    ensures Names(a) == Names(s)
  {
  }
}
