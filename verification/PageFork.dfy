/** Fork, its rollback, page faults and stores: what each leaves in every address space. */
module PageFork {
  import opened PageModel
  import opened PageInvariant
  import opened PageCore
  import opened PageSteps

  // ---------- copy_page_tables ----------

  lemma EmptyRange(s: Mem, held: multiset<nat>, t: nat, n: nat)
    requires Inv(s, held) && t + n <= ENTRIES && forall d :: t <= d < t + n ==> !s.dir[d].p
    ensures NoneIn(Names(s), t * 1024, n * 1024) && NoneIn(View(s), t * 1024, n * 1024)
    ensures InSpace(Names(s)) && InSpace(View(s))
  {
    Spaces(s, held);
    forall v | t * 1024 <= v < t * 1024 + n * 1024
      ensures v !in Entries(s)
    {
      assert t <= v / 1024 < t + n;
    }
  }

  lemma StillUndone<T>(m: map<int, T>, m0: map<int, T>, lo: nat, n: nat, k: nat)
    requires Without(m, lo, n) == m0 && NoneIn(m0, lo, n + k)
    ensures Without(m, lo, n + k) == m0
  {
    WithoutRun(m, lo, n, k);
    WithoutAbsent(m0, lo + n, k);
  }

  /** The copy so far: shared when it went through, and in any case undone by freeing `t .. t + n`. */
  ghost predicate Copied(s: Mem, r: Mem, st: Status, f: nat, t: nat, n: nat)
    requires Sized(s) && Sized(r)
  {
    && st != Panic
    && Without(Names(r), t * 1024, n * 1024) == Names(s)
    && Without(View(r), t * 1024, n * 1024) == View(s)
    && (st == Done ==>
          && Names(r) == Shared(Names(s), f * 1024, t * 1024, n * 1024)
          && View(r) == Shared(View(s), f * 1024, t * 1024, n * 1024))
  }

  lemma {:induction false} CopyDirsKeeps(s: Mem, held: multiset<nat>, f: nat, t: nat, n: nat)
    requires Inv(s, held) && CanCopy(s, f, t, n)
    ensures var (r, st) := CopyDirs(s, f, t, n);
      && Inv(r, held) && DirKeptOutside(s.dir, r.dir, t, n) && Copied(s, r, st, f, t, n)
  {
    hide *;
    if n == 0 {
      CopyNone(s, held, f, t);
    } else {
      CopyReady(s, held, f, t, n - 1);
      CopyDirsKeeps(s, held, f, t, n - 1);
      var (c, st) := CopyDirs(s, f, t, n - 1);
      if st == Done {
        CopyOneMore(s, c, held, f, t, n - 1);
      } else {
        CopyStopped(s, c, st, f, t, n - 1);
      }
    }
  }

  lemma CopyNone(s: Mem, held: multiset<nat>, f: nat, t: nat)
    requires Inv(s, held) && CanCopy(s, f, t, 0)
    ensures CopyDirs(s, f, t, 0) == (s, Done)
    ensures DirKeptOutside(s.dir, s.dir, t, 0) && Copied(s, s, Done, f, t, 0)
  {
    Spaces(s, held);
    hide Inv, Entries, Names, View, Shared, Without;
    SharedNone(Names(s), f * 1024, t * 1024);
    SharedNone(View(s), f * 1024, t * 1024);
    WithoutNone(Names(s), t * 1024);
    WithoutNone(View(s), t * 1024);
  }

  lemma CopyReady(s: Mem, held: multiset<nat>, f: nat, t: nat, i: nat)
    requires Inv(s, held) && CanCopy(s, f, t, i + 1)
    ensures Sized(s) && CanCopy(s, f, t, i) && f + i + 1 <= ENTRIES && t + i + 1 <= ENTRIES
    ensures InSpace(Names(s)) && InSpace(View(s))
    ensures NoneIn(Names(s), t * 1024, (i + 1) * 1024) && NoneIn(View(s), t * 1024, (i + 1) * 1024)
    ensures var (c, st) := CopyDirs(s, f, t, i);
      Sized(c) && CopyDirs(s, f, t, i + 1) == if st == Done then CopyDir(c, f + i, t + i) else (c, st)
    ensures var (c, st) := CopyDirs(s, f, t, i);
      DirKeptOutside(s.dir, c.dir, t, i) ==> DirKeptOutside(s.dir, c.dir, t, i + 1)
  {
    EmptyRange(s, held, t, i + 1);
    hide Inv, Entries, Names, View, NoneIn, InSpace;
  }

  lemma CopyOneMore(s: Mem, c: Mem, held: multiset<nat>, f: nat, t: nat, i: nat)
    requires Sized(s) && Sized(c) && Inv(c, held) && CanCopy(s, f, t, i + 1)
    requires DirKeptOutside(s.dir, c.dir, t, i) && Copied(s, c, Done, f, t, i)
    requires NoneIn(Names(s), t * 1024, (i + 1) * 1024) && NoneIn(View(s), t * 1024, (i + 1) * 1024)
    requires InSpace(Names(s)) && InSpace(View(s))
    ensures var (r, st) := CopyDir(c, f + i, t + i);
      && Inv(r, held) && DirKeptOutside(s.dir, r.dir, t, i + 1) && Copied(s, r, st, f, t, i + 1)
  {
    hide Inv, Entries, Names, View, Shared, Without, NoneIn, InSpace, CopyDir, Frames;
    CopyDirKeeps(c, held, f + i, t + i);
    CopyMore(Names(s), f, t, i);
    CopyMore(View(s), f, t, i);
    StillUndone(Names(c), Names(s), t * 1024, i * 1024, 1024);
    StillUndone(View(c), View(s), t * 1024, i * 1024, 1024);
  }

  lemma CopyStopped(s: Mem, c: Mem, st: Status, f: nat, t: nat, i: nat)
    requires Sized(s) && Sized(c) && st != Done && Copied(s, c, st, f, t, i)
    requires NoneIn(Names(s), t * 1024, (i + 1) * 1024) && NoneIn(View(s), t * 1024, (i + 1) * 1024)
    ensures Copied(s, c, st, f, t, i + 1)
  {
    hide Entries, Names, View, Shared, Without, NoneIn, Sized;
    StillUndone(Names(c), Names(s), t * 1024, i * 1024, 1024);
    StillUndone(View(c), View(s), t * 1024, i * 1024, 1024);
  }

  lemma CopyMore<T>(m: map<int, T>, f: nat, t: nat, n: nat)
    requires InSpace(m) && NoneIn(m, t * 1024, (n + 1) * 1024) && t + n + 1 <= ENTRIES
    requires f + n + 1 <= t || t + n + 1 <= f
    ensures Shared(Shared(m, f * 1024, t * 1024, n * 1024), (f + n) * 1024, (t + n) * 1024, 1024)
         == Shared(m, f * 1024, t * 1024, (n + 1) * 1024)
    ensures Without(Shared(m, f * 1024, t * 1024, (n + 1) * 1024), t * 1024, (n + 1) * 1024) == m
  {
    hide Shared, Without, InSpace, NoneIn;
    SharedRun(m, f * 1024, t * 1024, n * 1024, 1024);
    SharedUndone(m, f * 1024, t * 1024, (n + 1) * 1024);
  }

  // ---------- fork ----------

  /** Counts are determined by the holders. */
  lemma SameHoldersSameCounts(s: Mem, r: Mem, held: multiset<nat>)
    requires Inv(s, held) && Inv(r, held) && Names(r) == Names(s)
    requires forall d :: 0 <= d < ENTRIES ==> r.dir[d].p == s.dir[d].p
    requires forall d :: 0 <= d < ENTRIES && s.dir[d].p ==> r.dir[d] == s.dir[d]
    ensures r.count == s.count
  {
    forall i | 0 <= i < PAGES
      ensures r.count[i] == s.count[i]
    {
      var k := LOW + i;
      assert r.count[k - LOW] == Uses(Entries(r), r.dir, held, k);
      assert s.count[k - LOW] == Uses(Entries(s), s.dir, held, k);
      RefsByName(Entries(r), Entries(s), k);
      assert Tables(r.dir, k) == Tables(s.dir, k);
    }
  }

  lemma RefsByName(a: map<int, Word>, b: map<int, Word>, k: nat)
    requires NamesOf(a) == NamesOf(b)
    ensures Refs(a, k) == Refs(b, k)
  {
    assert forall v :: v in a <==> v in NamesOf(a);
    assert forall v :: v in b <==> v in NamesOf(b);
    assert forall v :: v in a ==> a[v].page == NamesOf(a)[v];
    assert forall v :: v in b ==> b[v].page == NamesOf(b)[v];
  }

  lemma ForkWorks(s: Mem, held: multiset<nat>, f: nat, t: nat, n: nat)
    requires Inv(s, held) && CanCopy(s, f, t, n)
    ensures var (r, task) := Fork(s, f, t, n);
      task != 0 ==>
        && LOW <= task < HIGH && held[task] == 0
        && Inv(r, held + multiset{task})
        && Names(r) == Shared(Names(s), f * 1024, t * 1024, n * 1024)
        && View(r) == Shared(View(s), f * 1024, t * 1024, n * 1024)
        && DirKeptOutside(s.dir, r.dir, t, n)
  {
    var (g, k) := GetFree(s);
    if k != 0 {
      GetFreeKeeps(s, held);
      NamesFromEntries(s, g);
      CopyDirsKeeps(g, held + multiset{k}, f, t, n);
    }
  }

  /** A fork that runs out of memory part way leaves every count, every directory entry
      and everything anyone reads as it was. */
  lemma ForkUndone(s: Mem, held: multiset<nat>, f: nat, t: nat, n: nat)
    requires Inv(s, held) && CanCopy(s, f, t, n)
    requires Fork(s, f, t, n).1 == 0
    ensures var r := Fork(s, f, t, n).0;
      && Inv(r, held) && r.count == s.count && Names(r) == Names(s) && View(r) == View(s)
      && forall d :: 0 <= d < ENTRIES ==> r.dir[d].p == s.dir[d].p && (s.dir[d].p ==> r.dir[d] == s.dir[d])
  {
    var (g, k) := GetFree(s);
    if k != 0 {
      GetFreeKeeps(s, held);
      NamesFromEntries(s, g);
      CopyDirsKeeps(g, held + multiset{k}, f, t, n);
      var (c, st) := CopyDirs(g, f, t, n);
      RollBack(s, g, c, held, f, t, n, k);
    }
  }

  lemma RollBack(s: Mem, g: Mem, c: Mem, held: multiset<nat>, f: nat, t: nat, n: nat, k: nat)
    requires Inv(s, held) && CanCopy(s, f, t, n) && LOW <= k < HIGH
    requires Sized(g) && g.dir == s.dir && Names(g) == Names(s) && View(g) == View(s)
    requires Inv(c, held + multiset{k}) && DirKeptOutside(g.dir, c.dir, t, n)
    requires Without(Names(c), t * 1024, n * 1024) == Names(s) && Without(View(c), t * 1024, n * 1024) == View(s)
    ensures var r := Release(FreeDirs(c, t, n), k);
      && Inv(r, held) && r.count == s.count && Names(r) == Names(s) && View(r) == View(s)
      && forall d :: 0 <= d < ENTRIES ==> r.dir[d].p == s.dir[d].p && (s.dir[d].p ==> r.dir[d] == s.dir[d])
  {
    var h := held + multiset{k};
    FreeDirsKeeps(c, h, t, n);
    var x := FreeDirs(c, t, n);
    assert Names(x) == Names(s) by {
      NamesWithout(c, x, t * 1024, n * 1024);
    }
    ReleaseHeldKeeps(x, h, k);
    var r := Release(x, k);
    assert h - multiset{k} == held;
    NamesFromEntries(x, r);
    SameHoldersSameCounts(s, r, held);
  }

  lemma NamesWithout(c: Mem, x: Mem, lo: nat, n: nat)
    requires Sized(c) && Sized(x) && Entries(x) == Without(Entries(c), lo, n)
    ensures Names(x) == Without(Names(c), lo, n)
  {
  }
}
