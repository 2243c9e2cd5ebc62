/** When the paging operations succeed: each needs a number of free pages that can be counted
    before it starts, and fails exactly when there are fewer. */
module PageSupply {
  import opened PageModel
  import opened PageInvariant
  import opened PageSteps
  import opened PageFork
  import opened PageFaults

  /** The pages nobody holds. */
  function Zeros(count: seq<nat>): set<int> {
    set i | 0 <= i < |count| && count[i] == 0
  }

  function Free(count: seq<nat>): nat {
    |Zeros(count)|
  }

  /** The page tables among `n` directory entries from `f`. */
  function Present(dir: seq<Word>, f: nat, n: nat): set<int>
    requires f + n <= |dir|
  {
    set d | f <= d < f + n && dir[d].p
  }

  // ---------- taking a page ----------

  lemma TakingTakesOne(s: Mem)
    requires Sized(s)
    ensures var (g, k) := GetFree(s);
      && (k != 0 <==> Free(s.count) > 0)
      && (k != 0 ==> k >= LOW && k - LOW in Zeros(s.count) && Zeros(g.count) == Zeros(s.count) - {k - LOW}
                     && Free(g.count) == Free(s.count) - 1)
  {
    hide FirstFree;
    var i := NextFit(s);
    if i < PAGES {
      var c := s.count[i := 1];
      assert i in Zeros(s.count);
      assert Zeros(c) == Zeros(s.count) - {i};
    } else {
      assert Zeros(s.count) == {};
    }
  }

  /** How far page `i` is from where the last search ended, going round. */
  function Ahead(from: nat, i: nat): int {
    if i >= from then i - from else i + 1536 - from
  }

  /** No free page is nearer than the next fit. */
  lemma NextFitIsNearest(s: Mem, j: nat)
    requires Sized(s) && NextFit(s) < 1536 && j < 1536 && Ahead(s.hint, j) < Ahead(s.hint, NextFit(s))
    ensures s.count[j] != 0
  {
    var a, b := FirstFree(s.count, s.hint, PAGES), FirstFree(s.count, 0, s.hint);
    hide FirstFree, Frames;
  }

  lemma TakenIs(s: Mem)
    requires Sized(s) && GetFree(s).1 != 0
    ensures var (g, k) := GetFree(s); k == 512 + NextFit(s) && NextFit(s) < 1536 && g.hint == (NextFit(s) + 1) % 1536
  {
    hide NextFit, Frames;
  }

  /** The page handed out is the nearest free one in that order, and the next search starts behind it. */
  lemma NearestIsTaken(s: Mem)
    requires Sized(s) && GetFree(s).1 != 0
    ensures var (g, k) := GetFree(s); var i := k - 512;
      && 0 <= i < 1536 && Ahead(g.hint, i) == 1535
      && forall j: nat :: j < 1536 && Ahead(s.hint, j) < Ahead(s.hint, i) ==> s.count[j] != 0
  {
    hide GetFree, NextFit, Frames;
    TakenIs(s);
    forall j: nat | j < 1536 && Ahead(s.hint, j) < Ahead(s.hint, NextFit(s))
      ensures s.count[j] != 0
    {
      NextFitIsNearest(s, j);
    }
  }

  /** A page is free when nothing at all names it. */
  lemma FreeIsUnnamed(s: Mem, held: multiset<nat>, i: nat)
    requires Inv(s, held) && i < PAGES
    ensures s.count[i] == 0 <==>
      held[LOW + i] == 0 && Tables(s.dir, LOW + i) == {} && forall v :: v in Names(s) ==> Names(s)[v] != LOW + i
  {
    var es, k := Entries(s), LOW + i;
    assert s.count[k - LOW] == Uses(es, s.dir, held, k);
    assert forall v :: v in Refs(es, k) <==> v in Names(s) && Names(s)[v] == k;
    hide Entries, Uses, Core;
    CountIsSum(s, held, k);
  }

  lemma CountIsSum(s: Mem, held: multiset<nat>, k: nat)
    requires Inv(s, held) && LOW <= k < HIGH
    ensures |s.count| == PAGES && s.count[k - LOW] == |Refs(Entries(s), k)| + |Tables(s.dir, k)| + held[k]
  {
    assert s.count[k - LOW] == Uses(Entries(s), s.dir, held, k);
  }

  /** Sharing names no page that was not named before. */
  lemma SharingIsFree(a: Mem, r: Mem, held: multiset<nat>, from: nat, to: nat, n: nat)
    requires Inv(a, held) && Inv(r, held) && r.dir == a.dir
    requires InSpace(Names(a)) && NoneIn(Names(a), to, n) && Names(r) == Shared(Names(a), from, to, n)
    ensures Zeros(r.count) == Zeros(a.count)
  {
    hide Inv, Names;
    Lengths(a, held);
    Lengths(r, held);
    forall i | 0 <= i < PAGES
      ensures r.count[i] == 0 <==> a.count[i] == 0
    {
      FreeIsUnnamed(a, held, i);
      FreeIsUnnamed(r, held, i);
      SameNamed(Names(a), from, to, n, LOW + i);
    }
  }

  lemma Lengths(s: Mem, held: multiset<nat>)
    requires Inv(s, held)
    ensures Sized(s) && |s.count| == PAGES && |s.dir| == ENTRIES
  {
  }

  lemma SameNamed(m: map<int, nat>, from: nat, to: nat, n: nat, k: nat)
    requires InSpace(m) && NoneIn(m, to, n)
    ensures var c := Shared(m, from, to, n);
      (exists v :: v in c && c[v] == k) <==> (exists v :: v in m && m[v] == k)
  {
    var c := Shared(m, from, to, n);
    if v :| v in c && c[v] == k {
      assert Source(v, from, to, n) in m && m[Source(v, from, to, n)] == k;
    }
    if v :| v in m && m[v] == k {
      assert Source(v, from, to, n) == v;
      assert v in c && c[v] == k;
    }
  }

  // ---------- copy_page_tables ----------

  /** One directory entry: nothing is needed where the source has no table, and one page where
      it has. */
  lemma DirSucceedsExactlyWhen(s: Mem, held: multiset<nat>, f: nat, t: nat)
    requires Inv(s, held) && CanCopy(s, f, t, 1)
    ensures var (r, st) := CopyDir(s, f, t); var need := if s.dir[f].p then 1 else 0;
      && (st == Done <==> need <= Free(s.count))
      && (st == Done ==> Free(r.count) == Free(s.count) - need)
  {
    if s.dir[f].p {
      TableInRam(s, held, f);
      TakingTakesOne(s);
      if GetFree(s).1 != 0 {
        TableTaken(s, held, f, t);
      }
    }
  }

  lemma TableTaken(s: Mem, held: multiset<nat>, f: nat, t: nat)
    requires Inv(s, held) && CanCopy(s, f, t, 1) && s.dir[f].p && NewTable(s, t).1
    ensures var (a, _) := NewTable(s, t);
      a.dir[f].p && a.dir[f].page < HIGH && a.dir[t].p && a.dir[t].page < HIGH
    ensures var (a, _) := NewTable(s, t); Zeros(ShareEntries(a, f, t, 1024).count) == Zeros(a.count)
  {
    TableInRam(s, held, f);
    FreshDirIsEmpty(s, held, t);
    var (a, ok) := NewTable(s, t);
    NewTableKeeps(s, held, t);
    hide Inv, Entries, Names, View, Shared, NewTable, ShareEntries, NoneIn;
    NamesFromEntries(s, a);
    ShareEntriesKeeps(a, held, f, t, 1024);
    SharingKeepsDir(a, f, t);
    SharingIsFree(a, ShareEntries(a, f, t, 1024), held, f * 1024, t * 1024, 1024);
  }

  lemma SharingKeepsDir(a: Mem, f: nat, t: nat)
    requires Sized(a) && f < ENTRIES && t < ENTRIES
    requires a.dir[f].p && a.dir[f].page < HIGH && a.dir[t].p && a.dir[t].page < HIGH
    ensures ShareEntries(a, f, t, 1024).dir == a.dir
  {
  }

  lemma MorePresent(dir: seq<Word>, f: nat, n: nat)
    requires f + n < |dir|
    ensures |Present(dir, f, n + 1)| == |Present(dir, f, n)| + if dir[f + n].p then 1 else 0
  {
    var a, b := Present(dir, f, n + 1), Present(dir, f, n);
    var last := if dir[f + n].p then {f + n} else {};
    forall d
      ensures d in a <==> d in b || d in last
    {
    }
    assert a == b + last && b * last == {};
  }

  /** The copy goes through exactly when there is a free page for each page table of the source;
      and it takes just those. */
  lemma {:induction false} CopySucceedsExactlyWhen(s: Mem, held: multiset<nat>, f: nat, t: nat, n: nat)
    requires Inv(s, held) && CanCopy(s, f, t, n)
    ensures var (r, st) := CopyDirs(s, f, t, n); var need := |Present(s.dir, f, n)|;
      && (st == Done <==> need <= Free(s.count))
      && (st == Done ==> Free(r.count) == Free(s.count) - need)
  {
    hide Inv, Entries, Names, View, Free, Copied, CopyDir;
    if n > 0 {
      CopyReady(s, held, f, t, n - 1);
      CopySucceedsExactlyWhen(s, held, f, t, n - 1);
      CopyDirsKeeps(s, held, f, t, n - 1);
      MorePresent(s.dir, f, n - 1);
      var (c, st) := CopyDirs(s, f, t, n - 1);
      if st == Done {
        DirSucceedsExactlyWhen(c, held, f + n - 1, t + n - 1);
      }
    } else {
      assert Present(s.dir, f, 0) == {};
    }
  }

  /** Only the destination's own entry of the directory changes. */
  lemma DirStays(s: Mem, f: nat, t: nat)
    requires Sized(s) && f < ENTRIES && t < ENTRIES
    ensures forall d :: 0 <= d < ENTRIES && d != t ==> CopyDir(s, f, t).0.dir[d] == s.dir[d]
  {
    hide GetFree;
  }

  /** A directory entry in use at the destination is never copied over. */
  lemma {:induction false} OccupiedStops(s: Mem, f: nat, t: nat, n: nat)
    requires Sized(s) && f + n <= ENTRIES && t + n <= ENTRIES
    ensures CopyDirs(s, f, t, n).1 == Done ==> Present(s.dir, t, n) == {}
    ensures CopyDirs(s, f, t, n).1 == Panic ==> Present(s.dir, t, n) != {}
    ensures forall d :: 0 <= d < ENTRIES && !(t <= d < t + n) ==> CopyDirs(s, f, t, n).0.dir[d] == s.dir[d]
  {
    hide CopyDir;
    if n > 0 {
      OccupiedStops(s, f, t, n - 1);
      var (c, st) := CopyDirs(s, f, t, n - 1);
      assert forall d :: d in Present(s.dir, t, n) <==> d in Present(s.dir, t, n - 1) || (d == t + n - 1 && s.dir[d].p);
      if st == Done {
        DirStays(c, f + n - 1, t + n - 1);
        OneStatus(c, f + n - 1, t + n - 1);
      }
    }
  }

  lemma OneStatus(s: Mem, f: nat, t: nat)
    requires Sized(s) && f < ENTRIES && t < ENTRIES
    ensures CopyDir(s, f, t).1 == Panic <==> s.dir[t].p
  {
    hide GetFree;
  }

  // ---------- fork and faults ----------

  /** A fork needs a page for the task and one for each page table, and nothing else. */
  lemma ForkSucceedsExactlyWhen(s: Mem, held: multiset<nat>, f: nat, t: nat, n: nat)
    requires Inv(s, held) && CanCopy(s, f, t, n)
    ensures Fork(s, f, t, n).1 != 0 <==> 1 + |Present(s.dir, f, n)| <= Free(s.count)
  {
    hide Inv, Entries, View, Free, GetFree, CopyDirs, FreeDirs;
    TakingTakesOne(s);
    var (g, k) := GetFree(s);
    if k != 0 {
      GetFreeKeeps(s, held);
      CopySucceedsExactlyWhen(g, held + multiset{k}, f, t, n);
    }
  }

  /** A demand fault needs the page, and a page table if there is none. */
  lemma DemandSucceedsExactlyWhen(s: Mem, held: multiset<nat>, v: nat)
    requires Inv(s, held) && User(v) && v !in Entries(s)
    ensures |s.dir| == ENTRIES
    ensures NoPage(s, v).1 <==> (if s.dir[v / 1024].p then 1 else 2) <= Free(s.count)
  {
    hide Entries, View, Free, GetFree;
    TakingTakesOne(s);
    var (g, k) := GetFree(s);
    if k != 0 {
      GetFreeKeeps(s, held);
      TakingTakesOne(g);
      if s.dir[v / 1024].p {
        TableInRam(s, held, v / 1024);
      }
    }
  }

  /** A write fault needs a page exactly if the one there is low memory or has other holders;
      otherwise it keeps its page. */
  lemma WriteSucceedsExactlyWhen(s: Mem, held: multiset<nat>, v: nat)
    requires Inv(s, held) && User(v) && v in Entries(s)
    ensures HasTable(s, v) && Entry(s, v).page < HIGH && Entry(s, v) == Entries(s)[v]
    ensures var p := Entry(s, v).page; var sole := p >= LOW && s.count[p - LOW] == 1;
      && (UnWp(s, v).1 <==> sole || 1 <= Free(s.count))
      && (sole ==> Entry(UnWp(s, v).0, v).page == p)
  {
    EntryKnown(s, held, v);
    var e := Entry(s, v);
    if e.page >= LOW && s.count[e.page - LOW] == 1 {
      UnprotectKeeps(s, held, v);
    } else {
      hide Entries, View, Free, WriteFaulted;
      TakingTakesOne(s);
      UnWpUnfold(s, held, v);
    }
  }

  /** Making a page writable ahead of a store fails only where a write fault would, and then
      nothing has changed. */
  lemma VerifySucceedsExactlyWhen(s: Mem, held: multiset<nat>, v: nat)
    requires Inv(s, held) && User(v)
    ensures v in Entries(s) ==> Entries(s)[v].page < HIGH
    ensures WriteVerify(s, v).1
       <==> v !in Entries(s) || Entries(s)[v].rw || 1 <= Free(s.count)
            || (Entries(s)[v].page >= LOW && s.count[Entries(s)[v].page - LOW] == 1)
    ensures !WriteVerify(s, v).1 ==> WriteVerify(s, v).0 == s
  {
    var e := Entry(s, v);
    assert e.p <==> v in Entries(s);
    if v in Entries(s) {
      EntryKnown(s, held, v);
      hide Entries, View, Inv, UnWp;
      if !e.rw {
        assert WriteVerify(s, v) == UnWp(s, v);
        WriteSucceedsExactlyWhen(s, held, v);
        FailsUnchanged(s, held, v);
      }
    } else {
      hide Entries, View, Inv, UnWp;
    }
  }

  lemma FailsUnchanged(s: Mem, held: multiset<nat>, v: nat)
    requires Inv(s, held) && User(v) && v in Entries(s) && HasTable(s, v) && Entry(s, v) == Entries(s)[v] && Entry(s, v).page < HIGH
    ensures !UnWp(s, v).1 ==> UnWp(s, v).0 == s
  {
    if (Entry(s, v).page >= LOW ==> s.count[Entry(s, v).page - LOW] != 1) && GetFree(s).1 != 0 {
      hide Entries, View, Inv;
      UnWpUnfold(s, held, v);
    }
  }

  /** A page whose count is 1 is entered exactly if there is a page table or a free page for one. */
  lemma PutSucceedsExactlyWhen(s: Mem, held: multiset<nat>, page: nat, v: nat)
    requires Inv(s, held) && User(v) && page < HIGH
    ensures |s.count| == PAGES && |s.dir| == ENTRIES
    ensures PutPage(s, page, v).1 <==> page >= LOW && s.count[page - LOW] == 1 && (s.dir[v / 1024].p || 1 <= Free(s.count))
  {
    hide Entries, View, Free, GetFree;
    TakingTakesOne(s);
    if s.dir[v / 1024].p {
      TableInRam(s, held, v / 1024);
    }
  }
}
