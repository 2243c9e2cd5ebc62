/** Page faults and stores: a store reaches only the address space that made it. */
module PageFaults {
  import opened PageModel
  import opened PageInvariant
  import opened PageCore
  import opened PageSteps
  import opened PageFork

  // ---------- demand faults ----------

  lemma InstallPage(s: Mem, held: multiset<nat>, v: nat, k: nat)
    requires Inv(s, held) && User(v) && HasTable(s, v) && v !in Entries(s)
    requires LOW <= k < HIGH && held[k] == 1 && s.count[k - LOW] == 1
    ensures var r := PutEntry(s, v, Full(k));
      && Inv(r, held - multiset{k})
      && Entries(r) == Entries(s)[v := Full(k)] && View(r) == View(s)[v := s.frames[k]]
  {
    var es := Entries(s);
    HeldIsApart(es, s.dir, s.count, held, k);
    TablesApart(es, s.dir, s.count, held);
    assert TablesPrivate(es[v := Full(k)], s.dir) by {
      var es' := es[v := Full(k)];
      forall d, u
        ensures NotTheTable(es', s.dir, d, u)
      {
        assert NotTheTable(es, s.dir, d, u);
      }
    }
    Install(es, s.dir, s.count, held, v, k);
    var r := PutEntry(s, v, Full(k));
    assert Sized(r) && r.dir == s.dir && r.count == s.count;
    hide *;
    PutEntryMap(s, v, Full(k));
    PutEntryContents(s, v, Full(k), es[v := Full(k)]);
    ContentsMore(es, s.frames, v, Full(k));
    ViewIs(s);
    ViewIs(r);
    InvFrom(r, held - multiset{k}, es[v := Full(k)]);
  }

  lemma ViewIs(s: Mem)
    requires Sized(s)
    ensures View(s) == Contents(Entries(s), s.frames)
  {
  }

  /** The outcome of a demand fault: a zero page appears at `v`, or nothing changes. */
  lemma NoPageKeeps(s: Mem, held: multiset<nat>, v: nat)
    requires Inv(s, held) && User(v) && v !in Entries(s)
    ensures var (r, ok) := NoPage(s, v);
      && Inv(r, held)
      && (ok ==> View(r) == View(s)[v := ZeroPage()])
      && (!ok ==> r.count == s.count && r.dir == s.dir && Entries(r) == Entries(s) && View(r) == View(s))
  {
    hide Inv, Entries, View, Core, Frames, EntryIn, GetFree, NewTable, Release;
    SizedUser(s, held, v);
    var (g, k) := GetFree(s);
    if k != 0 {
      GetFreeKeeps(s, held);
      var h := held + multiset{k};
      assert h - multiset{k} == held;
      var d := v / 1024;
      SizedUser(g, h, v);
      if g.dir[d].p {
        TableInRam(g, h, d);
        InstallPage(g, h, v, k);
      } else {
        NewTableKeeps(g, h, d);
        var (a, ok) := NewTable(g, d);
        if ok {
          KeptFrame(g, h, d, k);
          InstallPage(a, h, v, k);
        } else {
          ReleaseHeldKeeps(g, h, k);
          GivenBack(s, held);
        }
      }
    }
  }

  /** Giving back the page just taken. */
  lemma GivenBack(s: Mem, held: multiset<nat>)
    requires Inv(s, held) && GetFree(s).1 != 0
    ensures Release(GetFree(s).0, GetFree(s).1).count == s.count
  {
    hide Core, Entries, Frames;
  }

  lemma KeptFrame(g: Mem, h: multiset<nat>, d: nat, k: nat)
    requires Inv(g, h) && SLOT_DIRS <= d < ENTRIES && LOW <= k < HIGH && g.count[k - LOW] == 1 && NewTable(g, d).1
    ensures var a := NewTable(g, d).0;
      a.frames[k] == g.frames[k] && a.count[k - LOW] == 1
  {
  }

  // ---------- write faults ----------

  lemma UnprotectKeeps(s: Mem, held: multiset<nat>, v: nat)
    requires Inv(s, held) && User(v) && v in Entries(s)
    requires LOW <= Entries(s)[v].page < HIGH && s.count[Entries(s)[v].page - LOW] == 1
    ensures HasTable(s, v)
    ensures var r := PutEntry(s, v, Entries(s)[v].(rw := true));
      && Inv(r, held) && View(r) == View(s) && Entries(r) == Entries(s)[v := Entries(s)[v].(rw := true)]
  {
    var es := Entries(s);
    var e := es[v].(rw := true);
    TablesApart(es, s.dir, s.count, held);
    Unprotect(es, s.dir, s.count, held, v);
    PrivateMore(es, s.dir, v, v, e);
    var r := PutEntry(s, v, e);
    assert HasTable(s, v) && Sized(r) && r.dir == s.dir && r.count == s.count && e.p;
    hide *;
    PutEntryMap(s, v, e);
    PutEntryContents(s, v, e, es[v := e]);
    ContentsByName(es, s.frames, v, e);
    ViewIs(s);
    ViewIs(r);
    InvFrom(r, held, es[v := e]);
  }

  /** The copying half of `un_wp_page`, after a free page `k` has been taken. */
  function CopyOut(g: Mem, v: nat, k: nat): (r: Mem)
    requires Sized(g) && v < VPAGES && HasTable(g, v) && Entry(g, v).page < HIGH && k < HIGH
    ensures Sized(r)
  {
    var was := Entry(g, v).page;
    var b := PutEntry(Release(g, was), v, Full(k));
    b.(frames := b.frames[k := b.frames[was]])
  }

  lemma ReplaceCore(es: map<int, Word>, dir: seq<Word>, count: seq<nat>, held: multiset<nat>, v: int, k: nat)
    requires Core(es, dir, count, held) && v in es
    requires LOW <= k < HIGH && held[k] == 1 && count[k - LOW] == 1
    requires es[v].page >= LOW ==> count[es[v].page - LOW] != 1
    ensures var p := es[v].page;
      && p != k && p < HIGH && (p >= LOW ==> count[p - LOW] > 0)
      && Core(es[v := Full(k)], dir, if p < LOW then count else count[p - LOW := count[p - LOW] - 1], held - multiset{k})
  {
    HeldIsApart(es, dir, count, held, k);
    Remove(es, dir, count, held, v);
    var p := es[v].page;
    var c := if p < LOW then count else count[p - LOW := count[p - LOW] - 1];
    Install(es - {v}, dir, c, held, v, k);
    assert (es - {v})[v := Full(k)] == es[v := Full(k)];
  }

  lemma CopyOutContents(es: map<int, Word>, f: seq<seq<Word>>, g: seq<seq<Word>>, v: int, k: nat)
    requires v in es && es[v].page < |f| == |g| && k < |f|
    requires forall u :: u in es ==> es[u].page != k
    requires forall u :: u in es && es[u].page < |f| ==> g[es[u].page] == f[es[u].page]
    ensures Contents(es[v := Full(k)], g[k := g[es[v].page]]) == Contents(es, f)
  {
    var es', g' := es[v := Full(k)], g[k := g[es[v].page]];
    forall u | u in es && es[u].page < |f|
      ensures u in es' && es'[u].page < |g'| && g'[es'[u].page] == f[es[u].page]
    {
      assert g[es[u].page] == f[es[u].page];
    }
    assert forall u :: u in es' && es'[u].page < |g'| ==> u in es && es[u].page < |f|;
  }

  lemma CopyOutKeeps(g: Mem, held: multiset<nat>, v: nat, k: nat)
    requires Inv(g, held) && User(v) && v in Entries(g)
    requires LOW <= k < HIGH && held[k] == 1 && g.count[k - LOW] == 1
    requires Entries(g)[v].page >= LOW ==> Entries(g)[v].page < HIGH && g.count[Entries(g)[v].page - LOW] != 1
    ensures HasTable(g, v) && Entry(g, v) == Entries(g)[v] && Entry(g, v).page < HIGH
    ensures var r := CopyOut(g, v, k);
      && Inv(r, held - multiset{k}) && View(r) == View(g) && Entries(r) == Entries(g)[v := Full(k)]
  {
    var es := Entries(g);
    var was := es[v].page;
    var a := Release(g, was);
    var b := PutEntry(a, v, Full(k));
    var r := CopyOut(g, v, k);
    ReplaceCore(es, g.dir, g.count, held, v, k);
    CopyOutEntries(g, held, v, k);
    assert r.count == (if was < LOW then g.count else g.count[was - LOW := g.count[was - LOW] - 1]);
    assert r.dir == g.dir && Sized(r) && HasTable(g, v) && Entry(g, v) == es[v] && es[v].page < HIGH;
    hide *;
    ViewIs(g);
    ViewIs(r);
    InvFrom(r, held - multiset{k}, es[v := Full(k)]);
  }

  /** A page that is no page table may change without changing any entry. */
  lemma DataFrameEntries(b: Mem, k: nat, x: seq<Word>)
    requires Sized(b) && k < HIGH && |x| == ENTRIES
    requires forall d :: SLOT_DIRS <= d < ENTRIES && b.dir[d].p ==> b.dir[d].page != k
    ensures Entries(b.(frames := b.frames[k := x])) == Entries(b)
  {
    var r := b.(frames := b.frames[k := x]);
    forall u | User(u)
      ensures EntryIn(r.dir, r.frames, u) == EntryIn(b.dir, b.frames, u)
    {
    }
  }

  lemma CopyOutEntries(g: Mem, held: multiset<nat>, v: nat, k: nat)
    requires Inv(g, held) && User(v) && v in Entries(g)
    requires LOW <= k < HIGH && held[k] == 1 && g.count[k - LOW] == 1 && Entries(g)[v].page < HIGH
    ensures HasTable(g, v) && Entry(g, v) == Entries(g)[v]
    ensures var r := CopyOut(g, v, k);
      && Entries(r) == Entries(g)[v := Full(k)]
      && Contents(Entries(r), r.frames) == Contents(Entries(g), g.frames)
  {
    var es := Entries(g);
    var was := es[v].page;
    var a := Release(g, was);
    var b := PutEntry(a, v, Full(k));
    var r := CopyOut(g, v, k);
    HeldIsApart(es, g.dir, g.count, held, k);
    TablesApart(es, g.dir, g.count, held);
    assert Entries(a) == es;
    PutEntryMap(a, v, Full(k));
    FramesKept(a, v, Full(k), es);
    DataFrameEntries(b, k, b.frames[was]);
    CopyOutContents(es, g.frames, b.frames, v, k);
  }

  /** Writing a page table entry leaves every mapped page as it was. */
  lemma FramesKept(s: Mem, v: nat, w: Word, es: map<int, Word>)
    requires Sized(s) && User(v) && HasTable(s, v) && TablesPrivate(es, s.dir)
    ensures var r := PutEntry(s, v, w);
      forall u :: u in es && es[u].page < HIGH ==> r.frames[es[u].page] == s.frames[es[u].page]
  {
    forall u | u in es && es[u].page < HIGH
      ensures PutEntry(s, v, w).frames[es[u].page] == s.frames[es[u].page]
    {
      assert NotTheTable(es, s.dir, v / 1024, u);
    }
  }

  /** What a write fault at `v` leaves behind. */
  ghost predicate WriteFaulted(s: Mem, r: Mem, ok: bool, held: multiset<nat>, v: nat)
    requires Sized(s)
  {
    && Inv(r, held) && View(r) == View(s)
    && (ok ==> v in Entries(r) && Entries(r)[v].rw)
    && (!ok ==> r == s && forall j :: 0 <= j < PAGES ==> s.count[j] != 0)
    && (forall u :: u in Entries(s) && u != v ==> u in Entries(r) && Entries(r)[u] == Entries(s)[u])
  }

  lemma EntryKnown(s: Mem, held: multiset<nat>, v: nat)
    requires Inv(s, held) && User(v) && v in Entries(s)
    ensures HasTable(s, v) && Entry(s, v) == Entries(s)[v] && Entries(s)[v].page < HIGH
  {
  }

  lemma WriteFaultedIs(s: Mem, g: Mem, r: Mem, held: multiset<nat>, v: nat, k: nat)
    requires Sized(s) && Sized(g) && Sized(r) && Inv(r, held) && v in Entries(s)
    requires View(r) == View(g) && View(g) == View(s) && Entries(g) == Entries(s) && Entries(r) == Entries(g)[v := Full(k)]
    ensures WriteFaulted(s, r, true, held, v)
  {
  }

  lemma UnWpUnfold(s: Mem, held: multiset<nat>, v: nat)
    requires Inv(s, held) && User(v) && v in Entries(s) && HasTable(s, v)
    requires Entry(s, v) == Entries(s)[v] && Entry(s, v).page < HIGH
    requires Entry(s, v).page >= LOW ==> s.count[Entry(s, v).page - LOW] != 1
    ensures var (g, k) := GetFree(s);
      && (k == 0 ==> UnWp(s, v) == (s, false))
      && (k != 0 ==>
           && LOW <= k < HIGH && held[k] == 0 && g.count[k - LOW] == 1
           && Inv(g, held + multiset{k}) && Entries(g) == Entries(s) && View(g) == View(s)
           && HasTable(g, v) && Entry(g, v).page < HIGH && v < VPAGES
           && (Entries(g)[v].page >= LOW ==> Entries(g)[v].page < HIGH && g.count[Entries(g)[v].page - LOW] != 1)
           && UnWp(s, v) == (CopyOut(g, v, k), true))
  {
    hide Inv, Entries, View, Core, Frames, EntryIn, GetFree, UnWp, CopyOut;
    SizedUser(s, held, v);
    var (g, k) := GetFree(s);
    if k == 0 {
      UnWpFails(s, v);
    } else {
      GetFreeKeeps(s, held);
      FreeElsewhere(s, held, v);
      EntryKnown(g, held + multiset{k}, v);
      UnWpIs(s, v);
    }
  }

  lemma SizedUser(s: Mem, held: multiset<nat>, v: nat)
    requires Inv(s, held) && User(v)
    ensures Sized(s) && v < VPAGES
  {
  }

  lemma UnWpFails(s: Mem, v: nat)
    requires Sized(s) && v < VPAGES && HasTable(s, v) && Entry(s, v).page < HIGH && GetFree(s).1 == 0
    requires Entry(s, v).page >= LOW ==> s.count[Entry(s, v).page - LOW] != 1
    ensures UnWp(s, v) == (s, false)
  {
    hide GetFree;
  }

  lemma UnWpIs(s: Mem, v: nat)
    requires Sized(s) && v < VPAGES && HasTable(s, v) && Entry(s, v).page < HIGH && GetFree(s).1 != 0
    requires Entry(s, v).page >= LOW ==> s.count[Entry(s, v).page - LOW] != 1
    requires var (g, k) := GetFree(s); k < HIGH && HasTable(g, v) && Entry(g, v) == Entry(s, v)
    ensures var (g, k) := GetFree(s); UnWp(s, v) == (CopyOut(g, v, k), true)
  {
    hide GetFree, Entry, PutEntry;
  }

  /** The page that is taken is not the one at `v`. */
  lemma FreeElsewhere(s: Mem, held: multiset<nat>, v: nat)
    requires Inv(s, held) && User(v) && v in Entries(s) && GetFree(s).1 != 0
    ensures var p := Entries(s)[v].page; p < HIGH && (p >= LOW ==> GetFree(s).0.count[p - LOW] == s.count[p - LOW])
  {
    FreeIsUnused(Entries(s), s.dir, s.count, held, GetFree(s).1);
    EntryKnown(s, held, v);
    hide Entries, View, Core, Frames;
  }

  lemma UnWpCopies(s: Mem, held: multiset<nat>, v: nat)
    requires Inv(s, held) && Sized(s) && User(v) && v < VPAGES && v in Entries(s) && HasTable(s, v)
    requires Entry(s, v) == Entries(s)[v] && Entry(s, v).page < HIGH
    requires Entry(s, v).page >= LOW ==> s.count[Entry(s, v).page - LOW] != 1
    ensures WriteFaulted(s, UnWp(s, v).0, UnWp(s, v).1, held, v)
  {
    hide Inv, Entries, View, Core, Frames, EntryIn, GetFree, UnWp, CopyOut, WriteFaulted;
    var (g, k) := GetFree(s);
    UnWpUnfold(s, held, v);
    if k == 0 {
      NotFaulted(s, held, v);
    } else {
      assert (held + multiset{k})[k] == held[k] + 1 && held + multiset{k} - multiset{k} == held;
      CopyOutKeeps(g, held + multiset{k}, v, k);
      WriteFaultedIs(s, g, CopyOut(g, v, k), held, v, k);
    }
  }

  lemma NotFaulted(s: Mem, held: multiset<nat>, v: nat)
    requires Inv(s, held) && GetFree(s).1 == 0
    ensures WriteFaulted(s, s, false, held, v)
  {
    hide Inv, Entries, View;
  }

  /** A write fault changes nothing that anyone reads, and leaves the page writable and private. */
  lemma UnWpKeeps(s: Mem, held: multiset<nat>, v: nat)
    requires Inv(s, held) && User(v) && v in Entries(s)
    ensures HasTable(s, v) && Entry(s, v).page < HIGH
    ensures WriteFaulted(s, UnWp(s, v).0, UnWp(s, v).1, held, v)
  {
    EntryKnown(s, held, v);
    var e := Entry(s, v);
    if e.page >= LOW && s.count[e.page - LOW] == 1 {
      assert UnWp(s, v) == (PutEntry(s, v, e.(rw := true)), true);
      hide Inv, Entries, View, Core, EntryIn, Frames, PutEntry, UnWp;
      UnprotectKeeps(s, held, v);
    } else {
      hide Inv, Entries, View, Core, EntryIn, Frames, UnWp, WriteFaulted;
      UnWpCopies(s, held, v);
    }
  }

  /** `write_verify` at `v`: no one reads anything new, page `v` if mapped is now private,
      and the other entries are as they were. */
  ghost predicate Verified(s: Mem, r: Mem, ok: bool, held: multiset<nat>, v: nat)
    requires Sized(s)
  {
    && Inv(r, held) && View(r) == View(s) && Entries(r).Keys == Entries(s).Keys
    && (ok && v in Entries(r) ==> Entries(r)[v].rw)
    && (forall u :: u in Entries(s) && u != v ==> Entries(r)[u] == Entries(s)[u])
  }

  lemma KeysByView(s: Mem, r: Mem, held: multiset<nat>)
    requires Sized(s) && Sized(r) && Inv(s, held) && Inv(r, held) && View(r) == View(s)
    ensures Entries(r).Keys == Entries(s).Keys
  {
    hide *;
    Spaces(s, held);
    Spaces(r, held);
    assert forall u :: u in Entries(r) <==> u in Entries(s);
  }

  lemma FaultVerifies(s: Mem, r: Mem, ok: bool, held: multiset<nat>, v: nat)
    requires Sized(s) && Sized(r) && Inv(s, held) && WriteFaulted(s, r, ok, held, v)
    ensures Verified(s, r, ok, held, v)
  {
    hide Inv, Entries, View, Sized, Core;
    KeysByView(s, r, held);
  }

  lemma WriteVerifyKeeps(s: Mem, held: multiset<nat>, v: nat)
    requires Inv(s, held) && User(v)
    ensures Verified(s, WriteVerify(s, v).0, WriteVerify(s, v).1, held, v)
  {
    var e := Entry(s, v);
    assert e.p <==> v in Entries(s);
    assert e.p ==> Entries(s)[v] == e && HasTable(s, v) && e.page < HIGH;
    if e.p && !e.rw {
      assert WriteVerify(s, v) == UnWp(s, v);
      hide *;
      UnWpKeeps(s, held, v);
      FaultVerifies(s, UnWp(s, v).0, UnWp(s, v).1, held, v);
    }
  }

  // ---------- stores ----------

  /** A store through a writable entry changes that page of that address space, and nothing else. */
  lemma StoreKeeps(s: Mem, held: multiset<nat>, v: nat, at: nat, w: Word)
    requires Inv(s, held) && User(v) && v in Entries(s) && Entries(s)[v].rw && at < 1024
    ensures v in View(s) && |View(s)[v]| == 1024
    ensures var r := Store(s, v, at, w);
      && Inv(r, held) && Entries(r) == Entries(s) && View(r) == View(s)[v := View(s)[v][at := w]]
  {
    var es := Entries(s);
    var k := es[v].page;
    var r := Store(s, v, at, w);
    MappedOnce(es, s.dir, s.count, held, v);
    TablesApart(es, s.dir, s.count, held);
    forall u | User(u)
      ensures EntryIn(r.dir, r.frames, u) == EntryIn(s.dir, s.frames, u)
    {
      assert NotTheTable(es, s.dir, u / 1024, v);
    }
    assert Entries(r) == es;
  }
}
