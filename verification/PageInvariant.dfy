/** The invariant of the paging code: every reference count is exactly the number of
    holders, a writable page has one holder, page tables are never user pages, and what is mapped is open to
    user programs. */
module PageInvariant {
  import opened PageModel

  /** The present user page table entries. */
  ghost function Entries(s: Mem): map<int, Word>
    requires Sized(s)
  {
    EntriesIn(s.dir, s.frames)
  }

  ghost function EntriesIn(dir: seq<Word>, frames: seq<seq<Word>>): map<int, Word>
    requires |dir| == ENTRIES && Frames(frames)
  {
    map v: int | SLOT <= v < VPAGES && EntryIn(dir, frames, v).p :: EntryIn(dir, frames, v)
  }

  /** What each mapped user page reads. */
  ghost function View(s: Mem): map<int, seq<Word>>
    requires Sized(s)
  {
    Contents(Entries(s), s.frames)
  }

  ghost function Contents(es: map<int, Word>, frames: seq<seq<Word>>): map<int, seq<Word>> {
    map v | v in es && es[v].page < |frames| :: frames[es[v].page]
  }

  /** The user page table entries that name page `k`. */
  ghost function Refs(es: map<int, Word>, k: nat): set<int> {
    set v | v in es && es[v].page == k
  }

  /** The user directory entries that name page `k` as a page table. */
  ghost function Tables(dir: seq<Word>, k: nat): set<int> {
    set d | SLOT_DIRS <= d < |dir| && dir[d].p && dir[d].page == k
  }

  /** All holders of page `k`; `held` is what the kernel itself owns. */
  ghost function Uses(es: map<int, Word>, dir: seq<Word>, held: multiset<nat>, k: nat): nat {
    |Refs(es, k)| + |Tables(dir, k)| + held[k]
  }

  ghost predicate Counted(es: map<int, Word>, dir: seq<Word>, count: seq<nat>, held: multiset<nat>)
    requires |count| == PAGES
  {
    forall k :: LOW <= k < HIGH ==> count[k - LOW] == Uses(es, dir, held, k)
  }

  /** A page table belongs to one directory entry, which leaves the choice of access to it. */
  ghost predicate TablesOwned(dir: seq<Word>, count: seq<nat>)
    requires |count| == PAGES
  {
    forall d :: SLOT_DIRS <= d < |dir| && dir[d].p ==>
      LOW <= dir[d].page < HIGH && count[dir[d].page - LOW] == 1 && dir[d].user && dir[d].rw
  }

  /** What is mapped is in memory and open to user programs. */
  ghost predicate InRam(es: map<int, Word>) {
    forall v :: v in es ==> es[v].p && es[v].user && es[v].page < HIGH
  }

  ghost predicate WritableIsSole(es: map<int, Word>, count: seq<nat>)
    requires |count| == PAGES
  {
    forall v :: v in es && es[v].rw ==> LOW <= es[v].page < HIGH && count[es[v].page - LOW] == 1
  }

  /** A shared page sits at the same place in every slot that shares it. */
  ghost predicate Aligned(es: map<int, Word>) {
    forall v, w :: SamePlace(es, v, w)
  }

  ghost predicate SamePlace(es: map<int, Word>, v: int, w: int) {
    v in es && w in es && es[v].page == es[w].page && es[v].page >= LOW ==> v % SLOT == w % SLOT
  }

  ghost predicate AllUser(es: map<int, Word>) {
    forall v :: v in es ==> SLOT <= v < VPAGES
  }

  ghost predicate Core(es: map<int, Word>, dir: seq<Word>, count: seq<nat>, held: multiset<nat>) {
    && |count| == PAGES
    && AllUser(es)
    && TablesOwned(dir, count)
    && InRam(es)
    && WritableIsSole(es, count)
    && Aligned(es)
    && Counted(es, dir, count, held)
    && forall k :: held[k] <= 1
  }

  ghost predicate Inv(s: Mem, held: multiset<nat>) {
    Sized(s) && Core(Entries(s), s.dir, s.count, held)
  }

  // ---------- counting ----------

  lemma RefsOfAdd(es: map<int, Word>, v: int, w: Word, k: nat)
    requires v !in es
    ensures |Refs(es[v := w], k)| == |Refs(es, k)| + if w.page == k then 1 else 0
  {
    if w.page == k {
      assert Refs(es[v := w], k) == Refs(es, k) + {v};
    } else {
      assert Refs(es[v := w], k) == Refs(es, k);
    }
  }

  lemma RefsOfRemove(es: map<int, Word>, v: int, k: nat)
    requires v in es
    ensures |Refs(es - {v}, k)| == |Refs(es, k)| - if es[v].page == k then 1 else 0
  {
    if es[v].page == k {
      assert Refs(es, k) == Refs(es - {v}, k) + {v};
    } else {
      assert Refs(es - {v}, k) == Refs(es, k);
    }
  }

  lemma TablesOfSet(dir: seq<Word>, d: nat, p: nat, k: nat)
    requires SLOT_DIRS <= d < |dir| && !dir[d].p
    ensures |Tables(dir[d := Full(p)], k)| == |Tables(dir, k)| + if p == k then 1 else 0
  {
    if p == k {
      assert Tables(dir[d := Full(p)], k) == Tables(dir, k) + {d};
    } else {
      assert Tables(dir[d := Full(p)], k) == Tables(dir, k);
    }
  }

  lemma TablesOfClear(dir: seq<Word>, d: nat, k: nat)
    requires SLOT_DIRS <= d < |dir| && dir[d].p
    ensures |Tables(dir[d := ZERO], k)| == |Tables(dir, k)| - if dir[d].page == k then 1 else 0
  {
    if dir[d].page == k {
      assert Tables(dir, k) == Tables(dir[d := ZERO], k) + {d};
    } else {
      assert Tables(dir[d := ZERO], k) == Tables(dir, k);
    }
  }

  lemma Singleton<T>(s: set<T>, x: T)
    requires x in s && |s| <= 1
    ensures s == {x}
  {
    assert |s - {x}| == |s| - 1;
  }

  // ---------- what the invariant gives about one page ----------

  /** A page table page has its directory entry and no other holder. */
  lemma TableIsSole(es: map<int, Word>, dir: seq<Word>, count: seq<nat>, held: multiset<nat>, d: nat)
    requires Core(es, dir, count, held) && SLOT_DIRS <= d < |dir| && dir[d].p
    ensures Refs(es, dir[d].page) == {} && held[dir[d].page] == 0
    ensures Tables(dir, dir[d].page) == {d}
  {
    var k := dir[d].page;
    assert d in Tables(dir, k);
    assert count[k - LOW] == Uses(es, dir, held, k);
    Singleton(Tables(dir, k), d);
  }

  ghost predicate TablesDistinct(dir: seq<Word>) {
    forall d, e :: DistinctTables(dir, d, e)
  }

  ghost predicate DistinctTables(dir: seq<Word>, d: int, e: int) {
    SLOT_DIRS <= d < |dir| && SLOT_DIRS <= e < |dir| && d != e && dir[d].p && dir[e].p ==> dir[d].page != dir[e].page
  }

  ghost predicate TablesPrivate(es: map<int, Word>, dir: seq<Word>) {
    forall d, v :: NotTheTable(es, dir, d, v)
  }

  ghost predicate NotTheTable(es: map<int, Word>, dir: seq<Word>, d: int, v: int) {
    SLOT_DIRS <= d < |dir| && dir[d].p && v in es ==> es[v].page != dir[d].page
  }

  /** So no two directory entries share a table, and no user page is a table. */
  lemma TablesApart(es: map<int, Word>, dir: seq<Word>, count: seq<nat>, held: multiset<nat>)
    requires Core(es, dir, count, held)
    ensures TablesDistinct(dir) && TablesPrivate(es, dir)
  {
    forall d, e
      ensures DistinctTables(dir, d, e)
    {
      if SLOT_DIRS <= d < |dir| && SLOT_DIRS <= e < |dir| && d != e && dir[d].p && dir[e].p {
        TableIsSole(es, dir, count, held, d);
        assert e !in Tables(dir, dir[d].page);
      }
    }
    forall d, v
      ensures NotTheTable(es, dir, d, v)
    {
      if SLOT_DIRS <= d < |dir| && dir[d].p && v in es {
        TableIsSole(es, dir, count, held, d);
        assert v !in Refs(es, dir[d].page);
      }
    }
  }

  /** A mapped page whose count is 1 has that one entry and no other holder. */
  lemma MappedOnce(es: map<int, Word>, dir: seq<Word>, count: seq<nat>, held: multiset<nat>, v: int)
    requires Core(es, dir, count, held) && v in es && LOW <= es[v].page < HIGH
    requires count[es[v].page - LOW] == 1
    ensures forall u :: u in es && es[u].page == es[v].page ==> u == v
    ensures Tables(dir, es[v].page) == {} && held[es[v].page] == 0
  {
    var k := es[v].page;
    assert v in Refs(es, k);
    assert count[k - LOW] == Uses(es, dir, held, k);
    Singleton(Refs(es, k), v);
    assert forall u :: u in es && es[u].page == k ==> u in Refs(es, k);
  }

  lemma FreeIsUnused(es: map<int, Word>, dir: seq<Word>, count: seq<nat>, held: multiset<nat>, k: nat)
    requires Core(es, dir, count, held) && LOW <= k < HIGH && count[k - LOW] == 0
    ensures held[k] == 0
    ensures forall v :: v in es ==> es[v].page != k
    ensures forall d :: SLOT_DIRS <= d < |dir| && dir[d].p ==> dir[d].page != k
  {
    assert count[k - LOW] == Uses(es, dir, held, k);
    forall v | v in es
      ensures es[v].page != k
    {
      assert v !in Refs(es, k);
    }
  }

  /** A page the kernel holds is not a page table; held alone, it is mapped nowhere. */
  lemma HeldIsApart(es: map<int, Word>, dir: seq<Word>, count: seq<nat>, held: multiset<nat>, k: nat)
    requires Core(es, dir, count, held) && LOW <= k < HIGH && held[k] > 0
    ensures count[k - LOW] > 0
    ensures forall d :: SLOT_DIRS <= d < |dir| && dir[d].p ==> dir[d].page != k
    ensures forall v :: v in es && es[v].rw ==> es[v].page != k
    ensures count[k - LOW] == 1 ==> forall v :: v in es ==> es[v].page != k
  {
    assert count[k - LOW] == Uses(es, dir, held, k);
    forall d | SLOT_DIRS <= d < |dir| && dir[d].p
      ensures dir[d].page != k
    {
      TableIsSole(es, dir, count, held, d);
    }
    forall v | v in es && es[v].rw
      ensures es[v].page != k
    {
      MappedOnce(es, dir, count, held, v);
    }
    if count[k - LOW] == 1 {
      forall v | v in es
        ensures es[v].page != k
      {
        assert v !in Refs(es, k);
      }
    }
  }

  // ---------- the 16-bit counters never wrap ----------

  lemma {:induction false} BoundedSet(s: set<int>, n: nat)
    requires forall x :: x in s ==> 0 <= x < n
    ensures |s| <= n
    decreases n
  {
    if n == 0 {
      assert forall x :: x in s ==> false;
      assert s == {};
    } else {
      BoundedSet(s - {n - 1}, n - 1);
      assert |s| <= |s - {n - 1}| + 1;
    }
  }

  /** Distinct pages of one slot offset lie in distinct slots. */
  lemma {:induction false} SlotsOf(refs: set<int>, off: int) returns (slots: set<int>)
    requires forall v :: v in refs ==> 0 <= v < VPAGES && v % SLOT == off
    ensures slots == (set v | v in refs :: v / SLOT) && |slots| == |refs|
    decreases refs
  {
    if v :| v in refs {
      var rest := SlotsOf(refs - {v}, off);
      forall u | u in refs - {v}
        ensures u / SLOT != v / SLOT
      {
        assert u == SLOT * (u / SLOT) + off && v == SLOT * (v / SLOT) + off;
      }
      assert v / SLOT !in rest;
      slots := rest + {v / SLOT};
      assert refs == (refs - {v}) + {v};
      assert slots == set u | u in refs :: u / SLOT;
    } else {
      assert forall v :: v in refs ==> false;
      slots := {};
    }
  }

  /** At most one reference per task slot, so a count stays far below 65536. */
  lemma CountBound(es: map<int, Word>, dir: seq<Word>, count: seq<nat>, held: multiset<nat>, v: int)
    requires Core(es, dir, count, held) && v in es && es[v].page >= LOW
    ensures 0 < count[es[v].page - LOW] <= 66
  {
    var k := es[v].page;
    var refs := Refs(es, k);
    assert v in refs;
    assert forall u :: u in refs ==> SamePlace(es, u, v);
    var slots := SlotsOf(refs, v % SLOT);
    BoundedSet(slots, 64);
    assert count[k - LOW] == Uses(es, dir, held, k);
    if d :| d in Tables(dir, k) {
      TableIsSole(es, dir, count, held, d);
    }
    assert |Tables(dir, k)| <= 1;
  }
}
