/** How each elementary change keeps the counts exact, seen on the present entries,
    the directory and the counts alone. */
module PageCore {
  import opened PageModel
  import opened PageInvariant

  /** A free page taken by the kernel. */
  lemma Take(es: map<int, Word>, dir: seq<Word>, count: seq<nat>, held: multiset<nat>, k: nat)
    requires Core(es, dir, count, held) && LOW <= k < HIGH && count[k - LOW] == 0
    ensures Core(es, dir, count[k - LOW := 1], held + multiset{k})
  {
    FreeIsUnused(es, dir, count, held, k);
    var c, h := count[k - LOW := 1], held + multiset{k};
    forall j | LOW <= j < HIGH
      ensures c[j - LOW] == Uses(es, dir, h, j)
    {
      assert count[j - LOW] == Uses(es, dir, held, j);
    }
    assert forall j :: h[j] == held[j] + if j == k then 1 else 0;
  }

  /** A page the kernel held alone given back. */
  lemma GiveBack(es: map<int, Word>, dir: seq<Word>, count: seq<nat>, held: multiset<nat>, k: nat)
    requires Core(es, dir, count, held) && LOW <= k < HIGH && held[k] > 0
    ensures count[k - LOW] > 0
    ensures Core(es, dir, count[k - LOW := count[k - LOW] - 1], held - multiset{k})
  {
    HeldIsApart(es, dir, count, held, k);
    var c, h := count[k - LOW := count[k - LOW] - 1], held - multiset{k};
    assert forall j :: h[j] == held[j] - if j == k then 1 else 0;
    forall j | LOW <= j < HIGH
      ensures c[j - LOW] == Uses(es, dir, h, j)
    {
      assert count[j - LOW] == Uses(es, dir, held, j);
    }
  }

  /** A held page becomes the page table of directory entry `d`. */
  lemma Hang(es: map<int, Word>, dir: seq<Word>, count: seq<nat>, held: multiset<nat>, d: nat, k: nat)
    requires Core(es, dir, count, held) && SLOT_DIRS <= d < |dir| && !dir[d].p
    requires LOW <= k < HIGH && held[k] == 1 && count[k - LOW] == 1
    ensures Core(es, dir[d := Full(k)], count, held - multiset{k})
  {
    var h, dir' := held - multiset{k}, dir[d := Full(k)];
    assert forall j :: h[j] == held[j] - if j == k then 1 else 0;
    forall j | LOW <= j < HIGH
      ensures count[j - LOW] == Uses(es, dir', h, j)
    {
      assert count[j - LOW] == Uses(es, dir, held, j);
      TablesOfSet(dir, d, k, j);
    }
  }

  /** A page table given back. */
  lemma Drop(es: map<int, Word>, dir: seq<Word>, count: seq<nat>, held: multiset<nat>, d: nat)
    requires Core(es, dir, count, held) && SLOT_DIRS <= d < |dir| && dir[d].p
    ensures Core(es, dir[d := ZERO], count[dir[d].page - LOW := 0], held)
  {
    var k := dir[d].page;
    TableIsSole(es, dir, count, held, d);
    TablesApart(es, dir, count, held);
    var c, dir' := count[k - LOW := 0], dir[d := ZERO];
    forall e | SLOT_DIRS <= e < |dir'| && dir'[e].p
      ensures LOW <= dir'[e].page < HIGH && c[dir'[e].page - LOW] == 1 && dir'[e].user && dir'[e].rw
    {
      assert DistinctTables(dir, d, e);
    }
    forall v | v in es && es[v].rw
      ensures c[es[v].page - LOW] == 1
    {
      assert NotTheTable(es, dir, d, v);
    }
    forall j | LOW <= j < HIGH
      ensures c[j - LOW] == Uses(es, dir', held, j)
    {
      assert count[j - LOW] == Uses(es, dir, held, j);
      TablesOfClear(dir, d, j);
    }
  }

  /** One more read-only entry for a low page: low pages are not counted. */
  lemma ShareLow(es: map<int, Word>, dir: seq<Word>, count: seq<nat>, held: multiset<nat>, w: int, e: Word)
    requires Core(es, dir, count, held) && w !in es && User(w)
    requires e.p && e.user && e.page < LOW && !e.rw
    ensures Core(es[w := e], dir, count, held)
  {
    var es' := es[w := e];
    assert forall a, b :: SamePlace(es, a, b) ==> SamePlace(es', a, b);
    forall j | LOW <= j < HIGH
      ensures count[j - LOW] == Uses(es', dir, held, j)
    {
      assert count[j - LOW] == Uses(es, dir, held, j);
      RefsOfAdd(es, w, e, j);
    }
  }

  /** Page `v` also mapped at `w`, read-only in both places. */
  lemma ShareHigh(es: map<int, Word>, dir: seq<Word>, count: seq<nat>, held: multiset<nat>, v: int, w: int)
    requires Core(es, dir, count, held) && v in es && w !in es && User(w) && v % SLOT == w % SLOT
    requires es[v].page >= LOW
    ensures var k := es[v].page - LOW;
      var ro := es[v].(rw := false);
      && (count[k] + 1) % 0x10000 == count[k] + 1
      && Core(es[v := ro][w := ro], dir, count[k := count[k] + 1], held)
  {
    var p := es[v].page;
    var ro := es[v].(rw := false);
    var es', c := es[v := ro][w := ro], count[p - LOW := count[p - LOW] + 1];
    CountBound(es, dir, count, held, v);
    RefsKeptByFlags(es, v, ro);
    forall a, b
      ensures SamePlace(es', a, b)
    {
      assert SamePlace(es, if a == w then v else a, if b == w then v else b);
    }
    forall j | LOW <= j < HIGH
      ensures c[j - LOW] == Uses(es', dir, held, j)
    {
      assert count[j - LOW] == Uses(es, dir, held, j);
      assert Refs(es[v := ro], j) == Refs(es, j);
      RefsOfAdd(es[v := ro], w, ro, j);
    }
    forall u | u in es' && es'[u].rw
      ensures LOW <= es'[u].page < HIGH && c[es'[u].page - LOW] == 1
    {
      MappedOnce(es, dir, count, held, u);
    }
    forall d | SLOT_DIRS <= d < |dir| && dir[d].p
      ensures c[dir[d].page - LOW] == 1
    {
      TableIsSole(es, dir, count, held, d);
      assert v !in Refs(es, dir[d].page);
    }
  }

  lemma RefsKeptByFlags(es: map<int, Word>, v: int, e: Word)
    requires v in es && e.page == es[v].page
    ensures forall k :: Refs(es[v := e], k) == Refs(es, k)
  {
  }

  /** An entry given up, and its reference with it. */
  lemma Remove(es: map<int, Word>, dir: seq<Word>, count: seq<nat>, held: multiset<nat>, v: int)
    requires Core(es, dir, count, held) && v in es
    ensures es[v].page < LOW ==> Core(es - {v}, dir, count, held)
    ensures es[v].page >= LOW ==> var k := es[v].page - LOW;
      count[k] > 0 && Core(es - {v}, dir, count[k := count[k] - 1], held)
  {
    var p := es[v].page;
    if p >= LOW {
      CountBound(es, dir, count, held, v);
    }
    var c := if p < LOW then count else count[p - LOW := count[p - LOW] - 1];
    assert forall a, b :: SamePlace(es, a, b) ==> SamePlace(es - {v}, a, b);
    forall j | LOW <= j < HIGH
      ensures c[j - LOW] == Uses(es - {v}, dir, held, j)
    {
      assert count[j - LOW] == Uses(es, dir, held, j);
      RefsOfRemove(es, v, j);
    }
    forall u | u in es - {v} && es[u].rw
      ensures LOW <= es[u].page < HIGH && c[es[u].page - LOW] == 1
    {
      MappedOnce(es, dir, count, held, u);
    }
    forall d | SLOT_DIRS <= d < |dir| && dir[d].p
      ensures c[dir[d].page - LOW] == 1
    {
      TableIsSole(es, dir, count, held, d);
      assert v !in Refs(es, dir[d].page);
    }
  }

  /** A page the kernel held alone becomes a private page of one address space. */
  lemma Install(es: map<int, Word>, dir: seq<Word>, count: seq<nat>, held: multiset<nat>, v: int, k: nat)
    requires Core(es, dir, count, held) && v !in es && User(v)
    requires LOW <= k < HIGH && held[k] == 1 && count[k - LOW] == 1
    ensures Core(es[v := Full(k)], dir, count, held - multiset{k})
  {
    HeldIsApart(es, dir, count, held, k);
    var h, es' := held - multiset{k}, es[v := Full(k)];
    assert forall j :: h[j] == held[j] - if j == k then 1 else 0;
    assert forall a, b :: SamePlace(es, a, b) ==> SamePlace(es', a, b);
    forall j | LOW <= j < HIGH
      ensures count[j - LOW] == Uses(es', dir, h, j)
    {
      assert count[j - LOW] == Uses(es, dir, held, j);
      RefsOfAdd(es, v, Full(k), j);
    }
  }

  /** The sole holder may write. */
  lemma Unprotect(es: map<int, Word>, dir: seq<Word>, count: seq<nat>, held: multiset<nat>, v: int)
    requires Core(es, dir, count, held) && v in es && es[v].page >= LOW && count[es[v].page - LOW] == 1
    ensures Core(es[v := es[v].(rw := true)], dir, count, held)
  {
    var es' := es[v := es[v].(rw := true)];
    RefsKeptByFlags(es, v, es[v].(rw := true));
    assert forall a, b :: SamePlace(es, a, b) ==> SamePlace(es', a, b);
    forall j | LOW <= j < HIGH
      ensures count[j - LOW] == Uses(es', dir, held, j)
    {
      assert count[j - LOW] == Uses(es, dir, held, j);
      assert Refs(es', j) == Refs(es, j);
    }
  }
}
