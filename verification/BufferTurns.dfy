/** In what order the buffer cache gives up its blocks: the list is kept in the order in which the
    buffers were last taken for a new block, and the search starts with the oldest. */
module BufferTurns {
  import opened Options
  import opened BufferModel
  import opened BufferContent
  import BufferInterleave

  /** Buffer `b` is the first of the list that nobody uses. */
  ghost predicate FirstUnused(s: Sys, i: int) {
    && 0 <= i < |s.c.ring| && 0 <= s.c.ring[i] < |s.c.bufs| && s.c.bufs[s.c.ring[i]].count == 0
    && forall j :: 0 <= j < i ==> 0 <= s.c.ring[j] < |s.c.bufs| ==> s.c.bufs[s.c.ring[j]].count != 0
  }

  /** Every buffer but `b` is for the block that it was for. */
  ghost predicate KeysStay(s: Sys, t: Sys, b: int) {
    |t.c.bufs| == |s.c.bufs| && forall x :: 0 <= x < |s.c.bufs| && x != b ==> KeyOf(t.c.bufs[x]) == KeyOf(s.c.bufs[x])
  }

  lemma {:induction false} FirstFreeAt(c: Cache, ring: seq<int>) returns (i: int)
    requires FirstFree(c, ring).Some?
    ensures 0 <= i < |ring| && FirstFree(c, ring).value == ring[i] && 0 <= ring[i] < |c.bufs| && c.bufs[ring[i]].count == 0
    ensures forall j :: 0 <= j < i ==> 0 <= ring[j] < |c.bufs| ==> c.bufs[ring[j]].count != 0
  {
    if 0 <= ring[0] < |c.bufs| && c.bufs[ring[0]].count == 0 {
      i := 0;
    } else {
      i := FirstFreeAt(c, ring[1..]);
      i := i + 1;
    }
  }

  lemma {:induction false} WithoutAt(ring: seq<int>, i: int)
    requires 0 <= i < |ring| && forall j :: 0 <= j < i ==> ring[j] != ring[i]
    ensures Without(ring, ring[i]) == ring[..i] + ring[i + 1..]
    decreases |ring|
  {
    var rest := ring[1..];
    if i > 0 {
      assert ring[0] != ring[i] && rest[i - 1] == ring[i];
      WithoutAt(rest, i - 1);
      SlicesAfterFirst(ring, i);
    } else {
      assert ring[..0] + rest == rest;
    }
  }

  lemma SlicesAfterFirst(ring: seq<int>, i: int)
    requires 0 < i < |ring|
    ensures [ring[0]] + (ring[1..][..i - 1] + ring[1..][i..]) == ring[..i] + ring[i + 1..]
  {
    assert ring[1..][..i - 1] == ring[1..i] && ring[1..][i..] == ring[i + 1..];
    assert [ring[0]] + ring[1..i] == ring[..i];
  }

  lemma {:induction false} SyncKeys(s: Sys, dev: nat, i: nat)
    ensures KeysStay(s, SyncFrom(s, dev, i), -1)
    decreases |s.c.bufs| - i
  {
    if i < |s.c.bufs| {
      var t := if s.c.bufs[i].dev == dev && s.c.bufs[i].dirt then WriteBack(s, i) else s;
      assert KeysStay(s, t, -1);
      SyncKeys(t, dev, i + 1);
    }
  }

  lemma RecycleRing(s: Sys, b: int, dev: nat, block: nat)
    requires 0 <= b < |s.c.bufs| && |s.c.chains| == NR_HASH
    ensures var t := Recycle(s, b, dev, block);
      t.c.ring == Without(s.c.ring, b) + [b] && KeysStay(s, t, b) && KeyOf(t.c.bufs[b]) == Key(dev, block)
  {
    var s1 := Counted(s, b, 1);
    var s2 := s1.(c := RemoveFromQueues(s1.c, b));
    SyncShape(s2, s.c.bufs[b].dev, 0);
    SyncKeys(s2, s.c.bufs[b].dev, 0);
    hide SyncFrom;
  }

  /** `getblk` for a block that no buffer is for takes the first unused one of the list, and puts it
      at the end; one for a block that a buffer is for leaves the list as it is. */
  lemma TakesInTurn(s: Sys, k: Key)
    requires Inv(s) && k.dev != 0
    ensures |s.c.chains| == NR_HASH
    ensures var (t, r) := GetBlk(s, k.dev, k.block);
      && ((exists b :: Holds(s, b, k)) ==> t.c.ring == s.c.ring && KeysStay(s, t, -1))
      && ((forall b :: !Holds(s, b, k)) && r.Some? ==>
           exists i :: FirstUnused(s, i) && r.value == s.c.ring[i]
                       && t.c.ring == s.c.ring[..i] + s.c.ring[i + 1..] + [s.c.ring[i]] && KeysStay(s, t, s.c.ring[i]))
  {
    InvUnique(s);
    FindBufferIs(s.c, k.dev, k.block);
    match FindBuffer(s.c, k.dev, k.block) {
      case Some(b) =>
        assert Holds(s, b, k);
      case None =>
        forall b
          ensures !Holds(s, b, k)
        {
          assert 0 <= b < |s.c.bufs| ==> b in s.c.ring;
          assert Chained(s.c, b) ==> !SameKey(s.c.bufs[b], k.dev, k.block);
        }
        if FirstFree(s.c, s.c.ring).Some? {
          var i := FirstFreeAt(s.c, s.c.ring);
          assert forall j :: 0 <= j < i ==> s.c.ring[j] != s.c.ring[i];
          WithoutAt(s.c.ring, i);
          RecycleRing(s, s.c.ring[i], k.dev, k.block);
          hide Recycle;
          assert FirstUnused(s, i);
        }
    }
  }

  // ---------- how long a block stays ----------

  /** The operation asks for a block that no buffer is for. */
  ghost predicate Misses(s: Sys, o: Op) {
    !o.Sync? && forall b :: !Holds(s, b, o.k)
  }

  /** Reading, changing and giving back a buffer move none and rename none. */
  lemma RestOfOperation(s: Sys, o: Op)
    requires |s.c.chains| == NR_HASH && !o.Sync? && GetBlk(s, o.k.dev, o.k.block).1.Some?
    ensures var (g, t) := (GetBlk(s, o.k.dev, o.k.block).0, Apply(s, o).0); t.c.ring == g.c.ring && KeysStay(g, t, -1)
  {
    hide GetBlk;
  }

  lemma SyncTurns(s: Sys, dev: nat)
    ensures SyncDev(s, dev).c.ring == s.c.ring && KeysStay(s, SyncDev(s, dev), -1)
  {
    SyncShape(s, dev, 0);
    SyncKeys(s, dev, 0);
    hide SyncFrom;
  }

  /** With no buffer in use the first of the list is the first unused. */
  lemma MissTurns(s: Sys, k: Key)
    requires Quiet(s) && k.dev != 0 && forall b :: !Holds(s, b, k)
    ensures |s.c.chains| == NR_HASH && s.c.ring != [] && GetBlk(s, k.dev, k.block).1.Some?
    ensures var g := GetBlk(s, k.dev, k.block).0;
      g.c.ring == s.c.ring[1..] + [s.c.ring[0]] && KeysStay(s, g, s.c.ring[0]) && Holds(g, s.c.ring[0], k)
  {
    hide GetBlk, SameSight, Struct, Coherent, Holds;
    InvUnique(s);
    TakesInTurn(s, k);
    GetBlkWorks(s, k);
    assert s.c.bufs[0].count == 0;
    var (g, r) := GetBlk(s, k.dev, k.block);
    var i :| FirstUnused(s, i) && r.value == s.c.ring[i]
      && g.c.ring == s.c.ring[..i] + s.c.ring[i + 1..] + [s.c.ring[i]] && KeysStay(s, g, s.c.ring[i]);
    FirstIsFirst(s, i);
    assert s.c.ring[..0] + s.c.ring[1..] == s.c.ring[1..];
  }

  lemma FirstIsFirst(s: Sys, i: int)
    requires Quiet(s) && FirstUnused(s, i)
    ensures i == 0
  {
    assert s.c.ring[0] in s.c.ring;
  }

  /** One read, write or sync with no buffer in use before or after. */
  lemma OperationTurns(s: Sys, o: Op)
    requires Quiet(s) && Legal(o)
    ensures |s.c.chains| == NR_HASH && s.c.ring != []
    ensures var t := Apply(s, o).0;
      if Misses(s, o) then
        t.c.ring == s.c.ring[1..] + [s.c.ring[0]] && KeysStay(s, t, s.c.ring[0]) && Holds(t, s.c.ring[0], o.k)
      else t.c.ring == s.c.ring && KeysStay(s, t, -1)
  {
    InvUnique(s);
    assert 0 in s.c.ring;
    hide GetBlk, SameSight, Apply, Struct, Coherent, KeysStay, Holds;
    if o.Sync? {
      SyncTurns(s, o.dev);
    } else if Misses(s, o) {
      MissTurns(s, o.k);
      RestOfOperation(s, o);
      KeysThrough(s, GetBlk(s, o.k.dev, o.k.block).0, Apply(s, o).0, s.c.ring[0], o.k);
    } else {
      HitTurns(s, o.k);
      RestOfOperation(s, o);
      KeysThrough(s, GetBlk(s, o.k.dev, o.k.block).0, Apply(s, o).0, -1, o.k);
    }
  }

  lemma HitTurns(s: Sys, k: Key)
    requires Quiet(s) && k.dev != 0 && exists b :: Holds(s, b, k)
    ensures |s.c.chains| == NR_HASH
    ensures var (g, r) := GetBlk(s, k.dev, k.block); r.Some? && g.c.ring == s.c.ring && KeysStay(s, g, -1)
  {
    hide GetBlk, SameSight, Struct, Coherent, Holds;
    TakesInTurn(s, k);
    GetBlkWorks(s, k);
    var r := GetBlk(s, k.dev, k.block).1;
    assert s.c.bufs[0].count == 0;
    assert r.Some?;
  }

  lemma KeysThrough(s: Sys, g: Sys, t: Sys, x: int, k: Key)
    requires KeysStay(s, g, x) && KeysStay(g, t, -1)
    ensures KeysStay(s, t, x) && (Holds(g, x, k) ==> Holds(t, x, k))
  {
  }

  /** How many operations of a run miss. */
  ghost function Missed(s: Sys, os: seq<Op>): nat
    requires Quiet(s) && forall o :: o in os ==> Legal(o)
    decreases |os|
  {
    if os == [] then 0
    else
      OperationTurns(s, os[0]);
      StillQuiet(s, os[0]);
      (if Misses(s, os[0]) then 1 else 0) + Missed(Apply(s, os[0]).0, os[1..])
  }

  /** The blocks on the disk or in a buffer, as they read. */
  ghost function Contents(s: Sys): map<Key, Block>
    requires |s.c.chains| == NR_HASH
  {
    map k | k in s.disk.Keys + Cached(s) :: View(s, k)
  }

  ghost function Cached(s: Sys): set<Key> {
    set b | 0 <= b < |s.c.bufs| :: KeyOf(s.c.bufs[b])
  }

  /** Every system that keeps the invariant shows some array of blocks. */
  lemma ShowsContents(s: Sys)
    requires Inv(s)
    ensures |s.c.chains| == NR_HASH && Shows(s, Contents(s))
  {
    InvUnique(s);
    hide Inv, View;
    forall k: Key | k.dev != 0
      ensures Sees(s, k, OnDisk(Contents(s), k))
    {
      ViewIsSeen(s, k);
      forall b | Holds(s, b, k)
        ensures k in Cached(s)
      {
      }
    }
  }

  lemma StillQuiet(s: Sys, o: Op)
    requires Quiet(s) && Legal(o)
    ensures |s.c.chains| == NR_HASH && Quiet(Apply(s, o).0)
  {
    hide Apply, Shows, Contents;
    ShowsContents(s);
    StepShows(s, Contents(s), o);
  }

  lemma RunOne(s: Sys, os: seq<Op>)
    requires Quiet(s) && os != [] && Legal(os[0])
    ensures |s.c.chains| == NR_HASH && |Apply(s, os[0]).0.c.chains| == NR_HASH
    ensures Run(s, os).0 == Run(Apply(s, os[0]).0, os[1..]).0
  {
    hide Apply;
    StillQuiet(s, os[0]);
    InvUnique(s);
    InvUnique(Apply(s, os[0]).0);
  }

  /** A block whose buffer has `p` others before it in the list stays in the cache through any run
      in which no more than `p` operations miss; for one that has just been brought in, `p` is one
      less than the number of buffers. */
  lemma {:induction false} StaysInCache(s: Sys, os: seq<Op>, b: int, k: Key, p: int)
    requires Quiet(s) && forall o :: o in os ==> Legal(o)
    requires 0 <= p < |s.c.ring| && s.c.ring[p] == b && Holds(s, b, k) && Missed(s, os) <= p
    ensures |s.c.chains| == NR_HASH && Holds(Run(s, os).0, b, k)
    decreases |os|
  {
    hide Apply, Holds, Misses;
    InvUnique(s);
    if os != [] {
      var t := Apply(s, os[0]).0;
      OperationTurns(s, os[0]);
      StillQuiet(s, os[0]);
      RunOne(s, os);
      assert forall o :: o in os[1..] ==> o in os;
      if Misses(s, os[0]) {
        assert p > 0 && s.c.ring[0] != b by { assert Distinct(s.c.ring); }
        KeyKept(s, t, s.c.ring[0], b, k);
        assert t.c.ring[p - 1] == b;
        StaysInCache(t, os[1..], b, k, p - 1);
      } else {
        KeyKept(s, t, -1, b, k);
        StaysInCache(t, os[1..], b, k, p);
      }
    }
  }

  lemma KeyKept(s: Sys, t: Sys, x: int, b: int, k: Key)
    requires KeysStay(s, t, x) && Holds(s, b, k) && (x < 0 || b != x)
    ensures Holds(t, b, k)
  {
  }

  /** A block that was just asked for is in the buffer at the end of the list, if it was not in the
      cache before. */
  lemma JustBroughtIn(s: Sys, o: Op)
    requires Quiet(s) && Legal(o) && Misses(s, o)
    ensures |s.c.chains| == NR_HASH && s.c.ring != []
    ensures var t := Apply(s, o).0; |t.c.ring| == |s.c.ring| == |s.c.bufs| && Holds(t, t.c.ring[|t.c.ring| - 1], o.k)
  {
    hide Apply;
    OperationTurns(s, o);
    AllListed(s);
  }

  /** The list has every buffer once. */
  lemma AllListed(s: Sys)
    requires Inv(s)
    ensures |s.c.ring| == |s.c.bufs|
  {
    DistinctSize(s.c.ring);
    assert (set x | x in s.c.ring) == BufferInterleave.Upto(|s.c.bufs|);
  }

  lemma {:induction false} DistinctSize(r: seq<int>)
    requires Distinct(r)
    ensures |set x | x in r| == |r|
  {
    var a := set x | x in r;
    if r == [] {
      assert a == {};
    } else {
      var b := set x | x in r[1..];
      DistinctSize(r[1..]);
      assert r[0] !in b;
      assert a == b + {r[0]};
    }
  }
}
