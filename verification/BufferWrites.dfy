/** What reaches the disk: only blocks that were written through the cache. */
module BufferWrites {
  import opened Options
  import opened BufferModel
  import opened BufferContent
  import BufferTurns

  /** Some buffer waits to be written to block `k`. */
  ghost predicate Waits(s: Sys, k: Key) {
    exists b :: DirtyFor(s, b, k)
  }

  ghost predicate DirtyFor(s: Sys, b: int, k: Key) {
    0 <= b < |s.c.bufs| && s.c.bufs[b].dirt && KeyOf(s.c.bufs[b]) == k
  }

  lemma WriteBackOnly(s: Sys, b: int)
    requires 0 <= b < |s.c.bufs| && s.c.bufs[b].dirt
    ensures forall k :: OnDisk(WriteBack(s, b).disk, k) != OnDisk(s.disk, k) ==> Waits(s, k)
    ensures forall k :: Waits(WriteBack(s, b), k) ==> Waits(s, k)
  {
    var t := WriteBack(s, b);
    assert DirtyFor(s, b, KeyOf(s.c.bufs[b]));
    forall k | Waits(t, k)
      ensures Waits(s, k)
    {
      var x :| DirtyFor(t, x, k);
      assert DirtyFor(s, x, k);
    }
  }

  lemma {:induction false} SyncOnly(s: Sys, dev: nat, i: nat)
    ensures var t := SyncFrom(s, dev, i);
      && (forall k :: OnDisk(t.disk, k) != OnDisk(s.disk, k) ==> Waits(s, k))
      && (forall k :: Waits(t, k) ==> Waits(s, k))
    decreases |s.c.bufs| - i
  {
    hide OnDisk, Waits;
    if i < |s.c.bufs| {
      if s.c.bufs[i].dev == dev && s.c.bufs[i].dirt {
        WriteBackOnly(s, i);
        SyncOnly(WriteBack(s, i), dev, i + 1);
      } else {
        SyncOnly(s, dev, i + 1);
      }
    }
  }

  /** Buffers may be renamed, counted and filled from the disk, but none that was not is dirty. */
  ghost predicate NoNewDirt(s: Sys, t: Sys) {
    && t.disk == s.disk && |t.c.bufs| == |s.c.bufs|
    && forall b :: 0 <= b < |s.c.bufs| && t.c.bufs[b].dirt ==> s.c.bufs[b].dirt && KeyOf(t.c.bufs[b]) == KeyOf(s.c.bufs[b])
  }

  lemma NoNewWaits(s: Sys, t: Sys)
    requires NoNewDirt(s, t)
    ensures forall k :: Waits(t, k) ==> Waits(s, k)
  {
    forall k | Waits(t, k)
      ensures Waits(s, k)
    {
      var b :| DirtyFor(t, b, k);
      assert DirtyFor(s, b, k);
    }
  }

  lemma RecycleOnly(s: Sys, b: int, dev: nat, block: nat)
    requires 0 <= b < |s.c.bufs| && |s.c.chains| == NR_HASH
    ensures var t := Recycle(s, b, dev, block);
      && (forall k :: OnDisk(t.disk, k) != OnDisk(s.disk, k) ==> Waits(s, k))
      && (forall k :: Waits(t, k) ==> Waits(s, k))
  {
    var s1 := Counted(s, b, 1);
    var s2 := s1.(c := RemoveFromQueues(s1.c, b));
    SyncShape(s2, s.c.bufs[b].dev, 0);
    SyncOnly(s2, s.c.bufs[b].dev, 0);
    var s3 := if s.c.bufs[b].dirt then SyncDev(s2, s.c.bufs[b].dev) else s2;
    NoNewWaits(s, s2);
    NoNewWaits(s3, Recycle(s, b, dev, block));
    hide SyncFrom, Waits, OnDisk;
  }

  lemma GetOnly(s: Sys, k: Key)
    requires |s.c.chains| == NR_HASH
    ensures var t := GetBlk(s, k.dev, k.block).0;
      && (forall x :: OnDisk(t.disk, x) != OnDisk(s.disk, x) ==> Waits(s, x))
      && (forall x :: Waits(t, x) ==> Waits(s, x))
  {
    match FindBuffer(s.c, k.dev, k.block) {
      case Some(b) =>
        NoNewWaits(s, GetBlk(s, k.dev, k.block).0);
      case None =>
        match FirstFree(s.c, s.c.ring)
        case None =>
        case Some(b) =>
          if 0 <= b < |s.c.bufs| {
            RecycleOnly(s, b, k.dev, k.block);
            hide Recycle, Waits, OnDisk;
          }
    }
  }

  /** Reading makes no buffer wait, and writing only the block's own. */
  lemma RestOnly(s: Sys, o: Op)
    requires |s.c.chains| == NR_HASH && !o.Sync?
    ensures var (g, r) := GetBlk(s, o.k.dev, o.k.block); var t := Apply(s, o).0;
      && t.disk == g.disk
      && (o.Read? ==> NoNewDirt(g, t))
      && (o.Write? ==> forall b, x :: DirtyFor(t, b, x) && r != Some(b) ==> DirtyFor(g, b, x))
      && (o.Write? ==> forall b, x :: DirtyFor(t, b, x) && r == Some(b) ==> 0 <= b < |g.c.bufs| && KeyOf(g.c.bufs[b]) == x)
  {
    hide GetBlk;
  }

  lemma WrittenOnly(s: Sys, o: Op)
    requires Quiet(s) && o.Write? && Legal(o)
    ensures |s.c.chains| == NR_HASH
    ensures var g := GetBlk(s, o.k.dev, o.k.block).0; var t := Apply(s, o).0;
      forall x :: Waits(t, x) ==> Waits(g, x) || x == o.k
  {
    InvUnique(s);
    GetBlkWorks(s, o.k);
    hide GetBlk, SameSight, Struct, Coherent, Apply, DirtyFor;
    RestOnly(s, o);
    var (g, r) := GetBlk(s, o.k.dev, o.k.block);
    var t := Apply(s, o).0;
    forall x | Waits(t, x)
      ensures Waits(g, x) || x == o.k
    {
      var b :| DirtyFor(t, b, x);
      if r == Some(b) {
        assert KeyOf(g.c.bufs[b]) == o.k;
      } else {
        assert DirtyFor(g, b, x);
      }
    }
  }

  /** One operation. */
  lemma OperationOnly(s: Sys, o: Op)
    requires Quiet(s) && Legal(o)
    ensures |s.c.chains| == NR_HASH
    ensures var t := Apply(s, o).0;
      && (forall k :: OnDisk(t.disk, k) != OnDisk(s.disk, k) ==> Waits(s, k))
      && (forall k :: Waits(t, k) ==> Waits(s, k) || (o.Write? && k == o.k))
  {
    InvUnique(s);
    hide Waits, OnDisk, GetBlk, Apply;
    if o.Sync? {
      SyncedOnly(s, o.dev);
    } else {
      var g, t := GetBlk(s, o.k.dev, o.k.block).0, Apply(s, o).0;
      GetOnly(s, o.k);
      RestOnly(s, o);
      assert t.disk == g.disk;
      if o.Read? {
        NoNewWaits(g, t);
      } else {
        WrittenOnly(s, o);
      }
    }
  }

  lemma SyncedOnly(s: Sys, dev: nat)
    requires |s.c.chains| == NR_HASH
    ensures var t := Apply(s, Sync(dev)).0;
      && (forall k :: OnDisk(t.disk, k) != OnDisk(s.disk, k) ==> Waits(s, k))
      && (forall k :: Waits(t, k) ==> Waits(s, k))
  {
    SyncOnly(s, dev, 0);
    hide Waits, OnDisk, SyncFrom;
  }

  ghost predicate Writes(os: seq<Op>, k: Key) {
    exists i :: 0 <= i < |os| && WritesTo(os[i], k)
  }

  predicate WritesTo(o: Op, k: Key) {
    o.Write? && o.k == k
  }

  /** Over any run of reads, writes and syncs the disk changes only at blocks that the run writes, or
      that a buffer was waiting to be written to before it; so runs of reads write nothing. */
  lemma {:induction false} OnlyWrittenBlocksChange(s: Sys, os: seq<Op>, k: Key)
    requires Quiet(s) && forall o :: o in os ==> Legal(o)
    ensures |s.c.chains| == NR_HASH
    ensures var t := Run(s, os).0;
      && (OnDisk(t.disk, k) != OnDisk(s.disk, k) ==> Waits(s, k) || Writes(os, k))
      && (Waits(t, k) ==> Waits(s, k) || Writes(os, k))
    decreases |os|
  {
    hide Apply, Waits, OnDisk;
    InvUnique(s);
    if os != [] {
      var t := Apply(s, os[0]).0;
      OperationOnly(s, os[0]);
      BufferTurns.StillQuiet(s, os[0]);
      BufferTurns.RunOne(s, os);
      assert forall o :: o in os[1..] ==> o in os;
      OnlyWrittenBlocksChange(t, os[1..], k);
      if Writes(os[1..], k) {
        var i :| 0 <= i < |os[1..]| && WritesTo(os[1..][i], k);
        assert WritesTo(os[i + 1], k);
      }
      if WritesTo(os[0], k) {
        assert Writes(os, k);
      }
    }
  }
}
