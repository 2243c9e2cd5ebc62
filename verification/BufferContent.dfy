/** The buffer cache of fs/buffer.c and the disk behind it, one task at a time and without I/O
    errors: what the blocks look like through the cache. */
module BufferContent {
  import opened Options
  import opened BufferModel

  datatype Key = Key(dev: nat, block: nat)

  datatype Sys = Sys(c: Cache, disk: map<Key, Block>)

  function KeyOf(b: Buf): Key {
    Key(b.dev, b.block)
  }

  function OnDisk(disk: map<Key, Block>, k: Key): Block {
    if k in disk then disk[k] else []
  }

  /** What a reader of block `k` gets: the cached copy if there is one that is up to date, and
      the disk's otherwise. */
  function View(s: Sys, k: Key): Block
    requires |s.c.chains| == NR_HASH
  {
    match FindBuffer(s.c, k.dev, k.block)
    case Some(b) => if 0 <= b < |s.c.bufs| && s.c.bufs[b].uptodate then s.c.bufs[b].data else OnDisk(s.disk, k)
    case None => OnDisk(s.disk, k)
  }

  // ---------- the operations ----------

  /** A write request that has completed. */
  function WriteBack(s: Sys, b: int): Sys {
    if 0 <= b < |s.c.bufs| then
      Sys(s.c.(bufs := s.c.bufs[b := s.c.bufs[b].(dirt := false, uptodate := true)]),
          s.disk[KeyOf(s.c.bufs[b]) := s.c.bufs[b].data])
    else s
  }

  /** The loop of `sync_dev` from buffer `i` on. */
  function SyncFrom(s: Sys, dev: nat, i: nat): Sys
    decreases |s.c.bufs| - i
  {
    if i >= |s.c.bufs| then s
    else SyncFrom(if s.c.bufs[i].dev == dev && s.c.bufs[i].dirt then WriteBack(s, i) else s, dev, i + 1)
  }

  function SyncDev(s: Sys, dev: nat): Sys {
    SyncFrom(s, dev, 0)
  }

  /** The walk of `getblk` over the list. */
  function FirstFree(c: Cache, ring: seq<int>): Option<int> {
    if ring == [] then None
    else if 0 <= ring[0] < |c.bufs| && c.bufs[ring[0]].count == 0 then Some(ring[0])
    else FirstFree(c, ring[1..])
  }

  function Counted(s: Sys, b: int, n: int): Sys {
    if 0 <= b < |s.c.bufs| && n >= 0 then s.(c := s.c.(bufs := s.c.bufs[b := s.c.bufs[b].(count := n)])) else s
  }

  function Renamed(c: Cache, b: int, dev: nat, block: nat): Cache
    requires 0 <= b < |c.bufs|
  {
    c.(bufs := c.bufs[b := c.bufs[b].(dev := dev, block := block, dirt := false, uptodate := false)])
  }

  /** Taking buffer `b`, whose count is 0, for another block. */
  function Recycle(s: Sys, b: int, dev: nat, block: nat): Sys
    requires 0 <= b < |s.c.bufs| && |s.c.chains| == NR_HASH
  {
    var s1 := Counted(s, b, 1);
    var s2 := s1.(c := RemoveFromQueues(s1.c, b));
    SyncShape(s2, s.c.bufs[b].dev, 0);
    var s3 := if s.c.bufs[b].dirt then SyncDev(s2, s.c.bufs[b].dev) else s2;
    s3.(c := InsertIntoQueues(Renamed(s3.c, b, dev, block), b))
  }

  lemma {:induction false} SyncShape(s: Sys, dev: nat, i: nat)
    ensures SyncFrom(s, dev, i).c.ring == s.c.ring && SyncFrom(s, dev, i).c.chains == s.c.chains
    ensures |SyncFrom(s, dev, i).c.bufs| == |s.c.bufs|
    decreases |s.c.bufs| - i
  {
    if i < |s.c.bufs| {
      SyncShape(if s.c.bufs[i].dev == dev && s.c.bufs[i].dirt then WriteBack(s, i) else s, dev, i + 1);
    }
  }

  /** `getblk`; no buffer when every one is in use and the task must sleep. */
  function GetBlk(s: Sys, dev: nat, block: nat): (Sys, Option<int>)
    requires |s.c.chains| == NR_HASH
  {
    match FindBuffer(s.c, dev, block)
    case Some(b) => (if 0 <= b < |s.c.bufs| then Counted(s, b, s.c.bufs[b].count + 1) else s, Some(b))
    case None =>
      match FirstFree(s.c, s.c.ring)
      case None => (s, None)
      case Some(b) => (if 0 <= b < |s.c.bufs| then Recycle(s, b, dev, block) else s, Some(b))
  }

  function ReadIn(s: Sys, b: int): Sys {
    if 0 <= b < |s.c.bufs| then
      s.(c := s.c.(bufs := s.c.bufs[b := s.c.bufs[b].(data := OnDisk(s.disk, KeyOf(s.c.bufs[b])), uptodate := true, dirt := false)]))
    else s
  }

  function BRead(s: Sys, dev: nat, block: nat): (Sys, Option<int>)
    requires |s.c.chains| == NR_HASH
  {
    var (t, b) := GetBlk(s, dev, block);
    if b.Some? && 0 <= b.value < |t.c.bufs| && !t.c.bufs[b.value].uptodate then (ReadIn(t, b.value), b) else (t, b)
  }

  function BRelse(s: Sys, b: int): Sys {
    if 0 <= b < |s.c.bufs| then Counted(s, b, s.c.bufs[b].count - 1) else s
  }

  /** A holder of an up-to-date buffer changes its data and marks it. */
  function Modify(s: Sys, b: int, data: Block): Sys {
    if 0 <= b < |s.c.bufs| then s.(c := s.c.(bufs := s.c.bufs[b := s.c.bufs[b].(data := data, dirt := true)])) else s
  }

  // ---------- what they keep ----------

  /** A dirty buffer is up to date, and a clean one that is up to date agrees with the disk. */
  ghost predicate BufOk(v: Buf, disk: map<Key, Block>) {
    && (v.dirt ==> v.uptodate && v.dev != 0)
    && (v.uptodate && !v.dirt && v.dev != 0 ==> v.data == OnDisk(disk, KeyOf(v)))
  }

  ghost predicate Coherent(s: Sys) {
    forall b :: 0 <= b < |s.c.bufs| ==> BufOk(s.c.bufs[b], s.disk)
  }

  /** Buffer `b`, listed or not, is for block `k`. */
  ghost predicate Holds(s: Sys, b: int, k: Key) {
    0 <= b < |s.c.bufs| && k.dev != 0 && KeyOf(s.c.bufs[b]) == k
  }

  /** No two buffers, listed or not, are for the same block. */
  ghost predicate AllUnique(s: Sys) {
    forall a, b, k :: Holds(s, a, k) && Holds(s, b, k) ==> a == b
  }

  ghost predicate Inv(s: Sys) {
    Struct(s.c) && Coherent(s) && forall b :: 0 <= b < |s.c.bufs| ==> b in s.c.ring
  }

  /** What buffer `b` shows for its block. */
  function Shown(v: Buf, disk: map<Key, Block>): Block {
    if v.uptodate then v.data else OnDisk(disk, KeyOf(v))
  }

  /** `View`, but over all buffers instead of by way of the hash chains. */
  ghost predicate Sees(s: Sys, k: Key, x: Block) {
    && (forall b :: Holds(s, b, k) ==> x == Shown(s.c.bufs[b], s.disk))
    && ((forall b :: !Holds(s, b, k)) ==> x == OnDisk(s.disk, k))
  }

  ghost predicate SameSight(s: Sys, t: Sys) {
    forall k: Key, x :: k.dev != 0 ==> (Sees(t, k, x) <==> Sees(s, k, x))
  }

  lemma InvUnique(s: Sys)
    requires Inv(s)
    ensures AllUnique(s) && |s.c.chains| == NR_HASH
  {
    forall a, b, k | Holds(s, a, k) && Holds(s, b, k)
      ensures a == b
    {
      assert Chained(s.c, a) && Chained(s.c, b);
    }
  }

  /** The hash chains find what there is. */
  lemma ViewIsSeen(s: Sys, k: Key)
    requires Inv(s) && k.dev != 0
    ensures |s.c.chains| == NR_HASH && forall x :: Sees(s, k, x) <==> x == View(s, k)
  {
    FindBufferIs(s.c, k.dev, k.block);
    InvUnique(s);
    match FindBuffer(s.c, k.dev, k.block)
    case Some(b) => assert Holds(s, b, k);
    case None =>
      forall b
        ensures !Holds(s, b, k)
      {
        assert 0 <= b < |s.c.bufs| ==> b in s.c.ring;
        assert Chained(s.c, b) ==> !SameKey(s.c.bufs[b], k.dev, k.block);
      }
  }

  // ---------- writing back ----------

  /** Every buffer has the same identity, data and count as before; dirty bits may be gone. */
  ghost predicate OnlyCleaned(s: Sys, t: Sys) {
    && |t.c.bufs| == |s.c.bufs| && t.c.ring == s.c.ring && t.c.chains == s.c.chains
    && forall b :: 0 <= b < |s.c.bufs| ==> Cleaned(s.c.bufs[b], t.c.bufs[b])
  }

  predicate Cleaned(v: Buf, w: Buf) {
    w == v || (v.dirt && w == v.(dirt := false, uptodate := true))
  }

  lemma WriteBackWorks(s: Sys, i: int)
    requires Coherent(s) && AllUnique(s) && 0 <= i < |s.c.bufs| && s.c.bufs[i].dirt
    ensures var t := WriteBack(s, i);
      Coherent(t) && AllUnique(t) && SameSight(s, t) && OnlyCleaned(s, t)
  {
    var t := WriteBack(s, i);
    var k := KeyOf(s.c.bufs[i]);
    assert BufOk(s.c.bufs[i], s.disk) && Holds(s, i, k);
    assert forall b, x :: Holds(t, b, x) <==> Holds(s, b, x);
    forall b | 0 <= b < |s.c.bufs|
      ensures BufOk(t.c.bufs[b], t.disk)
      ensures s.c.bufs[b].dev != 0 ==> Shown(t.c.bufs[b], t.disk) == Shown(s.c.bufs[b], s.disk)
    {
      assert BufOk(s.c.bufs[b], s.disk);
      assert b != i ==> !Holds(s, b, k);
    }
    forall y: Key, x | y.dev != 0
      ensures Sees(t, y, x) <==> Sees(s, y, x)
    {
    }
  }

  lemma {:induction false} SyncFromWorks(s: Sys, dev: nat, i: nat)
    requires Coherent(s) && AllUnique(s)
    ensures var t := SyncFrom(s, dev, i);
      && Coherent(t) && AllUnique(t) && SameSight(s, t) && OnlyCleaned(s, t)
      && forall b :: i <= b < |s.c.bufs| && t.c.bufs[b].dev == dev ==> !t.c.bufs[b].dirt
    decreases |s.c.bufs| - i
  {
    if i < |s.c.bufs| {
      hide Coherent, AllUnique, SameSight;
      var n := if s.c.bufs[i].dev == dev && s.c.bufs[i].dirt then WriteBack(s, i) else s;
      if s.c.bufs[i].dev == dev && s.c.bufs[i].dirt {
        WriteBackWorks(s, i);
      } else {
        SightReflexive(s);
      }
      SyncFromWorks(n, dev, i + 1);
      SightTransitive(s, n, SyncFrom(s, dev, i));
    } else {
      SightReflexive(s);
    }
  }

  lemma SightReflexive(s: Sys)
    ensures SameSight(s, s)
  {
  }

  lemma SightTransitive(s: Sys, t: Sys, u: Sys)
    requires SameSight(s, t) && SameSight(t, u)
    ensures SameSight(s, u)
  {
    hide Sees;
  }

  /** A sync changes no block as seen through the cache, and afterwards the disk itself shows
      every block of the device. */
  lemma SyncWorks(s: Sys, dev: nat)
    requires Inv(s) && dev != 0
    ensures var t := SyncDev(s, dev);
      Inv(t) && SameSight(s, t) && forall k: Key :: k.dev == dev ==> View(t, k) == OnDisk(t.disk, k)
  {
    var t := SyncDev(s, dev);
    InvUnique(s);
    SyncFromWorks(s, dev, 0);
    CleanedStruct(s, t);
    forall k: Key | k.dev == dev
      ensures View(t, k) == OnDisk(t.disk, k)
    {
      ViewIsSeen(t, k);
      SeenOnDisk(t, k);
    }
  }

  lemma CleanedStruct(s: Sys, t: Sys)
    requires Inv(s) && OnlyCleaned(s, t) && Coherent(t)
    ensures Inv(t)
  {
    assert forall b :: Chained(t.c, b) <==> Chained(s.c, b);
    forall h, b | 0 <= h < NR_HASH
      ensures b in t.c.chains[h] <==> Chained(t.c, b) && ChainOf(t.c.bufs[b]) == h
    {
      assert b in s.c.chains[h] <==> Chained(s.c, b) && ChainOf(s.c.bufs[b]) == h;
    }
  }

  lemma SeenOnDisk(t: Sys, k: Key)
    requires Coherent(t) && AllUnique(t) && k.dev != 0
    requires forall b :: 0 <= b < |t.c.bufs| && t.c.bufs[b].dev == k.dev ==> !t.c.bufs[b].dirt
    ensures Sees(t, k, OnDisk(t.disk, k))
  {
    forall b | Holds(t, b, k)
      ensures OnDisk(t.disk, k) == Shown(t.c.bufs[b], t.disk)
    {
      assert BufOk(t.c.bufs[b], t.disk);
    }
  }

  // ---------- recycling ----------

  lemma {:induction false} FirstFreeIs(c: Cache, ring: seq<int>)
    requires InBounds(c, ring)
    ensures match FirstFree(c, ring)
            case Some(b) => b in ring && 0 <= b < |c.bufs| && c.bufs[b].count == 0
            case None => forall b :: b in ring ==> c.bufs[b].count > 0
  {
    if ring != [] {
      assert forall x :: x in ring <==> x == ring[0] || x in ring[1..];
      FirstFreeIs(c, ring[1..]);
    }
  }

  /** Changing a count, or a place on the list, changes nothing that is seen. */
  lemma SameBufs(s: Sys, t: Sys)
    requires Coherent(s) && AllUnique(s) && t.disk == s.disk && |t.c.bufs| == |s.c.bufs|
    requires forall b :: 0 <= b < |s.c.bufs| ==> t.c.bufs[b] == s.c.bufs[b].(count := t.c.bufs[b].count)
    ensures Coherent(t) && AllUnique(t) && SameSight(s, t)
  {
    assert forall b, k :: Holds(t, b, k) <==> Holds(s, b, k);
    forall b | 0 <= b < |s.c.bufs|
      ensures BufOk(t.c.bufs[b], t.disk)
    {
      assert BufOk(s.c.bufs[b], s.disk);
    }
  }

  /** Giving a clean buffer to a block that no buffer is for changes nothing that is seen. */
  lemma RenameWorks(s: Sys, b: int, k: Key)
    requires Coherent(s) && AllUnique(s) && 0 <= b < |s.c.bufs| && !s.c.bufs[b].dirt
    requires k.dev != 0 && forall x :: !Holds(s, x, k)
    ensures var t := s.(c := Renamed(s.c, b, k.dev, k.block)); Coherent(t) && AllUnique(t) && SameSight(s, t)
  {
    var t := s.(c := Renamed(s.c, b, k.dev, k.block));
    var was := KeyOf(s.c.bufs[b]);
    assert BufOk(s.c.bufs[b], s.disk);
    assert forall x, y :: Holds(t, x, y) <==> if x == b then y == k else Holds(s, x, y);
    forall x | 0 <= x < |s.c.bufs|
      ensures BufOk(t.c.bufs[x], t.disk)
    {
      assert BufOk(s.c.bufs[x], s.disk);
    }
    forall y: Key, x | y.dev != 0
      ensures Sees(t, y, x) <==> Sees(s, y, x)
    {
      if y == k {
        assert Holds(t, b, k);
      } else if y == was {
        assert Holds(s, b, was);
        assert forall z :: !Holds(t, z, was);
      } else {
        assert forall z :: Holds(t, z, y) <==> Holds(s, z, y);
      }
    }
  }

  /** `getblk` taking over a buffer, with everything written out on the way. */
  lemma RecycleWorks(s: Sys, b: int, k: Key)
    requires Inv(s) && 0 <= b < |s.c.bufs| && s.c.bufs[b].count == 0
    requires k.dev != 0 && forall x :: !Holds(s, x, k)
    ensures |s.c.chains| == NR_HASH
    ensures var t := Recycle(s, b, k.dev, k.block);
      && Inv(t) && SameSight(s, t) && |t.c.bufs| == |s.c.bufs| && Holds(t, b, k)
      && !t.c.bufs[b].uptodate && t.c.bufs[b].count == 1
      && forall x :: 0 <= x < |s.c.bufs| && x != b ==> t.c.bufs[x].count == s.c.bufs[x].count
  {
    InvUnique(s);
    hide Struct, Coherent, AllUnique, SameSight, RemoveFromQueues, InsertIntoQueues, SyncDev, Holds, Chained, OnlyCleaned;
    var s1 := Counted(s, b, 1);
    var s2 := s1.(c := RemoveFromQueues(s1.c, b));
    TakenOff(s, b);
    SyncShape(s2, s.c.bufs[b].dev, 0);
    var s3 := if s.c.bufs[b].dirt then SyncDev(s2, s.c.bufs[b].dev) else s2;
    SyncedAway(s, s2, b);
    StillNotHeld(s, s2, s3, b, k);
    SightTransitive(s, s2, s3);
    RenameWorks(s3, b, k);
    var s4 := s3.(c := Renamed(s3.c, b, k.dev, k.block));
    SightTransitive(s, s3, s4);
    RecycleListed(s2.c, s3, b, k);
    var t := s4.(c := InsertIntoQueues(s4.c, b));
    SameBufs(s4, t);
    SightTransitive(s, s4, t);
    CountsKept(s, s2, s3, b, k);
  }

  lemma TakenOff(s: Sys, b: int)
    requires Inv(s) && AllUnique(s) && 0 <= b < |s.c.bufs| && |s.c.chains| == NR_HASH
    ensures var s1 := Counted(s, b, 1);
      var s2 := s1.(c := RemoveFromQueues(s1.c, b));
      && Struct(s2.c) && s2.c.bufs == s.c.bufs[b := s.c.bufs[b].(count := 1)] && b !in s2.c.ring
      && (forall x :: 0 <= x < |s.c.bufs| && x != b ==> x in s2.c.ring)
      && Coherent(s2) && AllUnique(s2) && SameSight(s, s2)
  {
    var s1 := Counted(s, b, 1);
    ChangeKeeps(s.c, b, s.c.bufs[b].(count := 1));
    RemoveKeeps(s1.c, b);
    SameBufs(s, s1.(c := RemoveFromQueues(s1.c, b)));
  }

  lemma StillNotHeld(s: Sys, s2: Sys, s3: Sys, b: int, k: Key)
    requires 0 <= b < |s.c.bufs| && s2.c.bufs == s.c.bufs[b := s.c.bufs[b].(count := 1)] && OnlyCleaned(s2, s3)
    requires forall x :: !Holds(s, x, k)
    ensures forall x :: !Holds(s3, x, k)
    ensures OnlyCleaned(Sys(s2.c, s3.disk), s3)
  {
    forall x
      ensures !Holds(s3, x, k)
    {
      assert !Holds(s, x, k);
    }
  }

  lemma CountsKept(s: Sys, s2: Sys, s3: Sys, b: int, k: Key)
    requires 0 <= b < |s.c.bufs| && s2.c.bufs == s.c.bufs[b := s.c.bufs[b].(count := 1)] && OnlyCleaned(s2, s3)
    ensures |s3.c.bufs| == |s.c.bufs|
    ensures var r := Renamed(s3.c, b, k.dev, k.block);
      && r.bufs[b].count == 1 && KeyOf(r.bufs[b]) == k
      && (forall x :: 0 <= x < |s.c.bufs| && x != b ==> r.bufs[x].count == s.c.bufs[x].count)
      && (k.dev != 0 ==> Holds(Sys(r, s3.disk), b, k))
  {
  }

  lemma SyncedAway(s: Sys, s2: Sys, b: int)
    requires 0 <= b < |s.c.bufs| && |s2.c.bufs| == |s.c.bufs| && s2.c.bufs == s.c.bufs[b := s.c.bufs[b].(count := 1)]
    requires Coherent(s2) && AllUnique(s2)
    ensures var s3 := if s.c.bufs[b].dirt then SyncDev(s2, s.c.bufs[b].dev) else s2;
      Coherent(s3) && AllUnique(s3) && SameSight(s2, s3) && OnlyCleaned(s2, s3) && !s3.c.bufs[b].dirt
  {
    hide Coherent, AllUnique, SameSight;
    SightReflexive(s2);
    SyncFromWorks(s2, s.c.bufs[b].dev, 0);
  }

  lemma RecycleListed(c: Cache, s3: Sys, b: int, k: Key)
    requires Struct(c) && 0 <= b < |c.bufs| && b !in c.ring && forall x :: 0 <= x < |c.bufs| && x != b ==> x in c.ring
    requires OnlyCleaned(Sys(c, s3.disk), s3) && k.dev != 0 && forall x :: !Holds(s3, x, k)
    ensures |s3.c.chains| == NR_HASH && Struct(s3.c)
    ensures var r := Renamed(s3.c, b, k.dev, k.block); Struct(r) && FindBuffer(r, k.dev, k.block).None?
    ensures var n := InsertIntoQueues(Renamed(s3.c, b, k.dev, k.block), b);
      Struct(n) && n.bufs == Renamed(s3.c, b, k.dev, k.block).bufs && forall x :: 0 <= x < |n.bufs| ==> x in n.ring
  {
    assert forall x :: Chained(s3.c, x) <==> Chained(c, x);
    forall h, x | 0 <= h < NR_HASH
      ensures x in s3.c.chains[h] <==> Chained(s3.c, x) && ChainOf(s3.c.bufs[x]) == h
    {
      assert x in c.chains[h] <==> Chained(c, x) && ChainOf(c.bufs[x]) == h;
    }
    var r := Renamed(s3.c, b, k.dev, k.block);
    ChangeKeeps(s3.c, b, r.bufs[b]);
    forall x | Chained(r, x)
      ensures !SameKey(r.bufs[x], k.dev, k.block)
    {
      assert !Holds(s3, x, k);
    }
    FindBufferIs(r, k.dev, k.block);
    InsertKeeps(r, b);
  }

  // ---------- getblk, bread, brelse and a change by the holder ----------

  ghost predicate OneMore(s: Sys, t: Sys, b: int) {
    && |t.c.bufs| == |s.c.bufs| && 0 <= b < |s.c.bufs|
    && forall x :: 0 <= x < |s.c.bufs| ==> t.c.bufs[x].count == s.c.bufs[x].count + if x == b then 1 else 0
  }

  lemma CountedWorks(s: Sys, b: int, n: nat)
    requires Inv(s) && 0 <= b < |s.c.bufs|
    ensures Inv(Counted(s, b, n)) && SameSight(s, Counted(s, b, n))
  {
    InvUnique(s);
    ChangeKeeps(s.c, b, s.c.bufs[b].(count := n));
    SameBufs(s, Counted(s, b, n));
  }

  /** `getblk` changes no block as seen through the cache, even when it throws out a dirty
      buffer; it fails only when every buffer is referenced and none is for this block. */
  lemma GetBlkWorks(s: Sys, k: Key)
    requires Inv(s) && k.dev != 0
    ensures |s.c.chains| == NR_HASH
    ensures var (t, r) := GetBlk(s, k.dev, k.block);
      && Inv(t) && SameSight(s, t)
      && (r.Some? ==> Holds(t, r.value, k) && OneMore(s, t, r.value))
      && (r.None? <==> (forall b :: 0 <= b < |s.c.bufs| ==> s.c.bufs[b].count > 0 && !Holds(s, b, k)))
      && (r.None? ==> t == s)
  {
    InvUnique(s);
    FindBufferIs(s.c, k.dev, k.block);
    FirstFreeIs(s.c, s.c.ring);
    match FindBuffer(s.c, k.dev, k.block) {
      case Some(b) =>
        assert Holds(s, b, k);
        CountedWorks(s, b, s.c.bufs[b].count + 1);
      case None =>
        forall b
          ensures !Holds(s, b, k)
        {
          assert 0 <= b < |s.c.bufs| ==> b in s.c.ring;
          assert Chained(s.c, b) ==> !SameKey(s.c.bufs[b], k.dev, k.block);
        }
        match FirstFree(s.c, s.c.ring) {
          case Some(b) =>
            hide Struct, Coherent, SameSight, Recycle;
            RecycleWorks(s, b, k);
          case None => SightReflexive(s);
        }
    }
  }

  lemma ReadInWorks(s: Sys, b: int, k: Key)
    requires Inv(s) && Holds(s, b, k) && !s.c.bufs[b].uptodate
    ensures Inv(ReadIn(s, b)) && SameSight(s, ReadIn(s, b))
    ensures ReadIn(s, b).c.bufs[b].uptodate && Holds(ReadIn(s, b), b, k)
  {
    var t := ReadIn(s, b);
    InvUnique(s);
    ChangeKeeps(s.c, b, t.c.bufs[b]);
    assert forall x, y :: Holds(t, x, y) <==> Holds(s, x, y);
    forall x | 0 <= x < |s.c.bufs|
      ensures BufOk(t.c.bufs[x], t.disk) && Shown(t.c.bufs[x], t.disk) == Shown(s.c.bufs[x], s.disk)
    {
      assert BufOk(s.c.bufs[x], s.disk);
    }
  }

  lemma SightHeld(s: Sys, b: int, k: Key)
    requires AllUnique(s) && Holds(s, b, k)
    ensures forall x :: Sees(s, k, x) <==> x == Shown(s.c.bufs[b], s.disk)
  {
  }

  /** `bread` hands out exactly what is seen of the block, and changes nothing that is seen. */
  lemma BReadWorks(s: Sys, k: Key)
    requires Inv(s) && k.dev != 0
    ensures |s.c.chains| == NR_HASH
    ensures var (t, r) := BRead(s, k.dev, k.block);
      && Inv(t) && SameSight(s, t)
      && (r.Some? ==> Holds(t, r.value, k) && OneMore(s, t, r.value) && t.c.bufs[r.value].uptodate && t.c.bufs[r.value].data == View(s, k))
      && (r.None? <==> (forall b :: 0 <= b < |s.c.bufs| ==> s.c.bufs[b].count > 0 && !Holds(s, b, k)))
  {
    hide Struct, Coherent, GetBlk, FindBuffer, View;
    GetBlkWorks(s, k);
    var (g, r) := GetBlk(s, k.dev, k.block);
    if r.Some? {
      if !g.c.bufs[r.value].uptodate {
        ReadInWorks(g, r.value, k);
        SightTransitive(s, g, ReadIn(g, r.value));
      }
      var (t, _) := BRead(s, k.dev, k.block);
      ViewIsSeen(s, k);
      InvUnique(t);
      SightHeld(t, r.value, k);
      assert Sees(s, k, View(s, k)) && Sees(t, k, View(s, k));
    }
  }

  /** A change made by a holder is seen at once, and nothing else is. */
  lemma ModifyWorks(s: Sys, b: int, k: Key, data: Block)
    requires Inv(s) && Holds(s, b, k) && s.c.bufs[b].uptodate
    ensures var t := Modify(s, b, data);
      && Inv(t) && Holds(t, b, k) && (forall x :: Sees(t, k, x) <==> x == data)
      && forall y: Key, x :: y.dev != 0 && y != k ==> (Sees(t, y, x) <==> Sees(s, y, x))
  {
    var t := Modify(s, b, data);
    InvUnique(s);
    ChangeKeeps(s.c, b, t.c.bufs[b]);
    assert forall x, y :: Holds(t, x, y) <==> Holds(s, x, y);
    forall x | 0 <= x < |s.c.bufs|
      ensures BufOk(t.c.bufs[x], t.disk) && (x != b ==> t.c.bufs[x] == s.c.bufs[x])
    {
      assert BufOk(s.c.bufs[x], s.disk);
    }
    SightHeld(t, b, k);
  }

  lemma BRelseWorks(s: Sys, b: int)
    requires Inv(s) && 0 <= b < |s.c.bufs| && s.c.bufs[b].count > 0
    ensures Inv(BRelse(s, b)) && SameSight(s, BRelse(s, b)) && OneMore(BRelse(s, b), s, b)
  {
    CountedWorks(s, b, s.c.bufs[b].count - 1);
  }

  // ---------- whole runs ----------

  /** A client reads a block, replaces its contents, or has a device synced; each call gives
      back the buffer it took. */
  datatype Op = Read(k: Key) | Write(k: Key, data: Block) | Sync(dev: nat)

  ghost predicate Legal(o: Op) {
    match o
    case Read(k) => k.dev != 0
    case Write(k, _) => k.dev != 0
    case Sync(dev) => dev != 0
  }

  /** The system afterwards, and what a read returned. */
  function Apply(s: Sys, o: Op): (Sys, Block)
    requires |s.c.chains| == NR_HASH
  {
    match o
    case Read(k) =>
      var (t, r) := BRead(s, k.dev, k.block);
      if r.Some? && 0 <= r.value < |t.c.bufs| then (BRelse(t, r.value), t.c.bufs[r.value].data) else (t, [])
    case Write(k, data) =>
      var (t, r) := BRead(s, k.dev, k.block);
      if r.Some? && 0 <= r.value < |t.c.bufs| then (BRelse(Modify(t, r.value, data), r.value), []) else (t, [])
    case Sync(dev) => (SyncDev(s, dev), [])
  }

  /** The same on a plain array of blocks. */
  function Ideal(m: map<Key, Block>, o: Op): map<Key, Block> {
    if o.Write? then m[o.k := o.data] else m
  }

  /** The cache and the disk together show the array `m`. */
  ghost predicate Shows(s: Sys, m: map<Key, Block>) {
    forall k: Key :: k.dev != 0 ==> Sees(s, k, OnDisk(m, k))
  }

  ghost predicate Quiet(s: Sys) {
    Inv(s) && |s.c.bufs| > 0 && forall b :: 0 <= b < |s.c.bufs| ==> s.c.bufs[b].count == 0
  }

  lemma StepShows(s: Sys, m: map<Key, Block>, o: Op)
    requires Quiet(s) && Shows(s, m) && Legal(o)
    ensures |s.c.chains| == NR_HASH
    ensures var (t, x) := Apply(s, o);
      Quiet(t) && Shows(t, Ideal(m, o)) && (o.Read? ==> x == OnDisk(m, o.k))
  {
    hide Struct, Coherent, Sees, BRead, SyncDev, FindBuffer, View;
    InvUnique(s);
    match o
    case Read(k) =>
      BReadWorks(s, k);
      assert s.c.bufs[0].count == 0;
      var (t, r) := BRead(s, k.dev, k.block);
      BRelseWorks(t, r.value);
      SightTransitive(s, t, BRelse(t, r.value));
      ViewIsSeen(s, k);
    case Write(k, data) =>
      BReadWorks(s, k);
      assert s.c.bufs[0].count == 0;
      var (t, r) := BRead(s, k.dev, k.block);
      ModifyWorks(t, r.value, k, data);
      var w := Modify(t, r.value, data);
      BRelseWorks(w, r.value);
    case Sync(dev) =>
      SyncWorks(s, dev);
      SyncCounts(s, dev);
  }

  lemma SyncCounts(s: Sys, dev: nat)
    requires Inv(s)
    ensures |SyncDev(s, dev).c.bufs| == |s.c.bufs|
    ensures forall b :: 0 <= b < |s.c.bufs| ==> SyncDev(s, dev).c.bufs[b].count == s.c.bufs[b].count
  {
    InvUnique(s);
    SyncFromWorks(s, dev, 0);
    var t := SyncDev(s, dev);
    assert forall b :: 0 <= b < |s.c.bufs| ==> Cleaned(s.c.bufs[b], t.c.bufs[b]);
  }

  function Run(s: Sys, os: seq<Op>): (Sys, seq<Block>)
    requires |s.c.chains| == NR_HASH
    decreases |os|
  {
    if os == [] then (s, [])
    else
      var (t, x) := Apply(s, os[0]);
      if |t.c.chains| != NR_HASH then (t, [])
      else
        var (u, xs) := Run(t, os[1..]);
        (u, [x] + xs)
  }

  function IdealRun(m: map<Key, Block>, os: seq<Op>): (map<Key, Block>, seq<Block>)
    decreases |os|
  {
    if os == [] then (m, [])
    else
      var (n, xs) := IdealRun(Ideal(m, os[0]), os[1..]);
      (n, [if os[0].Read? then OnDisk(m, os[0].k) else []] + xs)
  }

  /** Any run of reads, writes and syncs, over more blocks than there are buffers, answers every
      read as a plain array of blocks would. */
  lemma {:induction false} RunShows(s: Sys, m: map<Key, Block>, os: seq<Op>)
    requires Quiet(s) && Shows(s, m) && forall o :: o in os ==> Legal(o)
    ensures |s.c.chains| == NR_HASH
    ensures Quiet(Run(s, os).0) && Shows(Run(s, os).0, IdealRun(m, os).0) && Run(s, os).1 == IdealRun(m, os).1
    decreases |os|
  {
    hide Inv, Shows, Apply, Ideal;
    InvUnique(s);
    if os != [] {
      StepShows(s, m, os[0]);
      var (t, x) := Apply(s, os[0]);
      NotRead(s, os[0]);
      InvUnique(t);
      RunShows(t, Ideal(m, os[0]), os[1..]);
    }
  }

  lemma NotRead(s: Sys, o: Op)
    requires |s.c.chains| == NR_HASH
    ensures !o.Read? ==> Apply(s, o).1 == []
  {
  }
}
