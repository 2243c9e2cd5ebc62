/** The code of fs/buffer.c run by one task: buffer heads with their four pointers, the hash
    table and `free_list`, proved against `BufferContent`. */
module BufferCache {
  import opened Options
  import opened BufferModel
  import opened BufferContent
  import opened BufferLinks

  class Buffers {
    const bufs: array<Buf>
    const next: array<int>
    const prev: array<int>
    const nextFree: array<int>
    const prevFree: array<int>
    const hashTable: array<int>
    var freeList: int
    var disk: map<Key, Block>
    ghost var ring: seq<int>
    ghost var chains: seq<seq<int>>

    ghost function Cached(): Cache
      reads this, bufs
    {
      Cache(bufs[..], ring, chains)
    }

    ghost function Snap(): Sys
      reads this, bufs
    {
      Sys(Cached(), disk)
    }

    ghost predicate Shape()
      reads this`chains
    {
      && next.Length == prev.Length == nextFree.Length == prevFree.Length == bufs.Length
      && hashTable.Length == |chains| == NR_HASH
      && next != prev && next != nextFree && next != prevFree && next != hashTable
      && prev != nextFree && prev != prevFree && prev != hashTable
      && nextFree != prevFree && nextFree != hashTable && prevFree != hashTable
    }

    /** The hash table and the chains it starts. */
    ghost predicate Hashed()
      reads this`chains, next, prev, hashTable
    {
      && hashTable.Length == |chains| == NR_HASH
      && forall h :: 0 <= h < NR_HASH ==> Linear(chains[h], next[..], prev[..]) && hashTable[h] == First(chains[h])
    }

    /** A listed buffer without a device is in no chain and points nowhere. */
    ghost predicate LoneUnlinked()
      reads this, bufs, next, prev
    {
      forall b :: b in ring && 0 <= b < bufs.Length <= next.Length == prev.Length && bufs[b].dev == 0 ==>
        next[b] == NULL && prev[b] == NULL
    }

    ghost predicate Linked()
      reads this, bufs, next, prev, nextFree, prevFree, hashTable
    {
      && Shape() && Circular(ring, nextFree[..], prevFree[..]) && freeList == First(ring)
      && Hashed() && LoneUnlinked()
    }

    ghost predicate Valid()
      reads this, bufs, next, prev, nextFree, prevFree, hashTable
    {
      Linked() && Inv(Snap()) && bufs.Length >= 2
    }

    // ---------- the list ----------

    method LeaveList(b: int)
      requires Shape() && Circular(ring, nextFree[..], prevFree[..]) && freeList == First(ring)
      requires b in ring && |ring| >= 2
      modifies this`freeList, this`ring, nextFree, prevFree
      ensures Circular(ring, nextFree[..], prevFree[..]) && freeList == First(ring)
      ensures ring == Without(old(ring), b)
    {
      hide Circular, Without;
      CircleRemove(ring, nextFree[..], prevFree[..], b);
      var p, n := prevFree[b], nextFree[b];
      nextFree[p] := n;
      prevFree[n] := p;
      assert nextFree[..] == old(nextFree[..])[p := n] && prevFree[..] == old(prevFree[..])[n := p];
      if freeList == b {
        freeList := n;
      }
      ghost var was := ring;
      ring := Without(ring, b);
      WithoutLength(was, b);
    }

    method JoinList(b: int)
      requires Shape() && Circular(ring, nextFree[..], prevFree[..]) && freeList == First(ring)
      requires b !in ring && ring != [] && 0 <= b < bufs.Length
      modifies this`ring, nextFree, prevFree
      ensures Circular(ring, nextFree[..], prevFree[..]) && freeList == First(ring)
      ensures ring == old(ring) + [b]
    {
      hide Circular;
      CircleInsert(ring, nextFree[..], prevFree[..], b);
      var f := freeList;
      var p := prevFree[f];
      nextFree[b] := f;
      prevFree[b] := p;
      nextFree[p] := b;
      prevFree[f] := b;
      assert nextFree[..] == old(nextFree[..])[b := f][p := b];
      assert prevFree[..] == old(prevFree[..])[b := p][f := b];
      ring := ring + [b];
    }

    // ---------- the hash chains ----------

    method LeaveChain(b: int)
      requires Shape() && Hashed() && LoneUnlinked() && Struct(Cached()) && b in ring && 0 <= b < bufs.Length
      modifies this`chains, next, prev, hashTable
      ensures Shape() && Hashed()
      ensures Cached() == old(Cached()).(chains := chains)
      ensures var h := ChainOf(bufs[b]); chains == old(chains)[h := Without(old(chains)[h], b)]
      ensures forall x :: 0 <= x < bufs.Length && x in ring && x != b && bufs[x].dev == 0 ==> next[x] == NULL && prev[x] == NULL
    {
      hide Linear, Without, Hash, Struct;
      var h := ChainOf(bufs[b]);
      ghost var nx, pv, cs, heads := next[..], prev[..], chains, hashTable[..];
      ChainLeft(Cached(), nx, pv, heads, b);
      if next[b] != NULL {
        prev[next[b]] := prev[b];
      }
      if prev[b] != NULL {
        next[prev[b]] := next[b];
      }
      assert next[..] == Set(nx, pv[b], nx[b]) && prev[..] == Set(pv, nx[b], pv[b]);
      if hashTable[h] == b {
        hashTable[h] := next[b];
      }
      chains := chains[h := Without(chains[h], b)];
    }

    method JoinChain(b: int, ghost c: Cache)
      requires Shape() && Hashed() && Struct(c) && b !in c.ring && 0 <= b < bufs.Length
      requires c.bufs == bufs[..] && c.chains == chains && Lone(c, next[..], prev[..])
      modifies this`chains, next, prev, hashTable
      ensures Shape() && Hashed()
      ensures chains == if bufs[b].dev == 0 then old(chains) else old(chains)[ChainOf(bufs[b]) := [b] + old(chains)[ChainOf(bufs[b])]]
      ensures forall x :: 0 <= x < bufs.Length && (x in c.ring || x == b) && bufs[x].dev == 0 ==> next[x] == NULL && prev[x] == NULL
    {
      hide Linear, Hash, Struct;
      ghost var nx, pv, heads := next[..], prev[..], hashTable[..];
      ChainJoined(c, nx, pv, heads, b);
      prev[b] := NULL;
      next[b] := NULL;
      if bufs[b].dev == 0 {
        assert next[..] == nx[b := NULL] && prev[..] == pv[b := NULL];
        return;
      }
      var h := ChainOf(bufs[b]);
      next[b] := hashTable[h];
      hashTable[h] := b;
      if next[b] != NULL {
        prev[next[b]] := b;
      }
      assert next[..] == nx[b := heads[h]] && prev[..] == Set(pv[b := NULL], heads[h], b);
      chains := chains[h := [b] + chains[h]];
    }

    // ---------- the two queue operations ----------

    method Remove(b: int)
      requires Linked() && Struct(Cached()) && b in ring && 0 <= b < bufs.Length && |ring| >= 2
      modifies this`freeList, this`ring, this`chains, next, prev, nextFree, prevFree, hashTable
      ensures Linked() && Cached() == RemoveFromQueues(old(Cached()), b)
    {
      hide Struct, Linear, Circular, Without, Hash;
      RingWithout(Cached(), b);
      LeaveChain(b);
      LeaveList(b);
    }

    method Insert(b: int)
      requires Linked() && Struct(Cached()) && b !in ring && 0 <= b < bufs.Length && ring != []
      modifies this`ring, this`chains, next, prev, nextFree, prevFree, hashTable
      ensures Linked() && Cached() == InsertIntoQueues(old(Cached()), b)
    {
      hide Struct, Linear, Circular, Hash;
      ghost var c := Cached();
      JoinList(b);
      JoinChain(b, c);
    }

    method Find(dev: nat, block: nat) returns (b: int)
      requires Linked() && Struct(Cached())
      ensures b == match FindBuffer(Cached(), dev, block) case Some(x) => x case None => NULL
    {
      hide Struct, Hash, Circular;
      ghost var chain := chains[Hash(dev, block)];
      b := hashTable[Hash(dev, block)];
      ghost var i := 0;
      assert chain[0..] == chain && (|chain| > 0 ==> ChainLink(chain, next[..], prev[..], 0));
      while b != NULL
        invariant 0 <= i <= |chain| && b == (if i < |chain| then chain[i] else NULL)
        invariant i < |chain| ==> ChainLink(chain, next[..], prev[..], i)
        invariant FindIn(Cached(), chain, dev, block) == FindIn(Cached(), chain[i..], dev, block)
        decreases |chain| - i
      {
        assert i + 1 < |chain| ==> ChainLink(chain, next[..], prev[..], i + 1);
        assert chain[i..][0] == b && chain[i..][1..] == chain[i + 1..];
        if SameKey(bufs[b], dev, block) {
          return;
        }
        b := next[b];
        i := i + 1;
      }
      assert chain[i..] == [];
    }

    method SyncDevice(dev: nat)
      requires Linked()
      modifies this`disk, bufs
      ensures Linked() && Snap() == SyncDev(old(Snap()), dev)
    {
      hide Hashed, Circular;
      var i := 0;
      while i < bufs.Length
        invariant 0 <= i <= bufs.Length && Linked()
        invariant SyncDev(old(Snap()), dev) == SyncFrom(Snap(), dev, i)
      {
        if bufs[i].dev == dev {
          if bufs[i].dirt {
            ghost var s := Snap();
            disk := disk[KeyOf(bufs[i]) := bufs[i].data];
            bufs[i] := bufs[i].(dirt := false, uptodate := true);
            assert Snap() == WriteBack(s, i);
          }
        }
        i := i + 1;
      }
    }

    /** The walk of `getblk` over the list, one task being awake. */
    method FindFree() returns (tmp: int)
      requires Linked() && ring != []
      ensures tmp == match FirstFree(Cached(), ring) case Some(x) => x case None => NULL
    {
      hide Hashed;
      tmp := freeList;
      ghost var i := 0;
      assert ring[0..] == ring;
      while true
        invariant 0 <= i < |ring| && tmp == ring[i]
        invariant FirstFree(Cached(), ring) == FirstFree(Cached(), ring[i..])
        decreases |ring| - i
      {
        assert LinkOk(ring, nextFree[..], prevFree[..], i);
        assert ring[i..][0] == tmp && ring[i..][1..] == ring[i + 1..];
        if bufs[tmp].count == 0 {
          return;
        }
        tmp := nextFree[tmp];
        i := i + 1;
        if tmp == freeList {
          Later(ring, i);
          return NULL;
        }
      }
    }

    /** `getblk`; NULL where the task would have to sleep for a buffer. */
    method GetBlk(dev: nat, block: nat) returns (b: int)
      requires Valid() && dev != 0
      modifies this, bufs, next, prev, nextFree, prevFree, hashTable
      ensures Valid() && (Snap(), if b == NULL then None else Some(b)) == BufferContent.GetBlk(old(Snap()), dev, block)
    {
      hide Struct, Coherent, Hashed, Circular, SameSight, Recycle;
      ghost var s := Snap();
      ghost var k := Key(dev, block);
      GetBlkWorks(s, k);
      FoundIsBuffer(s, k);
      RingSize(s);
      b := Find(dev, block);
      if b != NULL {
        bufs[b] := bufs[b].(count := bufs[b].count + 1);
        assert Snap() == Counted(s, b, s.c.bufs[b].count + 1);
        if bufs[b].dev != dev || bufs[b].block != block {
          assert false; // the identity check of get_hash_table
        }
        return;
      }
      b := FindFree();
      if b == NULL {
        return;
      }
      TakeOver(b, dev, block);
    }

    /** Buffer `b` counted and taken off the list. */
    method TakeOff(b: int)
      requires Valid() && 0 <= b < bufs.Length && bufs[b].count == 0
      modifies this`freeList, this`ring, this`chains, bufs, next, prev, nextFree, prevFree, hashTable
      ensures Linked() && |old(Cached()).chains| == NR_HASH && ring != []
      ensures Snap() == OffList(old(Snap()), b)
    {
      hide Struct, Coherent, Hashed, Circular, RemoveFromQueues;
      ghost var s := Snap();
      RingSize(s);
      InvUnique(s);
      ChangeKeeps(s.c, b, s.c.bufs[b].(count := 1));
      bufs[b] := bufs[b].(count := bufs[b].count + 1);
      assert Cached() == Counted(s, b, 1).c;
      Remove(b);
      RemovedSize(Counted(s, b, 1).c, b);
    }

    /** The end of `getblk`, once it has chosen buffer `b`. */
    method TakeOver(b: int, dev: nat, block: nat)
      requires Valid() && 0 <= b < bufs.Length && bufs[b].count == 0
      requires dev != 0 && forall x :: !Holds(Snap(), x, Key(dev, block))
      modifies this, bufs, next, prev, nextFree, prevFree, hashTable
      ensures Linked() && |old(Cached()).chains| == NR_HASH && Snap() == Recycle(old(Snap()), b, dev, block)
    {
      hide Struct, Coherent, Hashed, Circular, SameSight, AllUnique, SyncDev, Holds, Chained, RemoveFromQueues, InsertIntoQueues, Inv;
      ghost var s := Snap();
      ghost var k := Key(dev, block);
      RecycleStages(s, b, k);
      TakeOff(b);
      if bufs[b].dirt {
        SyncDevice(bufs[b].dev);
      }
      bufs[b] := bufs[b].(dev := dev, block := block, dirt := false, uptodate := false);
      var other := Find(dev, block);
      if other != NULL {
        assert false; // with one task awake, nobody else has beaten us to it
      }
      Insert(b);
    }

    method BRelse(b: int)
      requires Valid() && 0 <= b < bufs.Length && bufs[b].count > 0
      modifies bufs
      ensures Valid() && Snap() == BufferContent.BRelse(old(Snap()), b)
    {
      hide Inv, Hashed, Circular;
      BRelseWorks(Snap(), b);
      bufs[b] := bufs[b].(count := bufs[b].count - 1);
      assert Snap() == BufferContent.BRelse(old(Snap()), b);
    }

    /** `bread`, no read failing. */
    method BRead(dev: nat, block: nat) returns (b: int)
      requires Valid() && dev != 0
      modifies this, bufs, next, prev, nextFree, prevFree, hashTable
      ensures Valid() && (Snap(), if b == NULL then None else Some(b)) == BufferContent.BRead(old(Snap()), dev, block)
      ensures b != NULL ==> 0 <= b < bufs.Length && bufs[b].data == View(old(Snap()), Key(dev, block))
    {
      hide Inv, Hashed, Circular, SameSight, BufferContent.GetBlk, View;
      BReadWorks(Snap(), Key(dev, block));
      GetBlkWorks(Snap(), Key(dev, block));
      b := GetBlk(dev, block);
      if b == NULL || bufs[b].uptodate {
        return;
      }
      ghost var s := Snap();
      var k := KeyOf(bufs[b]);
      bufs[b] := bufs[b].(data := OnDisk(disk, k), uptodate := true, dirt := false);
      assert Snap() == ReadIn(s, b);
    }

    /** `buffer_init`. */
    constructor (n: nat, d: map<Key, Block>)
      requires n >= 2
      ensures Valid() && disk == d && Quiet(Snap()) && bufs.Length == n
    {
      bufs := new Buf[n](i => EMPTY);
      next := new int[n](i => NULL);
      prev := new int[n](i => NULL);
      nextFree := new int[n](i => if i + 1 < n then i + 1 else 0);
      prevFree := new int[n](i => if i > 0 then i - 1 else n - 1);
      hashTable := new int[NR_HASH](i => NULL);
      freeList := 0;
      disk := d;
      ring := InOrder(n);
      chains := NoChains();
      new;
      hide Circular, Inv, Linear, Quiet;
      assert bufs[..] == Empties(n);
      BootInv(n, disk);
      assert nextFree[..] == Nexts(n) && prevFree[..] == Prevs(n);
      BootCircle(n);
      EmptyLinear(next[..], prev[..]);
      assert Hashed();
      assert LoneUnlinked();
    }
  }

  const EMPTY := Buf(0, 0, [], false, false, 0)

  function Empties(n: nat): (s: seq<Buf>)
    ensures |s| == n && forall i :: 0 <= i < n ==> s[i] == EMPTY
  {
    seq(n, i => EMPTY)
  }

  function NoChains(): (s: seq<seq<int>>)
    ensures |s| == NR_HASH && forall h :: 0 <= h < NR_HASH ==> s[h] == []
  {
    seq(NR_HASH, i => [])
  }

  function InOrder(n: nat): seq<int> {
    seq(n, i => i)
  }

  function Nexts(n: nat): seq<int> {
    seq(n, i => if i + 1 < n then i + 1 else 0)
  }

  function Prevs(n: nat): seq<int> {
    seq(n, i => if i > 0 then i - 1 else n - 1)
  }

  lemma BootCircle(n: nat)
    requires n >= 1
    ensures Circular(InOrder(n), Nexts(n), Prevs(n)) && First(InOrder(n)) == 0
  {
    forall i | 0 <= i < n
      ensures LinkOk(InOrder(n), Nexts(n), Prevs(n), i)
    {
    }
  }

  lemma BootInv(n: nat, disk: map<Key, Block>)
    requires n >= 1
    ensures var s := Sys(Cache(Empties(n), InOrder(n), NoChains()), disk); Inv(s) && Quiet(s)
  {
    var s := Sys(Cache(Empties(n), InOrder(n), NoChains()), disk);
    forall b | 0 <= b < n
      ensures b in s.c.ring
    {
      assert s.c.ring[b] == b;
    }
    assert forall b :: !Chained(s.c, b);
  }

  lemma EmptyLinear(nx: seq<int>, pv: seq<int>)
    requires |nx| == |pv|
    ensures Linear([], nx, pv)
  {
  }

  function OffList(s: Sys, b: int): Sys
    requires 0 <= b < |s.c.bufs| && |s.c.chains| == NR_HASH
  {
    var s1 := Counted(s, b, 1);
    s1.(c := RemoveFromQueues(s1.c, b))
  }

  /** The stages of `Recycle` are in order. */
  lemma RecycleStages(s: Sys, b: int, k: Key)
    requires Inv(s) && 0 <= b < |s.c.bufs| && s.c.bufs[b].count == 0
    requires k.dev != 0 && forall x :: !Holds(s, x, k)
    ensures |s.c.chains| == NR_HASH && OffList(s, b).c.bufs == s.c.bufs[b := s.c.bufs[b].(count := 1)]
    ensures var s2 := OffList(s, b);
      var s3 := if s.c.bufs[b].dirt then SyncDev(s2, s.c.bufs[b].dev) else s2;
      && |s3.c.bufs| == |s.c.bufs| && |s3.c.chains| == NR_HASH && b !in s3.c.ring && s3.c.ring == s2.c.ring
      && Struct(Renamed(s3.c, b, k.dev, k.block))
      && FindBuffer(Renamed(s3.c, b, k.dev, k.block), k.dev, k.block).None?
      && Recycle(s, b, k.dev, k.block) == s3.(c := InsertIntoQueues(Renamed(s3.c, b, k.dev, k.block), b))
  {
    hide Struct, Coherent, SameSight, AllUnique, SyncDev, Holds, Chained, RemoveFromQueues, InsertIntoQueues, Inv;
    InvUnique(s);
    TakenOff(s, b);
    var s2 := OffList(s, b);
    SyncShape(s2, s.c.bufs[b].dev, 0);
    SyncedAway(s, s2, b);
    var s3 := if s.c.bufs[b].dirt then SyncDev(s2, s.c.bufs[b].dev) else s2;
    StillNotHeld(s, s2, s3, b, k);
    RecycleListed(s2.c, s3, b, k);
  }

  lemma RemovedSize(c: Cache, b: int)
    requires Struct(c) && b in c.ring && |c.ring| >= 2 && 0 <= b < |c.bufs|
    ensures |c.chains| == NR_HASH && RemoveFromQueues(c, b).ring != []
  {
    RemoveKeeps(c, b);
  }

  /** With two buffers or more the list does not run out when one is taken off. */
  lemma RingSize(s: Sys)
    requires Inv(s) && |s.c.bufs| >= 2
    ensures |s.c.ring| >= 2
  {
    assert 0 in s.c.ring && 1 in s.c.ring;
  }

  lemma FoundIsBuffer(s: Sys, k: Key)
    requires Inv(s) && k.dev != 0
    ensures |s.c.chains| == NR_HASH
    ensures var r := FindBuffer(s.c, k.dev, k.block);
      match r
      case Some(b) => 0 <= b < |s.c.bufs| && SameKey(s.c.bufs[b], k.dev, k.block)
      case None => (forall x :: !Holds(s, x, k)) && FirstFreeOk(s)
  {
    FindBufferIs(s.c, k.dev, k.block);
    FirstFreeIs(s.c, s.c.ring);
    forall x | FindBuffer(s.c, k.dev, k.block).None?
      ensures !Holds(s, x, k)
    {
      assert 0 <= x < |s.c.bufs| ==> x in s.c.ring;
      assert Chained(s.c, x) ==> !SameKey(s.c.bufs[x], k.dev, k.block);
    }
  }

  ghost predicate FirstFreeOk(s: Sys) {
    var r := FirstFree(s.c, s.c.ring);
    r.Some? ==> 0 <= r.value < |s.c.bufs| && s.c.bufs[r.value].count == 0
  }

  lemma Later(r: seq<int>, i: int)
    requires Distinct(r) && r != []
    ensures 0 < i < |r| ==> r[i] != r[0]
  {
  }

  lemma RingWithout(c: Cache, b: int)
    requires Struct(c)
    ensures forall x :: x in Without(c.ring, b) <==> x in c.ring && x != b
  {
    WithoutIs(c.ring, b);
  }

  lemma ChainJoined(c: Cache, nx: seq<int>, pv: seq<int>, heads: seq<int>, b: int)
    requires Struct(c) && Heads(c.chains, nx, pv, heads) && Lone(c, nx, pv) && b !in c.ring && 0 <= b < |c.bufs|
    ensures Heads(c.chains, nx[b := NULL], pv[b := NULL], heads)
    ensures forall x :: 0 <= x < |c.bufs| && (x in c.ring || x == b) && c.bufs[x].dev == 0 ==> nx[b := NULL][x] == NULL && pv[b := NULL][x] == NULL
    ensures var h := ChainOf(c.bufs[b]);
      var m, p := nx[b := heads[h]], Set(pv[b := NULL], heads[h], b);
      && (heads[h] == NULL || (0 <= heads[h] < |nx| && heads[h] != b))
      && Heads(c.chains[h := [b] + c.chains[h]], m, p, heads[h := b])
      && (c.bufs[b].dev != 0 ==>
            forall x :: 0 <= x < |c.bufs| && (x in c.ring || x == b) && c.bufs[x].dev == 0 ==> m[x] == NULL && p[x] == NULL)
  {
    hide Linear, Struct;
    var h := ChainOf(c.bufs[b]);
    var m, p := nx[b := heads[h]], Set(pv[b := NULL], heads[h], b);
    OneChain(c, h, b);
    OneChain(c, h, heads[h]);
    FirstIn(c.chains[h], nx, pv);
    ChainInsert(c.chains[h], nx, pv, b);
    forall g | 0 <= g < NR_HASH
      ensures Linear(c.chains[g], nx[b := NULL], pv[b := NULL])
      ensures g != h ==> Linear(c.chains[g], m, p)
    {
      OneChain(c, g, b);
      OneChain(c, g, heads[h]);
      ChainFrame(c.chains[g], nx, pv, nx[b := NULL], pv[b := NULL]);
      if g != h {
        ChainFrame(c.chains[g], nx, pv, m, p);
      }
    }
  }

  lemma FirstIn(c: seq<int>, nx: seq<int>, pv: seq<int>)
    requires Linear(c, nx, pv)
    ensures First(c) == NULL || (First(c) in c && 0 <= First(c) < |nx|)
  {
    if c != [] {
      assert ChainLink(c, nx, pv, 0);
    }
  }

  /** Every chain is linked, and its head is in the table. */
  ghost predicate Heads(cs: seq<seq<int>>, nx: seq<int>, pv: seq<int>, heads: seq<int>) {
    |heads| == |cs| == NR_HASH && forall h :: 0 <= h < NR_HASH ==> Linear(cs[h], nx, pv) && heads[h] == First(cs[h])
  }

  ghost predicate Lone(c: Cache, nx: seq<int>, pv: seq<int>) {
    |nx| == |pv| == |c.bufs|
    && forall x :: 0 <= x < |c.bufs| && x in c.ring && c.bufs[x].dev == 0 ==> nx[x] == NULL && pv[x] == NULL
  }

  /** What taking `b` out of its chain, if it is in one, does to every chain. */
  lemma ChainLeft(c: Cache, nx: seq<int>, pv: seq<int>, heads: seq<int>, b: int)
    requires Struct(c) && Heads(c.chains, nx, pv, heads) && Lone(c, nx, pv) && b in c.ring
    ensures 0 <= b < |c.bufs| && (nx[b] == NULL || 0 <= nx[b] < |nx|) && (pv[b] == NULL || 0 <= pv[b] < |pv|)
    ensures nx[b] != b && pv[b] != b
    ensures var h := ChainOf(c.bufs[b]);
      var m, p := Set(nx, pv[b], nx[b]), Set(pv, nx[b], pv[b]);
      && Heads(c.chains[h := Without(c.chains[h], b)], m, p, if heads[h] == b then heads[h := nx[b]] else heads)
      && m[b] == nx[b]
      && forall x :: 0 <= x < |c.bufs| && x in c.ring && x != b && c.bufs[x].dev == 0 ==> m[x] == NULL && p[x] == NULL
  {
    var h := ChainOf(c.bufs[b]);
    if c.bufs[b].dev == 0 {
      hide Linear;
      WithoutAbsent(c.chains[h], b);
      assert c.chains[h := c.chains[h]] == c.chains;
    } else {
      ChainLeftOf(c, nx, pv, heads, b);
    }
  }

  lemma {:induction false} WithoutAbsent(r: seq<int>, b: int)
    requires b !in r
    ensures Without(r, b) == r
  {
    if r != [] {
      WithoutAbsent(r[1..], b);
      assert r == [r[0]] + r[1..];
    }
  }

  /** A buffer is in the one chain that its identity says. */
  lemma OneChain(c: Cache, h: int, x: int)
    requires Struct(c) && 0 <= h < NR_HASH
    ensures x in c.chains[h] <==> Chained(c, x) && ChainOf(c.bufs[x]) == h
  {
  }

  lemma ChainLeftOf(c: Cache, nx: seq<int>, pv: seq<int>, heads: seq<int>, b: int)
    requires Struct(c) && Heads(c.chains, nx, pv, heads) && Lone(c, nx, pv) && Chained(c, b)
    ensures (nx[b] == NULL || 0 <= nx[b] < |nx|) && (pv[b] == NULL || 0 <= pv[b] < |pv|) && nx[b] != b && pv[b] != b
    ensures var h := ChainOf(c.bufs[b]);
      var m, p := Set(nx, pv[b], nx[b]), Set(pv, nx[b], pv[b]);
      && Heads(c.chains[h := Without(c.chains[h], b)], m, p, if heads[h] == b then heads[h := nx[b]] else heads)
      && forall x :: 0 <= x < |c.bufs| && x in c.ring && x != b && c.bufs[x].dev == 0 ==> m[x] == NULL && p[x] == NULL
  {
    hide Linear, Without, Struct;
    var h := ChainOf(c.bufs[b]);
    OneChain(c, h, b);
    var i := ChainNeighbours(c.chains[h], nx, pv, b);
    ChainApart(c.chains[h], nx, pv, b);
    ChainRemove(c.chains[h], nx, pv, b);
    var m, p := Set(nx, pv[b], nx[b]), Set(pv, nx[b], pv[b]);
    forall g | 0 <= g < NR_HASH && g != h
      ensures Linear(c.chains[g], m, p)
      ensures heads[g] == First(c.chains[g])
    {
      OneChain(c, h, nx[b]);
      OneChain(c, h, pv[b]);
      OneChain(c, g, nx[b]);
      OneChain(c, g, pv[b]);
      ChainFrame(c.chains[g], nx, pv, m, p);
    }
    OneChain(c, h, nx[b]);
    OneChain(c, h, pv[b]);
  }

  lemma ChainApart(c: seq<int>, nx: seq<int>, pv: seq<int>, b: int)
    requires Linear(c, nx, pv) && b in c && 0 <= b < |nx|
    ensures nx[b] != b && pv[b] != b
  {
    var i := ChainNeighbours(c, nx, pv, b);
  }

  lemma WithoutLength(r: seq<int>, b: int)
    requires b in r && |r| >= 2
    ensures Without(r, b) != []
  {
  }
}
