/** Zones of a Minix volume: the bitmap of fs/bitmap.c, the three-level table of fs/inode.c and
    its release in fs/truncate.c. */
module ZoneTree {

  const BLOCK_SIZE: nat := 1024
  const WORDS: nat := 512
  const DIRECT: nat := 7
  const MAX_BLOCKS: nat := 7 + 512 + 512 * 512

  type Byte = b: int | 0 <= b < 256

  /** Regular files and directories own zones; in any other inode `zone` means something else. */
  datatype Inode = Inode(owns: bool, zone: seq<nat>, size: nat)

  /** A mounted volume: `zmap` is the loaded zone bitmap, `first` and `nzones` come from the
      super block. */
  datatype Fs = Fs(zmap: seq<bool>, first: nat, nzones: nat, blocks: seq<seq<Byte>>, inodes: seq<Inode>)

  // ---------- blocks as bytes and as tables of 16-bit words ----------

  function ZeroBlock(): (z: seq<Byte>)
    ensures |z| == BLOCK_SIZE
  {
    seq(BLOCK_SIZE, i => 0)
  }

  function Word(b: seq<Byte>, i: int): nat
    requires |b| == BLOCK_SIZE && 0 <= i < WORDS
  {
    (b[2 * i] as int) + 256 * (b[2 * i + 1] as int)
  }

  function SetWord(b: seq<Byte>, i: int, v: int): (r: seq<Byte>)
    requires |b| == BLOCK_SIZE && 0 <= i < WORDS && 0 <= v < 65536
    ensures |r| == BLOCK_SIZE
  {
    b[2 * i := v % 256][2 * i + 1 := v / 256]
  }

  lemma WordSet(b: seq<Byte>, i: int, v: int, j: int)
    requires |b| == BLOCK_SIZE && 0 <= i < WORDS && 0 <= v < 65536 && 0 <= j < WORDS
    ensures Word(SetWord(b, i, v), j) == if j == i then v else Word(b, j)
  {
  }

  lemma WordZero(j: int)
    requires 0 <= j < WORDS
    ensures Word(ZeroBlock(), j) == 0
  {
  }

  // ---------- where zone numbers are stored ----------

  /** A place that holds a zone number: a slot of an inode, a word of its indirect table, of its
      double-indirect table, or of a table under that. */
  datatype Ref = Slot(n: int, k: int) | Ind(n: int, i: int) | Dind(n: int, i: int) | Leaf(n: int, i: int, j: int)

  function SlotZone(s: Fs, n: int, k: int): nat {
    if 0 <= n < |s.inodes| && s.inodes[n].owns && 0 <= k < |s.inodes[n].zone| then s.inodes[n].zone[k] else 0
  }

  /** Word `i` of the table in zone `z`; there is none in zone 0. */
  function TableWord(s: Fs, z: int, i: int): nat {
    if 0 < z < |s.blocks| && |s.blocks[z]| == BLOCK_SIZE && 0 <= i < WORDS then Word(s.blocks[z], i) else 0
  }

  /** The zone of the table that holds the place; 0 if it has none, or is in the inode. */
  function TableZone(s: Fs, r: Ref): nat {
    match r
    case Slot(n, k) => 0
    case Ind(n, i) => SlotZone(s, n, 7)
    case Dind(n, i) => SlotZone(s, n, 8)
    case Leaf(n, i, j) => TableWord(s, SlotZone(s, n, 8), i)
  }

  function Index(r: Ref): int {
    match r
    case Slot(n, k) => k
    case Ind(n, i) => i
    case Dind(n, i) => i
    case Leaf(n, i, j) => j
  }

  /** The zone number stored at a place, 0 for none. */
  function Entry(s: Fs, r: Ref): nat {
    if r.Slot? then SlotZone(s, r.n, r.k) else TableWord(s, TableZone(s, r), Index(r))
  }

  /** The place of a file's block number. */
  function BlockRef(n: int, b: int): Ref {
    if b < DIRECT then Slot(n, b)
    else if b < DIRECT + WORDS then Ind(n, b - DIRECT)
    else Leaf(n, (b - DIRECT - WORDS) / WORDS, (b - DIRECT - WORDS) % WORDS)
  }

  /** `bmap`. */
  function Map(s: Fs, n: int, b: int): nat {
    Entry(s, BlockRef(n, b))
  }

  // ---------- the invariant ----------

  ghost predicate Shape(s: Fs) {
    && 0 < s.first <= s.nzones <= 65536 && |s.blocks| == s.nzones
    && s.nzones - s.first + 1 <= |s.zmap| && s.zmap[0]
    && (forall z :: 0 <= z < |s.blocks| ==> |s.blocks[z]| == BLOCK_SIZE)
    && (forall n :: 0 <= n < |s.inodes| ==> |s.inodes[n].zone| == 9)
  }

  predicate InRange(s: Fs, z: int) {
    s.first <= z < s.nzones
  }

  predicate Used(s: Fs, z: int) {
    0 <= z - s.first + 1 < |s.zmap| && s.zmap[z - s.first + 1]
  }

  /** `owner` names, for each zone in use, the one place that holds its number. */
  ghost predicate Owned(s: Fs, owner: map<int, Ref>) {
    && (forall r :: Entry(s, r) != 0 ==> Entry(s, r) in owner && owner[Entry(s, r)] == r)
    && (forall z :: z in owner ==> InRange(s, z) && Entry(s, owner[z]) == z)
    && (forall z :: InRange(s, z) ==> (Used(s, z) <==> z in owner))
  }

  ghost predicate Good(s: Fs, owner: map<int, Ref>) {
    Shape(s) && Owned(s, owner)
  }

  /** Every zone in range and marked used is named exactly once, and no other zone is named. */
  ghost predicate Conserved(s: Fs) {
    Shape(s) && exists owner :: Owned(s, owner)
  }

  ghost predicate NamedOnce(s: Fs, z: int) {
    exists r :: Entry(s, r) == z && forall q :: Entry(s, q) == z ==> q == r
  }

  lemma ConservedMeans(s: Fs)
    requires Shape(s)
    ensures Conserved(s) <==>
      ((forall r :: Entry(s, r) != 0 ==> InRange(s, Entry(s, r)) && Used(s, Entry(s, r)))
       && (forall z :: InRange(s, z) && Used(s, z) ==> NamedOnce(s, z)))
  {
    hide Entry, Used;
    if Conserved(s) {
      var owner :| Owned(s, owner);
      forall z | InRange(s, z) && Used(s, z)
        ensures NamedOnce(s, z)
      {
        assert Entry(s, owner[z]) == z;
      }
    }
    if (forall r :: Entry(s, r) != 0 ==> InRange(s, Entry(s, r)) && Used(s, Entry(s, r)))
      && (forall z :: InRange(s, z) && Used(s, z) ==> NamedOnce(s, z))
    {
      var owner := map z: int | 0 <= z < s.nzones && InRange(s, z) && Used(s, z) :: TheRef(s, z);
      forall r | Entry(s, r) != 0
        ensures Entry(s, r) in owner && owner[Entry(s, r)] == r
      {
      }
      assert Owned(s, owner);
    }
  }

  ghost function TheRef(s: Fs, z: int): (r: Ref)
    requires NamedOnce(s, z)
    ensures Entry(s, r) == z && forall q :: Entry(s, q) == z ==> q == r
  {
    var r :| Entry(s, r) == z && forall q :: Entry(s, q) == z ==> q == r;
    r
  }

  // ---------- taking a zone ----------

  /** `find_first_zero` over the loaded bitmap blocks; the length if every bit is set. */
  function FirstZero(zmap: seq<bool>, from: nat): (j: nat)
    requires from <= |zmap|
    ensures from <= j <= |zmap| && (j < |zmap| ==> !zmap[j])
    ensures forall k :: from <= k < j ==> zmap[k]
    decreases |zmap| - from
  {
    if from == |zmap| || !zmap[from] then from else FirstZero(zmap, from + 1)
  }

  /** `new_block`: the first free zone, cleared, or 0.  A bit past the end of the volume that
      happens to be clear is set before the range is checked. */
  function NewBlock(s: Fs): (Fs, nat) {
    var j := FirstZero(s.zmap, 0);
    if j == |s.zmap| then (s, 0)
    else
      var z := j + s.first - 1;
      if z >= s.nzones || !(0 <= z < |s.blocks|) then (s.(zmap := s.zmap[j := true]), 0)
      else (s.(zmap := s.zmap[j := true], blocks := s.blocks[z := ZeroBlock()]), z)
  }

  ghost predicate Full(s: Fs) {
    forall z :: InRange(s, z) ==> Used(s, z)
  }

  /** It fails only when no zone is free, and then changes no zone's bit, block or reference. */
  lemma NewBlockWorks(s: Fs)
    requires Shape(s)
    ensures var (t, z) := NewBlock(s);
      && Shape(t) && t.inodes == s.inodes && t.first == s.first && t.nzones == s.nzones
      && (z == 0 <==> Full(s))
      && (z == 0 ==> t.blocks == s.blocks && forall y :: InRange(s, y) ==> (Used(t, y) <==> Used(s, y)))
      && (z != 0 ==> InRange(s, z) && !Used(s, z) && t.blocks == s.blocks[z := ZeroBlock()]
                     && forall y :: InRange(s, y) ==> (Used(t, y) <==> Used(s, y) || y == z))
  {
    var j := FirstZero(s.zmap, 0);
    if j < |s.zmap| {
      assert j > 0;
      if j + s.first - 1 < s.nzones {
        assert InRange(s, j + s.first - 1) && !Used(s, j + s.first - 1);
      }
    }
  }

  // ---------- storing a zone number ----------

  /** The place can be written: in the inode, or in the table in zone `t`. */
  predicate Writable(s: Fs, r: Ref, t: int) {
    if r.Slot? then 0 <= r.n < |s.inodes| && s.inodes[r.n].owns && 0 <= r.k < |s.inodes[r.n].zone|
    else 0 < t < |s.blocks| && |s.blocks[t]| == BLOCK_SIZE && 0 <= Index(r) < WORDS
  }

  function SetEntry(s: Fs, r: Ref, t: nat, z: nat): Fs {
    if z >= 65536 || !Writable(s, r, t) then s
    else if r.Slot? then s.(inodes := s.inodes[r.n := s.inodes[r.n].(zone := s.inodes[r.n].zone[r.k := z])])
    else s.(blocks := s.blocks[t := SetWord(s.blocks[t], Index(r), z)])
  }

  /** The place that holds the number of the table a place is in. */
  function Parent(r: Ref): Ref
    requires !r.Slot?
  {
    match r
    case Ind(n, i) => Slot(n, 7)
    case Dind(n, i) => Slot(n, 8)
    case Leaf(n, i, j) => Dind(n, i)
  }

  function Depth(r: Ref): nat {
    if r.Slot? then 0 else if r.Leaf? then 2 else 1
  }

  lemma TableIsParent(s: Fs, r: Ref)
    requires !r.Slot?
    ensures TableZone(s, r) == Entry(s, Parent(r)) && Entry(s, r) == TableWord(s, TableZone(s, r), Index(r))
    ensures forall q: Ref :: !q.Slot? && Parent(q) == Parent(r) && Index(q) == Index(r) ==> q == r
  {
  }

  lemma SlotStored(s: Fs, r: Ref, y: nat, z: nat, n: int, k: int)
    requires Shape(s) && Writable(s, r, y) && z < 65536
    ensures SlotZone(SetEntry(s, r, y, z), n, k) == if r == Slot(n, k) then z else SlotZone(s, n, k)
  {
  }

  lemma WordStored(s: Fs, r: Ref, t: nat, z: nat, y: int, i: int)
    requires Shape(s) && Writable(s, r, t) && z < 65536
    ensures TableWord(SetEntry(s, r, t, z), y, i)
         == if !r.Slot? && y == t && i == Index(r) then z else TableWord(s, y, i)
  {
    if !r.Slot? {
      if y == t && 0 <= i < WORDS {
        WordSet(s.blocks[t], Index(r), z, i);
      }
    }
  }

  ghost predicate OneOwner(s: Fs, owner: map<int, Ref>) {
    forall r :: Entry(s, r) != 0 ==> Entry(s, r) in owner && owner[Entry(s, r)] == r
  }

  /** An empty place of `s` whose table is there, and a fresh cleared zone to put in it. */
  ghost predicate CanStore(s: Fs, r: Ref, z: nat, owner: map<int, Ref>) {
    && Shape(s) && Writable(s, r, TableZone(s, r)) && Entry(s, r) == 0 && OneOwner(s, owner)
    && InRange(s, z) && z !in owner && s.blocks[z] == ZeroBlock()
  }

  lemma {:induction false} StoreAt(s: Fs, r: Ref, z: nat, owner: map<int, Ref>, q: Ref)
    requires CanStore(s, r, z, owner)
    ensures Entry(SetEntry(s, r, TableZone(s, r), z), q) == if q == r then z else Entry(s, q)
    decreases Depth(q)
  {
    var y := TableZone(s, r);
    var t := SetEntry(s, r, y, z);
    if q.Slot? {
      SlotStored(s, r, y, z, q.n, q.k);
    } else {
      hide SetEntry, Shape, TableWord, Writable;
      StoreAt(s, r, z, owner, Parent(q));
      TableIsParent(s, q);
      TableIsParent(t, q);
      hide Entry, TableZone;
      if !r.Slot? {
        TableIsParent(s, r);
      }
      TableEmpty(s, 0, Index(q));
      if Parent(q) == r {
        WordStored(s, r, y, z, z, Index(q));
        TableEmpty(s, z, Index(q));
      } else {
        WordStored(s, r, y, z, TableZone(s, q), Index(q));
      }
    }
  }

  lemma TableEmpty(s: Fs, z: int, i: int)
    requires Shape(s) && (z == 0 || (0 < z < |s.blocks| && s.blocks[z] == ZeroBlock()))
    ensures TableWord(s, z, i) == 0
  {
    if 0 <= i < WORDS {
      WordZero(i);
    }
  }

  /** Storing a fresh, cleared zone changes that one place and no other, at any depth. */
  lemma StoreChangesOne(s: Fs, r: Ref, z: nat, owner: map<int, Ref>)
    requires CanStore(s, r, z, owner)
    ensures var t := SetEntry(s, r, TableZone(s, r), z);
      Shape(t) && forall q :: Entry(t, q) == if q == r then z else Entry(s, q)
  {
    hide Entry, TableZone;
    var t := SetEntry(s, r, TableZone(s, r), z);
    forall q
      ensures Entry(t, q) == if q == r then z else Entry(s, q)
    {
      StoreAt(s, r, z, owner, q);
    }
  }

  // ---------- growing a file ----------

  /** Fill one place if it is empty: `if (create && !i) if ((i=new_block(dev))) ...`. */
  function Grow(s: Fs, r: Ref): (Fs, nat) {
    if Entry(s, r) != 0 then (s, Entry(s, r))
    else
      var (a, z) := NewBlock(s);
      if z == 0 then (a, 0) else (SetEntry(a, r, TableZone(s, r), z), z)
  }

  /** A cleared free zone is in no chain: nothing that was named changes. */
  lemma {:induction false} ClearedUnseen(s: Fs, a: Fs, z: nat, owner: map<int, Ref>, q: Ref)
    requires OneOwner(s, owner) && 0 <= z < |s.blocks| && z !in owner
    requires a.inodes == s.inodes && a.blocks == s.blocks[z := ZeroBlock()]
    ensures Entry(a, q) == Entry(s, q)
    decreases Depth(q)
  {
    if !q.Slot? {
      ClearedUnseen(s, a, z, owner, Parent(q));
      TableIsParent(s, q);
      TableIsParent(a, q);
    }
  }

  /** A place that holds the number of a table. */
  predicate IsTable(r: Ref) {
    r.Dind? || (r.Slot? && r.k >= DIRECT)
  }

  ghost predicate SameFiles(s: Fs, t: Fs) {
    && |t.inodes| == |s.inodes| && t.first == s.first && t.nzones == s.nzones
    && forall n :: 0 <= n < |s.inodes| ==>
         t.inodes[n].owns == s.inodes[n].owns && t.inodes[n].size == s.inodes[n].size
  }

  /** The zones that hold file data keep their bytes. */
  ghost predicate SameData(s: Fs, t: Fs, owner: map<int, Ref>) {
    |t.blocks| == |s.blocks|
    && forall z :: z in owner && 0 <= z < |s.blocks| && !IsTable(owner[z]) ==> t.blocks[z] == s.blocks[z]
  }

  /** What filling one place does. */
  ghost predicate Grown(s: Fs, owner: map<int, Ref>, r: Ref, t: Fs, o: map<int, Ref>, z: nat) {
    && Good(t, o) && SameFiles(s, t) && SameData(s, t, owner)
    && (Entry(s, r) != 0 ==> t == s && o == owner && z == Entry(s, r))
    && (z == 0 ==> o == owner && Full(s) && Full(t) && forall q :: Entry(t, q) == Entry(s, q))
    && (z != 0 && Entry(s, r) == 0 ==>
          (z !in owner && InRange(s, z) && o == owner[z := r] && t.blocks[z] == ZeroBlock()
           && forall q :: Entry(t, q) == if q == r then z else Entry(s, q)))
  }

  lemma GrowWorks(s: Fs, owner: map<int, Ref>, r: Ref) returns (o: map<int, Ref>)
    requires Good(s, owner) && Writable(s, r, TableZone(s, r))
    ensures Grown(s, owner, r, Grow(s, r).0, o, Grow(s, r).1)
  {
    o := owner;
    if Entry(s, r) == 0 {
      NewBlockWorks(s);
      var (a, z) := NewBlock(s);
      hide NewBlock, Entry, TableZone;
      if z == 0 {
        forall q
          ensures Entry(a, q) == Entry(s, q)
        {
          SameTables(s, a, q);
        }
      } else {
        assert z !in owner;
        o := owner[z := r];
        GrowStores(s, owner, r, a, z);
      }
    }
  }

  lemma {:induction false} SameTables(s: Fs, a: Fs, q: Ref)
    requires a.inodes == s.inodes && a.blocks == s.blocks
    ensures Entry(a, q) == Entry(s, q)
  {
  }

  lemma GrowStores(s: Fs, owner: map<int, Ref>, r: Ref, a: Fs, z: nat)
    requires Good(s, owner) && Writable(s, r, TableZone(s, r)) && Entry(s, r) == 0
    requires InRange(s, z) && z !in owner && Shape(a)
    requires a.inodes == s.inodes && a.first == s.first && a.nzones == s.nzones
    requires a.blocks == s.blocks[z := ZeroBlock()]
    requires forall y :: InRange(s, y) ==> (Used(a, y) <==> Used(s, y) || y == z)
    ensures var t := SetEntry(a, r, TableZone(s, r), z); Grown(s, owner, r, t, owner[z := r], z)
  {
    hide Entry, TableZone, Used, SetEntry;
    forall q
      ensures Entry(a, q) == Entry(s, q)
    {
      ClearedUnseen(s, a, z, owner, q);
    }
    SameTableZone(s, a, r);
    StoreChangesOne(a, r, z, owner);
    StoreFrame(a, r, TableZone(s, r), z);
    if !r.Slot? {
      TableOwned(s, owner, r);
    }
    var t := SetEntry(a, r, TableZone(s, r), z);
    assert forall y :: InRange(s, y) ==> (Used(t, y) <==> Used(a, y)) by { SameBits(a, t); }
  }

  lemma SameTableZone(s: Fs, a: Fs, r: Ref)
    requires forall q :: Entry(a, q) == Entry(s, q)
    ensures TableZone(a, r) == TableZone(s, r)
  {
    if !r.Slot? {
      TableIsParent(s, r);
      TableIsParent(a, r);
    }
  }

  lemma SameBits(a: Fs, t: Fs)
    requires a.zmap == t.zmap && a.first == t.first
    ensures forall y :: Used(t, y) == Used(a, y)
  {
  }

  lemma TableOwned(s: Fs, owner: map<int, Ref>, r: Ref)
    requires Good(s, owner) && !r.Slot? && TableZone(s, r) != 0
    ensures TableZone(s, r) in owner && IsTable(owner[TableZone(s, r)])
  {
    TableIsParent(s, r);
  }

  lemma StoreFrame(a: Fs, r: Ref, y: nat, z: nat)
    requires Shape(a) && Writable(a, r, y) && z < 65536
    ensures var t := SetEntry(a, r, y, z);
      && t.zmap == a.zmap && SameFiles(a, t) && |t.blocks| == |a.blocks|
      && forall x :: 0 <= x < |a.blocks| && (r.Slot? || x != y) ==> t.blocks[x] == a.blocks[x]
  {
  }

  /** `_bmap` with `create` set: fill in whatever is missing on the way to a place, from the
      inode down; 0 as soon as a zone is not to be had. */
  function Create(s: Fs, r: Ref): (Fs, nat)
    decreases Depth(r)
  {
    if r.Slot? then Grow(s, r)
    else
      var (a, t) := Create(s, Parent(r));
      if t == 0 then (a, 0) else Grow(a, r)
  }

  /** A place that exists in principle. */
  predicate Legal(s: Fs, r: Ref) {
    && 0 <= r.n < |s.inodes| && s.inodes[r.n].owns
    && match r
       case Slot(n, k) => 0 <= k < 9
       case Leaf(n, i, j) => 0 <= i < WORDS && 0 <= j < WORDS
       case _ => 0 <= Index(r) < WORDS
  }

  /** `r` itself or a table above it. */
  predicate Above(q: Ref, r: Ref)
    decreases Depth(r)
  {
    q == r || (!r.Slot? && Above(q, Parent(r)))
  }

  /** What creating a block does: the invariant is kept; only the place asked for and tables
      above it can change, and those only if they were empty; no file's data is touched; and
      it fails only on a full volume. */
  ghost predicate Created(s: Fs, owner: map<int, Ref>, r: Ref, t: Fs, o: map<int, Ref>, z: nat) {
    && Good(t, o) && SameFiles(s, t) && SameData(s, t, owner)
    && (forall x :: x in owner ==> x in o && o[x] == owner[x])
    && (forall q :: Entry(s, q) != 0 || !Above(q, r) ==> Entry(t, q) == Entry(s, q))
    && Entry(t, r) == z && (Entry(s, r) != 0 ==> t == s)
    && (z == 0 ==> Full(t))
    && (z != 0 && Entry(s, r) == 0 ==> t.blocks[z] == ZeroBlock())
  }

  lemma {:induction false} CreateWorks(s: Fs, owner: map<int, Ref>, r: Ref) returns (o: map<int, Ref>)
    requires Good(s, owner) && Legal(s, r)
    ensures Created(s, owner, r, Create(s, r).0, o, Create(s, r).1)
    decreases Depth(r)
  {
    hide Entry, TableZone, Grow;
    if r.Slot? {
      o := GrowWorks(s, owner, r);
    } else {
      var a := CreateWorks(s, owner, Parent(r));
      var (p, y) := Create(s, Parent(r));
      TableIsParent(s, r);
      TableIsParent(p, r);
      o := a;
      if y != 0 {
        TableWritable(p, a, r);
        o := GrowWorks(p, a, r);
        CreateStep(s, owner, r, p, a, Grow(p, r).0, o, Grow(p, r).1);
      }
    }
  }

  lemma TableWritable(s: Fs, owner: map<int, Ref>, r: Ref)
    requires Good(s, owner) && !r.Slot? && 0 <= Index(r) < WORDS && Entry(s, Parent(r)) != 0
    ensures Writable(s, r, TableZone(s, r))
  {
    hide Entry;
    TableIsParent(s, r);
  }

  lemma CreateStep(s: Fs, owner: map<int, Ref>, r: Ref, p: Fs, a: map<int, Ref>, t: Fs, o: map<int, Ref>, z: nat)
    requires !r.Slot? && Created(s, owner, Parent(r), p, a, Entry(p, Parent(r))) && Entry(p, Parent(r)) != 0
    requires Grown(p, a, r, t, o, z) && TableZone(s, r) == Entry(s, Parent(r))
    requires Entry(s, r) != 0 ==> TableZone(s, r) != 0
    ensures Created(s, owner, r, t, o, z)
  {
    hide Entry, TableZone, Good;
    AboveDepth(r, Parent(r));
  }

  lemma {:induction false} AboveDepth(q: Ref, r: Ref)
    ensures Above(q, r) ==> Depth(q) <= Depth(r)
    decreases Depth(r)
  {
    if !r.Slot? && q != r {
      AboveDepth(q, Parent(r));
    }
  }

  /** Block numbers of files are the places that hold data, one each. */
  lemma BlockRefs(s: Fs, n: int, b: int, m: int, c: int)
    requires 0 <= b < MAX_BLOCKS && 0 <= c < MAX_BLOCKS
    ensures !IsTable(BlockRef(n, b)) && BlockRef(n, b).n == n
    ensures BlockRef(n, b) == BlockRef(m, c) <==> n == m && b == c
    ensures 0 <= n < |s.inodes| && s.inodes[n].owns ==> Legal(s, BlockRef(n, b))
  {
    var d, e := b - DIRECT - WORDS, c - DIRECT - WORDS;
    assert d == d / WORDS * WORDS + d % WORDS && e == e / WORDS * WORDS + e % WORDS;
  }

  /** The tables above a data place hold no data. */
  lemma AboveData(q: Ref, r: Ref)
    requires !IsTable(r)
    ensures Above(q, r) ==> q == r || IsTable(q)
  {
    if !r.Slot? {
      AboveSlot(q, r.n, 7);
      AboveSlot(q, r.n, 8);
      assert r.Leaf? ==> (Above(q, Dind(r.n, r.i)) ==> IsTable(q));
    }
  }

  lemma AboveSlot(q: Ref, n: int, k: int)
    ensures Above(q, Slot(n, k)) <==> q == Slot(n, k)
  {
  }

  /** Creating a block leaves every other block of every file mapped where it was. */
  lemma CreateMaps(s: Fs, owner: map<int, Ref>, n: int, b: int) returns (o: map<int, Ref>)
    requires Good(s, owner) && 0 <= n < |s.inodes| && s.inodes[n].owns && 0 <= b < MAX_BLOCKS
    ensures Created(s, owner, BlockRef(n, b), Create(s, BlockRef(n, b)).0, o, Create(s, BlockRef(n, b)).1)
    ensures var (t, z) := Create(s, BlockRef(n, b));
      forall m, c :: 0 <= c < MAX_BLOCKS ==> Map(t, m, c) == if m == n && c == b then z else Map(s, m, c)
  {
    hide Entry, Create, BlockRef;
    BlockRefs(s, n, b, n, b);
    o := CreateWorks(s, owner, BlockRef(n, b));
    forall m, c | 0 <= c < MAX_BLOCKS
      ensures Map(Create(s, BlockRef(n, b)).0, m, c)
           == if m == n && c == b then Create(s, BlockRef(n, b)).1 else Map(s, m, c)
    {
      BlockRefs(s, n, b, m, c);
      BlockRefs(s, m, c, m, c);
      AboveData(BlockRef(m, c), BlockRef(n, b));
    }
  }

  // ---------- giving every zone back ----------

  /** Inode `n` names zone `z` somewhere in its tree. */
  ghost predicate Names(s: Fs, n: int, z: int) {
    z != 0 && exists r: Ref :: r.n == n && Entry(s, r) == z
  }

  function NoZones(): seq<nat> {
    [0, 0, 0, 0, 0, 0, 0, 0, 0]
  }

  /** `truncate`: the inode's own zones, all of them and no others, are free again. */
  ghost function Truncated(s: Fs, n: int): Fs
    requires 0 <= n < |s.inodes|
  {
    if !s.inodes[n].owns then s
    else
      s.(zmap := seq(|s.zmap|, k requires 0 <= k < |s.zmap| => s.zmap[k] && !Names(s, n, k + s.first - 1)),
         inodes := s.inodes[n := s.inodes[n].(zone := NoZones(), size := 0)])
  }

  ghost function Remaining(owner: map<int, Ref>, n: int): map<int, Ref> {
    map z | z in owner && owner[z].n != n :: owner[z]
  }

  lemma {:induction false} TruncatedEntries(s: Fs, n: int, q: Ref)
    requires Shape(s) && 0 <= n < |s.inodes| && s.inodes[n].owns
    ensures Entry(Truncated(s, n), q) == if q.n == n then 0 else Entry(s, q)
    decreases Depth(q)
  {
    if !q.Slot? {
      TruncatedEntries(s, n, Parent(q));
      TableIsParent(s, q);
      TableIsParent(Truncated(s, n), q);
    }
  }

  /** Truncating keeps the invariant and leaves every other file alone. */
  lemma TruncateWorks(s: Fs, owner: map<int, Ref>, n: int)
    requires Good(s, owner) && 0 <= n < |s.inodes| && s.inodes[n].owns
    ensures Good(Truncated(s, n), Remaining(owner, n)) && Truncated(s, n).blocks == s.blocks
    ensures forall q :: Entry(Truncated(s, n), q) == if q.n == n then 0 else Entry(s, q)
    ensures forall z :: InRange(s, z) ==> (Used(Truncated(s, n), z) <==> Used(s, z) && !Names(s, n, z))
  {
    var t := Truncated(s, n);
    NamesIsOwner(s, owner, n, s.first - 1);
    forall q
      ensures Entry(t, q) == if q.n == n then 0 else Entry(s, q)
    {
      TruncatedEntries(s, n, q);
    }
    hide Entry, TableZone;
    forall z | InRange(s, z)
      ensures Used(t, z) <==> Used(s, z) && !Names(s, n, z)
      ensures Used(t, z) <==> z in Remaining(owner, n)
    {
      NamesIsOwner(s, owner, n, z);
    }
  }

  lemma NamesIsOwner(s: Fs, owner: map<int, Ref>, n: int, z: int)
    requires Good(s, owner)
    ensures Names(s, n, z) <==> z in owner && owner[z].n == n
  {
    hide Entry;
    if z in owner && owner[z].n == n {
      assert Entry(s, owner[z]) == z;
    }
  }
}
