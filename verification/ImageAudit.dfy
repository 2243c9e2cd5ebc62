/** What tools/minix-inspect.c computes from an image: the zones its walk reaches, the bytes it
    prints for a file, and when its audit counts no error. */
module ImageAudit {
  import opened Options
  import opened ZoneTree
  import opened FileBytes
  import opened ImageZones
  import opened ImageBuild

  /** The inspector takes the zone numbers of every inode for zone numbers. */
  function Raw(s: Fs): Fs {
    s.(inodes := seq(|s.inodes|, n requires 0 <= n < |s.inodes| => s.inodes[n].(owns := true)))
  }

  lemma {:induction false} RawEntry(s: Fs, q: Ref)
    requires File(s, q.n)
    ensures Entry(Raw(s), q) == Entry(s, q)
    decreases Depth(q)
  {
    if !q.Slot? {
      RawEntry(s, Parent(q));
      TableIsParent(s, q);
      TableIsParent(Raw(s), q);
    }
  }

  // ---------- the walk of one inode ----------

  /** The zones on the way to a place, its own included. */
  function PathZones(s: Fs, r: Ref): set<nat>
    decreases Depth(r)
  {
    (if Entry(s, r) == 0 then {} else {Entry(s, r)}) + if r.Slot? then {} else PathZones(s, Parent(r))
  }

  function Least(a: nat, b: nat): nat {
    if a < b then a else b
  }

  function Size(s: Fs, n: int): nat {
    if 0 <= n < |s.inodes| then s.inodes[n].size else 0
  }

  /** A block that counts towards the size: any under a table that is there, and a direct one
      only if it is there itself. */
  predicate Counts(s: Fs, n: int, b: nat) {
    if b < DIRECT then Map(s, n, b) != 0 else TableZone(s, BlockRef(n, b)) != 0
  }

  /** The zones that `walk_inode_zones` marks from block `b` on, `got` bytes having been counted. */
  function Walk(s: Fs, n: int, b: nat, got: nat): set<nat>
    decreases MAX_BLOCKS - b
  {
    if b >= MAX_BLOCKS || got >= Size(s, n) then {}
    else PathZones(s, BlockRef(n, b))
         + Walk(s, n, b + 1, got + if Counts(s, n, b) then Least(Size(s, n) - got, BLOCK_SIZE) else 0)
  }

  lemma {:induction false} InPath(s: Fs, r: Ref, z: nat)
    ensures z in PathZones(s, r) <==> z != 0 && exists q: Ref :: Above(q, r) && Entry(s, q) == z
    decreases Depth(r)
  {
    hide Entry;
    assert Above(r, r);
    if !r.Slot? {
      InPath(s, Parent(r), z);
      if z in PathZones(s, Parent(r)) {
        var q: Ref :| Above(q, Parent(r)) && Entry(s, q) == z;
        assert Above(q, r);
      }
      if q: Ref :| Above(q, r) && Entry(s, q) == z {
        assert q == r || Above(q, Parent(r));
      }
    }
  }

  lemma PathIsNamed(s: Fs, n: int, b: nat, z: nat)
    requires z in PathZones(s, BlockRef(n, b))
    ensures Names(s, n, z)
  {
    hide Entry, BlockRef, PathZones;
    InPath(s, BlockRef(n, b), z);
    var q: Ref :| Above(q, BlockRef(n, b)) && Entry(s, q) == z;
    AboveSame(q, BlockRef(n, b));
    BlockRefInode(n, b);
  }

  /** It marks nothing that the inode does not name. */
  lemma {:induction false} WalkIsNamed(s: Fs, n: int, b: nat, got: nat, z: nat)
    requires z in Walk(s, n, b, got)
    ensures Names(s, n, z)
    decreases MAX_BLOCKS - b
  {
    hide BlockRef, PathZones, Names, Counts;
    if z in PathZones(s, BlockRef(n, b)) {
      PathIsNamed(s, n, b, z);
    } else {
      WalkIsNamed(s, n, b + 1, got + if Counts(s, n, b) then Least(Size(s, n) - got, BLOCK_SIZE) else 0, z);
    }
  }

  lemma DenseBlock(s: Fs, n: int, b: nat, d: nat)
    requires Dense(s, n, d) && b < d <= MAX_BLOCKS
    ensures Map(s, n, b) != 0 && Counts(s, n, b)
  {
    BlockRefInode(n, b);
    NotDue(n, b);
    DueNext(BlockRef(n, b), n, b);
    DueLater(BlockRef(n, b), b + 1, d);
    hide Entry, Due, BlockRef;
    if b >= DIRECT {
      BlockNotSlot(n, b);
      TableIsParent(s, BlockRef(n, b));
    }
  }

  lemma BlockNotSlot(n: int, b: nat)
    requires b >= DIRECT
    ensures !BlockRef(n, b).Slot?
    ensures forall s: Fs :: TableZone(s, BlockRef(n, b)) == 0 ==> Entry(s, BlockRef(n, b)) == 0
  {
  }

  lemma DueLater(q: Ref, b: int, d: int)
    requires b <= d && Due(q, b)
    ensures Due(q, d)
  {
  }

  /** In a file without holes it reaches every place that is needed from block `b` on. */
  lemma {:induction false} WalkReaches(s: Fs, n: int, b: nat, q: Ref)
    requires Dense(s, n, Blocks(Size(s, n))) && Size(s, n) <= MAX_BYTES && q.n == n
    requires b <= Blocks(Size(s, n)) && Due(q, Blocks(Size(s, n))) && !Due(q, b)
    ensures Entry(s, q) in Walk(s, n, b, Least(BLOCK_SIZE * b, Size(s, n)))
    decreases MAX_BLOCKS - b
  {
    hide Due, BlockRef, Map, TableZone, Above, Entry, Dense, Blocks, Counts, PathZones;
    var size := Size(s, n);
    BlocksBound(size, b);
    DueBelow(q, n, b, Blocks(size));
    DueNext(q, n, b);
    DenseBlock(s, n, b, Blocks(size));
    if Due(q, b + 1) {
      DueEntry(s, n, q, Blocks(size));
      InPath(s, BlockRef(n, b), Entry(s, q));
    } else {
      WalkReaches(s, n, b + 1, q);
    }
  }

  lemma DueBelow(q: Ref, n: int, b: nat, d: nat)
    requires q.n == n && b <= d && Due(q, d) && !Due(q, b)
    ensures b < d
  {
  }

  lemma DueEntry(s: Fs, n: int, q: Ref, d: nat)
    requires Dense(s, n, d) && q.n == n && Due(q, d)
    ensures Entry(s, q) != 0
  {
  }

  lemma BlocksBound(size: nat, b: nat)
    requires size <= MAX_BYTES
    ensures Blocks(size) <= MAX_BLOCKS
    ensures b < Blocks(size) <==> BLOCK_SIZE * b < size
    ensures b < Blocks(size) ==>
      BLOCK_SIZE * b + Least(size - BLOCK_SIZE * b, BLOCK_SIZE) == Least(BLOCK_SIZE * (b + 1), size)
  {
  }

  /** The walk of such a file marks its zones, all of them and no others. */
  lemma WalkIsExact(s: Fs, n: int, z: nat)
    requires Dense(s, n, Blocks(Size(s, n))) && Size(s, n) <= MAX_BYTES
    ensures z in Walk(s, n, 0, 0) <==> Names(s, n, z)
  {
    hide Entry, Walk, Blocks;
    if z in Walk(s, n, 0, 0) {
      WalkIsNamed(s, n, 0, 0, z);
    }
    if Names(s, n, z) {
      var q: Ref :| q.n == n && Entry(s, q) == z;
      assert !Due(q, 0);
      hide Due, Names;
      WalkReaches(s, n, 0, q);
    }
  }

  // ---------- printing a file ----------

  /** The bytes that `dump_file` prints from block `b` on. */
  function Dump(s: Fs, n: int, b: nat, got: nat): seq<Byte>
    decreases MAX_BLOCKS - b
  {
    if b >= MAX_BLOCKS || got >= Size(s, n) then []
    else
      var z := Map(s, n, b);
      if z == 0 || z >= |s.blocks| || |s.blocks[z]| != BLOCK_SIZE then Dump(s, n, b + 1, got)
      else
        var chunk := Least(Size(s, n) - got, BLOCK_SIZE);
        s.blocks[z][..chunk] + Dump(s, n, b + 1, got + chunk)
  }

  lemma {:induction false} DumpWhole(s: Fs, owner: map<int, Ref>, n: int, b: nat)
    requires Good(s, owner) && File(s, n) && Size(s, n) <= MAX_BYTES && b <= Blocks(Size(s, n))
    requires forall c :: 0 <= c < Blocks(Size(s, n)) ==> Map(s, n, c) != 0
    ensures var at := Least(BLOCK_SIZE * b, Size(s, n));
      Dump(s, n, b, at) == Contents(s, n)[at..]
    decreases MAX_BLOCKS - b
  {
    hide Map, Contents;
    var size := Size(s, n);
    var at := Least(BLOCK_SIZE * b, size);
    BlocksBound(size, b);
    var c := Contents(s, n);
    ContentsSize(s, n);
    if b < Blocks(size) {
      DumpPiece(s, owner, n, b);
      DumpWhole(s, owner, n, b + 1);
      var chunk := Least(size - at, BLOCK_SIZE);
      assert c[at..] == c[at..at + chunk] + c[at + chunk..];
    }
  }

  lemma ContentsSize(s: Fs, n: int)
    requires File(s, n)
    ensures |Contents(s, n)| == Size(s, n)
  {
  }

  /** What is printed of one block. */
  lemma DumpPiece(s: Fs, owner: map<int, Ref>, n: int, b: nat)
    requires Good(s, owner) && File(s, n) && Size(s, n) <= MAX_BYTES
    requires BLOCK_SIZE * b < Size(s, n) && Map(s, n, b) != 0
    ensures var z := Map(s, n, b);
      0 < z < |s.blocks| && |s.blocks[z]| == BLOCK_SIZE && |Contents(s, n)| == Size(s, n)
    ensures var at, chunk := BLOCK_SIZE * b, Least(Size(s, n) - BLOCK_SIZE * b, BLOCK_SIZE);
      s.blocks[Map(s, n, b)][..chunk] == Contents(s, n)[at..at + chunk]
  {
    hide Map;
    Mapped(s, owner, n, b);
    var c, z, at := Contents(s, n), Map(s, n, b), BLOCK_SIZE * b;
    var chunk := Least(Size(s, n) - at, BLOCK_SIZE);
    forall k | 0 <= k < chunk
      ensures s.blocks[z][k] == c[at + k]
    {
      InBlock(b, k);
    }
  }

  /** The inspector's view of a file is the file. */
  lemma {:induction false} RawDump(s: Fs, n: int, b: nat, got: nat)
    requires File(s, n)
    ensures Dump(Raw(s), n, b, got) == Dump(s, n, b, got)
    decreases MAX_BLOCKS - b
  {
    hide Map;
    if b < MAX_BLOCKS && got < Size(s, n) {
      RawMap(s, n, b);
      var z := Map(s, n, b);
      if z == 0 || z >= |s.blocks| || |s.blocks[z]| != BLOCK_SIZE {
        RawDump(s, n, b + 1, got);
      } else {
        RawDump(s, n, b + 1, got + Least(Size(s, n) - got, BLOCK_SIZE));
      }
    }
  }

  lemma RawMap(s: Fs, n: int, b: nat)
    requires File(s, n)
    ensures Map(Raw(s), n, b) == Map(s, n, b)
  {
    BlockRefInode(n, b);
    RawEntry(s, BlockRef(n, b));
    hide Entry, BlockRef;
  }

  lemma Mapped(s: Fs, owner: map<int, Ref>, n: int, b: nat)
    requires Good(s, owner) && Map(s, n, b) != 0
    ensures InRange(s, Map(s, n, b))
  {
    MapIs(s, n, b);
    hide Entry, BlockRef;
  }

  lemma InBlock(b: nat, k: nat)
    requires k < BLOCK_SIZE
    ensures (BLOCK_SIZE * b + k) / BLOCK_SIZE == b && (BLOCK_SIZE * b + k) % BLOCK_SIZE == k
  {
  }

  /** A block that is missing costs the printed bytes a whole block's length. */
  lemma {:induction false} DumpShort(s: Fs, n: int, b: nat, got: nat, d: nat, hole: nat)
    requires forall c :: d <= c < MAX_BLOCKS ==> Map(s, n, c) == 0
    requires b <= d
    ensures |Dump(s, n, b, got)| <= BLOCK_SIZE * (d - b)
    ensures b <= hole < d && Map(s, n, hole) == 0 ==> |Dump(s, n, b, got)| <= BLOCK_SIZE * (d - b - 1)
    decreases MAX_BLOCKS - b
  {
    hide Map;
    if b < MAX_BLOCKS && got < Size(s, n) {
      var z := Map(s, n, b);
      if b == d {
        DumpEmpty(s, n, b, got);
      } else if z == 0 || z >= |s.blocks| || |s.blocks[z]| != BLOCK_SIZE {
        DumpShort(s, n, b + 1, got, d, hole);
      } else {
        DumpShort(s, n, b + 1, got + Least(Size(s, n) - got, BLOCK_SIZE), d, hole);
      }
    }
  }

  lemma {:induction false} DumpEmpty(s: Fs, n: int, b: nat, got: nat)
    requires forall c :: b <= c < MAX_BLOCKS ==> Map(s, n, c) == 0
    ensures Dump(s, n, b, got) == []
    decreases MAX_BLOCKS - b
  {
    hide Map;
    if b < MAX_BLOCKS && got < Size(s, n) {
      DumpEmpty(s, n, b + 1, got);
    }
  }

  /** What is printed is the file exactly when the file has no hole: in a file with one, later
      blocks are printed too early and the end is missing. */
  lemma DumpIsExact(s: Fs, owner: map<int, Ref>, n: int)
    requires Good(s, owner) && File(s, n) && Size(s, n) <= MAX_BYTES
    requires forall c :: Blocks(Size(s, n)) <= c < MAX_BLOCKS ==> Map(s, n, c) == 0
    ensures Dump(s, n, 0, 0) == Contents(s, n) <==> forall c :: 0 <= c < Blocks(Size(s, n)) ==> Map(s, n, c) != 0
  {
    hide Map, Dump;
    var size := Size(s, n);
    var d := Blocks(size);
    if forall c :: 0 <= c < d ==> Map(s, n, c) != 0 {
      DumpWhole(s, owner, n, 0);
      assert Contents(s, n)[0..] == Contents(s, n);
    } else {
      var hole: nat :| hole < d && Map(s, n, hole) == 0;
      DumpShort(s, n, 0, 0, d, hole);
      BlocksBound(size, d - 1);
      assert |Contents(s, n)| == size;
    }
  }

  /** One byte written at offset 1024 of an empty file on the blank volume is such a file. */
  lemma HoleIsLost()
    ensures var s := SetInode(Blank().fs, 1, Inode(true, NoZones(), 0)); var t := FileWrite(s, 1, BLOCK_SIZE, [7]).0;
      File(t, 1) && |Contents(t, 1)| == BLOCK_SIZE + 1 && Dump(t, 1, 0, 0) != Contents(t, 1)
  {
    hide FileWrite, Entry, Create, ByteAt, Dump;
    var s := SetInode(Blank().fs, 1, Inode(true, NoZones(), 0));
    EmptyFile(s);
    var w := WriteWorks(s, map[], 1, BLOCK_SIZE, [7]);
    var o := CreateMaps(s, map[], 1, 1);
    var (a, z) := Create(s, BlockRef(1, 1));
    BlockRefs(s, 1, 1, 1, 1);
    assert Missing(s, BlockRef(1, 1)) == 1;
    var f := CreateFills(s, map[], BlockRef(1, 1), FIRST_DATA_ZONE);
    var t := PutPiece(a, 1, z, BLOCK_SIZE, [7]);
    OneWrite(s, a, z);
    MapIs(a, 1, 1);
    PutKeeps(a, o, 1, 1, BLOCK_SIZE, [7], FIRST_DATA_ZONE + 1);
    forall c: nat | c < MAX_BLOCKS && c != 1
      ensures Map(t, 1, c) == 0
    {
      MapIs(t, 1, c);
      MapIs(a, 1, c);
      MapIs(s, 1, c);
    }
    DumpShort(t, 1, 0, 0, 2, 0);
  }

  lemma EmptyFile(s: Fs)
    requires s == SetInode(Blank().fs, 1, Inode(true, NoZones(), 0))
    ensures Good(s, map[]) && Bump(s, FIRST_DATA_ZONE) && File(s, 1) && s.inodes[1].size == 0
    ensures forall q :: Entry(s, q) == 0
  {
    forall q
      ensures Entry(s, q) == 0
    {
      NewInodeEntries(Blank().fs, 1, Inode(true, NoZones(), 0), q);
      BlankEntries(q);
    }
    hide Entry;
  }

  lemma OneWrite(s: Fs, a: Fs, z: nat)
    requires Create(s, BlockRef(1, 1)) == (a, z) && z != 0
    ensures FileWrite(s, 1, BLOCK_SIZE, [7]).0 == PutPiece(a, 1, z, BLOCK_SIZE, [7])
  {
    hide Create, PutPiece, BlockRef;
    assert Chunk(BLOCK_SIZE, 1) == 1;
    assert [7][..1] == [7] && [7][1..] == [];
  }

  // ---------- the audit ----------

  /** Slots of the inode before `pass` that hold a zone. */
  function Before(s: Fs, n: int, pass: nat): nat {
    if pass == 0 then 0 else Before(s, n, pass - 1) + if SlotZone(s, n, pass - 1) != 0 then 1 else 0
  }

  /** The audit looks at entry `j` of the directory block in slot `pass`. */
  predicate Looked(s: Fs, n: int, pass: nat, j: nat) {
    SlotZone(s, n, pass) != 0 && BLOCK_SIZE * Before(s, n, pass) + DIRENT * j < Size(s, n)
  }

  /** The inode number of that entry. */
  function Target(s: Fs, n: int, pass: nat, j: nat): nat {
    TableWord(s, SlotZone(s, n, pass), DIRENT / 2 * j)
  }

  predicate InodeUsed(img: Img, ino: nat) {
    1 <= ino < |img.fs.inodes| && ino < |img.ibits| && img.ibits[ino]
  }

  predicate EntriesClean(img: Img, n: int) {
    forall pass: nat, j: nat :: pass < DIRECT && j < SLOTS && Looked(Raw(img.fs), n, pass, j) ==>
      Target(Raw(img.fs), n, pass, j) == 0 || InodeUsed(img, Target(Raw(img.fs), n, pass, j))
  }

  /** Zone `z` is reached from an inode that is present. */
  ghost predicate Reached(img: Img, z: nat) {
    exists n :: 1 <= n < |img.kinds| && img.kinds[n] != Free && z in Walk(Raw(img.fs), n, 0, 0)
  }

  /** Nothing for the audit to complain about. */
  ghost predicate Clean(img: Img) {
    && Sized(img)
    && (forall n :: 1 <= n < |img.kinds| ==> (InodeUsed(img, n) <==> img.kinds[n] != Free))
    && (forall z: nat :: InRange(img.fs, z) ==> (Used(img.fs, z) <==> Reached(img, z)))
    && (forall n :: 1 <= n < |img.kinds| && img.kinds[n] == Dir ==> EntriesClean(img, n))
  }

  lemma RawDense(s: Fs, n: int, b: nat)
    requires Dense(s, n, b) && File(s, n)
    ensures Dense(Raw(s), n, b) && forall z: nat :: Names(Raw(s), n, z) <==> Names(s, n, z)
  {
    forall q: Ref | q.n == n
      ensures Entry(Raw(s), q) == Entry(s, q)
    {
      RawEntry(s, q);
    }
    hide Entry, Raw;
  }

  /** In an image that was built, the walk of each inode in use reaches what it names. */
  lemma WalkOf(img: Img, owner: map<int, Ref>, n: int, z: nat)
    requires Built(img, owner) && 0 <= n < |img.kinds|
    ensures z in Walk(Raw(img.fs), n, 0, 0) <==> z in owner && owner[z].n == n
  {
    assert Node(img, n);
    NamesIsOwner(img.fs, owner, n, z);
    if img.fs.inodes[n].owns {
      RawDense(img.fs, n, Blocks(img.fs.inodes[n].size));
      WalkIsExact(Raw(img.fs), n, z);
    } else {
      NotOwner(img.fs, owner, n, z);
    }
  }

  lemma NotOwner(s: Fs, owner: map<int, Ref>, n: int, z: nat)
    requires Good(s, owner) && 0 <= n < |s.inodes| && !s.inodes[n].owns
    ensures !(z in owner && owner[z].n == n)
  {
    if z in owner && owner[z].n == n {
      EntryIsThere(s, owner[z]);
    }
  }

  lemma EntryIsThere(s: Fs, q: Ref)
    requires Entry(s, q) != 0
    ensures File(s, q.n)
  {
  }

  lemma ZonesClean(img: Img, owner: map<int, Ref>, z: nat)
    requires Built(img, owner) && InRange(img.fs, z)
    ensures Used(img.fs, z) <==> Reached(img, z)
  {
    hide Entry, Walk, Raw, Contents, Listing, Bump, Tidy;
    if Used(img.fs, z) {
      var n := owner[z].n;
      assert Entry(img.fs, owner[z]) == z;
      EntryIsThere(img.fs, owner[z]);
      assert Node(img, n);
      WalkOf(img, owner, n, z);
    }
    if Reached(img, z) {
      var n :| 1 <= n < |img.kinds| && img.kinds[n] != Free && z in Walk(Raw(img.fs), n, 0, 0);
      WalkOf(img, owner, n, z);
    }
  }

  lemma OneBlock(s: Fs, n: int, pass: nat, j: nat)
    requires File(s, n) && Dense(s, n, 1) && pass < DIRECT && Looked(Raw(s), n, pass, j)
    ensures pass == 0 && DIRENT * j < s.inodes[n].size && SlotZone(Raw(s), n, 0) == SlotZone(s, n, 0)
  {
    RawEntry(s, Slot(n, pass));
    assert Entry(s, Slot(n, pass)) != 0;
    assert Due(Slot(n, pass), 1);
  }

  lemma TargetIs(s: Fs, n: int, j: nat)
    requires j < SLOTS && SlotZone(Raw(s), n, 0) == SlotZone(s, n, 0)
    requires var z := SlotZone(s, n, 0); 0 < z < |s.blocks| && |s.blocks[z]| == BLOCK_SIZE
    ensures Target(Raw(s), n, 0, j) == Ino(s.blocks[SlotZone(s, n, 0)], j)
  {
    hide SlotZone;
    assert 2 * (DIRENT / 2 * j) == DIRENT * j;
  }

  lemma DirClean(img: Img, owner: map<int, Ref>, n: int)
    requires Built(img, owner) && 1 <= n < |img.kinds| && img.kinds[n] == Dir
    ensures EntriesClean(img, n)
  {
    hide Entry, Raw, Listing, SlotZone, Target, Looked, Ino, Page, ByteAt, DirBlock, Map, Bump, Good, Tidy;
    assert Node(img, n);
    var s := Raw(img.fs);
    var c := Contents(img.fs, n);
    ShortListing(c, img.nextInode);
    DirBlockIs(img.fs, owner, n);
    forall pass: nat, j: nat | pass < DIRECT && j < SLOTS && Looked(s, n, pass, j)
      ensures InodeUsed(img, Target(s, n, pass, j))
    {
      OneBlock(img.fs, n, pass, j);
      BlockLength(img.fs, owner, n);
      TargetIs(img.fs, n, j);
      PageEntry(c, j);
      ListedInode(c, img.nextInode, j);
    }
  }

  lemma BlockLength(s: Fs, owner: map<int, Ref>, n: int)
    requires Good(s, owner)
    ensures forall z :: 0 <= z < |s.blocks| ==> |s.blocks[z]| == BLOCK_SIZE
  {
  }

  lemma ListedInode(c: seq<Byte>, next: nat, j: nat)
    requires Listing(c, next) && DIRENT * j + DIRENT <= |c|
    ensures 1 <= Ino(c, j) < next
  {
  }

  /** An image that was built has nothing for the audit to complain about. */
  lemma BuiltIsClean(img: Img, owner: map<int, Ref>)
    requires Built(img, owner)
    ensures Clean(img)
  {
    hide Walk, Raw, Entry, EntriesClean, Reached, Used, Good, Tidy, Bump, Contents, Listing;
    forall n | 1 <= n < |img.kinds|
      ensures InodeUsed(img, n) <==> img.kinds[n] != Free
      ensures img.kinds[n] == Dir ==> EntriesClean(img, n)
    {
      assert Node(img, n);
      if img.kinds[n] == Dir {
        DirClean(img, owner, n);
      }
    }
    forall z: nat | InRange(img.fs, z)
      ensures Used(img.fs, z) <==> Reached(img, z)
    {
      ZonesClean(img, owner, z);
    }
  }

  /** Every image that mkimage finishes passes the audit, and the inspector prints each file as it
      was given. */
  lemma ImagesPass(ops: seq<Addition>, root: Img, t: Img) returns (o: map<int, Ref>)
    requires MakeDir(Blank(), 0) == Some(root) && MayBuild(root, ops) && Assembled(root, ops) == Some(t)
    ensures Built(t, o) && Clean(t)
    ensures forall k :: 0 <= k < |ops| && ops[k].NewFile? ==> Dump(Raw(t.fs), root.nextInode + k, 0, 0) == ops[k].data
  {
    hide Built, Assembled, Contents, Dirent, Clean, Dump, Holds, Extends;
    BlankBuilt();
    BlankSizes();
    o := DirWorks(Blank(), map[], 0);
    o := AssembledWorks(root, o, ops);
    BuiltIsClean(t, o);
    forall k | 0 <= k < |ops| && ops[k].NewFile?
      ensures Dump(Raw(t.fs), root.nextInode + k, 0, 0) == ops[k].data
    {
      PrintsFile(t, o, ops[k], root.nextInode + k);
    }
  }

  lemma PrintsFile(t: Img, owner: map<int, Ref>, op: Addition, n: nat)
    requires Built(t, owner) && op.NewFile? && Holds(t, op, n)
    ensures Dump(Raw(t.fs), n, 0, 0) == op.data
  {
    assert Node(t, n);
    hide Listed, Contents, Map;
    var d := Blocks(Size(t.fs, n));
    BlocksBound(Size(t.fs, n), 0);
    forall c: nat | c < d
      ensures Map(t.fs, n, c) != 0
    {
      DenseBlock(t.fs, n, c, d);
    }
    DumpWhole(t.fs, owner, n, 0);
    RawDump(t.fs, n, 0, 0);
    assert Contents(t.fs, n)[0..] == Contents(t.fs, n);
  }
}
