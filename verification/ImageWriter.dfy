/** The code of tools/mkimage.c that fills the image, proved against the operations of
    `ImageBuild`; the failures that end the program are `ok == false`. */
module ImageWriter {
  import opened Options
  import opened ZoneTree
  import opened FileBytes
  import opened ImageZones
  import opened ImageBuild

  // ---------- one zone at a time ----------

  /** A zone taken and filled from its start, not yet entered anywhere. */
  function Placed(s: Fs, z: nat, bytes: seq<Byte>): Fs {
    if s.first <= z + 1 && z + 1 - s.first < |s.zmap| && z < |s.blocks| && |bytes| <= |s.blocks[z]|
    then s.(zmap := s.zmap[z + 1 - s.first := true], blocks := s.blocks[z := Spliced(s.blocks[z], 0, bytes)])
    else s
  }

  predicate Reachable(s: Fs, q: Ref) {
    Legal(s, q) && Entry(s, q) == 0 && (q.Slot? || Entry(s, Parent(q)) != 0)
  }

  /** The kernel fills an empty place whose table is there with the next zone. */
  lemma GrowStep(s: Fs, owner: map<int, Ref>, q: Ref, next: nat) returns (o: map<int, Ref>)
    requires Good(s, owner) && Bump(s, next) && next < s.nzones && Reachable(s, q)
    ensures Create(s, q) == (SetEntry(Placed(s, next, []), q, TableZone(s, q), next), next)
    ensures Writable(s, q, TableZone(s, q)) && 0 < next && TableZone(s, q) < next && !Used(s, next)
    ensures var t := Create(s, q).0;
      && Good(t, o) && Bump(t, next + 1) && SameFiles(s, t)
      && forall x :: Entry(t, x) == if x == q then next else Entry(s, x)
  {
    hide Entry, TableZone, NewBlock, Used, SetEntry, Grow, Shape, Owned, Legal;
    TableBelow(s, owner, q, next);
    CreateIsGrow(s, owner, q);
    o := GrowWorks(s, owner, q);
    GrowNext(s, owner, q, next);
    GrowIs(s, q, next);
    NextFree(s, next);
  }

  lemma NextFree(s: Fs, next: nat)
    requires Bump(s, next)
    ensures 0 < next && !Used(s, next)
  {
  }

  lemma CreateIsGrow(s: Fs, owner: map<int, Ref>, q: Ref)
    requires Good(s, owner) && Reachable(s, q)
    ensures Create(s, q) == Grow(s, q)
  {
    hide Grow, Entry;
    if !q.Slot? {
      ParentLegal(s, q);
      CreateExisting(s, owner, Parent(q));
    }
  }

  lemma TableBelow(s: Fs, owner: map<int, Ref>, q: Ref, next: nat)
    requires Good(s, owner) && Bump(s, next) && Reachable(s, q)
    ensures Writable(s, q, TableZone(s, q)) && TableZone(s, q) < next
  {
    if !q.Slot? {
      TableWritable(s, owner, q);
      TableIsParent(s, q);
      hide Entry;
      assert Used(s, TableZone(s, q));
    }
  }

  lemma GrowIs(s: Fs, q: Ref, next: nat)
    requires Bump(s, next) && next < s.nzones && Entry(s, q) == 0
    ensures Grow(s, q) == (SetEntry(Placed(s, next, []), q, TableZone(s, q), next), next)
  {
    hide Entry, TableZone, SetEntry;
    TakeNext(s, next);
    hide NewBlock;
    assert Spliced(s.blocks[next], 0, []) == s.blocks[next];
    assert s.blocks[next := s.blocks[next]] == s.blocks;
  }

  lemma CreateExisting(s: Fs, owner: map<int, Ref>, q: Ref)
    requires Good(s, owner) && Legal(s, q) && Entry(s, q) != 0
    ensures Create(s, q) == (s, Entry(s, q))
  {
    var o := CreateWorks(s, owner, q);
  }

  lemma ParentLegal(s: Fs, r: Ref)
    requires !r.Slot? && Legal(s, r)
    ensures Legal(s, Parent(r))
  {
  }

  /** Making a table first comes to the same as making it on the way. */
  lemma {:induction false} CreateThrough(s: Fs, owner: map<int, Ref>, q: Ref, r: Ref)
    requires Good(s, owner) && Legal(s, r) && Above(q, r) && Create(s, q).1 != 0
    ensures Create(Create(s, q).0, r) == Create(s, r)
    decreases Depth(r)
  {
    hide Entry, Grow, TableZone;
    if q == r {
      var o := CreateWorks(s, owner, q);
      var t := Create(s, q).0;
      SameLegal(s, t, q);
      CreateExisting(t, o, q);
    } else {
      ParentLegal(s, r);
      CreateThrough(s, owner, q, Parent(r));
    }
  }

  lemma SameLegal(s: Fs, t: Fs, q: Ref)
    requires SameFiles(s, t)
    ensures Legal(t, q) == Legal(s, q)
  {
  }

  // ---------- how far a file has got ----------

  /** The first `b` blocks are there, and so are the tables down to `p` for the next one. */
  ghost predicate Opened(s: Fs, n: int, b: nat, p: Ref) {
    forall q: Ref :: q.n == n ==> (Entry(s, q) != 0 <==> Due(q, b) || Above(q, p))
  }

  /** All that is missing for block `b` is the block. */
  ghost predicate Prepared(s: Fs, n: int, b: nat) {
    if b < DIRECT then Dense(s, n, b) else Opened(s, n, b, Parent(BlockRef(n, b)))
  }

  lemma NotLate(n: int, b: nat)
    requires DIRECT <= b < MAX_BLOCKS
    ensures !BlockRef(n, b).Slot? && !Due(BlockRef(n, b), b) && !Above(BlockRef(n, b), Parent(BlockRef(n, b)))
    ensures Above(Parent(BlockRef(n, b)), Parent(BlockRef(n, b)))
  {
    NotDue(n, b);
    AboveDepth(BlockRef(n, b), Parent(BlockRef(n, b)));
  }

  lemma PreparedReachable(s: Fs, n: int, b: nat)
    requires File(s, n) && b < MAX_BLOCKS && Prepared(s, n, b)
    ensures Reachable(s, BlockRef(n, b))
  {
    BlockRefs(s, n, b, n, b);
    NotDue(n, b);
    if b >= DIRECT {
      NotLate(n, b);
      AboveSame(Parent(BlockRef(n, b)), BlockRef(n, b));
    }
    hide Entry, BlockRef;
  }

  /** After the block, the first `b + 1` are there and nothing else. */
  lemma BlockDone(s: Fs, t: Fs, n: int, b: nat)
    requires b < MAX_BLOCKS && Prepared(s, n, b)
    requires forall q: Ref :: q.n == n ==> (Entry(t, q) != 0 <==> Entry(s, q) != 0 || q == BlockRef(n, b))
    ensures Dense(t, n, b + 1)
  {
    hide Entry;
    forall q: Ref | q.n == n
      ensures Entry(t, q) != 0 <==> Due(q, b + 1)
    {
      DueNext(q, n, b);
      if b < DIRECT {
        AboveSlot(q, n, b);
      }
    }
  }

  /** Most blocks need no new table. */
  lemma StillPrepared(s: Fs, n: int, b: nat)
    requires b < MAX_BLOCKS && Dense(s, n, b) && Cost(b) == 1
    ensures Prepared(s, n, b)
  {
    hide Entry;
    if b >= DIRECT {
      if b >= DIRECT + WORDS {
        Leaves(b);
      }
      forall q: Ref | q.n == n
        ensures Above(q, Parent(BlockRef(n, b))) ==> Due(q, b)
      {
        DueAbove(q, n, b);
      }
    }
  }

  lemma DueAbove(q: Ref, n: int, b: nat)
    requires q.n == n && DIRECT <= b < MAX_BLOCKS && Cost(b) == 1
    ensures Above(q, Parent(BlockRef(n, b))) ==> Due(q, b)
  {
    AboveSlot(q, n, 7);
    AboveSlot(q, n, 8);
    if b >= DIRECT + WORDS {
      Leaves(b);
      var i := (b - DIRECT - WORDS) / WORDS;
      assert Above(q, Dind(n, i)) <==> q == Dind(n, i) || q == Slot(n, 8);
    }
  }

  /** A new table for the next block. */
  lemma TableOpened(s: Fs, t: Fs, n: int, b: nat, q: Ref)
    requires q.n == n && (forall x :: Entry(t, x) != 0 <==> Entry(s, x) != 0 || x == q)
    requires if q.Slot? then Dense(s, n, b) else Opened(s, n, b, Parent(q))
    ensures Opened(t, n, b, q)
  {
    hide Entry, Due;
    if q.Slot? {
      forall x
        ensures Above(x, q) <==> x == q
      {
        AboveSlot(x, n, q.k);
      }
    }
  }

  /** The tables that block `7`, block `519` and every 512th after it need. */
  lemma TableOf(n: int, d: nat)
    requires d < WORDS
    ensures Parent(BlockRef(n, DIRECT)) == Slot(n, 7)
    ensures Parent(BlockRef(n, DIRECT + WORDS + WORDS * d)) == Dind(n, d)
    ensures forall i: nat :: i < WORDS ==> BlockRef(n, DIRECT + WORDS + WORDS * d + i) == Leaf(n, d, i)
    ensures DIRECT + WORDS + WORDS * d + WORDS <= MAX_BLOCKS
  {
    forall i: nat | i < WORDS
      ensures BlockRef(n, DIRECT + WORDS + WORDS * d + i) == Leaf(n, d, i)
    {
      assert (WORDS * d + i) / WORDS == d && (WORDS * d + i) % WORDS == i;
    }
    assert BlockRef(n, DIRECT + WORDS + WORDS * d + 0) == Leaf(n, d, 0);
  }

  /** One turn of the kernel's write loop, from a block boundary on. */
  lemma WriteStep(s: Fs, n: int, b: nat, bytes: seq<Byte>)
    requires bytes != [] && Create(s, BlockRef(n, b)).1 != 0
    ensures var (a, z) := Create(s, BlockRef(n, b)); var c := if |bytes| < BLOCK_SIZE then |bytes| else BLOCK_SIZE;
      FileWrite(s, n, BLOCK_SIZE * b, bytes).0
      == FileWrite(PutPiece(a, n, z, BLOCK_SIZE * b, bytes[..c]), n, BLOCK_SIZE * b + c, bytes[c..]).0
  {
    Boundary(b, |bytes|);
  }

  /** The block put first into the zone and then into the table: the same volume as the kernel's. */
  lemma StepIs(s: Fs, owner: map<int, Ref>, n: int, b: nat, chunk: seq<Byte>, next: nat) returns (o: map<int, Ref>)
    requires Good(s, owner) && Bump(s, next) && next < s.nzones && File(s, n) && b < MAX_BLOCKS && Prepared(s, n, b)
    requires 0 < |chunk| <= BLOCK_SIZE && BLOCK_SIZE * b + |chunk| <= s.inodes[n].size
    ensures var r := BlockRef(n, b); var t := SetEntry(Placed(s, next, chunk), r, TableZone(s, r), next);
      && Writable(s, r, TableZone(s, r)) && TableZone(s, r) < next && Create(s, r).1 == next && next != 0
      && t == PutPiece(Create(s, r).0, n, next, BLOCK_SIZE * b, chunk)
      && Good(t, o) && Bump(t, next + 1) && Dense(t, n, b + 1) && SameFiles(s, t)
      && forall x :: Entry(t, x) == if x == r then next else Entry(s, x)
  {
    var r := BlockRef(n, b);
    PreparedReachable(s, n, b);
    o := GrowStep(s, owner, r, next);
    var a := Create(s, r).0;
    Boundary(b, |chunk|);
    MapIs(a, n, b);
    PutKeeps(a, o, n, b, BLOCK_SIZE * b, chunk, next + 1);
    PutFile(a, n, next, BLOCK_SIZE * b, chunk);
    var t := PutPiece(a, n, next, BLOCK_SIZE * b, chunk);
    BlockDone(s, t, n, b);
    PutIsPlaced(s, a, r, n, b, chunk, next);
  }

  lemma PutIsPlaced(s: Fs, a: Fs, r: Ref, n: int, b: nat, chunk: seq<Byte>, next: nat)
    requires Bump(s, next) && next < s.nzones && File(s, n) && r.n == n
    requires 0 < |chunk| <= BLOCK_SIZE && BLOCK_SIZE * b + |chunk| <= s.inodes[n].size
    requires Writable(s, r, TableZone(s, r)) && TableZone(s, r) < next && SameFiles(s, a)
    requires a == SetEntry(Placed(s, next, []), r, TableZone(s, r), next)
    ensures SetEntry(Placed(s, next, chunk), r, TableZone(s, r), next) == PutPiece(a, n, next, BLOCK_SIZE * b, chunk)
    ensures SameFiles(s, PutPiece(a, n, next, BLOCK_SIZE * b, chunk))
  {
    Boundary(b, |chunk|);
    var y := TableZone(s, r);
    hide TableZone;
    var p := PutPiece(a, n, next, BLOCK_SIZE * b, chunk);
    var t := SetEntry(Placed(s, next, chunk), r, y, next);
    assert Spliced(s.blocks[next], 0, []) == s.blocks[next];
    assert a.inodes[n].(size := a.inodes[n].size) == a.inodes[n];
    assert p.inodes == a.inodes == t.inodes;
    assert p.blocks == t.blocks;
  }

  /** A file of which `p` bytes and `b` blocks are in place: the kernel would make `whole` of
      the rest; `extra` tables are there that no block uses yet. */
  ghost predicate GoingAt(s: Fs, owner: map<int, Ref>, next: nat, n: nat, data: seq<Byte>, p: nat, b: nat, whole: Fs,
                          start: nat, extra: nat)
  {
    var d := Blocks(|data|);
    && Good(s, owner) && Bump(s, next) && File(s, n) && s.inodes[n].size == |data|
    && b <= d <= MAX_BLOCKS && p == (if BLOCK_SIZE * b < |data| then BLOCK_SIZE * b else |data|)
    && FileWrite(s, n, p, data[p..]).0 == whole
    && next == start + Total(b) + extra && start + Total(d) <= s.nzones
  }

  lemma StoreWorks(s: Fs, owner: map<int, Ref>, next: nat, n: nat, data: seq<Byte>, p: nat, b: nat, c: nat, whole: Fs,
                   start: nat, extra: nat) returns (o: map<int, Ref>)
    requires GoingAt(s, owner, next, n, data, p, b, whole, start, extra) && p < |data| && b < MAX_BLOCKS && Prepared(s, n, b)
    requires Cost(b) == 1 + extra && c == if |data| - p < BLOCK_SIZE then |data| - p else BLOCK_SIZE
    ensures var r := BlockRef(n, b); var t := SetEntry(Placed(s, next, data[p..p + c]), r, TableZone(s, r), next);
      && Writable(s, r, TableZone(s, r)) && TableZone(s, r) < next < s.nzones && next < 65536 && Bump(s, next)
      && File(s, n) && |s.inodes[n].zone| == 9
      && GoingAt(t, o, next + 1, n, data, p + c, b + 1, whole, start, 0) && Dense(t, n, b + 1)
      && forall x :: x != r ==> Entry(t, x) == Entry(s, x)
  {
    hide Entry, TableZone, FileWrite, Create, Used, PutPiece, ZeroBlock, Owned, Dense, Opened, SetEntry, Placed, BlockRef;
    EarlierBlock(b, |data|);
    TotalGrows(b + 1, Blocks(|data|));
    o := StepIs(s, owner, n, b, data[p..p + c], next);
    WriteStep(s, n, b, data[p..]);
    assert data[p..][..c] == data[p..p + c] && data[p..][c..] == data[p + c..];
  }

  // ---------- the code ----------

  class Image {
    const zmap: array<bool>
    const first: nat
    const nzones: nat
    const blocks: array<seq<Byte>>
    const inodes: array<Inode>
    const kinds: array<Kind>
    const links: array<nat>
    const ibits: array<bool>
    var nextInode: nat
    var nextZone: nat
    ghost var owner: map<int, Ref>

    ghost function Snap(): Fs
      reads zmap, blocks, inodes
    {
      Fs(zmap[..], first, nzones, blocks[..], inodes[..])
    }

    ghost function State(): Img
      reads this, zmap, blocks, inodes, kinds, links, ibits
    {
      Img(Snap(), kinds[..], links[..], ibits[..], nextInode, nextZone)
    }

    ghost predicate Valid()
      reads this, zmap, blocks, inodes, kinds, links, ibits
    {
      zmap != ibits && Built(State(), owner)
    }

    /** The cleared image with bit 0 of both bitmaps set. */
    constructor ()
      ensures Valid() && State() == Blank()
      ensures fresh(zmap) && fresh(blocks) && fresh(inodes) && fresh(kinds) && fresh(links) && fresh(ibits)
    {
      var zones := new bool[MAP_BITS](k => k == 0);
      var bits := new bool[MAP_BITS](k => k == 0);
      zmap, ibits, first, nzones := zones, bits, FIRST_DATA_ZONE, NZONES;
      blocks := new seq<Byte>[NZONES](z => ZeroBlock());
      inodes := new Inode[NINODES + 1](n => Inode(false, NoZones(), 0));
      kinds := new Kind[NINODES + 1](n => Free);
      links := new nat[NINODES + 1](n => 0);
      nextInode, nextZone, owner := 1, FIRST_DATA_ZONE, map[];
      new;
      BlankBuilt();
      hide Built;
      assert zmap[..] == Blank().fs.zmap && ibits[..] == Blank().ibits;
      assert blocks[..] == Blank().fs.blocks && inodes[..] == Blank().fs.inodes;
      assert kinds[..] == Blank().kinds && links[..] == Blank().links;
    }

    method AllocInode() returns (ok: bool, n: nat)
      requires Sized(State()) && inodes.Length > 0
      modifies this`nextInode, ibits
      ensures ok == (old(nextInode) < inodes.Length - 1)
      ensures ok ==> n == old(nextInode) && nextInode == n + 1 && ibits[..] == old(ibits[..])[n := true]
    {
      if nextInode >= inodes.Length - 1 {
        return false, 0;
      }
      n := nextInode;
      nextInode := nextInode + 1;
      ibits[n] := true;
      return true, n;
    }

    method AllocZone() returns (ok: bool, z: nat)
      requires Bump(Snap(), nextZone)
      modifies this`nextZone, zmap
      ensures ok == (old(nextZone) < nzones)
      ensures ok ==> z == old(nextZone) && nextZone == z + 1 && Snap() == Placed(old(Snap()), z, [])
    {
      if nextZone >= nzones {
        return false, 0;
      }
      z := nextZone;
      nextZone := nextZone + 1;
      zmap[z + 1 - first] := true;
      assert Spliced(blocks[z], 0, []) == blocks[z];
      assert blocks[..][z := blocks[z]] == blocks[..];
      return true, z;
    }

    /** `write_data_block`; the overflow it checks for cannot come. */
    method WriteDataBlock(data: seq<Byte>) returns (ok: bool, z: nat)
      requires Bump(Snap(), nextZone) && |data| <= BLOCK_SIZE
      modifies this`nextZone, zmap, blocks
      ensures ok == (old(nextZone) < nzones)
      ensures ok ==> z == old(nextZone) && nextZone == z + 1 && Snap() == Placed(old(Snap()), z, data)
    {
      ok, z := AllocZone();
      if ok {
        blocks[z] := Spliced(blocks[z], 0, data);
      }
    }

    ghost predicate Going(n: nat, data: seq<Byte>, p: nat, b: nat, whole: Fs, start: nat, extra: nat)
      reads this, zmap, blocks, inodes
    {
      GoingAt(Snap(), owner, nextZone, n, data, p, b, whole, start, extra)
    }

    /** The next block of the file, into slot or word `i`; `t` is its table, 0 for the inode. */
    method StoreBlock(n: nat, t: nat, i: nat, data: seq<Byte>, p: nat, ghost b: nat, ghost whole: Fs, ghost start: nat,
                      ghost extra: nat) returns (c: nat)
      requires Going(n, data, p, b, whole, start, extra) && p < |data| && b < MAX_BLOCKS && Prepared(Snap(), n, b)
      requires i == Index(BlockRef(n, b)) && t == TableZone(Snap(), BlockRef(n, b)) && Cost(b) == 1 + extra
      modifies this`nextZone, this`owner, zmap, blocks, inodes
      ensures p + c <= |data| && Going(n, data, p + c, b + 1, whole, start, 0) && Dense(Snap(), n, b + 1)
      ensures forall x :: x != BlockRef(n, b) ==> Entry(Snap(), x) == old(Entry(Snap(), x))
    {
      hide Entry, TableZone, GoingAt, Prepared, Dense;
      c := if |data| - p < BLOCK_SIZE then |data| - p else BLOCK_SIZE;
      ghost var s := Snap();
      ghost var o := StoreWorks(s, owner, nextZone, n, data, p, b, c, whole, start, extra);
      BlockSlot(n, b);
      var ok, z := WriteDataBlock(data[p..p + c]);
      if t == 0 {
        inodes[n] := inodes[n].(zone := inodes[n].zone[i := z]);
      } else {
        blocks[t] := SetWord(blocks[t], i, z);
      }
      assert Snap() == SetEntry(Placed(s, z, data[p..p + c]), BlockRef(n, b), t, z);
      owner := o;
    }

    /** A table for the next block, into slot or word `i` of the table `t` above it. */
    method NewTable(n: nat, t: nat, i: nat, data: seq<Byte>, p: nat, ghost b: nat, ghost q: Ref, ghost whole: Fs,
                    ghost start: nat, ghost extra: nat) returns (z: nat)
      requires Going(n, data, p, b, whole, start, extra) && p < |data| && b < MAX_BLOCKS && extra < Cost(b)
      requires Reachable(Snap(), q) && q.n == n && Above(q, BlockRef(n, b))
      requires i == Index(q) && t == TableZone(Snap(), q) && (q.Slot? <==> t == 0)
      modifies this`nextZone, this`owner, zmap, blocks, inodes
      ensures Going(n, data, p, b, whole, start, extra + 1)
      ensures z != 0 && forall x :: Entry(Snap(), x) == if x == q then z else old(Entry(Snap(), x))
    {
      hide Entry, TableZone, FileWrite, Create, Used, ZeroBlock, Owned, Cost, Total;
      ghost var s := Snap();
      EarlierBlock(b, |data|);
      TotalGrows(b + 1, Blocks(|data|));
      TotalNext(b);
      ghost var o := GrowStep(s, owner, q, nextZone);
      BlockRefs(s, n, b, n, b);
      CreateThrough(s, owner, q, BlockRef(n, b));
      SameRest(s, Create(s, q).0, n, b, data[p..]);
      var ok;
      ok, z := AllocZone();
      if t == 0 {
        inodes[n] := inodes[n].(zone := inodes[n].zone[i := z]);
      } else {
        blocks[t] := SetWord(blocks[t], i, z);
      }
      assert Snap() == Create(s, q).0;
      owner := o;
    }

    /** The first seven blocks. */
    method FillSlots(n: nat, data: seq<Byte>, ghost whole: Fs, ghost start: nat) returns (p: nat, ghost b: nat)
      requires Going(n, data, 0, 0, whole, start, 0) && Dense(Snap(), n, 0)
      modifies this`nextZone, this`owner, zmap, blocks, inodes
      ensures Going(n, data, p, b, whole, start, 0) && Dense(Snap(), n, b) && (p < |data| ==> b == DIRECT)
    {
      hide Entry, FileWrite, Good, Bump, Dense, Prepared, TableZone;
      var i := 0;
      p, b := 0, 0;
      while i < DIRECT && p < |data|
        invariant i == b <= DIRECT && Going(n, data, p, b, whole, start, 0) && Dense(Snap(), n, b)
      {
        StillPrepared(Snap(), n, b);
        BlockSlot(n, b);
        var c := StoreBlock(n, 0, i, data, p, b, whole, start, 0);
        p, i, b := p + c, i + 1, b + 1;
      }
    }

    /** The blocks of one table, whose number is at place `at`. */
    method FillTable(n: nat, t: nat, data: seq<Byte>, p0: nat, ghost b0: nat, ghost at: Ref, ghost whole: Fs,
                     ghost start: nat, ghost extra: nat) returns (p: nat, ghost b: nat)
      requires Going(n, data, p0, b0, whole, start, extra) && p0 < |data| && Prepared(Snap(), n, b0) && Cost(b0) == 1 + extra
      requires IsTable(at) && UnderTable(n, b0, at) && b0 + WORDS <= MAX_BLOCKS && t == Entry(Snap(), at)
      modifies this`nextZone, this`owner, zmap, blocks, inodes
      ensures Going(n, data, p, b, whole, start, 0) && Dense(Snap(), n, b) && (p < |data| ==> b == b0 + WORDS)
      ensures forall x :: IsTable(x) ==> Entry(Snap(), x) == old(Entry(Snap(), x))
    {
      hide Entry, FileWrite, Good, Bump, Dense, Prepared, TableZone, Cost, Total, BlockRef;
      var i := 0;
      p, b := p0, b0;
      while i < WORDS && p < |data|
        invariant i <= WORDS && b == b0 + i && Going(n, data, p, b, whole, start, if i == 0 then extra else 0)
        invariant if i == 0 then p < |data| && Prepared(Snap(), n, b0) else Dense(Snap(), n, b)
        invariant forall x :: IsTable(x) ==> Entry(Snap(), x) == old(Entry(Snap(), x))
      {
        UnderTableAt(Snap(), n, b0, at, i);
        if i > 0 {
          StillPrepared(Snap(), n, b);
        }
        var c := StoreBlock(n, t, i, data, p, b, whole, start, if i == 0 then extra else 0);
        p, i, b := p + c, i + 1, b + 1;
      }
    }

    /** The blocks under the double-indirect table, one child table after the other. */
    method FillDouble(n: nat, dind: nat, data: seq<Byte>, p0: nat, ghost whole: Fs, ghost start: nat)
      returns (p: nat, ghost b: nat)
      requires Going(n, data, p0, DIRECT + WORDS, whole, start, 1) && p0 < |data|
      requires Opened(Snap(), n, DIRECT + WORDS, Slot(n, 8)) && dind == Entry(Snap(), Slot(n, 8))
      modifies this`nextZone, this`owner, zmap, blocks, inodes
      ensures p == |data| && Going(n, data, p, b, whole, start, 0) && Dense(Snap(), n, b)
    {
      hide Entry, FileWrite, Good, Bump, Dense, Opened, TableZone, Cost, Total, BlockRef, IsTable;
      var d := 0;
      p, b := p0, DIRECT + WORDS;
      while d < WORDS && p < |data|
        invariant d <= WORDS && (p < |data| ==> b == DIRECT + WORDS + WORDS * d)
        invariant Going(n, data, p, b, whole, start, if d == 0 then 1 else 0)
        invariant p < |data| ==> Opened(Snap(), n, b, Slot(n, 8))
        invariant d > 0 ==> Dense(Snap(), n, b)
        invariant d == 0 ==> p < |data|
        invariant Entry(Snap(), Slot(n, 8)) == dind
      {
        ghost var s := Snap();
        TableOf(n, d);
        ChildReachable(s, n, d, b, dind);
        var ind := NewTable(n, dind, d, data, p, b, Dind(n, d), whole, start, if d == 0 then 1 else 0);
        TableOpened(s, Snap(), n, b, Dind(n, d));
        LeafWords(n, d);
        ghost var q := Snap();
        p, b := FillTable(n, ind, data, p, b, Dind(n, d), whole, start, if d == 0 then 2 else 1);
        if p < |data| && d + 1 < WORDS {
          StillOpened(Snap(), n, b);
        }
        d := d + 1;
      }
      LastBlock(n, |data|);
    }

    /** The three loops always reach the end of the data. */
    method FillFile(n: nat, data: seq<Byte>, ghost whole: Fs, ghost start: nat)
      requires Going(n, data, 0, 0, whole, start, 0) && Dense(Snap(), n, 0)
      modifies this`nextZone, this`owner, zmap, blocks, inodes
      ensures Snap() == whole && nextZone == start + Total(Blocks(|data|))
    {
      hide Entry, FileWrite, Good, Bump, Dense, Opened, TableZone, Cost, Total, BlockRef, IsTable, Reachable, UnderTable;
      var p: nat;
      ghost var b: nat;
      p, b := FillSlots(n, data, whole, start);
      if p < |data| {
        ghost var s := Snap();
        SlotReachable(s, n, b);
        var ind := NewTable(n, 0, 7, data, p, b, Slot(n, 7), whole, start, 0);
        TableOpened(s, Snap(), n, b, Slot(n, 7));
        TableOf(n, 0);
        IndirectWords(n);
        p, b := FillTable(n, ind, data, p, b, Slot(n, 7), whole, start, 1);
      }
      if p < |data| {
        ghost var s := Snap();
        SlotReachable(s, n, b);
        var dind := NewTable(n, 0, 8, data, p, b, Slot(n, 8), whole, start, 0);
        TableOpened(s, Snap(), n, b, Slot(n, 8));
        p, b := FillDouble(n, dind, data, p, whole, start);
      }
      WrittenOut(Snap(), n, data, p, b);
    }

    /** `alloc_inode` and the fields. */
    method BeginInode(kind: Kind, count: nat, size: nat) returns (ok: bool, n: nat)
      requires Valid()
      modifies this`nextInode, inodes, kinds, links, ibits
      ensures ok == (old(nextInode) < inodes.Length - 1)
      ensures ok ==> n == old(nextInode) && State() == Begun(old(State()), kind, count, NoZones(), size)
    {
      hide Listing, Contents, Dense, Bump, Good, Tidy;
      FreeSlot(State(), owner);
      ok, n := AllocInode();
      if !ok {
        return;
      }
      inodes[n] := Inode(kind != Device, inodes[n].zone, size);
      kinds[n] := kind;
      links[n] := count;
    }

    /** `mkfile_inode_mode`: a failure is noticed before anything is taken. */
    method MkFile(data: seq<Byte>) returns (ok: bool, ino: nat)
      requires Valid()
      modifies this, zmap, blocks, inodes, kinds, links, ibits
      ensures ok == MakeFile(old(State()), data).Some?
      ensures ok ==> Valid() && State() == MakeFile(old(State()), data).value && ino == old(nextInode)
    {
      hide Entry, FileWrite, Good, Bump, Dense, Tidy, Node, Contents, FileZoneCount, Total, Begun;
      ghost var img := State();
      ZonesLeft(Snap(), nextZone);
      if FileZoneCount(|data|) > nzones - nextZone {
        return false, 0;
      }
      BlocksFit(img.fs, |data|, nextZone);
      ok, ino := BeginInode(Regular, 1, |data|);
      if !ok {
        return;
      }
      ghost var a := State();
      BegunWorks(img, owner, Regular, 1, NoZones(), |data|);
      NothingYet(a.fs, ino);
      ghost var w := FileWorks(img, owner, data);
      FillStarts(data);
      FillFile(ino, data, FileWrite(a.fs, ino, 0, data).0, nextZone);
      owner := w;
    }

    /** `mkchr_inode`. */
    method MkChr(major: int, minor: int) returns (ok: bool, ino: nat)
      requires Valid()
      modifies this, zmap, blocks, inodes, kinds, links, ibits
      ensures ok == MakeDevice(old(State()), major, minor).Some?
      ensures ok ==> Valid() && State() == MakeDevice(old(State()), major, minor).value && ino == old(nextInode)
    {
      hide Entry, Good, Bump, Dense, Tidy, Node, Contents;
      ghost var img := State();
      if major < 0 || major > 255 || minor < 0 || minor > 255 {
        return false, 0;
      }
      ok, ino := BeginInode(Device, 1, 0);
      if !ok {
        return;
      }
      DeviceWorks(img, owner, major, minor);
      inodes[ino] := inodes[ino].(zone := inodes[ino].zone[0 := 256 * major + minor]);
      assert inodes[..] == old(inodes[..])[ino := Inode(false, DeviceZone(major, minor), 0)];
    }

    /** The first pass of `add_dirent`: is there an entry of that name? */
    method HasName(z: nat, name: seq<Byte>) returns (found: bool)
      requires z < blocks.Length && |blocks[z]| == BLOCK_SIZE && |name| <= NAME_LEN
      ensures found <==> Duplicate(blocks[z], name)
    {
      hide Matches;
      var i := 0;
      while i < SLOTS
        invariant i <= SLOTS && forall j :: 0 <= j < i ==> !Matches(blocks[z], j, name)
      {
        if Matches(blocks[z], i, name) {
          return true;
        }
        i := i + 1;
      }
      found := false;
    }

    /** The second pass: the first slot that holds no entry. */
    method EmptySlot(z: nat) returns (i: nat)
      requires z < blocks.Length && |blocks[z]| == BLOCK_SIZE
      ensures i <= SLOTS && i == FirstSlot(blocks[z], 0)
    {
      i := 0;
      while i < SLOTS && Ino(blocks[z], i) != 0
        invariant i <= SLOTS && FirstSlot(blocks[z], 0) == FirstSlot(blocks[z], i)
      {
        i := i + 1;
      }
    }

    /** `add_dirent`: one pass to see that the name is new, one to find a free slot. */
    method AddDirent(dir: nat, name: seq<Byte>, target: int) returns (ok: bool)
      requires Sized(State()) && Open(Snap(), owner, dir, nextZone, nextInode)
      modifies blocks, inodes
      ensures match AddEntry(old(State()), dir, name, target)
              case None => !ok
              case Some(t) => ok && State() == t
    {
      hide Entry, Good, Bump, Dense, Tidy, Contents, Listing, Matches, Name, Padded, Duplicate, FirstSlot, Open;
      OpenBlock(Snap(), owner, dir, nextZone, nextInode);
      var z := inodes[dir].zone[0];
      if z == 0 || !ValidName(name) || target <= 0 || target > 65535 {
        return false;
      }
      var found := HasName(z, name);
      if found {
        return false;
      }
      var i := EmptySlot(z);
      var size := inodes[dir].size;
      if i == SLOTS || size > BLOCK_SIZE - DIRENT {
        return false;
      }
      blocks[z] := Spliced(blocks[z], DIRENT * i, Dirent(target, name));
      inodes[dir] := inodes[dir].(size := size + DIRENT);
      return true;
    }

    /** `mkdir_inode`. */
    method MkDir(parent: nat) returns (ok: bool, ino: nat)
      requires Valid() && parent < nextInode
      modifies this, zmap, blocks, inodes, kinds, links, ibits
      ensures ok == MakeDir(old(State()), parent).Some?
      ensures ok ==> Valid() && State() == MakeDir(old(State()), parent).value && ino == old(nextInode)
    {
      hide Entry, Good, Bump, Dense, Tidy, Node, Contents, Listing, AddEntry, Begun, Create, Dirent, OnlyFile;
      ghost var img := State();
      ghost var w := DirWorks(img, owner, parent);
      ok, ino := BeginInode(Dir, 2, 0);
      if !ok {
        return;
      }
      BegunWorks(img, owner, Dir, 2, NoZones(), 0);
      ghost var a := State();
      var z;
      BegunBump(img, owner, a);
      ok, z := AllocZone();
      if !ok {
        return;
      }
      FirstZone(img, owner, a);
      BegunFields(img);
      inodes[ino] := inodes[ino].(zone := inodes[ino].zone[0 := z]);
      assert State() == BareDir(img);
      ghost var o := BareDirWorks(img, owner);
      owner := o;
      FirstEntry(State(), owner, ino);
      ok := AddDirent(ino, Dot(), ino);
      ok := AddDirent(ino, DotDot(), if parent == 0 then ino else parent);
      owner := w;
    }

    /** `add_file`. */
    method AddFile(parent: nat, name: seq<Byte>, data: seq<Byte>) returns (ok: bool)
      requires Valid() && MayAdd(State(), NewFile(parent, name, data))
      modifies this, zmap, blocks, inodes, kinds, links, ibits
      ensures ok == Added(old(State()), NewFile(parent, name, data)).Some?
      ensures ok ==> Valid() && State() == Added(old(State()), NewFile(parent, name, data)).value
    {
      hide AddEntry, MakeFile, Good, Bump, Tidy, Entry, Contents, Listing, Dense, OnlyFile, CanEnter, Listed, Node;
      ghost var w := AddedWorks(State(), owner, NewFile(parent, name, data));
      ghost var img := State();
      ghost var o := MadeWorks(img, owner, NewFile(parent, name, data));
      InUse(img, owner);
      var ino;
      ok, ino := MkFile(data);
      if ok {
        ParentDir(img, State(), parent);
        DirOpen(State(), owner, parent);
        ok := AddDirent(parent, name, ino);
        owner := w;
      }
    }

    /** `add_chr`. */
    method AddChr(parent: nat, name: seq<Byte>, major: int, minor: int) returns (ok: bool)
      requires Valid() && MayAdd(State(), NewDevice(parent, name, major, minor))
      modifies this, zmap, blocks, inodes, kinds, links, ibits
      ensures ok == Added(old(State()), NewDevice(parent, name, major, minor)).Some?
      ensures ok ==> Valid() && State() == Added(old(State()), NewDevice(parent, name, major, minor)).value
    {
      hide AddEntry, MakeDevice, Good, Bump, Tidy, Entry, Contents, Listing, Dense, OnlyFile, CanEnter, Listed, Node;
      ghost var w := AddedWorks(State(), owner, NewDevice(parent, name, major, minor));
      ghost var img := State();
      ghost var o := MadeWorks(img, owner, NewDevice(parent, name, major, minor));
      InUse(img, owner);
      var ino;
      ok, ino := MkChr(major, minor);
      if ok {
        ParentDir(img, State(), parent);
        DirOpen(State(), owner, parent);
        ok := AddDirent(parent, name, ino);
        owner := w;
      }
    }

    /** `add_dir`; the parent's link count is looked at last. */
    method AddDir(parent: nat, name: seq<Byte>) returns (ok: bool)
      requires Valid() && MayAdd(State(), NewDir(parent, name))
      modifies this, zmap, blocks, inodes, kinds, links, ibits
      ensures ok == Added(old(State()), NewDir(parent, name)).Some?
      ensures ok ==> Valid() && State() == Added(old(State()), NewDir(parent, name)).value
    {
      hide AddEntry, MakeDir, Good, Bump, Tidy, Entry, Contents, Listing, Dense, OnlyFile, CanEnter, Listed, Node;
      ghost var w := AddedWorks(State(), owner, NewDir(parent, name));
      ghost var img := State();
      ghost var o := MadeWorks(img, owner, NewDir(parent, name));
      InUse(img, owner);
      var ino;
      ok, ino := MkDir(parent);
      if ok {
        ParentDir(img, State(), parent);
        DirOpen(State(), owner, parent);
        ok := AddDirent(parent, name, ino);
        if ok {
          if links[parent] == MAX_LINKS {
            return false;
          }
          links[parent] := links[parent] + 1;
          owner := w;
        }
      }
    }
  }

  lemma EarlierBlock(b: nat, len: nat)
    ensures b < Blocks(len) <==> BLOCK_SIZE * b < len
    ensures b < Blocks(len) ==> (BLOCK_SIZE * (b + 1) < len <==> BLOCK_SIZE < len - BLOCK_SIZE * b)
  {
  }

  lemma TotalNext(b: nat)
    ensures Total(b + 1) == Total(b) + Cost(b)
  {
  }

  lemma SameRest(s: Fs, t: Fs, n: int, b: nat, bytes: seq<Byte>)
    requires Create(t, BlockRef(n, b)) == Create(s, BlockRef(n, b)) && bytes != []
    ensures FileWrite(t, n, BLOCK_SIZE * b, bytes) == FileWrite(s, n, BLOCK_SIZE * b, bytes)
  {
    Boundary(b, |bytes|);
  }

  /** Blocks `b0` to `b0 + 511` are the words of the table at `at`. */
  ghost predicate UnderTable(n: int, b0: nat, at: Ref) {
    forall i: nat :: i < WORDS ==> WordAt(n, b0, at, i)
  }

  predicate WordAt(n: int, b0: nat, at: Ref, i: nat) {
    var r := BlockRef(n, b0 + i);
    !r.Slot? && Parent(r) == at && Index(r) == i && !IsTable(r) && (i > 0 ==> Cost(b0 + i) == 1)
  }

  lemma UnderTableAt(s: Fs, n: int, b0: nat, at: Ref, i: nat)
    requires UnderTable(n, b0, at) && i < WORDS
    ensures TableZone(s, BlockRef(n, b0 + i)) == Entry(s, at) && Index(BlockRef(n, b0 + i)) == i
    ensures !IsTable(BlockRef(n, b0 + i)) && (i > 0 ==> Cost(b0 + i) == 1)
  {
    assert WordAt(n, b0, at, i);
    TableIsParent(s, BlockRef(n, b0 + i));
  }

  lemma IndirectWords(n: int)
    ensures UnderTable(n, DIRECT, Slot(n, 7))
  {
  }

  lemma LeafWords(n: int, d: nat)
    requires d < WORDS
    ensures UnderTable(n, DIRECT + WORDS + WORDS * d, Dind(n, d))
  {
    TableOf(n, d);
    var b0 := DIRECT + WORDS + WORDS * d;
    forall i: nat | i < WORDS
      ensures WordAt(n, b0, Dind(n, d), i)
    {
      assert (WORDS * d + i) % WORDS == i;
    }
  }

  lemma ChildReachable(s: Fs, n: int, d: nat, b: nat, dind: nat)
    requires File(s, n) && d < WORDS && b == DIRECT + WORDS + WORDS * d && Opened(s, n, b, Slot(n, 8))
    requires dind == Entry(s, Slot(n, 8))
    ensures Reachable(s, Dind(n, d)) && TableZone(s, Dind(n, d)) == dind && dind != 0
    ensures IsTable(Slot(n, 8)) && Above(Dind(n, d), BlockRef(n, b)) && IsTable(Dind(n, d)) && Cost(b) == if d == 0 then 3 else 2
  {
    hide Entry;
    AboveSlot(Dind(n, d), n, 8);
    AboveSlot(Slot(n, 8), n, 8);
    TableOf(n, d);
    NotLate(n, b);
    TableIsParent(s, Dind(n, d));
  }

  lemma StillOpened(s: Fs, n: int, b: nat)
    requires Dense(s, n, b) && b > DIRECT + WORDS
    ensures Opened(s, n, b, Slot(n, 8))
  {
    hide Entry;
    forall q: Ref | q.n == n
      ensures Above(q, Slot(n, 8)) ==> Due(q, b)
    {
      AboveSlot(q, n, 8);
    }
  }

  lemma LastBlock(n: int, len: nat)
    ensures BLOCK_SIZE * MAX_BLOCKS < len ==> Blocks(len) > MAX_BLOCKS
  {
  }

  lemma ZonesLeft(s: Fs, next: nat)
    requires Bump(s, next)
    ensures next <= s.nzones
  {
  }

  lemma FreeSlot(img: Img, owner: map<int, Ref>)
    requires Built(img, owner)
    ensures img.nextInode < Inodes(img) ==> img.fs.inodes[img.nextInode].zone == NoZones()
  {
    assert Node(img, img.nextInode);
  }

  lemma NothingYet(s: Fs, n: int)
    requires forall q: Ref :: q.n == n ==> Entry(s, q) == 0
    ensures Dense(s, n, 0)
  {
  }

  /** The slots for tables, when the blocks before them are all there. */
  lemma SlotReachable(s: Fs, n: int, b: nat)
    requires Dense(s, n, b) && File(s, n) && (b == DIRECT || b == DIRECT + WORDS)
    ensures var k := if b == DIRECT then 7 else 8; var q := Slot(n, k);
      Reachable(s, q) && TableZone(s, q) == 0 && Above(q, BlockRef(n, b)) && IsTable(q) && Cost(b) == k - 5
  {
    hide Entry;
    TableOf(n, 0);
    AboveSlot(Slot(n, 8), n, 8);
  }

  lemma FillStarts(data: seq<Byte>)
    ensures data[0..] == data && Total(0) == 0
  {
  }

  lemma BegunBump(img: Img, owner: map<int, Ref>, a: Img)
    requires Fresh(img, owner, a, Dir, 0)
    ensures Bump(a.fs, a.nextZone)
  {
  }

  lemma BegunFields(img: Img)
    requires Sized(img) && img.nextInode < |img.fs.inodes|
    ensures var a := Begun(img, Dir, 2, NoZones(), 0);
      && a.nextZone == img.nextZone && a.fs.nzones == img.fs.nzones && |a.fs.inodes| == |img.fs.inodes|
      && a.fs.inodes[img.nextInode].zone == NoZones()
  {
  }

  /** The zone entered in slot 0 of a new directory, as the kernel would enter it. */
  lemma FirstZone(img: Img, owner: map<int, Ref>, a: Img)
    requires Fresh(img, owner, a, Dir, 0) && a.nextZone < a.fs.nzones
    ensures var q := Slot(img.nextInode, 0);
      Create(a.fs, q).0 == SetEntry(Placed(a.fs, a.nextZone, []), q, 0, a.nextZone) && a.nextZone < 65536
  {
    hide Contents, Tidy, ByteAt;
    var o := GrowStep(a.fs, owner, Slot(img.nextInode, 0), a.nextZone);
  }

  lemma ParentDir(img: Img, a: Img, dir: nat)
    requires Sized(img) && img.nextInode < |img.kinds| && dir < |img.kinds| && img.kinds[dir] == Dir && KindsRight(img)
    requires |a.kinds| == |img.kinds| && forall m :: 0 <= m < |img.kinds| && m != img.nextInode ==> a.kinds[m] == img.kinds[m]
    ensures a.kinds[dir] == Dir
  {
  }

  lemma WrittenOut(s: Fs, n: int, data: seq<Byte>, p: nat, b: nat)
    requires p == |data| && p == (if BLOCK_SIZE * b < |data| then BLOCK_SIZE * b else |data|) && b <= Blocks(|data|)
    ensures FileWrite(s, n, p, data[p..]).0 == s && b == Blocks(|data|)
  {
    EarlierBlock(b, |data|);
  }

  lemma BlockSlot(n: int, b: nat)
    ensures BlockRef(n, b).n == n && (BlockRef(n, b).Slot? <==> b < DIRECT)
    ensures forall s: Fs :: b < DIRECT ==> TableZone(s, BlockRef(n, b)) == 0
  {
  }
}
