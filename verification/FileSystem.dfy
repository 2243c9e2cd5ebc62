/** The code of fs/bitmap.c, fs/inode.c, fs/truncate.c and fs/file_dev.c on one mounted volume,
    each method proved against the functions of `ZoneTree` and `FileBytes`. */
module FileSystem {
  import opened ZoneTree
  import opened FileBytes

  const MAP_BITS: nat := 8192
  const ZMAP_SLOTS: nat := 8

  // ---------- the order in which `truncate` gives zones back ----------

  function Rank(r: Ref): int {
    match r
    case Slot(n, k) => if k < 7 then k else if k == 7 then 519 else 520 + 512 * 513
    case Ind(n, i) => 7 + i
    case Leaf(n, i, j) => 520 + 513 * i + j
    case Dind(n, i) => 520 + 513 * i + 512
  }

  /** Zone `z` is named by inode `n` at a place before rank `p`. */
  ghost predicate NamedBefore(s: Fs, n: int, p: int, z: int) {
    z != 0 && exists r: Ref :: r.n == n && Rank(r) < p && Entry(s, r) == z
  }

  /** The bitmap once the places of inode `n` before rank `p` have been given back. */
  ghost predicate FreedTo(zmap: seq<bool>, s: Fs, n: int, p: int) {
    |zmap| == |s.zmap|
    && forall k :: 0 <= k < |zmap| ==> (zmap[k] <==> s.zmap[k] && !NamedBefore(s, n, p, k + s.first - 1))
  }

  lemma EntryIsLegal(s: Fs, r: Ref)
    requires Shape(s) && Entry(s, r) != 0
    ensures Legal(s, r)
  {
  }

  lemma RankIsUnique(s: Fs, r: Ref, q: Ref)
    requires Legal(s, r) && Legal(s, q) && r.n == q.n && Rank(r) == Rank(q)
    ensures r == q
  {
    if r.Leaf? && q.Leaf? {
      assert r.i == q.i;
    }
  }

  /** One place given back: its zone, if any, is still marked used, and clearing its bit brings
      the bitmap up to the next rank. */
  lemma FreeOne(zmap: seq<bool>, s: Fs, owner: map<int, Ref>, r: Ref)
    requires Good(s, owner) && Legal(s, r) && FreedTo(zmap, s, r.n, Rank(r))
    ensures var z := Entry(s, r); var k := z - s.first + 1;
      if z == 0 then FreedTo(zmap, s, r.n, Rank(r) + 1)
      else InRange(s, z) && 0 <= k < |zmap| && zmap[k] && FreedTo(zmap[k := false], s, r.n, Rank(r) + 1)
  {
    hide Entry, NamedBefore, Rank, Legal, Shape, Owned, Used;
    var z := Entry(s, r);
    if z != 0 {
      NamedIsUsed(s, owner, r);
      SameLength(zmap, s, r.n, Rank(r));
    }
    forall y
      ensures NamedBefore(s, r.n, Rank(r) + 1, y) <==> NamedBefore(s, r.n, Rank(r), y) || (y == z && z != 0)
      ensures y == z && z != 0 ==> !NamedBefore(s, r.n, Rank(r), y)
    {
      NextRank(s, owner, r, y);
    }
  }

  lemma NamedIsUsed(s: Fs, owner: map<int, Ref>, r: Ref)
    requires Good(s, owner) && Entry(s, r) != 0
    ensures var z := Entry(s, r); var k := z - s.first + 1; InRange(s, z) && 0 <= k < |s.zmap| && s.zmap[k]
  {
    hide Entry;
    assert Entry(s, r) in owner && Used(s, Entry(s, r));
  }

  lemma NextRank(s: Fs, owner: map<int, Ref>, r: Ref, y: int)
    requires Good(s, owner) && Legal(s, r)
    ensures var z := Entry(s, r);
      && (NamedBefore(s, r.n, Rank(r) + 1, y) <==> NamedBefore(s, r.n, Rank(r), y) || (y == z && z != 0))
      && (y == z && z != 0 ==> !NamedBefore(s, r.n, Rank(r), y))
  {
    hide Entry, Rank, Legal;
    var z := Entry(s, r);
    if NamedBefore(s, r.n, Rank(r) + 1, y) && !NamedBefore(s, r.n, Rank(r), y) {
      var q: Ref :| q.n == r.n && Rank(q) < Rank(r) + 1 && Entry(s, q) == y;
      EntryIsLegal(s, q);
      RankIsUnique(s, q, r);
    }
    if y == z && z != 0 {
      assert forall q: Ref :: Entry(s, q) == z ==> q == r;
    }
  }

  /** A stretch of ranks with nothing in them. */
  lemma SkipEmpty(zmap: seq<bool>, s: Fs, n: int, p: int, p2: int)
    requires FreedTo(zmap, s, n, p) && p <= p2
    requires forall r: Ref :: r.n == n && p <= Rank(r) < p2 ==> Entry(s, r) == 0
    ensures FreedTo(zmap, s, n, p2)
  {
    hide Entry, Rank;
    forall z
      ensures NamedBefore(s, n, p2, z) <==> NamedBefore(s, n, p, z)
    {
      if NamedBefore(s, n, p2, z) {
        var r: Ref :| r.n == n && Rank(r) < p2 && Entry(s, r) == z;
        assert Rank(r) < p;
      }
    }
    hide NamedBefore;
  }

  lemma NothingFreed(s: Fs, n: int)
    requires Shape(s)
    ensures FreedTo(s.zmap, s, n, 0)
  {
    forall z
      ensures !NamedBefore(s, n, 0, z)
    {
      if NamedBefore(s, n, 0, z) {
        var r: Ref :| r.n == n && Rank(r) < 0 && Entry(s, r) == z;
        EntryIsLegal(s, r);
      }
    }
  }

  lemma AllFreed(zmap: seq<bool>, s: Fs, n: int)
    requires Shape(s) && 0 <= n < |s.inodes| && s.inodes[n].owns && FreedTo(zmap, s, n, 521 + 512 * 513)
    ensures zmap == Truncated(s, n).zmap
  {
    forall z
      ensures NamedBefore(s, n, 521 + 512 * 513, z) <==> Names(s, n, z)
    {
      if Names(s, n, z) {
        var r: Ref :| r.n == n && Entry(s, r) == z;
        EntryIsLegal(s, r);
      }
    }
    hide NamedBefore, Names;
  }

  /** Word `j` of the table whose number is at `p`, when those words name data or free zones. */
  function Child(p: Ref, j: int): Ref
    requires SingleTable(p)
  {
    match p
    case Slot(n, k) => Ind(n, j)
    case Dind(n, i) => Leaf(n, i, j)
  }

  /** The places that `free_ind` is called for. */
  predicate SingleTable(p: Ref) {
    p.Dind? || (p.Slot? && p.k == 7)
  }

  lemma ChildIs(s: Fs, p: Ref, j: int)
    requires Legal(s, p) && SingleTable(p) && 0 <= j < WORDS
    ensures var c := Child(p, j);
      Legal(s, c) && Rank(c) == Rank(p) - 512 + j && c.n == p.n && Entry(s, c) == TableWord(s, Entry(s, p), j)
  {
  }

  /** No table, no zones under it. */
  lemma NoTable(s: Fs, p: Ref)
    requires Shape(s) && Legal(s, p) && SingleTable(p) && Entry(s, p) == 0
    ensures forall r: Ref :: r.n == p.n && Rank(p) - 512 <= Rank(r) < Rank(p) + 1 ==> Entry(s, r) == 0
  {
    forall r: Ref | r.n == p.n && Rank(p) - 512 <= Rank(r) < Rank(p) + 1
      ensures Entry(s, r) == 0
    {
      if Entry(s, r) != 0 {
        EntryIsLegal(s, r);
      }
    }
  }

  lemma NoDoubleTable(s: Fs, n: int)
    requires Shape(s) && SlotZone(s, n, 8) == 0
    ensures forall r: Ref :: r.n == n && 520 <= Rank(r) < 521 + 512 * 513 ==> Entry(s, r) == 0
  {
    forall r: Ref | r.n == n && 520 <= Rank(r) < 521 + 512 * 513
      ensures Entry(s, r) == 0
    {
      if Entry(s, r) != 0 {
        EntryIsLegal(s, r);
      }
    }
  }

  // ---------- the code ----------

  class Volume {
    const zmap: array<bool>
    const first: nat
    const nzones: nat
    const blocks: array<seq<Byte>>
    const inodes: array<Inode>
    ghost var owner: map<int, Ref>

    ghost function Snap(): Fs
      reads this, zmap, blocks, inodes
    {
      Fs(zmap[..], first, nzones, blocks[..], inodes[..])
    }

    ghost predicate Loaded()
      reads this, zmap, blocks, inodes
    {
      Shape(Snap()) && zmap.Length % MAP_BITS == 0 && zmap.Length <= ZMAP_SLOTS * MAP_BITS
    }

    ghost predicate Valid()
      reads this, zmap, blocks, inodes
    {
      Loaded() && Owned(Snap(), owner)
    }

    /** A volume read in by `do_mount`, which has checked the sizes and set bit 0. */
    constructor (bits: array<bool>, firstdatazone: nat, zones: nat, image: array<seq<Byte>>, table: array<Inode>,
                 ghost o: map<int, Ref>)
      requires Good(Fs(bits[..], firstdatazone, zones, image[..], table[..]), o)
      requires bits.Length % MAP_BITS == 0 && bits.Length <= ZMAP_SLOTS * MAP_BITS
      ensures Valid() && zmap == bits && blocks == image && inodes == table && first == firstdatazone && nzones == zones
    {
      zmap, first, nzones, blocks, inodes, owner := bits, firstdatazone, zones, image, table, o;
    }

    /** `find_first_zero` on bitmap block `i`: MAP_BITS if all its bits are set. */
    method FindFirstZero(i: nat) returns (j: nat)
      requires zmap.Length % MAP_BITS == 0 && (i + 1) * MAP_BITS <= zmap.Length
      ensures j <= MAP_BITS && FirstZero(zmap[..], i * MAP_BITS) == FirstZero(zmap[..], i * MAP_BITS + j)
      ensures j < MAP_BITS ==> !zmap[i * MAP_BITS + j]
    {
      j := 0;
      while j < MAP_BITS
        invariant j <= MAP_BITS
        invariant FirstZero(zmap[..], i * MAP_BITS) == FirstZero(zmap[..], i * MAP_BITS + j)
      {
        if !zmap[i * MAP_BITS + j] {
          return;
        }
        j := j + 1;
      }
    }

    /** The loop of `new_block` over the blocks of the bitmap. */
    method FindZone() returns (bit: nat)
      requires Loaded()
      ensures bit == FirstZero(zmap[..], 0)
    {
      hide FirstZero, Shape;
      var i := 0;
      while i < zmap.Length / MAP_BITS
        invariant i <= zmap.Length / MAP_BITS
        invariant FirstZero(zmap[..], 0) == FirstZero(zmap[..], i * MAP_BITS)
      {
        var j := FindFirstZero(i);
        if j < MAP_BITS {
          FoundHere(zmap[..], i * MAP_BITS + j);
          return i * MAP_BITS + j;
        }
        i := i + 1;
      }
      FoundNone(zmap[..]);
      bit := zmap.Length;
    }

    /** `new_block`; the panic on a bit already set cannot come. */
    method TakeBlock() returns (z: nat)
      requires Loaded()
      modifies zmap, blocks
      ensures Loaded() && (Snap(), z) == NewBlock(old(Snap()))
    {
      hide FirstZero, Shape, Full, Used;
      NewBlockWorks(Snap());
      BlockCount(Snap());
      var bit := FindZone();
      if bit == zmap.Length {
        return 0;
      }
      zmap[bit] := true;
      assert zmap[..] == old(zmap[..])[bit := true];
      var b := bit + first - 1;
      if b >= nzones {
        return 0;
      }
      blocks[b] := ZeroBlock();
      assert blocks[..] == old(blocks[..])[b := ZeroBlock()];
      return b;
    }

    /** Fill slot `k` of inode `n` if it is empty, when asked to. */
    method SlotOf(n: nat, k: nat, create: bool) returns (z: nat)
      requires Valid() && File(Snap(), n) && k < 9
      modifies this`owner, zmap, blocks, inodes
      ensures Valid() && (Snap(), z) == if create then Grow(old(Snap()), Slot(n, k)) else (old(Snap()), Entry(Snap(), Slot(n, k)))
      ensures Entry(Snap(), Slot(n, k)) == z && SameFiles(old(Snap()), Snap())
    {
      hide NewBlock, Used, Full, SameData;
      ghost var o := GrowWorks(Snap(), owner, Slot(n, k));
      z := inodes[n].zone[k];
      if create && z == 0 {
        z := TakeBlock();
        if z != 0 {
          inodes[n] := inodes[n].(zone := inodes[n].zone[k := z]);
        }
        owner := o;
      }
    }

    /** The same for word `i` of the table in zone `t`, which is where place `r` is. */
    method WordOf(t: nat, i: nat, create: bool, ghost r: Ref) returns (z: nat)
      requires Valid() && !r.Slot? && Legal(Snap(), r) && i == Index(r) && t == TableZone(Snap(), r) && t != 0
      modifies this`owner, zmap, blocks, inodes
      ensures Valid() && (Snap(), z) == if create then Grow(old(Snap()), r) else (old(Snap()), Entry(Snap(), r))
      ensures Entry(Snap(), r) == z && SameFiles(old(Snap()), Snap())
    {
      hide NewBlock, Used, Full, SameData, TableZone;
      ghost var s := Snap();
      TableIsParent(s, r);
      TableWritable(s, owner, r);
      ghost var o := GrowWorks(s, owner, r);
      z := Word(blocks[t], i);
      if create && z == 0 {
        z := TakeBlock();
        if z != 0 {
          blocks[t] := SetWord(blocks[t], i, z);
        }
        owner := o;
      }
    }

    /** `_bmap`; false is its panic, on exactly the block numbers that no file can have. */
    method Bmap(n: nat, block: int, create: bool) returns (ok: bool, z: nat)
      requires Valid() && File(Snap(), n)
      modifies this`owner, zmap, blocks, inodes
      ensures Valid() && SameFiles(old(Snap()), Snap()) && (ok <==> 0 <= block < MAX_BLOCKS)
      ensures !ok ==> Snap() == old(Snap())
      ensures ok ==>
        (Snap(), z) == if create then Create(old(Snap()), BlockRef(n, block)) else (old(Snap()), Map(old(Snap()), n, block))
    {
      hide Shape, Owned, Create, Map, BlockRef;
      ok, z := false, 0;
      if block < 0 {
        return;
      }
      if block >= MAX_BLOCKS {
        return;
      }
      ok := true;
      z := MapBlock(n, block, create);
    }

    /** The rest of it, on a block number in range. */
    method MapBlock(n: nat, block: int, create: bool) returns (z: nat)
      requires Valid() && File(Snap(), n) && 0 <= block < MAX_BLOCKS
      modifies this`owner, zmap, blocks, inodes
      ensures Valid() && SameFiles(old(Snap()), Snap())
      ensures (Snap(), z) == if create then Create(old(Snap()), BlockRef(n, block)) else (old(Snap()), Map(old(Snap()), n, block))
    {
      hide Grow, Owned, Shape;
      if block < DIRECT {
        z := SlotOf(n, block, create);
        return;
      }
      var b := block - DIRECT;
      if b < WORDS {
        var t := SlotOf(n, 7, create);
        if t == 0 {
          return 0;
        }
        z := WordOf(t, b, create, Ind(n, b));
        return;
      }
      b := b - WORDS;
      ghost var s := Snap();
      var t := SlotOf(n, 8, create);
      assert create ==> Create(s, Slot(n, 8)) == (Snap(), t);
      if t == 0 {
        assert create ==> Create(s, Dind(n, b / WORDS)) == (Snap(), 0);
        return 0;
      }
      var i := WordOf(t, b / WORDS, create, Dind(n, b / WORDS));
      if i == 0 {
        return 0;
      }
      z := WordOf(i, b % WORDS, create, Leaf(n, b / WORDS, b % WORDS));
    }

    /** `free_block` of a block nobody holds; false is one of its panics: a zone outside the data
        area, or one that is already free. */
    method FreeBlock(z: nat) returns (ok: bool)
      requires 0 < first && nzones - first + 1 <= zmap.Length
      modifies zmap
      ensures ok <==> first <= z < nzones && old(zmap[z - first + 1])
      ensures zmap[..] == if ok then old(zmap[..])[z - first + 1 := false] else old(zmap[..])
    {
      if z < first || z >= nzones {
        return false;
      }
      var block := z - (first - 1);
      ok := zmap[block];
      zmap[block] := false;
    }

    /** The volume `s` being truncated, with the bitmap given back up to rank `p`. */
    ghost predicate Freeing(s: Fs, o: map<int, Ref>, n: int, p: int)
      reads this, zmap, blocks
    {
      && Good(s, o) && blocks[..] == s.blocks && first == s.first && nzones == s.nzones
      && FreedTo(zmap[..], s, n, p)
    }

    /** Give back the zone at one place. */
    method FreeAt(z: nat, ghost s: Fs, ghost o: map<int, Ref>, ghost r: Ref)
      requires Freeing(s, o, r.n, Rank(r)) && Legal(s, r) && z == Entry(s, r)
      modifies zmap
      ensures Freeing(s, o, r.n, Rank(r) + 1)
    {
      hide FreedTo, Entry, Legal, Rank, Owned;
      SameLength(zmap[..], s, r.n, Rank(r));
      FreeOne(zmap[..], s, o, r);
      if z != 0 {
        var ok := FreeBlock(z);
        if !ok {
          assert false;
        }
      }
    }

    method FreeInd(block: nat, ghost s: Fs, ghost o: map<int, Ref>, ghost p: Ref)
      requires SingleTable(p) && Legal(s, p) && block == Entry(s, p) && Freeing(s, o, p.n, Rank(p) - 512)
      modifies zmap
      ensures Freeing(s, o, p.n, Rank(p) + 1)
    {
      hide FreedTo, Entry, Legal, Rank, Owned, SingleTable;
      if block == 0 {
        NoTable(s, p);
        SkipEmpty(zmap[..], s, p.n, Rank(p) - 512, Rank(p) + 1);
        return;
      }
      EntryInRange(s, o, p);
      var i := 0;
      while i < WORDS
        invariant 0 <= i <= WORDS && Freeing(s, o, p.n, Rank(p) - 512 + i)
      {
        ChildIs(s, p, i);
        FreeAt(Word(blocks[block], i), s, o, Child(p, i));
        i := i + 1;
      }
      FreeAt(block, s, o, p);
    }

    method FreeDind(block: nat, n: nat, ghost s: Fs, ghost o: map<int, Ref>)
      requires File(s, n) && block == SlotZone(s, n, 8) && Freeing(s, o, n, 520)
      modifies zmap
      ensures Freeing(s, o, n, 521 + 512 * 513)
    {
      hide FreedTo, Legal, Owned, Entry;
      if block == 0 {
        NoDoubleTable(s, n);
        SkipEmpty(zmap[..], s, n, 520, 521 + 512 * 513);
        return;
      }
      DindIs(s, o, n);
      var i := 0;
      while i < WORDS
        invariant 0 <= i <= WORDS && Freeing(s, o, n, 520 + 513 * i)
      {
        ghost var p := Dind(n, i);
        var z := Word(blocks[block], i);
        if z != 0 {
          FreeInd(z, s, o, p);
        } else {
          NoTable(s, p);
          SkipEmpty(zmap[..], s, n, 520 + 513 * i, 520 + 513 * (i + 1));
        }
        i := i + 1;
      }
      FreeAt(block, s, o, Slot(n, 8));
    }

    /** The first loop of `truncate`. */
    method FreeDirect(n: nat, ghost s: Fs, ghost o: map<int, Ref>)
      requires Freeing(s, o, n, 0) && inodes[..] == s.inodes && File(s, n) && n < inodes.Length
      modifies zmap, inodes
      ensures Freeing(s, o, n, 7) && inodes.Length == |s.inodes| && |inodes[n].zone| == |s.inodes[n].zone| == 9
      ensures inodes[..] == s.inodes[n := s.inodes[n].(zone := inodes[n].zone)]
      ensures inodes[n].zone[7..] == s.inodes[n].zone[7..] && forall k :: 0 <= k < 7 ==> inodes[n].zone[k] == 0
    {
      hide FreedTo, Legal, Owned, Entry, Shape;
      SlotsAre(s, n);
      var i := 0;
      while i < 7
        invariant 0 <= i <= 7 && Freeing(s, o, n, i) && inodes.Length == |s.inodes|
        invariant |inodes[n].zone| == 9
        invariant inodes[..] == s.inodes[n := s.inodes[n].(zone := inodes[n].zone)]
        invariant inodes[n].zone[i..] == s.inodes[n].zone[i..] && forall k :: 0 <= k < i ==> inodes[n].zone[k] == 0
      {
        assert inodes[n].zone[i..][0] == inodes[n].zone[i] == s.inodes[n].zone[i];
        FreeAt(inodes[n].zone[i], s, o, Slot(n, i));
        if inodes[n].zone[i] != 0 {
          inodes[n] := inodes[n].(zone := inodes[n].zone[i := 0]);
        }
        assert inodes[n].zone[i + 1..] == s.inodes[n].zone[i..][1..];
        i := i + 1;
      }
    }

    method Truncate(n: nat)
      requires Valid() && n < inodes.Length
      modifies this`owner, zmap, inodes
      ensures Valid() && Snap() == Truncated(old(Snap()), n)
    {
      hide FreedTo, Legal, Owned, Entry, Shape;
      if !inodes[n].owns {
        return;
      }
      ghost var s := Snap();
      ghost var o := owner;
      TruncateWorks(s, o, n);
      NothingFreed(s, n);
      SlotsAre(s, n);
      FreeDirect(n, s, o);
      assert inodes[n].zone[7] == inodes[n].zone[7..][0] && inodes[n].zone[8] == inodes[n].zone[7..][1];
      assert s.inodes[n].zone[7] == s.inodes[n].zone[7..][0] && s.inodes[n].zone[8] == s.inodes[n].zone[7..][1];
      FreeInd(inodes[n].zone[7], s, o, Slot(n, 7));
      FreeDind(inodes[n].zone[8], n, s, o);
      inodes[n] := inodes[n].(zone := inodes[n].zone[7 := 0][8 := 0]);
      inodes[n] := inodes[n].(size := 0);
      assert inodes[n].zone == NoZones();
      assert inodes[..] == s.inodes[n := s.inodes[n].(zone := NoZones(), size := 0)];
      AllFreed(zmap[..], s, n);
      owner := Remaining(o, n);
    }

    /** `file_read`.  It returns the count even where the file has no zones; a count of zero or
        less reads nothing. */
    method ReadFile(n: nat, fpos: nat, count: int) returns (ret: int, newpos: nat, bytes: seq<Byte>)
      requires Valid() && File(Snap(), n) && (count > 0 ==> fpos + count <= MAX_BYTES)
      modifies this`owner, zmap, blocks, inodes
      ensures Valid() && Snap() == old(Snap())
      ensures ret == (if count <= 0 then 0 else count) && newpos == fpos + ret
      ensures bytes == FileRead(Snap(), n, fpos, ret)
    {
      hide Owned, Map, Shape, FileRead, Piece;
      ret, newpos, bytes := 0, fpos, [];
      ReadNone(Snap(), n, fpos);
      if count <= 0 {
        return;
      }
      ghost var s := Snap();
      var left := count;
      assert [] + FileRead(s, n, fpos, count) == FileRead(s, n, fpos, count);
      while left > 0
        invariant 0 <= left <= count && newpos == fpos + (count - left)
        invariant Valid() && Snap() == s
        invariant FileRead(s, n, fpos, count) == bytes + FileRead(s, n, newpos, left)
      {
        var ok, z := Bmap(n, newpos / BLOCK_SIZE, false);
        assert ok;
        var nr := newpos % BLOCK_SIZE;
        var chars := Chunk(newpos, left);
        PieceIs(s, owner, n, newpos, chars);
        ReadStep(s, n, newpos, left, bytes);
        if z != 0 {
          bytes := bytes + blocks[z][nr..nr + chars];
        } else {
          bytes := bytes + seq<Byte>(chars, _ => 0);
        }
        newpos := newpos + chars;
        left := left - chars;
      }
      ret := count;
      ReadNone(s, n, newpos);
      assert bytes + [] == bytes;
    }

    /** `file_write`; `append` is the O_APPEND flag, with which the file position stays put. */
    method WriteFile(n: nat, fpos: nat, append: bool, data: seq<Byte>) returns (ret: int, newpos: nat)
      requires Valid() && File(Snap(), n)
      requires (if append then inodes[n].size else fpos) + |data| <= MAX_BYTES
      modifies this`owner, zmap, blocks, inodes
      ensures Valid()
      ensures var pos := if append then old(inodes[n].size) else fpos;
        var i := if ret == -1 then 0 else ret;
        && (ret == -1 || 0 < ret <= |data|)
        && (Snap(), i) == FileWrite(old(Snap()), n, pos, data) && newpos == if append then fpos else pos + i
    {
      hide Owned, Map, Shape, Create, BlockRef, PutPiece, FileWrite, Stored, Full;
      ghost var s0 := Snap();
      var pos := if append then inodes[n].size else fpos;
      ghost var p0 := pos;
      var i := 0;
      assert data[0..] == data;
      while i < |data|
        invariant 0 <= i <= |data| && pos == p0 + i && Valid() && File(Snap(), n)
        invariant inodes.Length == |s0.inodes|
        invariant FileWrite(s0, n, p0, data) ==
          (FileWrite(Snap(), n, pos, data[i..]).0, i + FileWrite(Snap(), n, pos, data[i..]).1)
        decreases |data| - i
      {
        ghost var o := CreateStores(Snap(), owner, n, pos);
        WriteStep(Snap(), n, pos, data, i);
        var ok, block := Bmap(n, pos / BLOCK_SIZE, true);
        assert ok;
        if block == 0 {
          break;
        }
        var c := Chunk(pos, |data| - i);
        ghost var b := Snap();
        PutStores(b, owner, n, block, pos, data[i..i + c]);
        PutFits(b, owner, n, block, pos, data[i..i + c]);
        if pos + c > inodes[n].size {
          inodes[n] := inodes[n].(size := pos + c);
        }
        blocks[block] := Spliced(blocks[block], pos % BLOCK_SIZE, data[i..i + c]);
        assert Snap() == PutPiece(b, n, block, pos, data[i..i + c]);
        pos := pos + c;
        i := i + c;
      }
      if i == |data| {
        assert data[i..] == [];
        WriteEnd(Snap(), n, pos);
      }
      ret := if i > 0 then i else -1;
      newpos := if append then fpos else pos;
    }
  }

  lemma SameLength(zmap: seq<bool>, s: Fs, n: int, p: int)
    requires FreedTo(zmap, s, n, p)
    ensures |zmap| == |s.zmap|
  {
  }

  lemma EntryInRange(s: Fs, o: map<int, Ref>, r: Ref)
    requires Good(s, o) && Entry(s, r) != 0
    ensures InRange(s, Entry(s, r)) && |s.blocks[Entry(s, r)]| == BLOCK_SIZE
    ensures forall i :: 0 <= i < WORDS ==> TableWord(s, Entry(s, r), i) == Word(s.blocks[Entry(s, r)], i)
  {
  }

  lemma DindIs(s: Fs, o: map<int, Ref>, n: int)
    requires Good(s, o) && File(s, n) && SlotZone(s, n, 8) != 0
    ensures var z := SlotZone(s, n, 8);
      && InRange(s, z) && |s.blocks[z]| == BLOCK_SIZE && Legal(s, Slot(n, 8)) && Entry(s, Slot(n, 8)) == z
      && forall i :: 0 <= i < WORDS ==> Legal(s, Dind(n, i)) && Entry(s, Dind(n, i)) == Word(s.blocks[z], i)
  {
    assert Entry(s, Slot(n, 8)) != 0;
  }

  lemma SlotsAre(s: Fs, n: int)
    requires Shape(s) && File(s, n)
    ensures |s.inodes[n].zone| == 9
    ensures forall k :: 0 <= k < 9 ==> Legal(s, Slot(n, k)) && Entry(s, Slot(n, k)) == s.inodes[n].zone[k]
  {
  }

  /** A piece of a file, as the loop of `file_read` gets at it. */
  lemma PieceIs(s: Fs, o: map<int, Ref>, n: int, pos: nat, c: nat)
    requires Good(s, o) && pos < MAX_BYTES && pos % BLOCK_SIZE + c <= BLOCK_SIZE
    ensures var z := Map(s, n, pos / BLOCK_SIZE);
      && (z != 0 ==> z < |s.blocks| && |s.blocks[z]| == BLOCK_SIZE)
      && Piece(s, n, pos, c) == if z == 0 then seq<Byte>(c, _ => 0) else s.blocks[z][pos % BLOCK_SIZE..pos % BLOCK_SIZE + c]
  {
    hide Entry, BlockRef;
    var z := Map(s, n, pos / BLOCK_SIZE);
    assert z != 0 ==> z in o;
    var p := Piece(s, n, pos, c);
    assert forall k :: 0 <= k < c ==> p[k] == BlockByte(s, z, pos % BLOCK_SIZE + k);
    if z == 0 {
      assert p == seq<Byte>(c, _ => 0);
    } else {
      assert p == s.blocks[z][pos % BLOCK_SIZE..pos % BLOCK_SIZE + c];
    }
  }

  lemma ReadNone(s: Fs, n: int, pos: nat)
    ensures FileRead(s, n, pos, 0) == []
  {
  }

  lemma ReadStep(s: Fs, n: int, pos: nat, left: nat, got: seq<Byte>)
    requires left > 0
    ensures var c := Chunk(pos, left);
      got + FileRead(s, n, pos, left) == (got + Piece(s, n, pos, c)) + FileRead(s, n, pos + c, left - c)
  {
    hide Piece;
  }

  lemma WriteEnd(s: Fs, n: int, pos: nat)
    ensures FileWrite(s, n, pos, []) == (s, 0)
  {
  }

  lemma WriteStep(s: Fs, n: int, pos: nat, data: seq<Byte>, i: nat)
    requires i < |data|
    ensures var (a, z) := Create(s, BlockRef(n, pos / BLOCK_SIZE));
      var c := Chunk(pos, |data| - i);
      var b := PutPiece(a, n, z, pos, data[i..i + c]);
      if z == 0 then FileWrite(s, n, pos, data[i..]) == (a, 0)
      else FileWrite(s, n, pos, data[i..])
           == (FileWrite(b, n, pos + c, data[i + c..]).0, c + FileWrite(b, n, pos + c, data[i + c..]).1)
  {
    hide Create, PutPiece, BlockRef;
    var c := Chunk(pos, |data| - i);
    assert data[i..][..c] == data[i..i + c] && data[i..][c..] == data[i + c..];
  }

  lemma PutFits(s: Fs, o: map<int, Ref>, n: int, z: nat, pos: nat, bytes: seq<Byte>)
    requires Good(s, o) && File(s, n) && z != 0 && Map(s, n, pos / BLOCK_SIZE) == z
    requires pos % BLOCK_SIZE + |bytes| <= BLOCK_SIZE
    ensures z < |s.blocks| && pos % BLOCK_SIZE + |bytes| <= |s.blocks[z]|
    ensures PutPiece(s, n, z, pos, bytes)
         == s.(blocks := s.blocks[z := Spliced(s.blocks[z], pos % BLOCK_SIZE, bytes)],
               inodes := s.inodes[n := s.inodes[n].(size := Grows(s.inodes[n].size, pos, bytes))]) || bytes == []
  {
    hide Entry, BlockRef;
  }

  lemma BlockCount(s: Fs)
    requires Shape(s)
    ensures 0 < s.first && |s.blocks| == s.nzones
  {
  }

  lemma FoundNone(zmap: seq<bool>)
    ensures FirstZero(zmap, |zmap|) == |zmap|
  {
  }

  lemma FoundHere(zmap: seq<bool>, k: nat)
    requires k < |zmap| && !zmap[k]
    ensures FirstZero(zmap, k) == k
  {
  }
}
