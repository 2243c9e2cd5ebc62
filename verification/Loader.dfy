/** `read_area` of fs/exec.c: a program's text and data straight from the zones of its file. */
module Loader {
  import opened ZoneTree
  import opened FileBytes
  import opened FileSystem

  const MAX_IMAGE: nat := 0x2000000

  /** Byte `q` of the program: the file's, past its first block. */
  function Image(s: Fs, n: int, q: int): Byte {
    ByteAt(s, n, BLOCK_SIZE + q)
  }

  /** The first `blocks` blocks of memory are the program's; the rest is still as fresh pages
      are. */
  ghost predicate LoadedTo(s: Fs, n: int, mem: seq<Byte>, blocks: int) {
    forall q :: 0 <= q < |mem| ==> mem[q] == if q < blocks * BLOCK_SIZE then Image(s, n, q) else 0
  }

  /** Blocks needed for `size` bytes. */
  function BlocksOf(size: int): int {
    (size + BLOCK_SIZE - 1) / BLOCK_SIZE
  }

  lemma ImageByte(s: Fs, n: int, b: nat, q: int)
    requires b * BLOCK_SIZE <= q < (b + 1) * BLOCK_SIZE && b + 1 < MAX_BLOCKS
    ensures Image(s, n, q) == BlockByte(s, Map(s, n, b + 1), q - b * BLOCK_SIZE)
  {
    hide Map, BlockByte;
    SameBlock((b + 1) * BLOCK_SIZE, q - b * BLOCK_SIZE);
  }

  /** Copying the zone of one block, or passing over a hole, takes in one more block. */
  lemma BlockLoaded(s: Fs, o: map<int, Ref>, n: int, mem: seq<Byte>, b: nat)
    requires Good(s, o) && LoadedTo(s, n, mem, b) && (b + 1) * BLOCK_SIZE <= |mem| && b + 1 < MAX_BLOCKS
    ensures var z := Map(s, n, b + 1);
      if z == 0 then LoadedTo(s, n, mem, b + 1)
      else z < |s.blocks| && |s.blocks[z]| == BLOCK_SIZE
           && LoadedTo(s, n, Spliced(mem, b * BLOCK_SIZE, s.blocks[z]), b + 1)
  {
    var z := Map(s, n, b + 1);
    assert z != 0 ==> z in o;
    hide Map, Image;
    forall q | 0 <= q < |mem| && b * BLOCK_SIZE <= q < (b + 1) * BLOCK_SIZE
      ensures Image(s, n, q) == BlockByte(s, z, q - b * BLOCK_SIZE)
    {
      ImageByte(s, n, b, q);
    }
  }

  lemma {:induction false} HolesLoaded(s: Fs, o: map<int, Ref>, n: int, mem: seq<Byte>, b: nat, c: nat)
    requires Good(s, o) && LoadedTo(s, n, mem, b) && b <= c && c * BLOCK_SIZE <= |mem| && c < MAX_BLOCKS
    requires forall k :: b < k <= c ==> Map(s, n, k) == 0
    ensures LoadedTo(s, n, mem, c)
    decreases c - b
  {
    if b < c {
      BlockLoaded(s, o, n, mem, b);
      HolesLoaded(s, o, n, mem, b + 1, c);
    }
  }

  /** `cp_block`. */
  method CopyBlock(from: seq<Byte>, mem: array<Byte>, offset: nat)
    requires |from| == BLOCK_SIZE && offset + BLOCK_SIZE <= mem.Length
    modifies mem
    ensures mem[..] == Spliced(old(mem[..]), offset, from)
  {
    forall k | 0 <= k < BLOCK_SIZE {
      mem[offset + k] := from[k];
    }
  }

  /** Bring in block `b` of the program from zone `z`. */
  method LoadBlock(vol: Volume, n: nat, z: nat, mem: array<Byte>, b: nat)
    requires vol.Valid() && LoadedTo(vol.Snap(), n, mem[..], b) && (b + 1) * BLOCK_SIZE <= mem.Length
    requires b + 1 < MAX_BLOCKS && z == Map(vol.Snap(), n, b + 1)
    modifies mem
    ensures vol.Valid() && vol.Snap() == old(vol.Snap())
    ensures LoadedTo(vol.Snap(), n, mem[..], b + 1)
  {
    hide LoadedTo, Map, Shape, Owned;
    BlockLoaded(vol.Snap(), vol.owner, n, mem[..], b);
    if z != 0 {
      CopyBlock(vol.blocks[z], mem, b * BLOCK_SIZE);
    }
  }

  /** `read_head`: the blocks named by the inode itself, but for the first. */
  method ReadHead(vol: Volume, n: nat, wanted: nat, mem: array<Byte>) returns (blocks: nat)
    requires vol.Valid() && File(vol.Snap(), n) && LoadedTo(vol.Snap(), n, mem[..], 0)
    requires wanted * BLOCK_SIZE <= mem.Length
    modifies mem
    ensures vol.Valid() && vol.Snap() == old(vol.Snap())
    ensures blocks == (if wanted > 6 then 6 else wanted) && LoadedTo(vol.Snap(), n, mem[..], blocks)
  {
    hide LoadedTo, Shape, Owned;
    blocks := if wanted > 6 then 6 else wanted;
    var count := 0;
    while count < blocks
      invariant 0 <= count <= blocks && vol.Valid() && vol.Snap() == old(vol.Snap())
      invariant LoadedTo(vol.Snap(), n, mem[..], count)
    {
      SlotsAre(vol.Snap(), n);
      LoadBlock(vol, n, vol.inodes[n].zone[count + 1], mem, count);
      count := count + 1;
    }
  }

  /** The table in zone `ind` holds the zones of the blocks of file `n` after `first`. */
  ghost predicate TableOf(s: Fs, n: int, ind: int, first: int) {
    forall i :: 0 <= i < WORDS ==> Map(s, n, first + 1 + i) == TableWord(s, ind, i)
  }

  /** `read_ind`: `size` bytes of the program from block `first` on. */
  method ReadInd(vol: Volume, n: nat, ind: nat, size: int, mem: array<Byte>, first: nat)
    requires vol.Valid() && LoadedTo(vol.Snap(), n, mem[..], first) && size > 0
    requires TableOf(vol.Snap(), n, ind, first) && (ind == 0 || InRange(vol.Snap(), ind))
    requires (first + BlocksOf(Capped(size))) * BLOCK_SIZE <= mem.Length && first + WORDS < MAX_BLOCKS
    modifies mem
    ensures vol.Valid() && vol.Snap() == old(vol.Snap())
    ensures LoadedTo(vol.Snap(), n, mem[..], first + BlocksOf(Capped(size)))
  {
    hide LoadedTo, Owned, Map;
    var left := Capped(size);
    ghost var s := vol.Snap();
    ghost var all := BlocksOf(left);
    if ind == 0 {
      assert forall k :: first < k <= first + all ==> Map(s, n, k) == TableWord(s, ind, k - first - 1);
      HolesLoaded(s, vol.owner, n, mem[..], first, first + all);
      return;
    }
    var i := 0;
    while left > 0
      invariant 0 <= i <= WORDS && vol.Valid() && vol.Snap() == s && LoadedTo(s, n, mem[..], first + i)
      invariant i <= all && (if left > 0 then BlocksOf(left) else 0) == all - i
      invariant left > 0 ==> i < WORDS
      decreases left
    {
      assert Map(s, n, first + 1 + i) == TableWord(s, ind, i);
      LoadBlock(vol, n, Word(vol.blocks[ind], i), mem, first + i);
      i := i + 1;
      left := left - BLOCK_SIZE;
    }
  }

  function Capped(size: int): int {
    if size > WORDS * BLOCK_SIZE then WORDS * BLOCK_SIZE else size
  }

  lemma IndTable(s: Fs, n: int)
    ensures TableOf(s, n, SlotZone(s, n, 7), 6)
  {
    forall i | 0 <= i < WORDS
      ensures Map(s, n, 6 + 1 + i) == TableWord(s, SlotZone(s, n, 7), i)
    {
    }
  }

  lemma DindTable(s: Fs, n: int, c: int)
    requires 0 <= c < WORDS
    ensures TableOf(s, n, TableWord(s, SlotZone(s, n, 8), c), 518 + c * WORDS)
  {
    forall i | 0 <= i < WORDS
      ensures Map(s, n, 518 + c * WORDS + 1 + i) == TableWord(s, TableWord(s, SlotZone(s, n, 8), c), i)
    {
      assert (c * WORDS + i) / WORDS == c && (c * WORDS + i) % WORDS == i;
    }
  }

  lemma NoDoubleIndirect(s: Fs, n: int, c: nat)
    requires SlotZone(s, n, 8) == 0
    ensures forall k :: 518 < k <= 518 + c ==> Map(s, n, k) == 0
  {
  }

  /** `read_area`: the `size` bytes of text and data that follow the file's first block end up
      at the start of memory, holes as zeros.  The panic at its end cannot come. */
  method ReadArea(vol: Volume, n: nat, size: nat, mem: array<Byte>)
    requires vol.Valid() && File(vol.Snap(), n) && size <= MAX_IMAGE
    requires BlocksOf(size) * BLOCK_SIZE <= mem.Length && forall q :: 0 <= q < mem.Length ==> mem[q] == 0
    modifies mem
    ensures vol.Valid() && vol.Snap() == old(vol.Snap())
    ensures forall q :: 0 <= q < mem.Length ==>
      mem[q] == if q < BlocksOf(size) * BLOCK_SIZE then Image(vol.Snap(), n, q) else 0
  {
    hide Owned, Map, Image;
    ghost var s := vol.Snap();
    var blocks := ReadHead(vol, n, BlocksOf(size), mem);
    var left := size - BLOCK_SIZE * 6;
    if left <= 0 {
      assert BlocksOf(size) == blocks;
      return;
    }
    SlotsAre(s, n);
    IndTable(s, n);
    SlotKnown(s, vol.owner, n, 7);
    SlotKnown(s, vol.owner, n, 8);
    ReadInd(vol, n, vol.inodes[n].zone[7], left, mem, 6);
    left := left - BLOCK_SIZE * WORDS;
    if left <= 0 {
      return;
    }
    var dind := vol.inodes[n].zone[8];
    if dind == 0 {
      NoDoubleIndirect(s, n, BlocksOf(left));
      HolesLoaded(s, vol.owner, n, mem[..], 518, 518 + BlocksOf(left));
      return;
    }
    ReadDouble(vol, n, dind, left, mem);
  }

  lemma SlotKnown(s: Fs, o: map<int, Ref>, n: int, k: int)
    requires Good(s, o) && File(s, n) && 0 <= k < 9
    ensures SlotZone(s, n, k) == s.inodes[n].zone[k]
    ensures SlotZone(s, n, k) == 0 || (InRange(s, SlotZone(s, n, k)) && |s.blocks[SlotZone(s, n, k)]| == BLOCK_SIZE)
  {
    assert Entry(s, Slot(n, k)) == SlotZone(s, n, k);
  }

  /** The double-indirect part of `read_area`. */
  method ReadDouble(vol: Volume, n: nat, dind: nat, size: int, mem: array<Byte>)
    requires vol.Valid() && File(vol.Snap(), n) && dind == SlotZone(vol.Snap(), n, 8) && dind != 0
    requires 0 < size <= MAX_IMAGE && LoadedTo(vol.Snap(), n, mem[..], 518)
    requires (518 + BlocksOf(size)) * BLOCK_SIZE <= mem.Length
    modifies mem
    ensures vol.Valid() && vol.Snap() == old(vol.Snap())
    ensures LoadedTo(vol.Snap(), n, mem[..], 518 + BlocksOf(size))
  {
    hide Owned, Map, LoadedTo, TableOf;
    ghost var s := vol.Snap();
    DindIs(s, vol.owner, n);
    var left := size;
    var count := 0;
    while count < WORDS
      invariant 0 <= count < 64 && vol.Valid() && vol.Snap() == s && left > 0 && left == size - count * WORDS * BLOCK_SIZE
      invariant LoadedTo(s, n, mem[..], 518 + count * WORDS)
    {
      DindTable(s, n, count);
      DindEntryKnown(s, vol.owner, n, count);
      ReadInd(vol, n, Word(vol.blocks[dind], count), left, mem, 518 + count * WORDS);
      left := left - BLOCK_SIZE * WORDS;
      if left <= 0 {
        return;
      }
      count := count + 1;
    }
    assert false; // "Impossibly long executable"
  }

  lemma DindEntryKnown(s: Fs, o: map<int, Ref>, n: int, c: int)
    requires Good(s, o) && File(s, n) && 0 <= c < WORDS && SlotZone(s, n, 8) != 0
    ensures var z := SlotZone(s, n, 8);
      InRange(s, z) && |s.blocks[z]| == BLOCK_SIZE && TableWord(s, z, c) == Word(s.blocks[z], c)
      && (TableWord(s, z, c) == 0 || InRange(s, TableWord(s, z, c)))
  {
    assert Entry(s, Slot(n, 8)) == SlotZone(s, n, 8) && Entry(s, Dind(n, c)) == TableWord(s, SlotZone(s, n, 8), c);
  }
}
