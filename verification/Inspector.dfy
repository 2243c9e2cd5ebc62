/** The code of tools/minix-inspect.c that walks, prints and audits an image, proved against
    `ImageAudit`.  `ok == false` is the end of the program on a block outside the partition. */
module Inspector {
  import opened ZoneTree
  import opened FileBytes
  import opened ImageZones
  import opened ImageBuild
  import opened ImageAudit

  // ---------- skipping what is not there ----------

  /** Blocks that do not count and add nothing new can be passed over. */
  lemma {:induction false} SkipWalk(s: Fs, n: int, b: nat, c: nat, got: nat, extra: set<nat>)
    requires b <= c <= MAX_BLOCKS
    requires forall x: nat :: b <= x < c ==> !Counts(s, n, x) && PathZones(s, BlockRef(n, x)) <= extra
    ensures Walk(s, n, c, got) <= Walk(s, n, b, got) <= Walk(s, n, c, got) + extra
    decreases c - b
  {
    hide Counts, PathZones, BlockRef;
    if b < c {
      SkipWalk(s, n, b + 1, c, got, extra);
      if got >= Size(s, n) {
        WalkOver(s, n, b, got);
        WalkOver(s, n, c, got);
      }
    }
  }

  lemma WalkOver(s: Fs, n: int, b: nat, got: nat)
    requires b >= MAX_BLOCKS || got >= Size(s, n)
    ensures Walk(s, n, b, got) == {}
  {
  }

  lemma {:induction false} SkipDump(s: Fs, n: int, b: nat, c: nat, got: nat)
    requires b <= c <= MAX_BLOCKS && forall x: nat :: b <= x < c ==> Map(s, n, x) == 0
    ensures Dump(s, n, b, got) == Dump(s, n, c, got)
    decreases c - b
  {
    hide Map;
    if b < c {
      SkipDump(s, n, b + 1, c, got);
      if got >= Size(s, n) {
        DumpOver(s, n, b, got);
        DumpOver(s, n, c, got);
      }
    }
  }

  lemma DumpOver(s: Fs, n: int, b: nat, got: nat)
    requires b >= MAX_BLOCKS || got >= Size(s, n)
    ensures Dump(s, n, b, got) == []
  {
  }

  /** Blocks `b0` to `b0 + 511` are the words of the table at `at`. */
  ghost predicate Under(n: int, b0: nat, at: Ref) {
    forall x: nat :: b0 <= x < b0 + WORDS ==>
      !BlockRef(n, x).Slot? && Parent(BlockRef(n, x)) == at && Index(BlockRef(n, x)) == x - b0
  }

  lemma UnderWord(s: Fs, n: int, b0: nat, at: Ref, x: nat)
    requires Under(n, b0, at) && b0 <= x < b0 + WORDS && b0 >= DIRECT
    ensures Map(s, n, x) == TableWord(s, Entry(s, at), x - b0) && (Counts(s, n, x) <==> Entry(s, at) != 0)
    ensures PathZones(s, BlockRef(n, x)) == (if Map(s, n, x) == 0 then {} else {Map(s, n, x)}) + PathZones(s, at)
  {
    TableIsParent(s, BlockRef(n, x));
  }

  /** A table that is missing: none of its blocks is there. */
  lemma SkipTable(s: Fs, n: int, b0: nat, at: Ref, got: nat, extra: set<nat>)
    requires Under(n, b0, at) && b0 >= DIRECT && b0 + WORDS <= MAX_BLOCKS && Entry(s, at) == 0 && PathZones(s, at) <= extra
    ensures Walk(s, n, b0 + WORDS, got) <= Walk(s, n, b0, got) <= Walk(s, n, b0 + WORDS, got) + extra
    ensures Dump(s, n, b0, got) == Dump(s, n, b0 + WORDS, got)
  {
    hide Entry, BlockRef, Map, Walk, Dump, Counts, PathZones;
    forall x: nat | b0 <= x < b0 + WORDS
      ensures !Counts(s, n, x) && PathZones(s, BlockRef(n, x)) <= extra && Map(s, n, x) == 0
    {
      UnderWord(s, n, b0, at, x);
      NoWord(s, x - b0);
    }
    SkipWalk(s, n, b0, b0 + WORDS, got, extra);
    SkipDump(s, n, b0, b0 + WORDS, got);
  }

  lemma NoWord(s: Fs, i: int)
    ensures TableWord(s, 0, i) == 0
  {
  }

  lemma UnderIndirect(n: int)
    ensures Under(n, DIRECT, Slot(n, 7))
  {
  }

  lemma UnderDouble(n: int, d: nat)
    requires d < WORDS
    ensures Under(n, DIRECT + WORDS + WORDS * d, Dind(n, d)) && DIRECT + WORDS + WORDS * d + WORDS <= MAX_BLOCKS
  {
    var b0 := DIRECT + WORDS + WORDS * d;
    forall x: nat | b0 <= x < b0 + WORDS
      ensures BlockRef(n, x) == Leaf(n, d, x - b0)
    {
      assert (WORDS * d + (x - b0)) / WORDS == d && (WORDS * d + (x - b0)) % WORDS == x - b0;
    }
  }

  /** Nothing at all under the double-indirect table. */
  lemma SkipDouble(s: Fs, n: int, got: nat)
    requires Entry(s, Slot(n, 8)) == 0
    ensures Walk(s, n, DIRECT + WORDS, got) == {} && Dump(s, n, DIRECT + WORDS, got) == []
  {
    forall x: nat | DIRECT + WORDS <= x < MAX_BLOCKS
      ensures !Counts(s, n, x) && PathZones(s, BlockRef(n, x)) <= {} && Map(s, n, x) == 0
    {
      NoDouble(s, n, x);
    }
    hide Entry, BlockRef, Map, Counts, PathZones;
    SkipWalk(s, n, DIRECT + WORDS, MAX_BLOCKS, got, {});
    SkipDump(s, n, DIRECT + WORDS, MAX_BLOCKS, got);
  }

  lemma NoDouble(s: Fs, n: int, x: nat)
    requires Entry(s, Slot(n, 8)) == 0 && DIRECT + WORDS <= x < MAX_BLOCKS
    ensures !Counts(s, n, x) && PathZones(s, BlockRef(n, x)) == {} && Map(s, n, x) == 0
  {
    var r := BlockRef(n, x);
    TableIsParent(s, r);
    TableIsParent(s, Parent(r));
    NoWord(s, Index(r));
    NoWord(s, Index(Parent(r)));
    assert PathZones(s, Slot(n, 8)) == {};
    assert PathZones(s, Parent(r)) == {};
  }

  /** Every table of the inode, and every block of a directory, is inside the partition. */
  ghost predicate Inside(img: Img) {
    forall q: Ref :: 0 <= q.n < |img.kinds| && (IsTable(q) || (q.Slot? && img.kinds[q.n] == Dir)) ==>
      Entry(Raw(img.fs), q) < |img.fs.blocks|
  }

  lemma NoTables(s: Fs, q: Ref)
    requires Shape(s) && 0 <= q.n < |s.inodes| && IsTable(q) && s.inodes[q.n].zone[7] == 0 && s.inodes[q.n].zone[8] == 0
    ensures Entry(Raw(s), q) == 0
  {
    NoWord(Raw(s), Index(q));
  }

  lemma BuiltInside(img: Img, owner: map<int, Ref>)
    requires Built(img, owner)
    ensures Inside(img)
  {
    forall q: Ref | 0 <= q.n < |img.kinds| && (IsTable(q) || (q.Slot? && img.kinds[q.n] == Dir))
      ensures Entry(Raw(img.fs), q) < |img.fs.blocks|
    {
      assert Node(img, q.n);
      if img.fs.inodes[q.n].owns {
        RawEntry(img.fs, q);
        hide Entry;
      } else {
        NoTables(img.fs, q);
      }
    }
  }

  lemma PathInWalk(s: Fs, n: int, b: nat, got: nat)
    requires b < MAX_BLOCKS && got < Size(s, n)
    ensures PathZones(s, BlockRef(n, b)) <= Walk(s, n, b, got)
  {
  }

  lemma TablePath(s: Fs, n: int, b0: nat, at: Ref)
    requires Under(n, b0, at)
    ensures PathZones(s, at) <= PathZones(s, BlockRef(n, b0))
  {
    assert Parent(BlockRef(n, b0)) == at;
  }

  lemma SlotPath(s: Fs, n: int, k: nat)
    ensures PathZones(s, Slot(n, k)) == if Entry(s, Slot(n, k)) == 0 then {} else {Entry(s, Slot(n, k))}
  {
  }

  lemma DindPath(s: Fs, n: int, d: nat)
    ensures PathZones(s, Dind(n, d)) == (if Entry(s, Dind(n, d)) == 0 then {} else {Entry(s, Dind(n, d))}) + PathZones(s, Slot(n, 8))
  {
  }

  /** One direct block. */
  lemma SlotStep(s: Fs, n: int, k: nat, got: nat)
    requires k < DIRECT
    ensures var z := Entry(s, Slot(n, k));
      && Map(s, n, k) == z && (Counts(s, n, k) <==> z != 0)
      && (got < Size(s, n) ==>
            Walk(s, n, k, got)
            == (if z == 0 then {} else {z}) + Walk(s, n, k + 1, got + if z != 0 then Least(Size(s, n) - got, BLOCK_SIZE) else 0))
  {
    SlotPath(s, n, k);
    hide Entry;
  }

  /** One word of a table. */
  lemma WordStep(s: Fs, n: int, b0: nat, at: Ref, b: nat, got: nat)
    requires Under(n, b0, at) && b0 <= b < b0 + WORDS && b0 >= DIRECT && Entry(s, at) != 0 && b < MAX_BLOCKS && got < Size(s, n)
    ensures var z := TableWord(s, Entry(s, at), b - b0);
      && Map(s, n, b) == z
      && Walk(s, n, b, got) == PathZones(s, at) + (if z == 0 then {} else {z}) + Walk(s, n, b + 1, got + Least(Size(s, n) - got, BLOCK_SIZE))
  {
    hide Entry, BlockRef, TableWord;
    UnderWord(s, n, b0, at, b);
  }

  // ---------- the code ----------

  class Inspection {
    const img: Img
    const zoneUsed: array<bool>
    var errors: nat

    ghost predicate Valid() {
      Shape(img.fs) && Sized(img) && zoneUsed.Length == img.fs.nzones
    }

    constructor (image: Img)
      requires Shape(image.fs) && Sized(image)
      ensures Valid() && img == image && fresh(zoneUsed) && errors == 0 && forall z :: !Has(z)
    {
      img, errors := image, 0;
      zoneUsed := new bool[image.fs.nzones](k => false);
    }

    /** Zone `z` has been marked. */
    ghost predicate Has(z: int)
      reads zoneUsed
    {
      0 <= z - img.fs.first + 1 < zoneUsed.Length && zoneUsed[z - img.fs.first + 1]
    }

    method MarkZone(z: nat)
      requires Valid()
      modifies zoneUsed
      ensures forall y :: InRange(img.fs, y) ==> (Has(y) <==> old(Has(y)) || y == z)
    {
      if z == 0 || z >= img.fs.nzones {
        return;
      }
      var bit := z - (img.fs.first - 1);
      if 0 <= bit < img.fs.nzones {
        zoneUsed[bit] := true;
      }
    }

    /** The walk of inode `n` has come to block `b`: what is marked and what is still to come make
        up what was marked before and the whole walk. */
    ghost predicate Partway(n: int, b: nat, got: nat, before: set<int>)
      reads zoneUsed
    {
      forall z: nat :: InRange(img.fs, z) ==>
        (Has(z) || z in Walk(Raw(img.fs), n, b, got) <==> z in before || z in Walk(Raw(img.fs), n, 0, 0))
    }

    ghost predicate HasAll(zs: set<nat>)
      reads zoneUsed
    {
      forall z: nat :: z in zs && InRange(img.fs, z) ==> Has(z)
    }

    ghost function Marked(): (zs: set<int>)
      reads zoneUsed
      ensures forall z :: z in zs <==> InRange(img.fs, z) && Has(z)
    {
      set z | img.fs.first <= z < img.fs.nzones && Has(z)
    }

    /** The words of one table. */
    method WalkTable(n: int, t: nat, got0: nat, ghost b0: nat, ghost at: Ref, ghost before: set<int>)
      returns (got: nat, ghost b: nat)
      requires Valid() && 0 < t < |img.fs.blocks| && t == Entry(Raw(img.fs), at) && HasAll(PathZones(Raw(img.fs), at))
      requires 0 <= n < |img.fs.inodes| && Under(n, b0, at) && DIRECT <= b0 && b0 + WORDS <= MAX_BLOCKS
      requires got0 < img.fs.inodes[n].size && Partway(n, b0, got0, before)
      modifies zoneUsed
      ensures Partway(n, b, got, before) && (got < img.fs.inodes[n].size ==> b == b0 + WORDS)
      ensures forall z :: InRange(img.fs, z) && old(Has(z)) ==> Has(z)
    {
      hide Entry, PathZones, Walk, Under;
      var size := img.fs.inodes[n].size;
      var i := 0;
      got, b := got0, b0;
      while i < WORDS && got < size
        invariant i <= WORDS && b == b0 + i && Partway(n, b, got, before)
        invariant forall z :: InRange(img.fs, z) && old(Has(z)) ==> Has(z)
      {
        WordStep(Raw(img.fs), n, b0, at, b, got);
        var z := Word(img.fs.blocks[t], i);
        if z != 0 {
          MarkZone(z);
        }
        got := got + if size - got < BLOCK_SIZE then size - got else BLOCK_SIZE;
        i, b := i + 1, b + 1;
      }
    }

    /** The direct blocks. */
    method WalkSlots(n: int, ghost before: set<int>) returns (got: nat, ghost b: nat)
      requires Valid() && 0 <= n < |img.fs.inodes| && Partway(n, 0, 0, before)
      modifies zoneUsed
      ensures Partway(n, b, got, before) && (got < img.fs.inodes[n].size ==> b == DIRECT)
    {
      hide Entry, Walk;
      var size := img.fs.inodes[n].size;
      var i := 0;
      got, b := 0, 0;
      while i < DIRECT && got < size
        invariant i == b <= DIRECT && Partway(n, b, got, before)
      {
        SlotStep(Raw(img.fs), n, b, got);
        SlotIs(img.fs, n, i);
        var z := img.fs.inodes[n].zone[i];
        if z != 0 {
          MarkZone(z);
          got := got + if size - got < BLOCK_SIZE then size - got else BLOCK_SIZE;
        }
        i, b := i + 1, b + 1;
      }
    }

    /** The blocks of the single-indirect table, if there is one. */
    method WalkIndirect(n: int, got0: nat, ghost before: set<int>) returns (ok: bool, got: nat, ghost b: nat)
      requires Valid() && 0 <= n < |img.kinds| && got0 < img.fs.inodes[n].size && Partway(n, DIRECT, got0, before)
      modifies zoneUsed
      ensures Inside(img) ==> ok
      ensures ok ==> Partway(n, b, got, before) && (got < img.fs.inodes[n].size ==> b == DIRECT + WORDS)
    {
      hide Entry, Walk, PathZones, Under, Raw;
      ghost var s := Raw(img.fs);
      ok, got, b := true, got0, DIRECT + WORDS;
      UnderIndirect(n);
      SlotIs(img.fs, n, 7);
      SlotPath(s, n, 7);
      var ind := img.fs.inodes[n].zone[7];
      if ind != 0 {
        TablePath(s, n, DIRECT, Slot(n, 7));
        RawSize(img.fs, n);
        PathInWalk(s, n, DIRECT, got);
        MarkZone(ind);
        if ind >= |img.fs.blocks| {
          RawBlocks(img.fs, n);
          assert Inside(img) ==> Entry(s, Slot(n, 7)) < |img.fs.blocks|;
          return false, got, b;
        }
        got, b := WalkTable(n, ind, got, DIRECT, Slot(n, 7), before);
      } else {
        SkipTable(s, n, DIRECT, Slot(n, 7), got, {});
      }
    }

    /** The blocks under the double-indirect table, if there is one. */
    method WalkDouble(n: int, got0: nat, ghost before: set<int>) returns (ok: bool)
      requires Valid() && 0 <= n < |img.kinds| && got0 < img.fs.inodes[n].size && Partway(n, DIRECT + WORDS, got0, before)
      modifies zoneUsed
      ensures Inside(img) ==> ok
      ensures ok ==> forall z: nat :: InRange(img.fs, z) ==> (Has(z) <==> z in before || z in Walk(Raw(img.fs), n, 0, 0))
    {
      hide Entry, Walk, PathZones, Under, Raw, TableWord;
      ghost var s := Raw(img.fs);
      var size := img.fs.inodes[n].size;
      var got := got0;
      RawSize(img.fs, n);
      SlotIs(img.fs, n, 8);
      SlotPath(s, n, 8);
      var dind := img.fs.inodes[n].zone[8];
      if dind == 0 {
        SkipDouble(s, n, got);
        return true;
      }
      UnderDouble(n, 0);
      TablePath(s, n, DIRECT + WORDS, Dind(n, 0));
      DindPath(s, n, 0);
      PathInWalk(s, n, DIRECT + WORDS, got);
      MarkZone(dind);
      if dind >= |img.fs.blocks| {
        assert Inside(img) ==> Entry(s, Slot(n, 8)) < |img.fs.blocks|;
        return false;
      }
      var d := 0;
      ghost var b: nat := DIRECT + WORDS;
      while d < WORDS && got < size
        invariant d <= WORDS && (got < size ==> b == DIRECT + WORDS + WORDS * d)
        invariant Partway(n, b, got, before) && HasAll({dind})
      {
        UnderDouble(n, d);
        DindPath(s, n, d);
        DindWord(img.fs, n, d, dind);
        var ind := Word(img.fs.blocks[dind], d);
        if ind == 0 {
          SkipTable(s, n, b, Dind(n, d), got, {dind});
          b := b + WORDS;
        } else {
          TablePath(s, n, b, Dind(n, d));
          PathInWalk(s, n, b, got);
          MarkZone(ind);
          if ind >= |img.fs.blocks| {
            assert Inside(img) ==> Entry(s, Dind(n, d)) < |img.fs.blocks|;
            return false;
          }
          got, b := WalkTable(n, ind, got, b, Dind(n, d), before);
        }
        d := d + 1;
      }
      WalkOver(s, n, b, got);
      return true;
    }

    /** `block` for a zone of data, and the piece of it that is printed. */
    method PrintZone(z: nat, left: nat) returns (ok: bool, piece: seq<Byte>)
      requires Valid() && left > 0
      ensures ok == (z < |img.fs.blocks|)
      ensures ok ==> piece == img.fs.blocks[z][..Least(left, BLOCK_SIZE)]
    {
      if z >= |img.fs.blocks| {
        return false, [];
      }
      return true, img.fs.blocks[z][..if left < BLOCK_SIZE then left else BLOCK_SIZE];
    }

    /** The words of one table. */
    method DumpTable(n: int, t: nat, out0: seq<Byte>, ghost b0: nat, ghost at: Ref)
      returns (ok: bool, out: seq<Byte>, ghost b: nat)
      requires Valid() && 0 < t < |img.fs.blocks| && t == Entry(Raw(img.fs), at) && 0 <= n < |img.fs.inodes|
      requires |out0| < img.fs.inodes[n].size && Under(n, b0, at) && DIRECT <= b0 && b0 + WORDS <= MAX_BLOCKS
      requires out0 + Dump(Raw(img.fs), n, b0, |out0|) == Dump(Raw(img.fs), n, 0, 0)
      ensures AllInside(img.fs, n) ==> ok
      ensures ok ==> out + Dump(Raw(img.fs), n, b, |out|) == Dump(Raw(img.fs), n, 0, 0)
      ensures ok && |out| < img.fs.inodes[n].size ==> b == b0 + WORDS
    {
      hide Entry, Dump, Under, Raw;
      ghost var s := Raw(img.fs);
      RawSize(img.fs, n);
      var size := img.fs.inodes[n].size;
      var i := 0;
      ok, out, b := true, out0, b0;
      while i < WORDS && |out| < size
        invariant i <= WORDS && b == b0 + i && ok
        invariant out + Dump(s, n, b, |out|) == Dump(s, n, 0, 0)
      {
        WordStep(s, n, b0, at, b, |out|);
        DumpStep(s, n, b, out);
        var z := Word(img.fs.blocks[t], i);
        if z != 0 {
          MapInside(img.fs, n, b);
          var piece;
          ok, piece := PrintZone(z, size - |out|);
          if !ok {
            return;
          }
          out := out + piece;
        }
        i, b := i + 1, b + 1;
      }
    }

    /** The direct blocks. */
    method DumpSlots(n: int) returns (ok: bool, out: seq<Byte>, ghost b: nat)
      requires Valid() && 0 <= n < |img.fs.inodes|
      ensures AllInside(img.fs, n) ==> ok
      ensures ok ==> out + Dump(Raw(img.fs), n, b, |out|) == Dump(Raw(img.fs), n, 0, 0)
      ensures ok && |out| < img.fs.inodes[n].size ==> b == DIRECT
    {
      hide Entry, Dump, Raw, Map;
      ghost var s := Raw(img.fs);
      RawSize(img.fs, n);
      var size := img.fs.inodes[n].size;
      var i := 0;
      ok, out, b := true, [], 0;
      while i < DIRECT && |out| < size
        invariant i == b <= DIRECT && ok
        invariant out + Dump(s, n, b, |out|) == Dump(s, n, 0, 0)
      {
        SlotStep(s, n, b, |out|);
        SlotIs(img.fs, n, i);
        DumpStep(s, n, b, out);
        var z := img.fs.inodes[n].zone[i];
        if z != 0 {
          MapInside(img.fs, n, b);
          var piece;
          ok, piece := PrintZone(z, size - |out|);
          if !ok {
            return;
          }
          out := out + piece;
        }
        i, b := i + 1, b + 1;
      }
    }

    /** The blocks of the single-indirect table, if there is one. */
    method DumpIndirect(n: int, out0: seq<Byte>) returns (ok: bool, out: seq<Byte>, ghost b: nat)
      requires Valid() && 0 <= n < |img.fs.inodes| && |out0| < img.fs.inodes[n].size
      requires out0 + Dump(Raw(img.fs), n, DIRECT, |out0|) == Dump(Raw(img.fs), n, 0, 0)
      ensures AllInside(img.fs, n) ==> ok
      ensures ok ==> out + Dump(Raw(img.fs), n, b, |out|) == Dump(Raw(img.fs), n, 0, 0)
      ensures ok && |out| < img.fs.inodes[n].size ==> b == DIRECT + WORDS
    {
      hide Entry, Dump, Under, Raw, Map;
      ghost var s := Raw(img.fs);
      UnderIndirect(n);
      SlotIs(img.fs, n, 7);
      ok, out, b := true, out0, DIRECT + WORDS;
      var ind := img.fs.inodes[n].zone[7];
      if ind == 0 {
        SkipTable(s, n, DIRECT, Slot(n, 7), |out|, PathZones(s, Slot(n, 7)));
      } else {
        if ind >= |img.fs.blocks| {
          assert AllInside(img.fs, n) ==> Entry(s, Slot(n, 7)) < |img.fs.blocks|;
          return false, out, b;
        }
        ok, out, b := DumpTable(n, ind, out, DIRECT, Slot(n, 7));
      }
    }

    /** The blocks under the double-indirect table, if there is one. */
    method DumpDouble(n: int, out0: seq<Byte>) returns (ok: bool, out: seq<Byte>)
      requires Valid() && 0 <= n < |img.fs.inodes| && |out0| < img.fs.inodes[n].size
      requires out0 + Dump(Raw(img.fs), n, DIRECT + WORDS, |out0|) == Dump(Raw(img.fs), n, 0, 0)
      ensures AllInside(img.fs, n) ==> ok
      ensures ok ==> out == Dump(Raw(img.fs), n, 0, 0)
    {
      hide Entry, Dump, Under, Raw, Map;
      ghost var s := Raw(img.fs);
      RawSize(img.fs, n);
      var size := img.fs.inodes[n].size;
      ghost var b: nat := DIRECT + WORDS;
      ok, out := true, out0;
      SlotIs(img.fs, n, 8);
      var dind := img.fs.inodes[n].zone[8];
      if dind == 0 {
        SkipDouble(s, n, |out|);
        return;
      }
      if dind >= |img.fs.blocks| {
        assert AllInside(img.fs, n) ==> Entry(s, Slot(n, 8)) < |img.fs.blocks|;
        return false, out;
      }
      var d := 0;
      while d < WORDS && |out| < size
        invariant d <= WORDS && (|out| < size ==> b == DIRECT + WORDS + WORDS * d) && ok
        invariant out + Dump(s, n, b, |out|) == Dump(s, n, 0, 0)
      {
        UnderDouble(n, d);
        DindWord(img.fs, n, d, dind);
        var ind := Word(img.fs.blocks[dind], d);
        if ind == 0 {
          SkipTable(s, n, b, Dind(n, d), |out|, PathZones(s, Dind(n, d)));
          b := b + WORDS;
        } else {
          if ind >= |img.fs.blocks| {
            assert AllInside(img.fs, n) ==> Entry(s, Dind(n, d)) < |img.fs.blocks|;
            return false, out;
          }
          ok, out, b := DumpTable(n, ind, out, b, Dind(n, d));
          if !ok {
            return;
          }
        }
        d := d + 1;
      }
      DumpOver(s, n, b, |out|);
    }

    /** `dump_file`: what is written out. */
    method DumpFile(n: int) returns (ok: bool, out: seq<Byte>)
      requires Valid() && 0 <= n < |img.fs.inodes|
      ensures AllInside(img.fs, n) ==> ok
      ensures ok ==> out == Dump(Raw(img.fs), n, 0, 0)
    {
      hide Entry, Dump, Raw, Map;
      RawSize(img.fs, n);
      var size := img.fs.inodes[n].size;
      ghost var b: nat;
      ok, out, b := DumpSlots(n);
      if ok && |out| < size {
        ok, out, b := DumpIndirect(n, out);
      }
      if ok {
        if |out| < size {
          ok, out := DumpDouble(n, out);
        } else {
          DumpOver(Raw(img.fs), n, b, |out|);
        }
      }
    }

    /** `walk_inode_zones`. */
    method WalkInodeZones(n: int) returns (ok: bool)
      requires Valid() && 0 <= n < |img.kinds|
      modifies zoneUsed
      ensures Inside(img) ==> ok
      ensures ok ==> forall z: nat :: InRange(img.fs, z) ==> (Has(z) <==> old(Has(z)) || z in Walk(Raw(img.fs), n, 0, 0))
    {
      hide Walk, Raw;
      ghost var before := Marked();
      ghost var s := Raw(img.fs);
      RawSize(img.fs, n);
      var size := img.fs.inodes[n].size;
      var got: nat;
      ghost var b: nat;
      got, b := WalkSlots(n, before);
      ok := true;
      if got < size {
        ok, got, b := WalkIndirect(n, got, before);
        if !ok {
          return;
        }
      }
      if got < size {
        ok := WalkDouble(n, got, before);
      } else {
        WalkOver(s, n, b, got);
      }
    }

    // ---------- audit_bitmaps ----------

    /** Inode bitmap against inode table. */
    method AuditInodes()
      requires Valid()
      modifies this`errors
      ensures errors >= old(errors)
      ensures errors == old(errors) <==> forall n :: 1 <= n < |img.kinds| ==> (InodeUsed(img, n) <==> img.kinds[n] != Free)
    {
      var i := 1;
      while i < |img.kinds|
        invariant 1 <= i && errors >= old(errors)
        invariant errors == old(errors) <==> forall n :: 1 <= n < i && n < |img.kinds| ==> (InodeUsed(img, n) <==> img.kinds[n] != Free)
      {
        var used, present := InodeUsed(img, i), img.kinds[i] != Free;
        if used && !present {
          errors := errors + 1;
        }
        if !used && present {
          errors := errors + 1;
        }
        i := i + 1;
      }
    }

    /** The walks of all inodes that are present. */
    method WalkAll() returns (ok: bool)
      requires Valid() && forall z :: !Has(z)
      modifies zoneUsed
      ensures Inside(img) ==> ok
      ensures ok ==> forall z: nat :: InRange(img.fs, z) ==> (Has(z) <==> Reached(img, z))
    {
      hide Walk, Raw, Inside;
      var i := 1;
      ok := true;
      while i < |img.kinds|
        invariant 1 <= i && ok
        invariant forall z: nat :: InRange(img.fs, z) ==> (Has(z) <==> ReachedBefore(img, z, i))
      {
        if img.kinds[i] != Free {
          ok := WalkInodeZones(i);
          if !ok {
            return;
          }
        }
        i := i + 1;
      }
    }

    /** Zone bitmap against what was reached. */
    method AuditZones()
      requires Valid()
      modifies this`errors
      ensures errors >= old(errors)
      ensures errors == old(errors) <==> forall z: nat :: InRange(img.fs, z) ==> (Used(img.fs, z) <==> Has(z))
    {
      var z := img.fs.first;
      while z < img.fs.nzones
        invariant img.fs.first <= z <= img.fs.nzones && errors >= old(errors)
        invariant errors == old(errors) <==> forall y: nat :: img.fs.first <= y < z ==> (Used(img.fs, y) <==> Has(y))
      {
        var bit := z - (img.fs.first - 1);
        var mapped, walked := img.fs.zmap[bit], zoneUsed[bit];
        assert mapped == Used(img.fs, z) && walked == Has(z);
        if mapped && !walked {
          errors := errors + 1;
        }
        if !mapped && walked {
          errors := errors + 1;
        }
        z := z + 1;
      }
    }

    /** The entries of one directory block, the one in slot `pass`. */
    method AuditBlock(n: int, pass: nat, z: nat, got0: nat) returns (got: nat)
      requires Valid() && 1 <= n < |img.kinds| && pass < DIRECT && 0 < z < |img.fs.blocks| && z == SlotZone(Raw(img.fs), n, pass)
      requires got0 == BLOCK_SIZE * Before(Raw(img.fs), n, pass) < img.fs.inodes[n].size
      modifies this`errors
      ensures errors >= old(errors)
      ensures errors == old(errors) <==> forall j: nat :: j < SLOTS ==> EntryClean(img, n, pass, j)
      ensures got <= got0 + BLOCK_SIZE && (got < img.fs.inodes[n].size ==> got == got0 + BLOCK_SIZE)
    {
      hide Before, Raw, InodeUsed;
      RawSize(img.fs, n);
      var size := img.fs.inodes[n].size;
      var j := 0;
      got := got0;
      while j < SLOTS && got < size
        invariant j <= SLOTS && errors >= old(errors) && got == got0 + DIRENT * j
        invariant errors == old(errors) <==> forall k: nat :: k < j ==> EntryClean(img, n, pass, k)
      {
        var ino := Word(img.fs.blocks[z], DIRENT / 2 * j);
        assert EntryClean(img, n, pass, j) <==> ino == 0 || InodeUsed(img, ino);
        if ino != 0 && !InodeUsed(img, ino) {
          errors := errors + 1;
        }
        got := got + DIRENT;
        j := j + 1;
      }
    }

    /** Every entry of every directory; the message differs for a number past the last inode. */
    method AuditDir(n: int) returns (ok: bool)
      requires Valid() && 1 <= n < |img.kinds| && img.kinds[n] == Dir
      modifies this`errors
      ensures errors >= old(errors) && (Inside(img) ==> ok)
      ensures ok ==> (errors == old(errors) <==> EntriesClean(img, n))
    {
      hide EntryClean, Raw;
      ghost var s := Raw(img.fs);
      RawSize(img.fs, n);
      var size := img.fs.inodes[n].size;
      var pass, got := 0, 0;
      ok := true;
      while pass < DIRECT && got < size
        invariant pass <= DIRECT && errors >= old(errors) && ok
        invariant got <= BLOCK_SIZE * Before(s, n, pass) && (got < size ==> got == BLOCK_SIZE * Before(s, n, pass))
        invariant errors == old(errors) <==> forall q: nat :: q < pass ==> BlockClean(img, n, q)
      {
        SlotIs(img.fs, n, pass);
        RawSlot(img.fs, n, pass);
        var z := img.fs.inodes[n].zone[pass];
        if z != 0 {
          if z >= |img.fs.blocks| {
            assert Inside(img) ==> Entry(s, Slot(n, pass)) < |img.fs.blocks|;
            return false;
          }
          ghost var before := errors;
          got := AuditBlock(n, pass, z, got);
          assert errors == before <==> BlockClean(img, n, pass);
        } else {
          NoBlock(img, n, pass);
        }
        assert errors == old(errors) <==> (forall q: nat :: q < pass ==> BlockClean(img, n, q)) && BlockClean(img, n, pass);
        pass := pass + 1;
      }
      RestClean(img, n, pass, got);
    }

    /** `audit_bitmaps` counts no error exactly when the image is clean. */
    method AuditBitmaps() returns (ok: bool)
      requires Valid() && forall z :: !Has(z)
      modifies this`errors, zoneUsed
      ensures Inside(img) ==> ok
      ensures ok ==> (errors == old(errors) <==> Clean(img))
    {
      hide Inside, EntriesClean, Raw, Used, InodeUsed, Reached;
      AuditInodes();
      ok := WalkAll();
      if !ok {
        return;
      }
      AuditZones();
      ghost var before := errors;
      var i := 1;
      while i < |img.kinds|
        invariant 1 <= i && errors >= before && ok
        invariant errors == before <==> forall n :: 1 <= n < i && n < |img.kinds| && img.kinds[n] == Dir ==> EntriesClean(img, n)
      {
        if img.kinds[i] == Dir {
          ok := AuditDir(i);
          if !ok {
            return;
          }
        }
        i := i + 1;
      }
    }
  }

  lemma SlotIs(s: Fs, n: int, k: nat)
    requires 0 <= n < |s.inodes| && k < |s.inodes[n].zone|
    ensures Entry(Raw(s), Slot(n, k)) == s.inodes[n].zone[k]
  {
  }

  lemma RawSize(s: Fs, n: int)
    requires 0 <= n < |s.inodes|
    ensures Size(Raw(s), n) == s.inodes[n].size && Raw(s).blocks == s.blocks
  {
  }

  lemma RawBlocks(s: Fs, n: int)
    ensures Raw(s).blocks == s.blocks
  {
  }

  lemma DindWord(s: Fs, n: int, d: nat, dind: nat)
    requires Shape(s) && 0 < dind < |s.blocks| && dind == Entry(Raw(s), Slot(n, 8)) && d < WORDS
    ensures Entry(Raw(s), Dind(n, d)) == Word(s.blocks[dind], d)
  {
    hide Entry;
    TableIsParent(Raw(s), Dind(n, d));
  }

  /** Every zone the inode names is inside the partition. */
  ghost predicate AllInside(s: Fs, n: int) {
    forall q: Ref :: q.n == n ==> Entry(Raw(s), q) < |s.blocks|
  }

  lemma MapInside(s: Fs, n: int, b: nat)
    ensures AllInside(s, n) ==> Map(Raw(s), n, b) < |s.blocks|
  {
    BlockRefInode(n, b);
    hide Entry, BlockRef;
  }

  lemma DumpStep(s: Fs, n: int, b: nat, out: seq<Byte>)
    requires b < MAX_BLOCKS && |out| < Size(s, n) && out + Dump(s, n, b, |out|) == Dump(s, n, 0, 0)
    requires forall z :: 0 <= z < |s.blocks| ==> |s.blocks[z]| == BLOCK_SIZE
    ensures var z := Map(s, n, b);
      && (z == 0 ==> out + Dump(s, n, b + 1, |out|) == Dump(s, n, 0, 0))
      && (0 < z < |s.blocks| ==>
            var piece := s.blocks[z][..Least(Size(s, n) - |out|, BLOCK_SIZE)];
            out + piece + Dump(s, n, b + 1, |out + piece|) == Dump(s, n, 0, 0))
  {
    hide Map;
    var z := Map(s, n, b);
    if 0 < z < |s.blocks| {
      var piece := s.blocks[z][..Least(Size(s, n) - |out|, BLOCK_SIZE)];
      var rest := Dump(s, n, b + 1, |out| + |piece|);
      assert out + piece + rest == out + (piece + rest);
    }
  }

  /** Zone `z` is reached from one of the inodes below `i`. */
  ghost predicate ReachedBefore(img: Img, z: nat, i: int) {
    exists n :: 1 <= n < i && n < |img.kinds| && img.kinds[n] != Free && z in Walk(Raw(img.fs), n, 0, 0)
  }

  predicate EntryClean(img: Img, n: int, pass: nat, j: nat) {
    Looked(Raw(img.fs), n, pass, j) ==>
      Target(Raw(img.fs), n, pass, j) == 0 || InodeUsed(img, Target(Raw(img.fs), n, pass, j))
  }

  predicate BlockClean(img: Img, n: int, pass: nat) {
    forall j: nat :: j < SLOTS ==> EntryClean(img, n, pass, j)
  }

  lemma RawSlot(s: Fs, n: int, k: nat)
    requires 0 <= n < |s.inodes| && k < |s.inodes[n].zone|
    ensures SlotZone(Raw(s), n, k) == s.inodes[n].zone[k]
  {
  }

  lemma NoBlock(img: Img, n: int, pass: nat)
    requires SlotZone(Raw(img.fs), n, pass) == 0
    ensures BlockClean(img, n, pass)
  {
  }

  lemma {:induction false} BeforeGrows(s: Fs, n: int, p: nat, q: nat)
    requires p <= q
    ensures Before(s, n, p) <= Before(s, n, q)
    decreases q - p
  {
    if p < q {
      BeforeGrows(s, n, p, q - 1);
    }
  }

  /** Past the size nothing is looked at. */
  lemma RestClean(img: Img, n: int, pass: nat, got: nat)
    requires pass >= DIRECT || got >= Size(Raw(img.fs), n)
    requires got <= BLOCK_SIZE * Before(Raw(img.fs), n, pass)
    ensures EntriesClean(img, n) <==> forall q: nat :: q < pass && q < DIRECT ==> BlockClean(img, n, q)
  {
    hide Raw, Before;
    forall q: nat | pass <= q < DIRECT
      ensures BlockClean(img, n, q)
    {
      BeforeGrows(Raw(img.fs), n, pass, q);
    }
    hide Looked, Target, InodeUsed;
    if EntriesClean(img, n) {
      forall q: nat | q < DIRECT
        ensures BlockClean(img, n, q)
      {
      }
    }
    if forall q: nat :: q < pass && q < DIRECT ==> BlockClean(img, n, q) {
      forall q: nat, j: nat | q < DIRECT && j < SLOTS && Looked(Raw(img.fs), n, q, j)
        ensures Target(Raw(img.fs), n, q, j) == 0 || InodeUsed(img, Target(Raw(img.fs), n, q, j))
      {
        assert BlockClean(img, n, q);
        assert EntryClean(img, n, q, j);
      }
    }
  }
}
