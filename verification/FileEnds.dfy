/** No file that the kernel writes has a block past its end, so the inspector's account of
    `ImageAudit` holds of files that kernel and image builder have both worked on. */
module FileEnds {
  import opened ZoneTree
  import opened FileBytes
  import opened ImageZones
  import opened ImageBuild
  import opened ImageAudit

  /** Nothing is mapped at block `c` of any file that ends before it. */
  ghost predicate EndsBefore(s: Fs, n: int, c: int)
    requires 0 <= n < |s.inodes|
  {
    Blocks(s.inodes[n].size) <= c < MAX_BLOCKS ==> Map(s, n, c) == 0
  }

  ghost predicate AllEnd(s: Fs) {
    forall n, c :: File(s, n) ==> EndsBefore(s, n, c)
  }

  lemma BlocksGrow(a: nat, b: nat)
    requires a <= b
    ensures Blocks(a) <= Blocks(b)
  {
  }

  lemma BlockReached(pos: nat, size: nat)
    requires pos < size
    ensures pos / BLOCK_SIZE < Blocks(size)
  {
  }

  // ---------- one turn of the write loop ----------

  /** Storing bytes in a block that is there moves no zone. */
  lemma PutMaps(s: Fs, owner: map<int, Ref>, n: int, z: nat, pos: nat, bytes: seq<Byte>)
    requires Good(s, owner) && File(s, n) && pos < MAX_BYTES && bytes != []
    requires z != 0 && Map(s, n, pos / BLOCK_SIZE) == z && pos % BLOCK_SIZE + |bytes| <= BLOCK_SIZE
    ensures var t := PutPiece(s, n, z, pos, bytes);
      && |t.inodes| == |s.inodes|
      && (forall m, c :: Map(t, m, c) == Map(s, m, c))
      && (forall m :: 0 <= m < |s.inodes| ==> t.inodes[m].owns == s.inodes[m].owns)
      && (forall m :: 0 <= m < |s.inodes| ==>
            t.inodes[m].size == if m == n then Grows(s.inodes[m].size, pos, bytes) else s.inodes[m].size)
  {
    var t := PutPiece(s, n, z, pos, bytes);
    Offsets(pos);
    BlockRefs(s, n, pos / BLOCK_SIZE, n, pos / BLOCK_SIZE);
    assert z in owner && owner[z] == BlockRef(n, pos / BLOCK_SIZE);
    hide Entry, BlockRef;
    forall m, c
      ensures Map(t, m, c) == Map(s, m, c)
    {
      DataIsNoTable(s, owner, t, z, BlockRef(m, c));
    }
  }

  /** The turn as a whole: the block is created if need be, and the file then reaches it. */
  lemma TurnEnds(s: Fs, owner: map<int, Ref>, n: int, pos: nat, bytes: seq<Byte>) returns (o: map<int, Ref>)
    requires Good(s, owner) && AllEnd(s) && File(s, n) && bytes != [] && pos + |bytes| <= MAX_BYTES
    requires pos % BLOCK_SIZE + |bytes| <= BLOCK_SIZE
    ensures var (a, z) := Create(s, BlockRef(n, pos / BLOCK_SIZE));
      && (z == 0 ==> AllEnd(a))
      && (z != 0 ==> var b := PutPiece(a, n, z, pos, bytes); Good(b, o) && AllEnd(b) && File(b, n))
  {
    hide Entry, BlockRef, Create, Map, Good, PutPiece;
    var k := pos / BLOCK_SIZE;
    Offsets(pos);
    o := CreateMaps(s, owner, n, k);
    var (a, z) := Create(s, BlockRef(n, k));
    Reached(s, owner, n, k, a, o, z);
    if z == 0 {
      forall m, c | File(a, m)
        ensures EndsBefore(a, m, c)
      {
        assert File(s, m) && EndsBefore(s, m, c);
      }
    } else {
      PutMaps(a, o, n, z, pos, bytes);
      PutStores(a, o, n, z, pos, bytes);
      var b := PutPiece(a, n, z, pos, bytes);
      forall m, c | File(b, m)
        ensures EndsBefore(b, m, c)
      {
        assert File(s, m) && EndsBefore(s, m, c);
        BlocksGrow(s.inodes[m].size, b.inodes[m].size);
        BlockReached(pos, Grows(s.inodes[n].size, pos, bytes));
      }
    }
  }

  /** What creating a block leaves alone. */
  lemma Reached(s: Fs, owner: map<int, Ref>, n: int, k: int, a: Fs, o: map<int, Ref>, z: nat)
    requires Created(s, owner, BlockRef(n, k), a, o, z)
    ensures Good(a, o) && |a.inodes| == |s.inodes|
    ensures forall m :: 0 <= m < |s.inodes| ==> a.inodes[m].owns == s.inodes[m].owns && a.inodes[m].size == s.inodes[m].size
  {
  }

  // ---------- whole calls and whole runs ----------

  lemma {:induction false} WriteEnds(s: Fs, owner: map<int, Ref>, n: int, pos: nat, bytes: seq<Byte>)
    requires Good(s, owner) && AllEnd(s) && File(s, n) && pos + |bytes| <= MAX_BYTES
    ensures AllEnd(FileWrite(s, n, pos, bytes).0)
    decreases |bytes|
  {
    hide Good, AllEnd, Create, PutPiece, BlockRef, Map;
    if bytes != [] {
      var c := Chunk(pos, |bytes|);
      var o := TurnEnds(s, owner, n, pos, bytes[..c]);
      var (a, z) := Create(s, BlockRef(n, pos / BLOCK_SIZE));
      if z != 0 {
        WriteEnds(PutPiece(a, n, z, pos, bytes[..c]), o, n, pos + c, bytes[c..]);
      }
    }
  }

  lemma TruncatedEnds(s: Fs, owner: map<int, Ref>, n: int)
    requires Good(s, owner) && AllEnd(s) && File(s, n)
    ensures AllEnd(Truncated(s, n))
  {
    hide Entry, BlockRef;
    TruncateWorks(s, owner, n);
    var t := Truncated(s, n);
    forall m, c | File(t, m)
      ensures EndsBefore(t, m, c)
    {
      assert File(s, m) && EndsBefore(s, m, c);
      if 0 <= c < MAX_BLOCKS {
        BlockRefs(s, m, c, m, c);
      }
    }
  }

  lemma StepEnds(s: Fs, owner: map<int, Ref>, o: Op)
    requires Good(s, owner) && AllEnd(s) && Allowed(s, o)
    ensures AllEnd(Apply(s, o).0)
  {
    hide Good, AllEnd, FileWrite, Truncated;
    match o
    case WriteAt(n, pos, bytes) => WriteEnds(s, owner, n, pos, bytes);
    case Append(n, bytes) => WriteEnds(s, owner, n, s.inodes[n].size, bytes);
    case Trunc(n) => TruncatedEnds(s, owner, n);
  }

  /** No run of writes, appends and truncations leaves a block past the end of any file, even
      where the volume fills up in the middle of a write. */
  lemma {:induction false} RunEnds(s: Fs, owner: map<int, Ref>, os: seq<Op>)
    requires Good(s, owner) && Tidy(s) && AllEnd(s) && AllAllowed(s, os)
    ensures AllEnd(Run(s, os))
    decreases |os|
  {
    hide Good, Tidy, AllEnd, Apply, Files, Ideal;
    if os != [] {
      StepEnds(s, owner, os[0]);
      var w := StepRefines(s, owner, os[0]);
      RunEnds(Apply(s, os[0]).0, w, os[1..]);
    }
  }

  // ---------- what the inspector prints afterwards ----------

  ghost predicate NoHole(s: Fs, n: int)
    requires 0 <= n < |s.inodes|
  {
    forall c :: 0 <= c < Blocks(s.inodes[n].size) ==> Map(s, n, c) != 0
  }

  /** After any such run the inspector prints a file as it is exactly when the file has no hole. */
  lemma KernelFilesPrint(s: Fs, owner: map<int, Ref>, os: seq<Op>, n: int)
    requires Good(s, owner) && Tidy(s) && AllEnd(s) && AllAllowed(s, os) && File(Run(s, os), n)
    ensures var t := Run(s, os);
      Dump(Raw(t), n, 0, 0) == Contents(t, n) <==> NoHole(t, n)
  {
    hide Run, Good, Map, Dump, Contents;
    var t := Run(s, os);
    RunEnds(s, owner, os);
    var w := RunRefines(s, owner, os);
    forall c | Blocks(Size(t, n)) <= c < MAX_BLOCKS
      ensures Map(t, n, c) == 0
    {
      assert EndsBefore(t, n, c);
    }
    DumpIsExact(t, w, n);
    RawDump(t, n, 0, 0);
  }

  /** An image as it was built is such a volume to start from. */
  lemma BuiltEnds(img: Img, owner: map<int, Ref>)
    requires Built(img, owner)
    ensures Good(img.fs, owner) && Tidy(img.fs) && AllEnd(img.fs)
  {
    hide Entry, Contents;
    var s := img.fs;
    forall n, c | File(s, n)
      ensures EndsBefore(s, n, c)
    {
      assert Node(img, n);
      if Blocks(s.inodes[n].size) <= c < MAX_BLOCKS {
        PastDue(n, c, Blocks(s.inodes[n].size));
      }
    }
  }

  lemma PastDue(n: int, c: nat, d: nat)
    requires d <= c < MAX_BLOCKS
    ensures !Due(BlockRef(n, c), d) && BlockRef(n, c).n == n
  {
  }
}
