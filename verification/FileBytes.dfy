/** Files as bytes: `file_read` and `file_write` of fs/file_dev.c over the zones of `ZoneTree`,
    and the program loader's `read_area` of fs/exec.c. */
module FileBytes {
  import opened ZoneTree

  const MAX_BYTES: nat := 268966912 // MAX_BLOCKS * BLOCK_SIZE

  // ---------- a file as an endless array of bytes ----------

  function BlockByte(s: Fs, z: int, k: int): Byte {
    if 0 < z < |s.blocks| && 0 <= k < |s.blocks[z]| then s.blocks[z][k] else 0
  }

  /** The byte of inode `n` at offset `p`; zero where there is no zone. */
  function ByteAt(s: Fs, n: int, p: int): Byte {
    if 0 <= p < MAX_BYTES then BlockByte(s, Map(s, n, p / BLOCK_SIZE), p % BLOCK_SIZE) else 0
  }

  lemma Offsets(p: int)
    requires 0 <= p < MAX_BYTES
    ensures 0 <= p / BLOCK_SIZE < MAX_BLOCKS && p == p / BLOCK_SIZE * BLOCK_SIZE + p % BLOCK_SIZE
  {
  }

  // ---------- file_read ----------

  function Chunk(pos: nat, left: nat): nat {
    if BLOCK_SIZE - pos % BLOCK_SIZE < left then BLOCK_SIZE - pos % BLOCK_SIZE else left
  }

  /** What one turn of the loop copies out. */
  function Piece(s: Fs, n: int, pos: nat, c: nat): (r: seq<Byte>)
    ensures |r| == c
  {
    seq<Byte>(c, k => BlockByte(s, Map(s, n, pos / BLOCK_SIZE), pos % BLOCK_SIZE + k))
  }

  /** `file_read`: the bytes handed to the caller. */
  function FileRead(s: Fs, n: int, pos: nat, count: nat): seq<Byte>
    decreases count
  {
    if count == 0 then []
    else Piece(s, n, pos, Chunk(pos, count)) + FileRead(s, n, pos + Chunk(pos, count), count - Chunk(pos, count))
  }

  lemma {:induction false} ReadIs(s: Fs, n: int, pos: nat, count: nat)
    requires pos + count <= MAX_BYTES
    ensures |FileRead(s, n, pos, count)| == count
    ensures forall k :: 0 <= k < count ==> FileRead(s, n, pos, count)[k] == ByteAt(s, n, pos + k)
    decreases count
  {
    hide BlockByte, Map;
    if count > 0 {
      var c := Chunk(pos, count);
      ReadIs(s, n, pos + c, count - c);
      forall k | 0 <= k < count
        ensures FileRead(s, n, pos, count)[k] == ByteAt(s, n, pos + k)
      {
        if k < c {
          SameBlock(pos, k);
        } else {
          assert pos + k == (pos + c) + (k - c);
          assert FileRead(s, n, pos, count)[k] == FileRead(s, n, pos + c, count - c)[k - c];
        }
      }
    }
  }

  lemma SameBlock(pos: nat, k: nat)
    requires pos % BLOCK_SIZE + k < BLOCK_SIZE
    ensures (pos + k) / BLOCK_SIZE == pos / BLOCK_SIZE && (pos + k) % BLOCK_SIZE == pos % BLOCK_SIZE + k
  {
  }

  // ---------- file_write ----------

  function Spliced(b: seq<Byte>, at: nat, bytes: seq<Byte>): (r: seq<Byte>)
    requires at + |bytes| <= |b|
    ensures |r| == |b|
    ensures forall k :: 0 <= k < |b| ==> r[k] == if at <= k < at + |bytes| then bytes[k - at] else b[k]
  {
    b[..at] + bytes + b[at + |bytes|..]
  }

  /** One turn of the loop, once the block is there: the bytes go in, and the size grows if
      they end past it. */
  function PutPiece(s: Fs, n: int, z: nat, pos: nat, bytes: seq<Byte>): Fs {
    if !(0 <= n < |s.inodes| && z < |s.blocks| && pos % BLOCK_SIZE + |bytes| <= |s.blocks[z]|) then s
    else
      var size := s.inodes[n].size;
      s.(blocks := s.blocks[z := Spliced(s.blocks[z], pos % BLOCK_SIZE, bytes)],
         inodes := s.inodes[n := s.inodes[n].(size := if pos + |bytes| > size then pos + |bytes| else size)])
  }

  /** `file_write` from offset `pos`: the volume afterwards and how many bytes were taken. */
  function FileWrite(s: Fs, n: int, pos: nat, bytes: seq<Byte>): (Fs, nat)
    decreases |bytes|
  {
    if bytes == [] then (s, 0)
    else
      var (a, z) := Create(s, BlockRef(n, pos / BLOCK_SIZE));
      if z == 0 then (a, 0)
      else
        var c := Chunk(pos, |bytes|);
        var (t, i) := FileWrite(PutPiece(a, n, z, pos, bytes[..c]), n, pos + c, bytes[c..]);
        (t, c + i)
  }

  predicate File(s: Fs, n: int) {
    0 <= n < |s.inodes| && s.inodes[n].owns
  }

  function Grows(size: nat, pos: nat, bytes: seq<Byte>): nat {
    if bytes != [] && pos + |bytes| > size then pos + |bytes| else size
  }

  /** `t` is `s` with `bytes` written into file `n` at `pos`, byte for byte and nothing else. */
  ghost predicate Stored(s: Fs, n: int, pos: nat, bytes: seq<Byte>, t: Fs) {
    && |t.inodes| == |s.inodes| && t.first == s.first && t.nzones == s.nzones
    && (forall m, p :: ByteAt(t, m, p) == if m == n && pos <= p < pos + |bytes| then bytes[p - pos] else ByteAt(s, m, p))
    && (forall m :: 0 <= m < |s.inodes| ==> t.inodes[m].owns == s.inodes[m].owns)
    && (forall m :: 0 <= m < |s.inodes| ==> t.inodes[m].size == if m == n then Grows(s.inodes[m].size, pos, bytes) else s.inodes[m].size)
  }

  /** Creating a block changes no byte of any file. */
  lemma CreateStores(s: Fs, owner: map<int, Ref>, n: int, pos: nat) returns (o: map<int, Ref>)
    requires Good(s, owner) && File(s, n) && pos < MAX_BYTES
    ensures var (t, z) := Create(s, BlockRef(n, pos / BLOCK_SIZE));
      && Good(t, o) && Stored(s, n, pos, [], t) && (z == 0 ==> Full(t)) && Map(t, n, pos / BLOCK_SIZE) == z
  {
    hide Entry, BlockRef, Create, ByteAt, Map;
    Offsets(pos);
    var b := pos / BLOCK_SIZE;
    o := CreateMaps(s, owner, n, b);
    var (t, z) := Create(s, BlockRef(n, b));
    assert Map(t, n, b) == z;
    forall m, p
      ensures ByteAt(t, m, p) == ByteAt(s, m, p)
    {
      CreatedByte(s, owner, n, b, t, o, z, m, p);
    }
  }

  lemma CreatedByte(s: Fs, owner: map<int, Ref>, n: int, b: int, t: Fs, o: map<int, Ref>, z: nat, m: int, p: int)
    requires Good(s, owner) && 0 <= b < MAX_BLOCKS && Created(s, owner, BlockRef(n, b), t, o, z)
    requires forall m, c :: 0 <= c < MAX_BLOCKS ==> Map(t, m, c) == if m == n && c == b then z else Map(s, m, c)
    ensures ByteAt(t, m, p) == ByteAt(s, m, p)
  {
    if 0 <= p < MAX_BYTES {
      Offsets(p);
      var c := p / BLOCK_SIZE;
      BlockRefs(s, m, c, n, b);
      hide Entry, BlockRef;
      if Map(s, m, c) != 0 {
        assert Map(s, m, c) in owner && owner[Map(s, m, c)] == BlockRef(m, c);
      } else if Map(t, m, c) != 0 {
        assert t.blocks[z] == ZeroBlock();
      }
    }
  }

  /** Overwriting a data block leaves every table entry as it was. */
  lemma {:induction false} DataIsNoTable(s: Fs, owner: map<int, Ref>, t: Fs, z: nat, q: Ref)
    requires Good(s, owner) && z in owner && !IsTable(owner[z])
    requires |t.inodes| == |s.inodes| && |t.blocks| == |s.blocks| && t.nzones == s.nzones
    requires forall m :: 0 <= m < |s.inodes| ==> t.inodes[m].owns == s.inodes[m].owns && t.inodes[m].zone == s.inodes[m].zone
    requires forall y :: 0 <= y < |s.blocks| && y != z ==> t.blocks[y] == s.blocks[y]
    ensures Entry(t, q) == Entry(s, q)
    decreases Depth(q)
  {
    if !q.Slot? {
      DataIsNoTable(s, owner, t, z, Parent(q));
      TableIsParent(s, q);
      TableIsParent(t, q);
      hide Entry, TableZone;
      assert Entry(s, Parent(q)) != z;
    }
  }

  lemma PutStores(s: Fs, owner: map<int, Ref>, n: int, z: nat, pos: nat, bytes: seq<Byte>)
    requires Good(s, owner) && File(s, n) && pos < MAX_BYTES && bytes != []
    requires z != 0 && Map(s, n, pos / BLOCK_SIZE) == z && pos % BLOCK_SIZE + |bytes| <= BLOCK_SIZE
    ensures var t := PutPiece(s, n, z, pos, bytes); Good(t, owner) && Stored(s, n, pos, bytes, t)
  {
    var t := PutPiece(s, n, z, pos, bytes);
    var b := pos / BLOCK_SIZE;
    Offsets(pos);
    BlockRefs(s, n, b, n, b);
    assert z in owner && owner[z] == BlockRef(n, b);
    forall q
      ensures Entry(t, q) == Entry(s, q)
    {
      DataIsNoTable(s, owner, t, z, q);
    }
    SameBits(s, t);
    hide Entry, BlockRef, Used;
    forall m, p
      ensures ByteAt(t, m, p) == if m == n && pos <= p < pos + |bytes| then bytes[p - pos] else ByteAt(s, m, p)
    {
      PutByte(s, owner, n, z, pos, bytes, m, p);
    }
  }

  lemma PutByte(s: Fs, owner: map<int, Ref>, n: int, z: nat, pos: nat, bytes: seq<Byte>, m: int, p: int)
    requires Good(s, owner) && File(s, n) && 0 < z < |s.blocks|
    requires pos < MAX_BYTES && Map(s, n, pos / BLOCK_SIZE) == z && pos % BLOCK_SIZE + |bytes| <= BLOCK_SIZE
    requires forall q :: Entry(PutPiece(s, n, z, pos, bytes), q) == Entry(s, q)
    ensures ByteAt(PutPiece(s, n, z, pos, bytes), m, p)
         == if m == n && pos <= p < pos + |bytes| then bytes[p - pos] else ByteAt(s, m, p)
  {
    hide Entry, BlockRef;
    Offsets(pos);
    if 0 <= p < MAX_BYTES {
      Offsets(p);
      BlockRefs(s, m, p / BLOCK_SIZE, n, pos / BLOCK_SIZE);
      if pos <= p < pos + |bytes| {
        SameBlock(pos, p - pos);
      }
    }
  }

  lemma StoredThen(s: Fs, n: int, pos: nat, bytes: seq<Byte>, c: nat, i: nat, b: Fs, t: Fs)
    requires c <= |bytes| && i <= |bytes| - c && (c == 0 ==> i == 0)
    requires Stored(s, n, pos, bytes[..c], b) && Stored(b, n, pos + c, bytes[c..][..i], t)
    ensures Stored(s, n, pos, bytes[..c + i], t)
  {
    hide ByteAt;
    forall m, p
      ensures ByteAt(t, m, p)
           == if m == n && pos <= p < pos + |bytes[..c + i]| then bytes[..c + i][p - pos] else ByteAt(s, m, p)
    {
      if m == n && pos + c <= p < pos + c + i {
        assert bytes[c..][..i][p - pos - c] == bytes[p - pos];
      }
    }
  }

  /** `file_write` stores exactly the prefix of the bytes that it reports, changes no other
      byte of any file, keeps every zone accounted for, and stops short only when the volume
      is full. */
  lemma {:induction false} WriteWorks(s: Fs, owner: map<int, Ref>, n: int, pos: nat, bytes: seq<Byte>)
    returns (o: map<int, Ref>)
    requires Good(s, owner) && File(s, n) && pos + |bytes| <= MAX_BYTES
    ensures var (t, i) := FileWrite(s, n, pos, bytes);
      i <= |bytes| && Good(t, o) && Stored(s, n, pos, bytes[..i], t) && (i < |bytes| ==> Full(t))
    decreases |bytes|
  {
    hide ByteAt, Good, Create, PutPiece, Map, BlockRef, Full, Stored;
    assert bytes[..0] == [];
    if bytes == [] {
      o := owner;
      StoredNothing(s, n, pos);
    } else {
      o := CreateStores(s, owner, n, pos);
      var (a, z) := Create(s, BlockRef(n, pos / BLOCK_SIZE));
      if z != 0 {
        var c := Chunk(pos, |bytes|);
        var b := PutPiece(a, n, z, pos, bytes[..c]);
        StoredFile(s, n, pos, [], a);
        PutStores(a, o, n, z, pos, bytes[..c]);
        StoredFile(a, n, pos, bytes[..c], b);
        WrittenFrom(s, n, pos, bytes[..c], a, b);
        o := WriteWorks(b, o, n, pos + c, bytes[c..]);
        var (t, i) := FileWrite(b, n, pos + c, bytes[c..]);
        StoredThen(s, n, pos, bytes, c, i, b, t);
      }
    }
  }

  lemma StoredNothing(s: Fs, n: int, pos: nat)
    ensures Stored(s, n, pos, [], s)
  {
    hide ByteAt;
  }

  lemma StoredFile(s: Fs, n: int, pos: nat, bytes: seq<Byte>, t: Fs)
    requires Stored(s, n, pos, bytes, t)
    ensures File(t, n) == File(s, n)
  {
    hide ByteAt;
  }

  lemma WrittenFrom(s: Fs, n: int, pos: nat, bytes: seq<Byte>, a: Fs, b: Fs)
    requires Stored(s, n, pos, [], a) && Stored(a, n, pos, bytes, b)
    ensures Stored(s, n, pos, bytes, b)
  {
    hide ByteAt;
  }

  // ---------- files as byte sequences ----------

  function Contents(s: Fs, n: int): (c: seq<Byte>)
    requires 0 <= n < |s.inodes|
    ensures |c| == s.inodes[n].size
  {
    seq<Byte>(s.inodes[n].size, p => ByteAt(s, n, p))
  }

  /** No file is longer than its zones can be, and nothing is left over past its end. */
  ghost predicate Tidy(s: Fs) {
    && (forall n :: File(s, n) ==> s.inodes[n].size <= MAX_BYTES)
    && (forall n, p :: File(s, n) && p >= s.inodes[n].size ==> ByteAt(s, n, p) == 0)
  }

  /** Writing into a byte sequence; a gap past the end is filled with zeros. */
  function Overlay(c: seq<Byte>, pos: nat, b: seq<Byte>): (r: seq<Byte>)
    ensures |r| == Grows(|c|, pos, b)
  {
    if b == [] then c
    else seq<Byte>(Grows(|c|, pos, b),
                   k requires k >= 0 => if pos <= k < pos + |b| then b[k - pos] else if k < |c| then c[k] else 0)
  }

  lemma StoredContents(s: Fs, n: int, pos: nat, b: seq<Byte>, t: Fs)
    requires Stored(s, n, pos, b, t) && Tidy(s) && File(s, n) && pos + |b| <= MAX_BYTES
    ensures Tidy(t) && Contents(t, n) == Overlay(Contents(s, n), pos, b)
    ensures forall m :: 0 <= m < |s.inodes| && m != n ==> Contents(t, m) == Contents(s, m)
  {
    hide ByteAt, Contents, Overlay;
    StoredTidy(s, n, pos, b, t);
    StoredOver(s, n, pos, b, t);
    forall m | 0 <= m < |s.inodes| && m != n
      ensures Contents(t, m) == Contents(s, m)
    {
      StoredElsewhere(s, n, pos, b, t, m);
    }
  }

  lemma StoredTidy(s: Fs, n: int, pos: nat, b: seq<Byte>, t: Fs)
    requires Stored(s, n, pos, b, t) && Tidy(s) && File(s, n) && pos + |b| <= MAX_BYTES
    ensures Tidy(t) && File(t, n) && |t.inodes| == |s.inodes|
  {
    hide ByteAt;
  }

  lemma StoredOver(s: Fs, n: int, pos: nat, b: seq<Byte>, t: Fs)
    requires Stored(s, n, pos, b, t) && Tidy(s) && File(s, n) && File(t, n)
    ensures Contents(t, n) == Overlay(Contents(s, n), pos, b)
  {
    hide ByteAt;
    var c, d := Contents(t, n), Overlay(Contents(s, n), pos, b);
    forall k | 0 <= k < |c|
      ensures c[k] == d[k]
    {
      assert c[k] == ByteAt(t, n, k);
    }
  }

  lemma StoredElsewhere(s: Fs, n: int, pos: nat, b: seq<Byte>, t: Fs, m: int)
    requires Stored(s, n, pos, b, t) && 0 <= m < |s.inodes| && m != n
    ensures 0 <= m < |t.inodes| && Contents(t, m) == Contents(s, m)
  {
    hide ByteAt;
    forall k | 0 <= k < s.inodes[m].size
      ensures Contents(t, m)[k] == Contents(s, m)[k]
    {
      assert Contents(t, m)[k] == ByteAt(t, m, k);
    }
  }

  /** `sys_read` on a file: clipped at the end. */
  function SysRead(s: Fs, n: int, pos: nat, count: nat): seq<Byte>
    requires 0 <= n < |s.inodes|
  {
    var size := s.inodes[n].size;
    if pos >= size then [] else FileRead(s, n, pos, if count > size - pos then size - pos else count)
  }

  lemma SysReadIs(s: Fs, n: int, pos: nat, count: nat)
    requires Tidy(s) && File(s, n)
    ensures var c := Contents(s, n);
      SysRead(s, n, pos, count) == if pos >= |c| then [] else if count > |c| - pos then c[pos..] else c[pos..pos + count]
  {
    hide ByteAt;
    var c := Contents(s, n);
    if pos < |c| {
      ReadIs(s, n, pos, if count > |c| - pos then |c| - pos else count);
    }
  }

  lemma TruncateContents(s: Fs, owner: map<int, Ref>, n: int)
    requires Good(s, owner) && Tidy(s) && File(s, n)
    ensures Tidy(Truncated(s, n)) && Contents(Truncated(s, n), n) == []
    ensures forall m :: 0 <= m < |s.inodes| && m != n ==> Contents(Truncated(s, n), m) == Contents(s, m)
  {
    TruncateWorks(s, owner, n);
    var t := Truncated(s, n);
    forall m, p
      ensures ByteAt(t, m, p) == if m == n then 0 else ByteAt(s, m, p)
    {
      if 0 <= p < MAX_BYTES {
        Offsets(p);
        BlockRefs(s, m, p / BLOCK_SIZE, m, p / BLOCK_SIZE);
        hide Entry, BlockRef;
      }
    }
    hide ByteAt;
  }

  // ---------- whole runs over many files ----------

  datatype Op = WriteAt(n: nat, pos: nat, bytes: seq<Byte>) | Append(n: nat, bytes: seq<Byte>) | Trunc(n: nat)

  /** A write past the largest block number is a panic in `_bmap`. */
  ghost predicate Allowed(s: Fs, o: Op) {
    File(s, o.n) && match o
      case WriteAt(n, pos, bytes) => pos + |bytes| <= MAX_BYTES
      case Append(n, bytes) => s.inodes[n].size + |bytes| <= MAX_BYTES
      case Trunc(n) => true
  }

  ghost function Apply(s: Fs, o: Op): (Fs, nat)
    requires Allowed(s, o)
  {
    match o
    case WriteAt(n, pos, bytes) => FileWrite(s, n, pos, bytes)
    case Append(n, bytes) => FileWrite(s, n, s.inodes[n].size, bytes)
    case Trunc(n) => (Truncated(s, n), 0)
  }

  /** The same on plain byte sequences, `taken` being the count that was reported. */
  ghost function Ideal(fs: seq<seq<Byte>>, o: Op, taken: nat): seq<seq<Byte>>
    requires o.n < |fs|
  {
    match o
    case WriteAt(n, pos, bytes) => if taken <= |bytes| then fs[n := Overlay(fs[n], pos, bytes[..taken])] else fs
    case Append(n, bytes) => if taken <= |bytes| then fs[n := Overlay(fs[n], |fs[n]|, bytes[..taken])] else fs
    case Trunc(n) => fs[n := []]
  }

  ghost function Files(s: Fs): (f: seq<seq<Byte>>)
    ensures |f| == |s.inodes|
  {
    seq(|s.inodes|, n requires 0 <= n < |s.inodes| => Contents(s, n))
  }

  lemma StepRefines(s: Fs, owner: map<int, Ref>, o: Op) returns (w: map<int, Ref>)
    requires Good(s, owner) && Tidy(s) && Allowed(s, o)
    ensures var (t, i) := Apply(s, o); Good(t, w) && Tidy(t) && Files(t) == Ideal(Files(s), o, i)
  {
    hide Stored, Tidy, Good, ByteAt, FileWrite, Truncated, Contents, Full;
    match o
    case WriteAt(n, pos, bytes) =>
      w := WriteWorks(s, owner, n, pos, bytes);
      var (t, i) := FileWrite(s, n, pos, bytes);
      StoredContents(s, n, pos, bytes[..i], t);
      StoredFiles(s, n, pos, bytes[..i], t);
    case Append(n, bytes) =>
      var pos := s.inodes[n].size;
      w := WriteWorks(s, owner, n, pos, bytes);
      var (t, i) := FileWrite(s, n, pos, bytes);
      StoredContents(s, n, pos, bytes[..i], t);
      StoredFiles(s, n, pos, bytes[..i], t);
    case Trunc(n) =>
      w := Remaining(owner, n);
      TruncateWorks(s, owner, n);
      TruncateContents(s, owner, n);
      TruncatedFiles(s, n);
      assert Files(Truncated(s, n)) == Files(s)[n := []];
  }

  lemma TruncatedFiles(s: Fs, n: int)
    requires 0 <= n < |s.inodes|
    ensures |Truncated(s, n).inodes| == |s.inodes|
  {
  }

  lemma StoredFiles(s: Fs, n: int, pos: nat, b: seq<Byte>, t: Fs)
    requires File(s, n) && Stored(s, n, pos, b, t)
    requires |t.inodes| == |s.inodes| ==> Contents(t, n) == Overlay(Contents(s, n), pos, b)
    requires forall m :: 0 <= m < |s.inodes| && m != n && |t.inodes| == |s.inodes| ==> Contents(t, m) == Contents(s, m)
    ensures Files(t) == Files(s)[n := Overlay(Files(s)[n], pos, b)]
  {
    hide ByteAt, Contents, Overlay;
  }

  ghost predicate AllAllowed(s: Fs, os: seq<Op>)
    decreases |os|
  {
    os == [] || (Allowed(s, os[0]) && AllAllowed(Apply(s, os[0]).0, os[1..]))
  }

  ghost function Run(s: Fs, os: seq<Op>): Fs
    requires AllAllowed(s, os)
    decreases |os|
  {
    if os == [] then s else Run(Apply(s, os[0]).0, os[1..])
  }

  /** The ideal run, each write cut at the count that the real one reported. */
  ghost function IdealRun(fs: seq<seq<Byte>>, s: Fs, os: seq<Op>): seq<seq<Byte>>
    requires AllAllowed(s, os)
    decreases |os|
  {
    if os == [] then fs
    else if os[0].n >= |fs| then fs
    else IdealRun(Ideal(fs, os[0], Apply(s, os[0]).1), Apply(s, os[0]).0, os[1..])
  }

  /** Any run of writes, appends and truncations over any files of a volume keeps every zone
      accounted for, and every file is at the end what the run makes of a byte sequence. */
  lemma {:induction false} RunRefines(s: Fs, owner: map<int, Ref>, os: seq<Op>) returns (w: map<int, Ref>)
    requires Good(s, owner) && Tidy(s) && AllAllowed(s, os)
    ensures Good(Run(s, os), w) && Tidy(Run(s, os)) && Files(Run(s, os)) == IdealRun(Files(s), s, os)
    decreases |os|
  {
    hide Good, Tidy, Files, Apply, Ideal;
    w := owner;
    if os != [] {
      w := StepRefines(s, owner, os[0]);
      w := RunRefines(Apply(s, os[0]).0, w, os[1..]);
    }
  }
}
