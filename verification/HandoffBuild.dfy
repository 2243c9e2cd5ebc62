/** The tag-list builder of bbp/bbp_build.c.  The checksum is any function of the bytes;
    `Crc64` is about the one that is used. */
module HandoffBuild {
  import opened Options

  const HEADER: nat := 32
  const INFO: nat := 144
  const MAX32: nat := 0xFFFF_FFFF
  const MAX64: nat := 0xFFFF_FFFF_FFFF_FFFF

  type Byte = b: int | 0 <= b < 256
  type Word64 = v: int | 0 <= v <= MAX64

  // ---------- little-endian fields ----------

  function Value(b: seq<Byte>): nat {
    if b == [] then 0 else b[0] + 256 * Value(b[1..])
  }

  function Bytes(n: nat, v: nat): (b: seq<Byte>)
    ensures |b| == n
  {
    if n == 0 then [] else [v % 256] + Bytes(n - 1, v / 256)
  }

  function Power(n: nat): nat {
    if n == 0 then 1 else 256 * Power(n - 1)
  }

  lemma {:induction false} ValueOfBytes(n: nat, v: nat)
    requires v < Power(n)
    ensures Value(Bytes(n, v)) == v
  {
    if n > 0 {
      ValueOfBytes(n - 1, v / 256);
      assert Bytes(n, v)[1..] == Bytes(n - 1, v / 256);
    }
  }

  lemma Powers()
    ensures Power(2) == 0x1_0000 && Power(4) == MAX32 + 1 && Power(8) == MAX64 + 1
  {
    assert Power(2) == 256 * Power(1) && Power(1) == 256;
    assert Power(4) == 256 * Power(3) && Power(3) == 256 * Power(2);
    assert Power(8) == 256 * Power(7) && Power(7) == 256 * Power(6) && Power(6) == 256 * Power(5) && Power(5) == 256 * Power(4);
  }

  /** `n` bytes at `at`. */
  function Slice(m: seq<Byte>, at: int, n: int): (s: seq<Byte>)
    ensures 0 <= at && 0 <= n && at + n <= |m| ==> |s| == n
  {
    if 0 <= at && 0 <= n && at + n <= |m| then m[at..at + n] else []
  }

  function Put(m: seq<Byte>, at: int, b: seq<Byte>): (r: seq<Byte>)
    ensures |r| == |m|
  {
    if 0 <= at && at + |b| <= |m| then m[..at] + b + m[at + |b|..] else m
  }

  lemma PutSlice(m: seq<Byte>, at: int, b: seq<Byte>, lo: int, n: int)
    requires 0 <= at && at + |b| <= |m| && 0 <= n
    ensures lo + n <= at || at + |b| <= lo ==> Slice(Put(m, at, b), lo, n) == Slice(m, lo, n)
    ensures at <= lo && lo + n <= at + |b| ==> Slice(Put(m, at, b), lo, n) == b[lo - at..lo - at + n]
  {
    var r := Put(m, at, b);
    assert forall k :: 0 <= k < |m| ==> r[k] == if at <= k < at + |b| then b[k - at] else m[k];
    if at <= lo && lo + n <= at + |b| {
      assert r[lo..lo + n] == b[lo - at..lo - at + n];
    }
    if 0 <= lo && lo + n <= |m| && (lo + n <= at || at + |b| <= lo) {
      assert r[lo..lo + n] == m[lo..lo + n];
    }
  }

  function Zeros(n: nat): (z: seq<Byte>)
    ensures |z| == n
  {
    seq(n, i => 0)
  }

  // ---------- sealing ----------

  type Checksum = seq<Byte> -> Word64

  /** `bbp_crc_skip`: the checksum with the eight bytes at `off` taken as zero. */
  function CrcSkip(crc: Checksum, b: seq<Byte>, off: nat): Word64 {
    if |b| < off + 8 then MAX64 else crc(b[..off] + Zeros(8) + b[off + 8..])
  }

  /** A structure that holds its own checksum at `off`. */
  ghost predicate Sealed(crc: Checksum, b: seq<Byte>, off: nat) {
    off + 8 <= |b| && Value(b[off..off + 8]) == CrcSkip(crc, b, off)
  }

  function Seal(crc: Checksum, b: seq<Byte>, off: nat): (r: seq<Byte>)
    ensures |r| == |b|
  {
    Put(b, off, Bytes(8, CrcSkip(crc, b, off)))
  }

  /** Storing the checksum does not change it. */
  lemma SealSeals(crc: Checksum, b: seq<Byte>, off: nat)
    requires off + 8 <= |b|
    ensures Sealed(crc, Seal(crc, b, off), off)
    ensures Seal(crc, b, off)[..off] == b[..off] && Seal(crc, b, off)[off + 8..] == b[off + 8..]
  {
    var r := Seal(crc, b, off);
    Powers();
    ValueOfBytes(8, CrcSkip(crc, b, off));
    assert r[off..off + 8] == Bytes(8, CrcSkip(crc, b, off));
    assert r[..off] == b[..off] && r[off + 8..] == b[off + 8..];
  }

  // ---------- the builder ----------

  /** `mem` is the arena, at `virt` for the builder and `phys` for the consumer; `last` is the
      offset of the last tag. */
  datatype Builder = Builder(mem: seq<Byte>, virt: nat, phys: nat, used: nat, last: Option<nat>,
                             first: nat, count: nat, overflow: bool)

  function Init(mem: seq<Byte>, virt: nat, phys: nat): Builder {
    var bad := virt % 8 != 0 || phys % 8 != 0 || (|mem| != 0 && |mem| - 1 > MAX64 - virt);
    Builder(if bad then mem else Zeros(|mem|), virt, phys, 0, None, 0, 0, bad)
  }

  function Failed(b: Builder): Builder {
    b.(overflow := true)
  }

  function Aligned(n: nat): nat {
    (n + 7) / 8 * 8
  }

  /** `arena_bump`: where the bytes start. */
  function Bump(b: Builder, len: nat): (Builder, Option<nat>) {
    if b.overflow || b.used > MAX64 - 7 then (Failed(b), None)
    else
      var start := Aligned(b.used);
      if start > |b.mem| || len > |b.mem| - start then (Failed(b), None)
      else if start > MAX64 - b.virt || (len > 0 && len - 1 > MAX64 - (b.virt + start)) || start > MAX64 - b.phys
      then (Failed(b), None)
      else
        var p := b.phys + start;
        if p == 0 || (len > 0 && len - 1 > MAX64 - p) then (Failed(b), None)
        else (b.(used := start + len), Some(start))
  }

  function Header(id: nat, size: nat, version: nat): (h: seq<Byte>)
    ensures |h| == HEADER
  {
    Bytes(8, id) + Bytes(4, size) + Bytes(2, version) + Zeros(2) + Zeros(8) + Zeros(8)
  }

  /** `bbp_alloc_tag`: the tag's offset. */
  function AllocTag(b: Builder, id: nat, version: nat, size: nat): (Builder, Option<nat>) {
    if size < HEADER || size > MAX32 || b.count == MAX32 then (Failed(b), None)
    else
      var (c, at) := Bump(b, size);
      if at.None? then (c, None)
      else
        var p := c.phys + at.value;
        var m := Put(c.mem, at.value, Header(id, size, version) + Zeros(size - HEADER));
        var n := if c.last.Some? then Put(m, c.last.value + 16, Bytes(8, p)) else m;
        (c.(mem := n, first := if c.last.Some? then c.first else p, last := Some(at.value), count := c.count + 1), at)
  }

  /** `bbp_arena_blob`, and `bbp_arena_strdup` with the string's zero included. */
  function AddBytes(b: Builder, data: seq<Byte>): (Builder, Option<nat>) {
    var (c, at) := Bump(b, |data|);
    if at.None? then (c, None) else (c.(mem := Put(c.mem, at.value, data)), at)
  }

  // ---------- what the arena holds ----------

  /** A tag as appended. */
  datatype Tag = Tag(off: nat, size: nat, id: nat, version: nat)

  ghost predicate TagOk(t: Tag) {
    t.off % 8 == 0 && HEADER <= t.size <= MAX32 && t.id <= MAX64 && t.version < 0x1_0000
  }

  /** The header of `t`, chained to `next`. */
  ghost predicate TagIn(m: seq<Byte>, t: Tag, next: nat) {
    && t.off + t.size <= |m| && HEADER <= t.size
    && Slice(m, t.off, 8) == Bytes(8, t.id) && Slice(m, t.off + 8, 4) == Bytes(4, t.size)
    && Slice(m, t.off + 12, 2) == Bytes(2, t.version) && Slice(m, t.off + 14, 2) == Zeros(2)
    && Slice(m, t.off + 16, 8) == Bytes(8, next)
  }

  function Body(m: seq<Byte>, t: Tag): seq<Byte> {
    Slice(m, t.off + HEADER, t.size - HEADER)
  }

  /** Where the tag after tag `k` starts, or the end of what is used. */
  function Next(ts: seq<Tag>, k: int, used: nat): nat
    requires 0 <= k < |ts|
  {
    if k + 1 < |ts| then ts[k + 1].off else used
  }

  function NextPhys(b: Builder, ts: seq<Tag>, k: int): nat
    requires 0 <= k < |ts|
  {
    if k + 1 < |ts| then b.phys + ts[k + 1].off else 0
  }

  ghost predicate Placed(b: Builder, ts: seq<Tag>, k: int)
    requires 0 <= k < |ts|
  {
    TagOk(ts[k]) && ts[k].off + ts[k].size <= Next(ts, k, b.used) && 0 < b.phys + ts[k].off <= MAX64
  }

  /** The tags appended so far, in order and apart, chained by physical address. */
  ghost predicate Chain(b: Builder, ts: seq<Tag>) {
    && !b.overflow && b.used <= |b.mem| && b.phys % 8 == 0 && |ts| == b.count <= MAX32
    && b.first == (if ts == [] then 0 else b.phys + ts[0].off)
    && b.last == (if ts == [] then None else Some(ts[|ts| - 1].off))
    && (forall k :: 0 <= k < |ts| ==> Placed(b, ts, k))
    && (forall k :: 0 <= k < |ts| ==> TagIn(b.mem, ts[k], NextPhys(b, ts, k)))
  }

  /** Tags come one after another. */
  lemma {:induction false} TagsApart(b: Builder, ts: seq<Tag>, j: int, k: int)
    requires Chain(b, ts) && 0 <= j < k < |ts|
    ensures ts[j].off + ts[j].size <= ts[k].off && ts[k].off + ts[k].size <= b.used
    decreases k - j
  {
    hide TagIn, NextPhys, TagOk;
    TagEnds(b, ts, k);
    assert Placed(b, ts, j);
    if j + 1 < k {
      TagsApart(b, ts, j + 1, k);
      TagSize(b, ts, j + 1);
    }
  }

  lemma TagSize(b: Builder, ts: seq<Tag>, k: int)
    requires Chain(b, ts) && 0 <= k < |ts|
    ensures TagOk(ts[k]) && 0 < b.phys + ts[k].off <= MAX64
  {
    hide TagIn, NextPhys;
    assert Placed(b, ts, k);
  }

  lemma {:induction false} TagEnds(b: Builder, ts: seq<Tag>, k: int)
    requires Chain(b, ts) && 0 <= k < |ts|
    ensures ts[k].off + ts[k].size <= b.used
    decreases |ts| - k
  {
    hide TagIn, NextPhys;
    assert Placed(b, ts, k);
    if k + 1 < |ts| {
      TagEnds(b, ts, k + 1);
      TagSize(b, ts, k + 1);
    }
  }

  /** A write outside a tag's header leaves the header. */
  lemma TagKept(m: seq<Byte>, at: int, data: seq<Byte>, t: Tag, next: nat)
    requires TagIn(m, t, next) && 0 <= at && at + |data| <= |m| && (at + |data| <= t.off || t.off + HEADER <= at)
    ensures TagIn(Put(m, at, data), t, next)
  {
    hide Put, Bytes, Slice;
    PutSlice(m, at, data, t.off, 8);
    PutSlice(m, at, data, t.off + 8, 4);
    PutSlice(m, at, data, t.off + 12, 2);
    PutSlice(m, at, data, t.off + 14, 2);
    PutSlice(m, at, data, t.off + 16, 8);
  }

  /** Writing the chain field changes only that. */
  lemma TagLinked(m: seq<Byte>, t: Tag, old_next: nat, next: nat)
    requires TagIn(m, t, old_next)
    ensures TagIn(Put(m, t.off + 16, Bytes(8, next)), t, next)
  {
    hide Put, Bytes;
    var data := Bytes(8, next);
    PutSlice(m, t.off + 16, data, t.off, 8);
    PutSlice(m, t.off + 16, data, t.off + 8, 4);
    PutSlice(m, t.off + 16, data, t.off + 12, 2);
    PutSlice(m, t.off + 16, data, t.off + 14, 2);
    PutSlice(m, t.off + 16, data, t.off + 16, 8);
  }

  lemma FreshTag(m: seq<Byte>, t: Tag)
    requires TagOk(t) && t.off + t.size <= |m|
    ensures var r := Put(m, t.off, Header(t.id, t.size, t.version) + Zeros(t.size - HEADER));
      TagIn(r, t, 0) && Body(r, t) == Zeros(t.size - HEADER)
  {
    hide Put, Header, Bytes, Slice, Zeros;
    HeaderParts(t);
    var h, z := Header(t.id, t.size, t.version), Zeros(t.size - HEADER);
    FreshPart(m, t.off, h, z, 0, 8);
    FreshPart(m, t.off, h, z, 8, 4);
    FreshPart(m, t.off, h, z, 12, 2);
    FreshPart(m, t.off, h, z, 14, 2);
    FreshPart(m, t.off, h, z, 16, 8);
    FreshRest(m, t.off, h, z);
  }

  lemma FreshPart(m: seq<Byte>, off: nat, h: seq<Byte>, z: seq<Byte>, i: nat, n: nat)
    requires off + |h| + |z| <= |m| && i + n <= |h|
    ensures Slice(Put(m, off, h + z), off + i, n) == h[i..i + n]
  {
    hide Put, Slice;
    PutSlice(m, off, h + z, off + i, n);
    assert (h + z)[i..i + n] == h[i..i + n];
  }

  lemma FreshRest(m: seq<Byte>, off: nat, h: seq<Byte>, z: seq<Byte>)
    requires off + |h| + |z| <= |m|
    ensures Slice(Put(m, off, h + z), off + |h|, |z|) == z
  {
    hide Put, Slice;
    PutSlice(m, off, h + z, off + |h|, |z|);
    assert (h + z)[|h|..|h| + |z|] == z;
  }

  lemma HeaderParts(t: Tag)
    ensures var h := Header(t.id, t.size, t.version);
      && h[..8] == Bytes(8, t.id) && h[8..12] == Bytes(4, t.size) && h[12..14] == Bytes(2, t.version)
      && h[14..16] == Zeros(2) && h[16..24] == Bytes(8, 0) && h[0..8] == h[..8]
  {
    hide Bytes;
    ZeroBytes(8);
    var h := Header(t.id, t.size, t.version);
    assert h[..8] == Bytes(8, t.id) && h[8..12] == Bytes(4, t.size) && h[12..14] == Bytes(2, t.version);
    assert h[14..16] == Zeros(2) && h[16..24] == Zeros(8);
  }

  lemma {:induction false} ZeroBytes(n: nat)
    ensures Bytes(n, 0) == Zeros(n)
  {
    if n > 0 {
      ZeroBytes(n - 1);
    }
  }

  // ---------- what each call keeps ----------

  lemma BumpIs(b: Builder, len: nat)
    requires !b.overflow && b.used <= |b.mem|
    ensures var (c, at) := Bump(b, len);
      match at
      case None => c == Failed(b)
      case Some(start) =>
        (c == b.(used := start + len) && start % 8 == 0 && b.used <= start && start + len <= |b.mem|
         && 0 < b.phys + start <= MAX64 && (len > 0 ==> b.phys + start + len - 1 <= MAX64))
  {
  }

  /** Using more of the arena leaves the tags there. */
  lemma UsedGrows(b: Builder, ts: seq<Tag>, used: nat)
    requires Chain(b, ts) && b.used <= used <= |b.mem|
    ensures Chain(b.(used := used), ts)
  {
    hide TagIn;
    var c := b.(used := used);
    forall k | 0 <= k < |ts|
      ensures Placed(c, ts, k) && TagIn(c.mem, ts[k], NextPhys(c, ts, k))
    {
      assert Placed(b, ts, k) && TagIn(b.mem, ts[k], NextPhys(b, ts, k));
    }
  }

  /** Writing beyond the tags, or inside the body of one, leaves every header. */
  lemma WriteKeeps(b: Builder, ts: seq<Tag>, at: nat, data: seq<Byte>)
    requires Chain(b, ts) && at + |data| <= |b.mem|
    requires forall k :: 0 <= k < |ts| ==> at + |data| <= ts[k].off || ts[k].off + HEADER <= at
    ensures Chain(b.(mem := Put(b.mem, at, data)), ts)
  {
    hide TagIn, Put, Placed, NextPhys;
    var c := b.(mem := Put(b.mem, at, data));
    forall k | 0 <= k < |ts|
      ensures Placed(c, ts, k) && TagIn(c.mem, ts[k], NextPhys(c, ts, k))
    {
      WriteKeepsOne(b, ts, k, at, data);
    }
  }

  lemma WriteKeepsOne(b: Builder, ts: seq<Tag>, k: int, at: nat, data: seq<Byte>)
    requires Chain(b, ts) && 0 <= k < |ts| && at + |data| <= |b.mem|
    requires at + |data| <= ts[k].off || ts[k].off + HEADER <= at
    ensures var c := b.(mem := Put(b.mem, at, data));
      Placed(c, ts, k) && TagIn(c.mem, ts[k], NextPhys(c, ts, k))
  {
    hide TagIn, Put, Chain;
    TagThere(b, ts, k);
    TagKept(b.mem, at, data, ts[k], NextPhys(b, ts, k));
  }

  lemma BodyKept(m: seq<Byte>, at: int, data: seq<Byte>, t: Tag)
    requires 0 <= at && at + |data| <= |m| && HEADER <= t.size
    requires at + |data| <= t.off + HEADER || t.off + t.size <= at
    ensures Body(Put(m, at, data), t) == Body(m, t)
  {
    PutSlice(m, at, data, t.off + HEADER, t.size - HEADER);
  }

  /** A blob or a string: the tags and their bodies stay. */
  lemma AddBytesKeeps(b: Builder, ts: seq<Tag>, data: seq<Byte>)
    requires Chain(b, ts) && !AddBytes(b, data).0.overflow
    ensures var (c, at) := AddBytes(b, data);
      && Chain(c, ts) && at.Some? && Slice(c.mem, at.value, |data|) == data
      && forall k :: 0 <= k < |ts| ==> Body(c.mem, ts[k]) == Body(b.mem, ts[k])
  {
    hide TagIn, Bump;
    BumpIs(b, |data|);
    var (c, at) := Bump(b, |data|);
    UsedGrows(b, ts, c.used);
    forall k | 0 <= k < |ts|
      ensures ts[k].off + ts[k].size <= at.value && HEADER <= ts[k].size
    {
      TagEnds(b, ts, k);
      TagSize(b, ts, k);
    }
    WriteKeeps(c, ts, at.value, data);
    forall k | 0 <= k < |ts|
      ensures Body(AddBytes(b, data).0.mem, ts[k]) == Body(b.mem, ts[k])
    {
      BodyKept(b.mem, at.value, data, ts[k]);
    }
    PutSlice(b.mem, at.value, data, at.value, |data|);
  }

  /** A new tag: chained behind the last, with an empty body; the others keep theirs. */
  lemma AllocTagKeeps(b: Builder, ts: seq<Tag>, id: nat, version: nat, size: nat)
    requires Chain(b, ts) && id <= MAX64 && version < 0x1_0000 && !AllocTag(b, id, version, size).0.overflow
    ensures var (c, at) := AllocTag(b, id, version, size);
      && at.Some? && Chain(c, ts + [Tag(at.value, size, id, version)])
      && Body(c.mem, Tag(at.value, size, id, version)) == Zeros(size - HEADER)
      && forall k :: 0 <= k < |ts| ==> Body(c.mem, ts[k]) == Body(b.mem, ts[k])
  {
    hide TagIn, Bump, Header, Body, Chain, Put;
    ChainFields(b, ts);
    BumpIs(b, size);
    var (c, at) := Bump(b, size);
    var t := Tag(at.value, size, id, version);
    var data := Header(id, size, version) + Zeros(size - HEADER);
    var d := c.(mem := Put(b.mem, at.value, data));
    UsedGrows(b, ts, c.used);
    forall k | 0 <= k < |ts|
      ensures ts[k].off + ts[k].size <= at.value && HEADER <= ts[k].size
    {
      TagEnds(b, ts, k);
      TagSize(b, ts, k);
    }
    WriteKeeps(c, ts, at.value, data);
    FreshTag(b.mem, t);
    assert Appendable(d, ts, t);
    LinkLast(d, ts, t);
    assert AllocTag(b, id, version, size).0 == Linked(d, t);
    forall k | 0 <= k < |ts|
      ensures Body(AllocTag(b, id, version, size).0.mem, ts[k]) == Body(b.mem, ts[k])
    {
      BodyKept(b.mem, at.value, data, ts[k]);
      LinkBodies(d, ts, t, k);
    }
    if ts != [] {
      BodyKept(d.mem, ts[|ts| - 1].off + 16, Bytes(8, c.phys + at.value), t);
    }
  }

  lemma ChainFields(b: Builder, ts: seq<Tag>)
    requires Chain(b, ts)
    ensures !b.overflow && b.used <= |b.mem| && b.phys % 8 == 0 && |ts| == b.count <= MAX32
    ensures b.last == (if ts == [] then None else Some(ts[|ts| - 1].off))
    ensures b.first == (if ts == [] then 0 else b.phys + ts[0].off)
  {
  }

  function Linked(b: Builder, t: Tag): Builder {
    b.(mem := if b.last.Some? then Put(b.mem, b.last.value + 16, Bytes(8, b.phys + t.off)) else b.mem,
       first := if b.last.Some? then b.first else b.phys + t.off, last := Some(t.off), count := b.count + 1)
  }

  lemma TagThere(b: Builder, ts: seq<Tag>, k: int)
    requires Chain(b, ts) && 0 <= k < |ts|
    ensures Placed(b, ts, k) && TagIn(b.mem, ts[k], NextPhys(b, ts, k)) && ts[k].off + ts[k].size <= b.used <= |b.mem|
  {
    hide TagIn;
    TagEnds(b, ts, k);
  }

  lemma LinkBodies(b: Builder, ts: seq<Tag>, t: Tag, k: int)
    requires Chain(b, ts) && 0 <= k < |ts|
    ensures Body(Linked(b, t).mem, ts[k]) == Body(b.mem, ts[k])
  {
    hide TagIn, Put, Body;
    var l := |ts| - 1;
    TagThere(b, ts, l);
    TagThere(b, ts, k);
    if k < l {
      TagsApart(b, ts, k, l);
    }
    BodyKept(b.mem, ts[l].off + 16, Bytes(8, b.phys + t.off), ts[k]);
  }

  ghost predicate Appendable(b: Builder, ts: seq<Tag>, t: Tag) {
    && Chain(b, ts) && TagOk(t) && t.off + t.size == b.used && 0 < b.phys + t.off <= MAX64 && b.count < MAX32
    && TagIn(b.mem, t, 0) && forall k :: 0 <= k < |ts| ==> ts[k].off + ts[k].size <= t.off
  }

  lemma LinkLast(b: Builder, ts: seq<Tag>, t: Tag)
    requires Appendable(b, ts, t)
    ensures Chain(Linked(b, t), ts + [t])
  {
    hide TagIn, Put;
    var c, us := Linked(b, t), ts + [t];
    forall k | 0 <= k < |us|
      ensures Placed(c, us, k) && TagIn(c.mem, us[k], NextPhys(c, us, k))
    {
      LinkOne(b, ts, t, k);
    }
  }

  lemma LinkOne(b: Builder, ts: seq<Tag>, t: Tag, k: int)
    requires Appendable(b, ts, t) && 0 <= k <= |ts|
    ensures Placed(Linked(b, t), ts + [t], k) && TagIn(Linked(b, t).mem, (ts + [t])[k], NextPhys(Linked(b, t), ts + [t], k))
  {
    hide TagIn, Put, Chain;
    var l := |ts| - 1;
    ChainFields(b, ts);
    if ts != [] {
      TagThere(b, ts, l);
    }
    if k < |ts| {
      TagThere(b, ts, k);
      if k < l {
        TagsApart(b, ts, k, l);
        TagKept(b.mem, ts[l].off + 16, Bytes(8, b.phys + t.off), ts[k], NextPhys(b, ts, k));
      } else {
        TagLinked(b.mem, ts[k], 0, b.phys + t.off);
      }
    } else if ts != [] {
      TagKept(b.mem, ts[l].off + 16, Bytes(8, b.phys + t.off), t, 0);
    }
  }

  /** The producer fills in the body of tag `t`. */
  function FillBody(b: Builder, t: Tag, body: seq<Byte>): Builder {
    if |body| + HEADER == t.size then b.(mem := Put(b.mem, t.off + HEADER, body)) else b
  }

  lemma FillBodyKeeps(b: Builder, ts: seq<Tag>, k: int, body: seq<Byte>)
    requires Chain(b, ts) && 0 <= k < |ts| && |body| + HEADER == ts[k].size
    ensures var c := FillBody(b, ts[k], body);
      && Chain(c, ts) && Body(c.mem, ts[k]) == body
      && forall j :: 0 <= j < |ts| && j != k ==> Body(c.mem, ts[j]) == Body(b.mem, ts[j])
  {
    hide TagIn, Put, Chain;
    ChainFields(b, ts);
    TagThere(b, ts, k);
    forall j | 0 <= j < |ts| && j != k
      ensures ts[k].off + ts[k].size <= ts[j].off || ts[j].off + ts[j].size <= ts[k].off
      ensures HEADER <= ts[j].size
    {
      TagSize(b, ts, j);
      if j < k {
        TagsApart(b, ts, j, k);
      } else {
        TagsApart(b, ts, k, j);
      }
    }
    WriteKeeps(b, ts, ts[k].off + HEADER, body);
    forall j | 0 <= j < |ts| && j != k
      ensures Body(FillBody(b, ts[k], body).mem, ts[j]) == Body(b.mem, ts[j])
    {
      BodyKept(b.mem, ts[k].off + HEADER, body, ts[j]);
    }
    PutSlice(b.mem, ts[k].off + HEADER, body, ts[k].off + HEADER, |body|);
    assert body[0..|body|] == body;
  }

  // ---------- whole runs of the builder ----------

  datatype Op = Alloc(id: Word64, version: nat, size: nat) | Fill(k: nat, body: seq<Byte>) | Add(data: seq<Byte>)

  /** A tag as its producer means it. */
  datatype Item = Item(id: nat, version: nat, body: seq<Byte>)

  /** The arena, with the tags handed out so far. */
  datatype Work = Work(b: Builder, ts: seq<Tag>)

  function Do(w: Work, o: Op): Work {
    match o
    case Alloc(id, version, size) =>
      var (c, at) := AllocTag(w.b, id, version, size);
      Work(c, if at.Some? then w.ts + [Tag(at.value, size, id, version)] else w.ts)
    case Fill(k, body) => if k < |w.ts| then w.(b := FillBody(w.b, w.ts[k], body)) else w
    case Add(data) => w.(b := AddBytes(w.b, data).0)
  }

  function DoAll(w: Work, os: seq<Op>): Work
    decreases |os|
  {
    if os == [] then w else DoAll(Do(w, os[0]), os[1..])
  }

  /** The same on a list of tags. */
  function Meant(items: seq<Item>, o: Op): seq<Item> {
    match o
    case Alloc(id, version, size) => if size < HEADER then items else items + [Item(id, version, Zeros(size - HEADER))]
    case Fill(k, body) => if k < |items| && |body| == |items[k].body| then items[k := items[k].(body := body)] else items
    case Add(_) => items
  }

  function MeantAll(items: seq<Item>, os: seq<Op>): seq<Item>
    decreases |os|
  {
    if os == [] then items else MeantAll(Meant(items, os[0]), os[1..])
  }

  /** The arena holds exactly the tags meant. */
  ghost predicate Holds(w: Work, items: seq<Item>) {
    && Chain(w.b, w.ts) && |items| == |w.ts|
    && forall k :: 0 <= k < |items| ==> ItemAt(w.b.mem, w.ts[k], items[k])
  }

  ghost predicate ItemAt(m: seq<Byte>, t: Tag, i: Item) {
    t.id == i.id && t.version == i.version && t.size == |i.body| + HEADER && Body(m, t) == i.body
  }

  lemma {:induction false} OverflowSticks(w: Work, os: seq<Op>)
    requires w.b.overflow
    ensures DoAll(w, os).b.overflow
    decreases |os|
  {
    if os != [] {
      OverflowSticks(Do(w, os[0]), os[1..]);
    }
  }

  ghost predicate Versions(os: seq<Op>) {
    forall o :: o in os && o.Alloc? ==> o.version < 0x1_0000
  }

  lemma DoHolds(w: Work, items: seq<Item>, o: Op)
    requires Holds(w, items) && !Do(w, o).b.overflow && (o.Alloc? ==> o.version < 0x1_0000)
    ensures Holds(Do(w, o), Meant(items, o))
  {
    hide Chain, Body, AllocTag, AddBytes, Put;
    match o
    case Alloc(id, version, size) =>
      AllocSize(w.b, id, version, size);
      AllocTagKeeps(w.b, w.ts, id, version, size);
    case Fill(k, body) =>
      if k < |w.ts| {
        assert ItemAt(w.b.mem, w.ts[k], items[k]);
        if |body| + HEADER == w.ts[k].size {
          FillBodyKeeps(w.b, w.ts, k, body);
        }
      }
    case Add(data) => AddBytesKeeps(w.b, w.ts, data);
  }

  lemma AllocSize(b: Builder, id: nat, version: nat, size: nat)
    requires !AllocTag(b, id, version, size).0.overflow
    ensures HEADER <= size <= MAX32
  {
  }

  /** Any calls that do not overflow the arena leave in it exactly the tags they mean. */
  lemma {:induction false} RunHolds(w: Work, items: seq<Item>, os: seq<Op>)
    requires Holds(w, items) && !DoAll(w, os).b.overflow && Versions(os)
    ensures Holds(DoAll(w, os), MeantAll(items, os))
    decreases |os|
  {
    hide Do, Meant, Holds;
    if os != [] {
      if Do(w, os[0]).b.overflow {
        OverflowSticks(Do(w, os[0]), os[1..]);
      }
      DoHolds(w, items, os[0]);
      assert forall o :: o in os[1..] ==> o in os;
      RunHolds(Do(w, os[0]), Meant(items, os[0]), os[1..]);
    }
  }

  lemma InitGood(mem: seq<Byte>, virt: nat, phys: nat)
    requires !Init(mem, virt, phys).overflow
    ensures Chain(Init(mem, virt, phys), [])
  {
  }

  /** The same from `bbp_builder_init` on; the arena stays where it was put. */
  lemma BuiltFromInit(mem: seq<Byte>, virt: nat, phys: nat, os: seq<Op>)
    requires Versions(os) && !DoAll(Work(Init(mem, virt, phys), []), os).b.overflow
    ensures var w := DoAll(Work(Init(mem, virt, phys), []), os);
      Holds(w, MeantAll([], os)) && w.b.virt == virt && w.b.phys == phys && |w.b.mem| == |mem|
  {
    hide DoAll, MeantAll, Chain;
    var w := Work(Init(mem, virt, phys), []);
    if w.b.overflow {
      OverflowSticks(w, os);
    }
    InitGood(mem, virt, phys);
    RunHolds(w, [], os);
    RunStays(w, os);
  }

  lemma {:induction false} RunStays(w: Work, os: seq<Op>)
    ensures var r := DoAll(w, os); r.b.virt == w.b.virt && r.b.phys == w.b.phys && |r.b.mem| == |w.b.mem|
    decreases |os|
  {
    if os != [] {
      StepStays(w, os[0]);
      RunStays(Do(w, os[0]), os[1..]);
    }
  }

  lemma StepStays(w: Work, o: Op)
    ensures var r := Do(w, o); r.b.virt == w.b.virt && r.b.phys == w.b.phys && |r.b.mem| == |w.b.mem|
  {
    hide Header, Bytes;
  }

  // ---------- finalize ----------

  const SEAL_AT: nat := 24

  /** The sealing loop of `bbp_builder_finalize`: memory, the last link, and whether the chain
      was sound. */
  function SealFrom(crc: Checksum, b: Builder, m: seq<Byte>, cur: nat, n: nat): (seq<Byte>, nat, bool)
    decreases n
  {
    if n == 0 then (m, cur, true)
    else if cur % 8 != 0 || cur < b.phys || cur - b.phys > b.used || HEADER > b.used - (cur - b.phys) then (m, cur, false)
    else
      var off := cur - b.phys;
      var size := Value(Slice(m, off + 8, 4));
      if size < HEADER || size > b.used - off then (m, cur, false)
      else
        var r := Put(m, off, Seal(crc, Slice(m, off, size), SEAL_AT));
        SealFrom(crc, b, r, Value(Slice(r, off + 16, 8)), n - 1)
  }

  ghost predicate TagSealed(crc: Checksum, m: seq<Byte>, t: Tag) {
    Sealed(crc, Slice(m, t.off, t.size), SEAL_AT)
  }

  /** Sealing a tag touches only its checksum field. */
  lemma SealTag(crc: Checksum, m: seq<Byte>, t: Tag, next: nat)
    requires TagIn(m, t, next)
    ensures var r := Put(m, t.off, Seal(crc, Slice(m, t.off, t.size), SEAL_AT));
      TagIn(r, t, next) && TagSealed(crc, r, t) && Body(r, t) == Body(m, t)
  {
    hide Seal, Bytes;
    var s := Slice(m, t.off, t.size);
    var z := Seal(crc, s, SEAL_AT);
    SealSeals(crc, s, SEAL_AT);
    var r := Put(m, t.off, z);
    SealedSlice(m, t.off, z);
    assert z[..SEAL_AT] == s[..SEAL_AT] && z[HEADER..] == s[HEADER..];
    Parts(s, z);
    SamePart(m, r, t.off, t.size, 0, 8);
    SamePart(m, r, t.off, t.size, 8, 4);
    SamePart(m, r, t.off, t.size, 12, 2);
    SamePart(m, r, t.off, t.size, 14, 2);
    SamePart(m, r, t.off, t.size, 16, 8);
    SamePart(m, r, t.off, t.size, HEADER, t.size - HEADER);
  }

  lemma Parts(s: seq<Byte>, z: seq<Byte>)
    requires |s| == |z| >= HEADER && z[..SEAL_AT] == s[..SEAL_AT] && z[HEADER..] == s[HEADER..]
    ensures z[0..8] == s[0..8] && z[8..12] == s[8..12] && z[12..14] == s[12..14] && z[14..16] == s[14..16] && z[16..24] == s[16..24]
    ensures z[HEADER..HEADER + (|s| - HEADER)] == s[HEADER..HEADER + (|s| - HEADER)]
  {
    assert z[0..8] == z[..SEAL_AT][0..8] && s[0..8] == s[..SEAL_AT][0..8];
    assert z[8..12] == z[..SEAL_AT][8..12] && s[8..12] == s[..SEAL_AT][8..12];
    assert z[12..14] == z[..SEAL_AT][12..14] && s[12..14] == s[..SEAL_AT][12..14];
    assert z[14..16] == z[..SEAL_AT][14..16] && s[14..16] == s[..SEAL_AT][14..16];
    assert z[16..24] == z[..SEAL_AT][16..24] && s[16..24] == s[..SEAL_AT][16..24];
  }

  lemma SealedSlice(m: seq<Byte>, off: nat, z: seq<Byte>)
    requires off + |z| <= |m|
    ensures Slice(Put(m, off, z), off, |z|) == z
  {
    PutSlice(m, off, z, off, |z|);
    assert z[0..|z|] == z;
  }

  /** A part of a region that both memories agree on. */
  lemma SamePart(m: seq<Byte>, r: seq<Byte>, off: nat, n: nat, i: nat, k: nat)
    requires off + n <= |m| == |r| && i + k <= n
    requires Slice(m, off, n)[i..i + k] == Slice(r, off, n)[i..i + k]
    ensures Slice(r, off + i, k) == Slice(m, off + i, k)
  {
    SliceOfSlice(m, off, n, i, k);
    SliceOfSlice(r, off, n, i, k);
  }

  lemma SliceOfSlice(m: seq<Byte>, off: nat, n: nat, i: nat, k: nat)
    requires off + n <= |m| && i + k <= n
    ensures Slice(m, off, n)[i..i + k] == Slice(m, off + i, k)
  {
    var a, b := m[off..off + n][i..i + k], m[off + i..off + i + k];
    forall j | 0 <= j < k
      ensures a[j] == b[j]
    {
      assert a[j] == m[off..off + n][i + j] == m[off + (i + j)];
      assert b[j] == m[off + i + j];
    }
    assert a == b;
  }

  /** The region of tag `k` rewritten as its own sealed self. */
  lemma SealOneKeeps(crc: Checksum, b: Builder, ts: seq<Tag>, k: int)
    requires Chain(b, ts) && 0 <= k < |ts|
    ensures var t := ts[k];
      var r := Put(b.mem, t.off, Seal(crc, Slice(b.mem, t.off, t.size), SEAL_AT));
      && Chain(b.(mem := r), ts) && TagSealed(crc, r, t)
      && forall j :: 0 <= j < |ts| ==>
           Body(r, ts[j]) == Body(b.mem, ts[j]) && (j != k ==> Slice(r, ts[j].off, ts[j].size) == Slice(b.mem, ts[j].off, ts[j].size))
  {
    hide TagIn, Put, Seal, Body, NextPhys, TagSealed, TagOk;
    var t := ts[k];
    var r := Put(b.mem, t.off, Seal(crc, Slice(b.mem, t.off, t.size), SEAL_AT));
    TagThere(b, ts, k);
    SealTag(crc, b.mem, t, NextPhys(b, ts, k));
    var c := b.(mem := r);
    forall j | 0 <= j < |ts|
      ensures Placed(c, ts, j) && TagIn(c.mem, ts[j], NextPhys(c, ts, j))
      ensures Body(r, ts[j]) == Body(b.mem, ts[j])
      ensures j != k ==> Slice(r, ts[j].off, ts[j].size) == Slice(b.mem, ts[j].off, ts[j].size)
    {
      SealOther(crc, b, ts, k, j);
    }
  }

  lemma SealOther(crc: Checksum, b: Builder, ts: seq<Tag>, k: int, j: int)
    requires Chain(b, ts) && 0 <= k < |ts| && 0 <= j < |ts|
    ensures var t := ts[k];
      var c := b.(mem := Put(b.mem, t.off, Seal(crc, Slice(b.mem, t.off, t.size), SEAL_AT)));
      && Placed(c, ts, j) && TagIn(c.mem, ts[j], NextPhys(c, ts, j)) && Body(c.mem, ts[j]) == Body(b.mem, ts[j])
      && (j != k ==> Slice(c.mem, ts[j].off, ts[j].size) == Slice(b.mem, ts[j].off, ts[j].size))
  {
    hide TagIn, Put, Seal, Body, Chain;
    var t := ts[k];
    var z := Seal(crc, Slice(b.mem, t.off, t.size), SEAL_AT);
    TagThere(b, ts, k);
    TagThere(b, ts, j);
    SealTag(crc, b.mem, t, NextPhys(b, ts, k));
    if j < k {
      TagsApart(b, ts, j, k);
    } else if k < j {
      TagsApart(b, ts, k, j);
    }
    if j != k {
      TagKept(b.mem, t.off, z, ts[j], NextPhys(b, ts, j));
      BodyKept(b.mem, t.off, z, ts[j]);
      PutSlice(b.mem, t.off, z, ts[j].off, ts[j].size);
    }
  }

  lemma {:induction false} SealFromWorks(crc: Checksum, b: Builder, ts: seq<Tag>, k: nat)
    requires Chain(b, ts) && k <= |ts| && forall j :: 0 <= j < k ==> TagSealed(crc, b.mem, ts[j])
    ensures var (r, cur, ok) := SealFrom(crc, b, b.mem, if k < |ts| then b.phys + ts[k].off else 0, |ts| - k);
      && ok && cur == 0 && Chain(b.(mem := r), ts)
      && (forall j :: 0 <= j < |ts| ==> TagSealed(crc, r, ts[j]) && Body(r, ts[j]) == Body(b.mem, ts[j]))
    decreases |ts| - k
  {
    hide TagIn, Put, Seal, Body, Chain, TagSealed, Sealed, SealFrom, NextPhys, Slice;
    if k < |ts| {
      SealStep(crc, b, ts, k);
      SealOneKeeps(crc, b, ts, k);
      var r := SealedMem(crc, b, ts[k]);
      forall j | 0 <= j < k + 1
        ensures TagSealed(crc, r, ts[j])
      {
        if j < k {
          SealedSame(crc, b.mem, r, ts[j]);
        }
      }
      SealFromWorks(crc, b.(mem := r), ts, k + 1);
    } else {
      SealFromNone(crc, b, b.mem);
    }
  }

  function SealedMem(crc: Checksum, b: Builder, t: Tag): seq<Byte> {
    Put(b.mem, t.off, Seal(crc, Slice(b.mem, t.off, t.size), SEAL_AT))
  }

  lemma SealFromNone(crc: Checksum, b: Builder, m: seq<Byte>)
    ensures SealFrom(crc, b, m, 0, 0) == (m, 0, true)
  {
  }

  /** One turn of the loop, at tag `k`. */
  lemma SealStep(crc: Checksum, b: Builder, ts: seq<Tag>, k: nat)
    requires Chain(b, ts) && k < |ts|
    ensures var r := SealedMem(crc, b, ts[k]);
      SealFrom(crc, b, b.mem, b.phys + ts[k].off, |ts| - k)
      == SealFrom(crc, b.(mem := r), r, if k + 1 < |ts| then b.phys + ts[k + 1].off else 0, |ts| - k - 1)
  {
    hide TagIn, Put, Seal, Chain, SealFrom, Value, Slice, Body, TagSealed;
    TagThere(b, ts, k);
    ChainFields(b, ts);
    SealOneKeeps(crc, b, ts, k);
    var r := SealedMem(crc, b, ts[k]);
    TagFields(b, ts, k);
    TagFields(b.(mem := r), ts, k);
    SealTurn(crc, b, b.mem, ts[k].off, ts[k].size, |ts| - k);
    SealFromMem(crc, b, b.(mem := r), r, Value(Slice(r, ts[k].off + 16, 8)), |ts| - k - 1);
  }

  lemma SealTurn(crc: Checksum, b: Builder, m: seq<Byte>, off: nat, size: nat, n: nat)
    requires n > 0 && (b.phys + off) % 8 == 0 && off <= b.used && HEADER <= size <= b.used - off
    requires size == Value(Slice(m, off + 8, 4))
    ensures var r := Put(m, off, Seal(crc, Slice(m, off, size), SEAL_AT));
      SealFrom(crc, b, m, b.phys + off, n) == SealFrom(crc, b, r, Value(Slice(r, off + 16, 8)), n - 1)
  {
    hide Put, Seal, Value, Slice;
  }

  lemma SealedSame(crc: Checksum, m: seq<Byte>, r: seq<Byte>, t: Tag)
    requires TagSealed(crc, m, t) && Slice(r, t.off, t.size) == Slice(m, t.off, t.size)
    ensures TagSealed(crc, r, t)
  {
  }

  /** The loop looks at the builder's base and limit only. */
  lemma {:induction false} SealFromMem(crc: Checksum, b: Builder, c: Builder, m: seq<Byte>, cur: nat, n: nat)
    requires b.phys == c.phys && b.used == c.used
    ensures SealFrom(crc, b, m, cur, n) == SealFrom(crc, c, m, cur, n)
    decreases n
  {
    hide Seal, Put, Value, Slice;
    if n > 0 && cur % 8 == 0 && cur >= b.phys && cur - b.phys <= b.used && HEADER <= b.used - (cur - b.phys) {
      var off := cur - b.phys;
      var size := Value(Slice(m, off + 8, 4));
      if HEADER <= size <= b.used - off {
        var r := Put(m, off, Seal(crc, Slice(m, off, size), SEAL_AT));
        SealFromMem(crc, b, c, r, Value(Slice(r, off + 16, 8)), n - 1);
      }
    }
  }

  /** A tag's fields as numbers. */
  lemma TagFields(b: Builder, ts: seq<Tag>, k: int)
    requires Chain(b, ts) && 0 <= k < |ts|
    ensures var t := ts[k];
      && Value(Slice(b.mem, t.off, 8)) == t.id && Value(Slice(b.mem, t.off + 8, 4)) == t.size
      && Value(Slice(b.mem, t.off + 12, 2)) == t.version && Value(Slice(b.mem, t.off + 16, 8)) == NextPhys(b, ts, k)
  {
    hide Slice, Bytes, Value, Power;
    TagThere(b, ts, k);
    if k + 1 < |ts| {
      TagThere(b, ts, k + 1);
    }
    Powers();
    ValueOfBytes(8, ts[k].id);
    ValueOfBytes(4, ts[k].size);
    ValueOfBytes(2, ts[k].version);
    ValueOfBytes(8, NextPhys(b, ts, k));
  }

  /** "BEAR_INFO" and zeros. */
  function Magic(): (m: seq<Byte>)
    ensures |m| == 16
  {
    [0x42, 0x45, 0x41, 0x52, 0x5F, 0x49, 0x4E, 0x46, 0x4F, 0, 0, 0, 0, 0, 0, 0]
  }

  const INFO_SEAL_AT: nat := 136

  /** The fields `bbp_builder_finalize` sets in the info structure, in its order. */
  function Filled(crc: Checksum, info: seq<Byte>, b: Builder): (r: seq<Byte>)
    ensures |r| == |info|
  {
    var i := Put(Put(info, 16, Bytes(2, 1)), 18, Bytes(2, 1));
    var i := Put(i, 0, Magic());
    var i := Put(Put(i, 116, Bytes(4, b.count)), 120, Bytes(8, b.first));
    var i := Put(i, 20, Bytes(4, INFO + b.used));
    Seal(crc, i, INFO_SEAL_AT)
  }

  /** `bbp_builder_finalize`: the arena, the info structure, and whether it succeeded. */
  function Finalize(crc: Checksum, b: Builder, info: seq<Byte>, infoPhys: nat, infoVirt: nat): (Builder, seq<Byte>, bool) {
    if b.overflow || infoPhys > MAX64 - INFO || infoPhys + INFO != b.phys || infoVirt > MAX64 - INFO
      || infoVirt + INFO != b.virt || b.used > MAX32 - INFO
    then (Failed(b), info, false)
    else
      var (m, cur, ok) := SealFrom(crc, b, b.mem, b.first, b.count);
      var c := b.(mem := m);
      if !ok || cur != 0 || (b.count == 0) != (b.first == 0) then (Failed(c), info, false)
      else (c, Filled(crc, info, c), true)
  }

  /** When nothing has overflowed and the structure lies right below the arena, finalizing
      succeeds: every tag and the structure are sealed, and no tag's body changes. */
  lemma FinalizeWorks(crc: Checksum, w: Work, its: seq<Item>, info: seq<Byte>, infoPhys: nat, infoVirt: nat)
    requires Holds(w, its) && |info| == INFO
    ensures var (c, i, ok) := Finalize(crc, w.b, info, infoPhys, infoVirt);
      && (ok <==> infoPhys + INFO == w.b.phys && infoPhys <= MAX64 - INFO && infoVirt + INFO == w.b.virt
                  && infoVirt <= MAX64 - INFO && w.b.used <= MAX32 - INFO)
      && (ok ==> Holds(Work(c, w.ts), its) && i == Filled(crc, info, c) && c.phys == w.b.phys && c.used == w.b.used
                 && forall j :: 0 <= j < |w.ts| ==> TagSealed(crc, c.mem, w.ts[j]))
  {
    hide Chain, TagSealed, Body, SealFrom, Filled;
    ChainFields(w.b, w.ts);
    SealFromWorks(crc, w.b, w.ts, 0);
    if w.ts != [] {
      TagSize(w.b, w.ts, 0);
    }
    assert forall j :: 0 <= j < |its| ==> ItemAt(w.b.mem, w.ts[j], its[j]);
  }
}
