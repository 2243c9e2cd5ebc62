/** Filling a new volume from the front, as tools/mkimage.c does: zones are handed out in order,
    none is ever given back, and a file is written once from its first byte to its last. */
module ImageZones {
  import opened ZoneTree
  import opened FileBytes

  // ---------- handing out zones in order ----------

  /** The zones below `next` are taken; those from `next` on are free and still clear. */
  ghost predicate Bump(s: Fs, next: nat) {
    && Shape(s) && s.first <= next <= s.nzones
    && (forall k :: 0 <= k < |s.zmap| ==> (s.zmap[k] <==> k < next - s.first + 1))
    && (forall z :: next <= z < s.nzones ==> s.blocks[z] == ZeroBlock())
  }

  /** On such a volume the kernel's search for a free zone finds the next one. */
  lemma TakeNext(s: Fs, next: nat)
    requires Bump(s, next) && next < s.nzones
    ensures NewBlock(s) == (s.(zmap := s.zmap[next - s.first + 1 := true]), next)
    ensures Bump(NewBlock(s).0, next + 1)
  {
    var j := FirstZero(s.zmap, 0);
    var b := next - s.first + 1;
    assert !s.zmap[b];
    assert j == b;
    assert s.blocks[next := ZeroBlock()] == s.blocks;
  }

  lemma GrowNext(s: Fs, owner: map<int, Ref>, r: Ref, next: nat)
    requires Good(s, owner) && Bump(s, next) && next < s.nzones
    requires Writable(s, r, TableZone(s, r)) && Entry(s, r) == 0
    ensures Grow(s, r).1 == next && next > 0 && Bump(Grow(s, r).0, next + 1)
  {
    TakeNext(s, next);
    var (a, z) := NewBlock(s);
    hide NewBlock, Entry, TableZone;
    if !r.Slot? {
      TableOwned(s, owner, r);
      assert Used(s, TableZone(s, r));
    }
  }

  /** How many places are still empty on the way to `r`, itself included. */
  function Missing(s: Fs, r: Ref): nat
    decreases Depth(r)
  {
    (if Entry(s, r) == 0 then 1 else 0) + if r.Slot? then 0 else Missing(s, Parent(r))
  }

  /** Creating a block takes one zone for each empty place on the way, in order, and fills those
      places and no others. */
  ghost predicate Filled(s: Fs, owner: map<int, Ref>, r: Ref, next: nat, t: Fs, o: map<int, Ref>, z: nat) {
    && z != 0 && Created(s, owner, r, t, o, z) && Bump(t, next + Missing(s, r))
    && (Entry(s, r) == 0 ==> z == next + Missing(s, r) - 1)
    && forall q :: Entry(t, q) != 0 <==> Entry(s, q) != 0 || Above(q, r)
  }

  lemma {:induction false} CreateFills(s: Fs, owner: map<int, Ref>, r: Ref, next: nat) returns (o: map<int, Ref>)
    requires Good(s, owner) && Legal(s, r) && Bump(s, next) && next + Missing(s, r) <= s.nzones
    ensures Filled(s, owner, r, next, Create(s, r).0, o, Create(s, r).1)
    decreases Depth(r)
  {
    hide Entry, TableZone, Grow, Bump;
    if r.Slot? {
      o := GrowWorks(s, owner, r);
      if Entry(s, r) == 0 {
        GrowNext(s, owner, r, next);
        GrowFills(s, owner, r, next, Grow(s, r).0, o);
      } else {
        NothingMissing(s, owner, r);
        AlreadyThere(s, owner, r, next);
      }
    } else {
      var a := CreateFills(s, owner, Parent(r), next);
      var (p, y) := Create(s, Parent(r));
      TableIsParent(s, r);
      TableIsParent(p, r);
      AboveDepth(r, Parent(r));
      TableWritable(p, a, r);
      o := GrowWorks(p, a, r);
      CreateStep(s, owner, r, p, a, Grow(p, r).0, o, Grow(p, r).1);
      if Entry(s, r) == 0 {
        GrowNext(p, a, r, next + Missing(s, Parent(r)));
      } else {
        NothingMissing(s, owner, r);
      }
      FillStep(s, owner, r, next, p, a, y, Grow(p, r).0, o, Grow(p, r).1);
    }
  }

  lemma FillStep(s: Fs, owner: map<int, Ref>, r: Ref, next: nat, p: Fs, a: map<int, Ref>, y: nat,
                 t: Fs, o: map<int, Ref>, z: nat)
    requires !r.Slot? && Filled(s, owner, Parent(r), next, p, a, y) && Grown(p, a, r, t, o, z)
    requires Created(s, owner, r, t, o, z) && Entry(p, r) == Entry(s, r)
    requires if Entry(s, r) == 0 then z == next + Missing(s, Parent(r)) && z != 0 && Bump(t, z + 1) else Missing(s, r) == 0
    ensures Filled(s, owner, r, next, t, o, z)
  {
    hide Entry, Bump, Created;
    assert Missing(s, r) == (if Entry(s, r) == 0 then 1 else 0) + Missing(s, Parent(r));
    forall q
      ensures Above(q, r) <==> q == r || Above(q, Parent(r))
    {
    }
  }

  lemma GrowFills(s: Fs, owner: map<int, Ref>, r: Ref, next: nat, t: Fs, o: map<int, Ref>)
    requires r.Slot? && Good(s, owner) && Entry(s, r) == 0 && Bump(t, next + 1) && next > 0
    requires Grown(s, owner, r, t, o, next)
    ensures Filled(s, owner, r, next, t, o, next)
  {
    hide Entry, Bump, Good;
    assert Missing(s, r) == 1;
  }

  /** Nothing is missing above a place that is filled. */
  lemma {:induction false} NothingMissing(s: Fs, owner: map<int, Ref>, r: Ref)
    requires Good(s, owner) && Entry(s, r) != 0
    ensures Missing(s, r) == 0 && forall q :: Above(q, r) ==> Entry(s, q) != 0
    decreases Depth(r)
  {
    if !r.Slot? {
      TableIsParent(s, r);
      assert Entry(s, Parent(r)) != 0;
      hide Entry;
      NothingMissing(s, owner, Parent(r));
    }
  }

  lemma AlreadyThere(s: Fs, owner: map<int, Ref>, r: Ref, next: nat)
    requires r.Slot? && Good(s, owner) && Bump(s, next) && Entry(s, r) != 0 && Missing(s, r) == 0
    ensures Filled(s, owner, r, next, s, owner, Entry(s, r))
  {
    hide Entry, Bump;
  }

  // ---------- files without holes ----------

  function Blocks(len: nat): nat {
    (len + BLOCK_SIZE - 1) / BLOCK_SIZE
  }

  /** The place is needed by a file whose first `b` blocks are all there. */
  predicate Due(r: Ref, b: int) {
    match r
    case Slot(n, k) => 0 <= k < 9 && (if k < DIRECT then k < b else if k == 7 then DIRECT < b else DIRECT + WORDS < b)
    case Ind(n, i) => 0 <= i < WORDS && DIRECT + i < b
    case Dind(n, i) => 0 <= i < WORDS && DIRECT + WORDS + WORDS * i < b
    case Leaf(n, i, j) => 0 <= i < WORDS && 0 <= j < WORDS && DIRECT + WORDS + WORDS * i + j < b
  }

  /** File `n` has its first `b` blocks and the tables they need, and nothing else. */
  ghost predicate Dense(s: Fs, n: int, b: nat) {
    forall r: Ref :: r.n == n ==> (Entry(s, r) != 0 <==> Due(r, b))
  }

  /** Zones taken by block `b` when every earlier one is there. */
  function Cost(b: nat): nat {
    if b < DIRECT then 1
    else if b < DIRECT + WORDS then (if b == DIRECT then 2 else 1)
    else 1 + (if b == DIRECT + WORDS then 1 else 0) + (if (b - DIRECT - WORDS) % WORDS == 0 then 1 else 0)
  }

  function Total(b: nat): nat {
    if b == 0 then 0 else Total(b - 1) + Cost(b - 1)
  }

  /** `file_zone_count`. */
  function FileZoneCount(len: nat): nat {
    var data := len / BLOCK_SIZE + if len % BLOCK_SIZE != 0 then 1 else 0;
    var zones := if data > DIRECT then data + 1 else data;
    if data > DIRECT + WORDS then
      var doubled := data - DIRECT - WORDS;
      zones + 1 + doubled / WORDS + if doubled % WORDS != 0 then 1 else 0
    else zones
  }

  function Tables(d: nat): nat {
    d / WORDS + if d % WORDS != 0 then 1 else 0
  }

  lemma OneMoreTable(d: nat)
    ensures Tables(d + 1) == Tables(d) + if d % WORDS == 0 then 1 else 0
  {
    assert d == WORDS * (d / WORDS) + d % WORDS;
    if d % WORDS == WORDS - 1 {
      assert d + 1 == WORDS * (d / WORDS + 1);
    } else {
      assert d + 1 == WORDS * (d / WORDS) + (d % WORDS + 1);
    }
  }

  /** The count made in advance is the sum of what the blocks take one by one. */
  lemma {:induction false} CountIsTotal(b: nat)
    ensures Total(b) == (if b <= DIRECT then b else if b <= DIRECT + WORDS then b + 1
                         else b + 2 + Tables(b - DIRECT - WORDS))
  {
    if b > 0 {
      CountIsTotal(b - 1);
      if b > DIRECT + WORDS {
        OneMoreTable(b - 1 - DIRECT - WORDS);
      }
      if b == DIRECT + WORDS + 1 {
        assert Tables(0) == 0;
      }
    }
  }

  lemma FileCountIs(len: nat)
    ensures FileZoneCount(len) == Total(Blocks(len))
  {
    CountIsTotal(Blocks(len));
    BlocksRoundUp(len);
    hide Blocks, Total;
  }

  lemma BlocksRoundUp(len: nat)
    ensures Blocks(len) == len / BLOCK_SIZE + if len % BLOCK_SIZE != 0 then 1 else 0
  {
  }

  lemma {:induction false} TotalGrows(b: nat, d: nat)
    requires b <= d
    ensures Total(b) <= Total(d)
    decreases d - b
  {
    if b < d {
      TotalGrows(b, d - 1);
    }
  }

  lemma Leaves(b: nat)
    requires DIRECT + WORDS <= b < MAX_BLOCKS
    ensures var d := b - DIRECT - WORDS;
      d == WORDS * (d / WORDS) + d % WORDS && 0 <= d % WORDS < WORDS && 0 <= d / WORDS < WORDS
  {
  }

  /** One more block needs that block's place and the tables above it. */
  lemma DueNext(q: Ref, n: int, b: nat)
    requires q.n == n && b < MAX_BLOCKS
    ensures Due(q, b + 1) <==> Due(q, b) || Above(q, BlockRef(n, b))
  {
    if b < DIRECT {
      AboveSlot(q, n, b);
    } else if b < DIRECT + WORDS {
      AboveSlot(q, n, 7);
    } else {
      Leaves(b);
      AboveSlot(q, n, 8);
      var d := b - DIRECT - WORDS;
      var i, j := d / WORDS, d % WORDS;
      assert Above(q, Leaf(n, i, j)) <==> q == Leaf(n, i, j) || q == Dind(n, i) || q == Slot(n, 8);
      LeafDue(q, n, b, i, j);
    }
  }

  lemma LeafDue(q: Ref, n: int, b: nat, i: int, j: int)
    requires q.n == n && 0 <= i < WORDS && 0 <= j < WORDS && b == DIRECT + WORDS + WORDS * i + j
    ensures Due(q, b + 1) <==> Due(q, b) || q == Leaf(n, i, j) || q == Dind(n, i) || q == Slot(n, 8)
  {
  }

  lemma MissingIs(s: Fs, n: int, b: nat)
    requires Dense(s, n, b) && b < MAX_BLOCKS
    ensures Missing(s, BlockRef(n, b)) == Cost(b)
  {
    hide Entry;
    if b >= DIRECT + WORDS {
      Leaves(b);
      var i, j := (b - DIRECT - WORDS) / WORDS, (b - DIRECT - WORDS) % WORDS;
      assert Missing(s, Slot(n, 8)) == if Entry(s, Slot(n, 8)) == 0 then 1 else 0;
      assert Missing(s, Dind(n, i)) == Missing(s, Slot(n, 8)) + if Entry(s, Dind(n, i)) == 0 then 1 else 0;
      assert Missing(s, Leaf(n, i, j)) == Missing(s, Dind(n, i)) + if Entry(s, Leaf(n, i, j)) == 0 then 1 else 0;
    }
  }

  /** Creating the next block of such a file. */
  lemma NextBlock(s: Fs, owner: map<int, Ref>, n: int, b: nat, next: nat) returns (o: map<int, Ref>)
    requires Good(s, owner) && File(s, n) && b < MAX_BLOCKS && Bump(s, next) && Dense(s, n, b)
    requires next + Cost(b) <= s.nzones
    ensures var (t, z) := Create(s, BlockRef(n, b));
      && z == next + Cost(b) - 1 && z != 0 && Entry(s, BlockRef(n, b)) == 0
      && Created(s, owner, BlockRef(n, b), t, o, z) && Bump(t, next + Cost(b)) && Dense(t, n, b + 1)
      && (forall q: Ref :: q.n != n ==> Entry(t, q) == Entry(s, q))
  {
    hide Entry, Bump, BlockRef, Create;
    BlockRefs(s, n, b, n, b);
    MissingIs(s, n, b);
    o := CreateFills(s, owner, BlockRef(n, b), next);
    forall q: Ref | q.n == n
      ensures Due(q, b + 1) <==> Due(q, b) || Above(q, BlockRef(n, b))
    {
      DueNext(q, n, b);
    }
    NotDue(n, b);
    forall q: Ref | q.n != n
      ensures !Above(q, BlockRef(n, b))
    {
      AboveSame(q, BlockRef(n, b));
    }
  }

  lemma NotDue(n: int, b: nat)
    requires b < MAX_BLOCKS
    ensures !Due(BlockRef(n, b), b)
  {
    if b >= DIRECT + WORDS {
      Leaves(b);
    }
  }

  lemma {:induction false} AboveSame(q: Ref, r: Ref)
    ensures Above(q, r) ==> q.n == r.n
    decreases Depth(r)
  {
    if !r.Slot? {
      AboveSame(q, Parent(r));
    }
  }

  /** Putting bytes into a block that is there moves no zone. */
  lemma PutKeeps(s: Fs, owner: map<int, Ref>, n: int, b: nat, pos: nat, bytes: seq<Byte>, next: nat)
    requires Good(s, owner) && File(s, n) && b < MAX_BLOCKS && pos / BLOCK_SIZE == b && Bump(s, next)
    requires Map(s, n, b) != 0 && bytes != [] && pos % BLOCK_SIZE + |bytes| <= BLOCK_SIZE
    ensures var t := PutPiece(s, n, Map(s, n, b), pos, bytes);
      Good(t, owner) && Bump(t, next) && forall q :: Entry(t, q) == Entry(s, q)
  {
    BlockRefs(s, n, b, n, b);
    hide BlockRef, Entry;
    var z := Map(s, n, b);
    var t := PutPiece(s, n, z, pos, bytes);
    assert z in owner && owner[z] == BlockRef(n, b) && Used(s, z);
    forall q
      ensures Entry(t, q) == Entry(s, q)
    {
      DataIsNoTable(s, owner, t, z, q);
    }
    SameBits(s, t);
    hide Used;
  }

  /** The rest of a file, written from a block boundary on. */
  ghost predicate Written(s: Fs, n: int, t: Fs, o: map<int, Ref>, next: int, d: nat) {
    && Good(t, o) && 0 <= next && Bump(t, next) && Dense(t, n, d) && t.nzones == s.nzones && t.first == s.first
    && forall q: Ref :: q.n != n ==> Entry(t, q) == Entry(s, q)
  }

  lemma {:induction false} WriteFills(s: Fs, owner: map<int, Ref>, n: int, b: nat, bytes: seq<Byte>, next: nat)
    returns (o: map<int, Ref>)
    requires Good(s, owner) && File(s, n) && Bump(s, next) && Dense(s, n, b)
    requires b + Blocks(|bytes|) <= MAX_BLOCKS
    requires next + Total(b + Blocks(|bytes|)) - Total(b) <= s.nzones
    ensures FileWrite(s, n, BLOCK_SIZE * b, bytes).1 == |bytes|
    ensures Written(s, n, FileWrite(s, n, BLOCK_SIZE * b, bytes).0, o,
                    next + Total(b + Blocks(|bytes|)) - Total(b), b + Blocks(|bytes|))
    decreases |bytes|
  {
    hide Entry, Bump, Good, Create, BlockRef, PutPiece, Map, Dense, Cost;
    o := owner;
    if bytes != [] {
      var d := b + Blocks(|bytes|);
      var c := if |bytes| < BLOCK_SIZE then |bytes| else BLOCK_SIZE;
      var pos := BLOCK_SIZE * b;
      Boundary(b, |bytes|);
      TotalGrows(b + 1, d);
      o := NextBlock(s, owner, n, b, next);
      var (a, z) := Create(s, BlockRef(n, b));
      MapIs(a, n, b);
      var p := PutPiece(a, n, z, pos, bytes[..c]);
      PutKeeps(a, o, n, b, pos, bytes[..c], next + Cost(b));
      PutFile(a, n, z, pos, bytes[..c]);
      DenseKept(a, p, n, b + 1);
      if |bytes| > BLOCK_SIZE {
        assert pos + c == BLOCK_SIZE * (b + 1);
        o := WriteFills(p, o, n, b + 1, bytes[c..], next + Cost(b));
      } else {
        assert bytes[c..] == [];
      }
    }
  }

  lemma Boundary(b: nat, len: nat)
    requires len > 0
    ensures BLOCK_SIZE * b / BLOCK_SIZE == b && BLOCK_SIZE * b % BLOCK_SIZE == 0
    ensures len > BLOCK_SIZE ==> Blocks(len - BLOCK_SIZE) == Blocks(len) - 1
    ensures len <= BLOCK_SIZE ==> Blocks(len) == 1
    ensures Blocks(len) >= 1
  {
  }

  lemma MapIs(s: Fs, n: int, b: int)
    ensures Map(s, n, b) == Entry(s, BlockRef(n, b))
  {
  }

  lemma PutFile(s: Fs, n: int, z: nat, pos: nat, bytes: seq<Byte>)
    ensures var t := PutPiece(s, n, z, pos, bytes);
      && |t.inodes| == |s.inodes| && t.nzones == s.nzones && t.first == s.first
      && forall m :: 0 <= m < |s.inodes| ==> t.inodes[m].owns == s.inodes[m].owns
  {
  }

  lemma DenseKept(s: Fs, t: Fs, n: int, b: nat)
    requires Dense(s, n, b) && forall q :: Entry(t, q) == Entry(s, q)
    ensures Dense(t, n, b)
  {
    hide Entry, Due;
  }
}
