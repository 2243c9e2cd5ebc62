/** The volume that tools/mkimage.c builds: inodes, directories, files and devices, each made once
    on an empty volume.  A failure ends the program, so an operation gives an image or none. */
module ImageBuild {
  import opened Options
  import opened ZoneTree
  import opened FileBytes
  import opened ImageZones

  const NAME_LEN: nat := 14
  const DIRENT: nat := 16
  const SLASH: Byte := 47
  const MAX_LINKS: nat := 255

  datatype Kind = Free | Dir | Regular | Device

  /** `fs.inodes[n]` is inode number `n`; number 0 is not used. */
  datatype Img = Img(fs: Fs, kinds: seq<Kind>, links: seq<nat>, ibits: seq<bool>, nextInode: nat, nextZone: nat)

  // ---------- directory entries ----------

  function Zeros(n: nat): (z: seq<Byte>)
    ensures |z| == n && forall k :: 0 <= k < n ==> z[k] == 0
  {
    seq<Byte>(n, k => 0)
  }

  predicate ValidName(name: seq<Byte>) {
    0 < |name| <= NAME_LEN && SLASH !in name
  }

  /** C strings hold no NUL. */
  predicate CString(name: seq<Byte>) {
    0 !in name
  }

  function Padded(name: seq<Byte>): (f: seq<Byte>)
    requires |name| <= NAME_LEN
    ensures |f| == NAME_LEN
  {
    name + Zeros(NAME_LEN - |name|)
  }

  function Dirent(target: nat, name: seq<Byte>): (e: seq<Byte>)
    requires target < 65536 && |name| <= NAME_LEN
    ensures |e| == DIRENT
  {
    [target % 256, target / 256] + Padded(name)
  }

  /** Number and name field of entry `i` of a directory's bytes. */
  function Ino(c: seq<Byte>, i: nat): nat
    requires DIRENT * i + DIRENT <= |c|
  {
    (c[DIRENT * i] as int) + 256 * (c[DIRENT * i + 1] as int)
  }

  function Name(c: seq<Byte>, i: nat): (f: seq<Byte>)
    requires DIRENT * i + DIRENT <= |c|
    ensures |f| == NAME_LEN
  {
    c[DIRENT * i + 2..DIRENT * i + DIRENT]
  }

  /** The comparison of `add_dirent`: the bytes of the name and, if it is short, a NUL. */
  predicate Matches(c: seq<Byte>, i: nat, name: seq<Byte>)
    requires DIRENT * i + DIRENT <= |c| && |name| <= NAME_LEN
  {
    Ino(c, i) != 0 && Name(c, i)[..|name|] == name && (|name| == NAME_LEN || Name(c, i)[|name|] == 0)
  }

  /** The first slot that holds no entry. */
  function FirstSlot(c: seq<Byte>, i: nat): (k: nat)
    requires DIRENT * i <= |c|
    ensures i <= k && DIRENT * k <= |c|
    decreases |c| - DIRENT * i
  {
    if DIRENT * i + DIRENT > |c| || Ino(c, i) == 0 then i else FirstSlot(c, i + 1)
  }

  const SLOTS: nat := 64

  predicate Duplicate(block: seq<Byte>, name: seq<Byte>)
    requires |block| == BLOCK_SIZE && |name| <= NAME_LEN
  {
    exists i :: 0 <= i < SLOTS && Matches(block, i, name)
  }

  // ---------- the operations ----------

  function Inodes(img: Img): int {
    |img.fs.inodes| - 1
  }

  function SetInode(s: Fs, n: nat, e: Inode): Fs
    requires n < |s.inodes|
  {
    s.(inodes := s.inodes[n := e])
  }

  predicate Sized(img: Img) {
    |img.kinds| == |img.links| == |img.fs.inodes| <= |img.ibits|
  }

  /** `alloc_inode` and the fields that every maker of an inode fills in. */
  function Begun(img: Img, kind: Kind, links: nat, zone: seq<nat>, size: nat): Img
    requires Sized(img) && img.nextInode < |img.fs.inodes|
  {
    var n := img.nextInode;
    img.(fs := SetInode(img.fs, n, Inode(kind != Device, zone, size)), kinds := img.kinds[n := kind],
         links := img.links[n := links], ibits := img.ibits[n := true], nextInode := n + 1)
  }

  /** `mkfile_inode_mode`: what the kernel would do to write the bytes into a new file. */
  function MakeFile(img: Img, data: seq<Byte>): Option<Img>
    requires Sized(img)
  {
    if img.nextZone + FileZoneCount(|data|) > img.fs.nzones || img.nextInode >= Inodes(img) then None
    else
      var a := Begun(img, Regular, 1, NoZones(), |data|);
      Some(a.(fs := FileWrite(a.fs, img.nextInode, 0, data).0, nextZone := img.nextZone + FileZoneCount(|data|)))
  }

  predicate DeviceRange(major: int, minor: int) {
    0 <= major < 256 && 0 <= minor < 256
  }

  /** The zone numbers of a device's inode: the first one is the device. */
  function DeviceZone(major: int, minor: int): seq<nat> {
    if DeviceRange(major, minor) then NoZones()[0 := 256 * major + minor] else NoZones()
  }

  /** Both numbers of a device are bytes, and can be had back from the zone number. */
  lemma DeviceNumber(major: int, minor: int)
    ensures DeviceRange(major, minor) <==> 0 <= major <= 255 && 0 <= minor <= 255
    ensures var z := DeviceZone(major, minor);
      && |z| == 9 && (forall i :: 1 <= i < 9 ==> z[i] == 0)
      && (DeviceRange(major, minor) ==> z[0] <= 0xFFFF && z[0] / 256 == major && z[0] % 256 == minor)
  {
  }

  function MakeDevice(img: Img, major: int, minor: int): Option<Img>
    requires Sized(img)
  {
    if !DeviceRange(major, minor) || img.nextInode >= Inodes(img) then None
    else Some(Begun(img, Device, 1, DeviceZone(major, minor), 0))
  }

  /** The block of a directory, all zeros if it has none. */
  function DirBlock(s: Fs, dir: int): seq<Byte> {
    var z := SlotZone(s, dir, 0);
    if 0 < z < |s.blocks| && |s.blocks[z]| == BLOCK_SIZE then s.blocks[z] else ZeroBlock()
  }

  /** `add_dirent`. */
  function AddEntry(img: Img, dir: nat, name: seq<Byte>, target: int): Option<Img>
    requires dir < |img.fs.inodes|
  {
    var z := SlotZone(img.fs, dir, 0);
    if z == 0 || !ValidName(name) || !(0 < target < 65536) then None
    else if Duplicate(DirBlock(img.fs, dir), name) then None
    else
      var k := FirstSlot(DirBlock(img.fs, dir), 0);
      var size := img.fs.inodes[dir].size;
      if k >= SLOTS || size > BLOCK_SIZE - DIRENT || z >= |img.fs.blocks| then None
      else
        var block := Spliced(DirBlock(img.fs, dir), DIRENT * k, Dirent(target, name));
        Some(img.(fs := SetInode(img.fs.(blocks := img.fs.blocks[z := block]), dir,
                                 img.fs.inodes[dir].(size := size + DIRENT))))
  }

  function Dot(): seq<Byte> {
    [46]
  }

  function DotDot(): seq<Byte> {
    [46, 46]
  }

  /** A directory's inode and its one zone, before the first entry. */
  function BareDir(img: Img): Img
    requires Sized(img) && img.nextInode < |img.fs.inodes|
  {
    var a := Begun(img, Dir, 2, NoZones(), 0);
    a.(fs := Create(a.fs, Slot(img.nextInode, 0)).0, nextZone := img.nextZone + 1)
  }

  lemma GrowInodes(s: Fs, r: Ref)
    ensures |Grow(s, r).0.inodes| == |s.inodes|
    ensures forall m :: 0 <= m < |s.inodes| && m != r.n ==> Grow(s, r).0.inodes[m] == s.inodes[m]
  {
    hide Entry, TableZone, FirstZero, Word;
  }

  lemma {:induction false} CreateInodes(s: Fs, r: Ref)
    ensures |Create(s, r).0.inodes| == |s.inodes|
    ensures forall m :: 0 <= m < |s.inodes| && m != r.n ==> Create(s, r).0.inodes[m] == s.inodes[m]
    decreases Depth(r)
  {
    hide Grow;
    if r.Slot? {
      GrowInodes(s, r);
    } else {
      CreateInodes(s, Parent(r));
      GrowInodes(Create(s, Parent(r)).0, r);
    }
  }

  /** `mkdir_inode`; the root, which has no parent, is its own. */
  function MakeDir(img: Img, parent: nat): Option<Img>
    requires Sized(img)
  {
    var n := img.nextInode;
    if n >= Inodes(img) || img.nextZone >= img.fs.nzones then None
    else
      var a := BareDir(img);
      CreateInodes(Begun(img, Dir, 2, NoZones(), 0).fs, Slot(n, 0));
      match AddEntry(a, n, Dot(), n)
      case None => None
      case Some(b) => AddEntry(b, n, DotDot(), if parent == 0 then n else parent)
  }

  datatype Addition =
    | NewDir(parent: nat, name: seq<Byte>)
    | NewFile(parent: nat, name: seq<Byte>, data: seq<Byte>)
    | NewDevice(parent: nat, name: seq<Byte>, major: int, minor: int)

  function Made(img: Img, op: Addition): Option<Img>
    requires Sized(img)
  {
    match op
    case NewDir(parent, name) => MakeDir(img, parent)
    case NewFile(parent, name, data) => MakeFile(img, data)
    case NewDevice(parent, name, major, minor) => MakeDevice(img, major, minor)
  }

  function Linked(img: Img, parent: nat): Option<Img> {
    if parent >= |img.links| || img.links[parent] == MAX_LINKS then None
    else Some(img.(links := img.links[parent := img.links[parent] + 1]))
  }

  /** `add_dir`, `add_file` and `add_chr`: make the inode, enter it in its parent. */
  function Added(img: Img, op: Addition): Option<Img>
    requires Sized(img)
  {
    match Made(img, op)
    case None => None
    case Some(a) =>
      if op.parent >= |a.fs.inodes| then None
      else
        match AddEntry(a, op.parent, op.name, img.nextInode)
        case None => None
        case Some(b) => if op.NewDir? then Linked(b, op.parent) else Some(b)
  }

  /** Parents are the numbers that `add_dir` returned. */
  predicate MayAdd(img: Img, op: Addition) {
    op.parent < |img.kinds| && img.kinds[op.parent] == Dir && CString(op.name)
  }

  // ---------- a directory as a list of entries ----------

  /** A name padded with NULs. */
  predicate Proper(f: seq<Byte>) {
    |f| == NAME_LEN && forall a, b :: 0 <= a < b < NAME_LEN && f[a] == 0 ==> f[b] == 0
  }

  ghost predicate Listed(c: seq<Byte>, f: seq<Byte>, target: nat) {
    exists i: nat :: DIRENT * i + DIRENT <= |c| && Name(c, i) == f && Ino(c, i) == target
  }

  /** Whole entries that name inodes in use, under names that are all different. */
  ghost predicate Listing(c: seq<Byte>, next: nat) {
    && |c| % DIRENT == 0 && |c| <= BLOCK_SIZE
    && (forall i: nat :: DIRENT * i + DIRENT <= |c| ==> 1 <= Ino(c, i) < next && Proper(Name(c, i)))
    && (forall i: nat, j: nat :: i < j && DIRENT * j + DIRENT <= |c| ==> Name(c, i) != Name(c, j))
  }

  ghost predicate HasName(c: seq<Byte>, name: seq<Byte>)
    requires |name| <= NAME_LEN
  {
    exists i: nat :: DIRENT * i + DIRENT <= |c| && Name(c, i) == Padded(name)
  }

  /** The block that holds `c` and nothing else. */
  function Page(c: seq<Byte>): (b: seq<Byte>)
    requires |c| <= BLOCK_SIZE
    ensures |b| == BLOCK_SIZE
  {
    c + Zeros(BLOCK_SIZE - |c|)
  }

  lemma PageEntry(c: seq<Byte>, i: nat)
    requires |c| <= BLOCK_SIZE && |c| % DIRENT == 0 && i < SLOTS
    ensures DIRENT * i < |c| ==> DIRENT * i + DIRENT <= |c| && Ino(Page(c), i) == Ino(c, i) && Name(Page(c), i) == Name(c, i)
    ensures DIRENT * i >= |c| ==> Ino(Page(c), i) == 0
  {
    if DIRENT * i < |c| {
      assert DIRENT * i + DIRENT <= |c|;
      assert Name(Page(c), i) == Name(c, i);
    }
  }

  lemma {:induction false} FirstSlotIs(c: seq<Byte>, next: nat, i: nat)
    requires Listing(c, next) && DIRENT * i <= |c|
    ensures DIRENT * FirstSlot(Page(c), i) == |c|
    decreases |c| - DIRENT * i
  {
    hide Page, Ino, Name;
    if i < SLOTS {
      PageEntry(c, i);
      if DIRENT * i < |c| {
        FirstSlotIs(c, next, i + 1);
      }
    }
  }

  lemma MatchIs(f: seq<Byte>, name: seq<Byte>)
    requires Proper(f) && |name| <= NAME_LEN && CString(name)
    ensures f[..|name|] == name && (|name| == NAME_LEN || f[|name|] == 0) <==> f == Padded(name)
  {
    var p := Padded(name);
    assert p[..|name|] == name;
    if f[..|name|] == name && (|name| == NAME_LEN || f[|name|] == 0) {
      forall k | 0 <= k < NAME_LEN
        ensures f[k] == p[k]
      {
        if k < |name| {
          assert f[k] == f[..|name|][k];
        }
      }
    }
  }

  /** The byte comparisons of `add_dirent` find a duplicate exactly when there is one. */
  lemma DuplicateIs(c: seq<Byte>, next: nat, name: seq<Byte>)
    requires Listing(c, next) && ValidName(name) && CString(name)
    ensures Duplicate(Page(c), name) <==> HasName(c, name)
  {
    hide Page, Ino, Name, Padded;
    forall i: nat | i < SLOTS
      ensures Matches(Page(c), i, name) <==> DIRENT * i + DIRENT <= |c| && Name(c, i) == Padded(name)
    {
      PageEntry(c, i);
      if DIRENT * i < |c| {
        MatchIs(Name(c, i), name);
      }
    }
    if HasName(c, name) {
      var i: nat :| DIRENT * i + DIRENT <= |c| && Name(c, i) == Padded(name);
      assert i < SLOTS;
    }
  }

  lemma EntryOf(c: seq<Byte>, target: nat, name: seq<Byte>, i: nat)
    requires |c| % DIRENT == 0 && target < 65536 && |name| <= NAME_LEN && DIRENT * i <= |c|
    ensures var d := c + Dirent(target, name);
      && (DIRENT * i < |c| ==> DIRENT * i + DIRENT <= |c| && Ino(d, i) == Ino(c, i) && Name(d, i) == Name(c, i))
      && (DIRENT * i == |c| ==> Ino(d, i) == target && Name(d, i) == Padded(name))
  {
    var d := c + Dirent(target, name);
    if DIRENT * i < |c| {
      assert DIRENT * i + DIRENT <= |c|;
      assert Name(d, i) == Name(c, i);
    } else {
      assert Name(d, i) == Padded(name);
    }
  }

  lemma PaddedProper(name: seq<Byte>)
    requires |name| <= NAME_LEN && CString(name)
    ensures Proper(Padded(name))
  {
    var p := Padded(name);
    assert forall a :: 0 <= a < |name| ==> p[a] == name[a];
  }

  lemma ListingGrows(c: seq<Byte>, next: nat, target: nat, name: seq<Byte>)
    requires Listing(c, next) && |c| < BLOCK_SIZE && ValidName(name) && CString(name) && !HasName(c, name)
    requires 1 <= target < next && target < 65536
    ensures Listing(c + Dirent(target, name), next) && Listed(c + Dirent(target, name), Padded(name), target)
  {
    hide Ino, Name, Padded, Dirent;
    var d := c + Dirent(target, name);
    PaddedProper(name);
    forall i: nat | DIRENT * i + DIRENT <= |d|
      ensures 1 <= Ino(d, i) < next && Proper(Name(d, i))
      ensures DIRENT * i < |c| ==> DIRENT * i + DIRENT <= |c| && Name(d, i) == Name(c, i)
      ensures DIRENT * i >= |c| ==> Name(d, i) == Padded(name)
    {
      EntryOf(c, target, name, i);
    }
    EntryOf(c, target, name, |c| / DIRENT);
  }

  // ---------- entering a name ----------

  /** Only inode `n` is touched. */
  ghost predicate OnlyFile(s: Fs, t: Fs, n: int) {
    && |t.inodes| == |s.inodes| && t.nzones == s.nzones && t.first == s.first
    && (forall m :: 0 <= m < |s.inodes| && m != n ==> SameNode(s, t, m))
    && (forall q: Ref :: q.n != n ==> Entry(t, q) == Entry(s, q))
  }

  ghost predicate SameNode(s: Fs, t: Fs, m: int)
    requires 0 <= m < |s.inodes| == |t.inodes|
  {
    && t.inodes[m].owns == s.inodes[m].owns && t.inodes[m].size == s.inodes[m].size
    && (!s.inodes[m].owns ==> t.inodes[m].zone == s.inodes[m].zone) && Contents(t, m) == Contents(s, m)
  }

  /** A directory that `add_dirent` can work on. */
  ghost predicate Open(s: Fs, owner: map<int, Ref>, dir: int, nextZone: nat, nextInode: nat) {
    Good(s, owner) && Tidy(s) && Bump(s, nextZone) && File(s, dir) && Dense(s, dir, 1)
    && Listing(Contents(s, dir), nextInode)
  }

  lemma DirBlockIs(s: Fs, owner: map<int, Ref>, dir: int)
    requires Good(s, owner) && Tidy(s) && File(s, dir) && Dense(s, dir, 1) && s.inodes[dir].size <= BLOCK_SIZE
    ensures DirBlock(s, dir) == Page(Contents(s, dir))
    ensures var z := SlotZone(s, dir, 0); 0 < z < |s.blocks| && Map(s, dir, 0) == z && DirBlock(s, dir) == s.blocks[z]
  {
    var z := SlotZone(s, dir, 0);
    assert Entry(s, Slot(dir, 0)) == z;
    assert Due(Slot(dir, 0), 1);
    assert z in owner;
    forall k | 0 <= k < BLOCK_SIZE
      ensures s.blocks[z][k] == ByteAt(s, dir, k)
    {
    }
    hide ByteAt, Entry;
    assert DirBlock(s, dir) == Page(Contents(s, dir));
  }

  ghost predicate CanEnter(c: seq<Byte>, name: seq<Byte>, target: int) {
    0 < |name| <= 14 && 47 !in name && 0 < target < 65536 && !HasName(c, name) && |c| < 1024
  }

  lemma EntryIs(img: Img, dir: nat, name: seq<Byte>, target: int, c: seq<Byte>)
    requires dir < |img.fs.inodes| && Listing(c, img.nextInode) && DirBlock(img.fs, dir) == Page(c)
    requires |c| == img.fs.inodes[dir].size && 0 < SlotZone(img.fs, dir, 0) < |img.fs.blocks| && CString(name)
    ensures AddEntry(img, dir, name, target) ==
      if !CanEnter(c, name, target) then None
      else
        var z := SlotZone(img.fs, dir, 0);
        Some(img.(fs := SetInode(img.fs.(blocks := img.fs.blocks[z := Spliced(DirBlock(img.fs, dir), |c|, Dirent(target, name))]),
                                 dir, img.fs.inodes[dir].(size := |c| + DIRENT))))
  {
    hide SlotZone, DirBlock, Dirent, Duplicate, FirstSlot;
    if ValidName(name) && 0 < target < 65536 {
      DuplicateIs(c, img.nextInode, name);
      FirstSlotIs(c, img.nextInode, 0);
      hide Listing;
      assert |c| < BLOCK_SIZE ==> |c| <= BLOCK_SIZE - DIRENT;
    }
  }

  /** `add_dirent` succeeds exactly when the name is a good one, is new, and there is room; it
      then appends one entry to the directory's bytes and does nothing else. */
  lemma EntryWorks(img: Img, owner: map<int, Ref>, dir: nat, name: seq<Byte>, target: int)
    requires Open(img.fs, owner, dir, img.nextZone, img.nextInode) && CString(name)
    ensures var c := Contents(img.fs, dir);
      match AddEntry(img, dir, name, target)
      case None => !CanEnter(c, name, target)
      case Some(t) =>
        && CanEnter(c, name, target) && t == img.(fs := t.fs) && OnlyFile(img.fs, t.fs, dir) && File(t.fs, dir)
        && Good(t.fs, owner) && Tidy(t.fs) && Bump(t.fs, img.nextZone) && (forall q :: Entry(t.fs, q) == Entry(img.fs, q))
        && Contents(t.fs, dir) == c + Dirent(target, name)
  {
    hide Entry, ByteAt, Map, Contents, Bump, Good, Tidy, Listing, Page, Dirent, AddEntry, DirBlock, SlotZone, HasName, Dense;
    var s := img.fs;
    var c := Contents(s, dir);
    OpenBlock(s, owner, dir, img.nextZone, img.nextInode);
    EntryIs(img, dir, name, target, c);
    if CanEnter(c, name, target) {
      Entered(s, owner, dir, name, target, img.nextZone, img.nextInode);
    }
  }

  /** The block of a directory that can be worked on holds its entries and nothing else. */
  lemma OpenBlock(s: Fs, owner: map<int, Ref>, dir: int, nextZone: nat, nextInode: nat)
    requires Open(s, owner, dir, nextZone, nextInode)
    ensures File(s, dir) && |s.inodes[dir].zone| == 9 && |Contents(s, dir)| == s.inodes[dir].size <= BLOCK_SIZE
    ensures Listing(Contents(s, dir), nextInode) && DirBlock(s, dir) == Page(Contents(s, dir))
    ensures var z := SlotZone(s, dir, 0); 0 < z < |s.blocks| && DirBlock(s, dir) == s.blocks[z] && |s.blocks[z]| == BLOCK_SIZE
  {
    hide Entry, ByteAt;
    assert s.inodes[dir].size == |Contents(s, dir)|;
    DirBlockIs(s, owner, dir);
  }

  lemma Entered(s: Fs, owner: map<int, Ref>, dir: nat, name: seq<Byte>, target: nat, nextZone: nat, nextInode: nat)
    requires Open(s, owner, dir, nextZone, nextInode) && CanEnter(Contents(s, dir), name, target)
    ensures var c := Contents(s, dir); var e := Dirent(target, name); var z := Map(s, dir, 0);
      var t := PutPiece(s, dir, z, |c|, e);
      && z == SlotZone(s, dir, 0) && 0 < z < |s.blocks| && |c| <= BLOCK_SIZE - DIRENT && |s.blocks[z]| == BLOCK_SIZE
      && t == SetInode(s.(blocks := s.blocks[z := Spliced(s.blocks[z], |c|, e)]), dir, s.inodes[dir].(size := |c| + DIRENT))
      && OnlyFile(s, t, dir) && Good(t, owner) && Tidy(t) && Bump(t, nextZone)
      && (forall q :: Entry(t, q) == Entry(s, q)) && Contents(t, dir) == c + e
  {
    hide Entry, ByteAt, Map, Good, Tidy, Bump, Dense, DirBlock;
    var c := Contents(s, dir);
    var e := Dirent(target, name);
    DirBlockIs(s, owner, dir);
    var z := Map(s, dir, 0);
    assert |c| % BLOCK_SIZE == |c| && |c| / BLOCK_SIZE == 0;
    assert |c| <= BLOCK_SIZE - DIRENT;
    PutKeeps(s, owner, dir, 0, |c|, e, nextZone);
    PutStores(s, owner, dir, z, |c|, e);
    var t := PutPiece(s, dir, z, |c|, e);
    StoredContents(s, dir, |c|, e, t);
    assert Overlay(c, |c|, e) == c + e;
  }

  // ---------- what is true of every image ----------

  ghost predicate Ready(img: Img, owner: map<int, Ref>) {
    && Sized(img) && 2 <= |img.fs.inodes| <= 65536 && 1 <= img.nextInode <= Inodes(img)
    && Good(img.fs, owner) && Tidy(img.fs) && Bump(img.fs, img.nextZone)
    && forall k :: 0 <= k < |img.ibits| ==> (img.ibits[k] <==> k < img.nextInode)
  }

  /** Inode `n`: used up to the next one; a file has exactly the zones its size needs, and a
      directory lists inodes in use under different names. */
  ghost predicate Node(img: Img, n: int)
    requires Sized(img) && 0 <= n < |img.kinds|
  {
    var e := img.fs.inodes[n];
    && (img.kinds[n] == Free <==> !(1 <= n < img.nextInode))
    && (e.owns <==> img.kinds[n] == Dir || img.kinds[n] == Regular)
    && (img.kinds[n] == Free ==> e.zone == NoZones())
    && (!e.owns ==> e.size == 0 && |e.zone| == 9 && e.zone[7] == 0 && e.zone[8] == 0)
    && (e.owns ==> Dense(img.fs, n, Blocks(e.size)))
    && (img.kinds[n] == Dir ==> 0 < e.size && Listing(Contents(img.fs, n), img.nextInode))
  }

  ghost predicate Built(img: Img, owner: map<int, Ref>) {
    Ready(img, owner) && forall n :: 0 <= n < |img.kinds| ==> Node(img, n)
  }

  /** Everything about inode `n` is as it was; more inodes may be in use. */
  ghost predicate Kept(img: Img, t: Img, n: int)
    requires Sized(img) && Sized(t) && |img.kinds| == |t.kinds| && 0 <= n < |img.kinds|
  {
    && t.kinds[n] == img.kinds[n] && SameNode(img.fs, t.fs, n)
    && (img.kinds[n] == Free ==> t.fs.inodes[n].zone == img.fs.inodes[n].zone)
    && (forall q: Ref :: q.n == n ==> Entry(t.fs, q) == Entry(img.fs, q))
  }

  lemma NodeKept(img: Img, t: Img, n: int)
    requires Sized(img) && Sized(t) && |img.kinds| == |t.kinds| && 0 <= n < |img.kinds|
    requires Kept(img, t, n) && Node(img, n) && img.nextInode <= t.nextInode
    requires 1 <= n < t.nextInode ==> n < img.nextInode
    ensures Node(t, n)
  {
    hide Entry, Contents, Due, Ino, Name;
  }

  // ---------- a new inode ----------

  /** The inode is there and owns nothing yet. */
  ghost predicate Fresh(img: Img, owner: map<int, Ref>, a: Img, kind: Kind, size: nat) {
    var n := img.nextInode;
    && Ready(img, owner) && Sized(a) && |a.kinds| == |img.kinds| && n < Inodes(img)
    && a.kinds == img.kinds[n := kind] && a.nextInode == n + 1 && a.nextZone == img.nextZone
    && a.ibits == img.ibits[n := true]
    && Good(a.fs, owner) && Tidy(a.fs) && Bump(a.fs, a.nextZone) && OnlyFile(img.fs, a.fs, n)
    && a.fs.inodes[n].owns == (kind != Device) && a.fs.inodes[n].size == size
    && (forall q :: Entry(a.fs, q) == Entry(img.fs, q)) && (forall q: Ref :: q.n == n ==> Entry(a.fs, q) == 0)
    && (forall p :: ByteAt(a.fs, n, p) == 0)
  }

  lemma {:induction false} NewInodeEntries(s: Fs, n: nat, e: Inode, q: Ref)
    requires n < |s.inodes| && !s.inodes[n].owns && (!e.owns || e.zone == NoZones())
    ensures Entry(SetInode(s, n, e), q) == Entry(s, q) && (q.n == n ==> Entry(s, q) == 0)
    decreases Depth(q)
  {
    if !q.Slot? {
      NewInodeEntries(s, n, e, Parent(q));
      TableIsParent(s, q);
      TableIsParent(SetInode(s, n, e), q);
    }
  }

  lemma BegunWorks(img: Img, owner: map<int, Ref>, kind: Kind, links: nat, zone: seq<nat>, size: nat)
    requires Built(img, owner) && img.nextInode < Inodes(img) && kind != Free && |zone| == 9 && size <= MAX_BYTES
    requires kind == Device || zone == NoZones()
    ensures Fresh(img, owner, Begun(img, kind, links, zone, size), kind, size)
  {
    var n := img.nextInode;
    var a := Begun(img, kind, links, zone, size);
    var e := Inode(kind != Device, zone, size);
    assert Node(img, n);
    forall q
      ensures Entry(a.fs, q) == Entry(img.fs, q) && (q.n == n ==> Entry(a.fs, q) == 0)
    {
      NewInodeEntries(img.fs, n, e, q);
    }
    SameBits(img.fs, a.fs);
    forall m, p
      ensures ByteAt(a.fs, m, p) == ByteAt(img.fs, m, p) && (m == n ==> ByteAt(a.fs, m, p) == 0)
    {
      SameByte(img.fs, a.fs, m, p);
      if m == n {
        NoByte(a.fs, m, p);
      }
    }
    hide Entry, ByteAt, Used, ZeroBlock, Listing, Dense;
  }

  lemma SameByte(s: Fs, t: Fs, m: int, p: int)
    requires t.blocks == s.blocks && forall q :: Entry(t, q) == Entry(s, q)
    ensures ByteAt(t, m, p) == ByteAt(s, m, p)
  {
    hide Entry, BlockRef;
  }

  lemma NoByte(s: Fs, m: int, p: int)
    requires forall q: Ref :: q.n == m ==> Entry(s, q) == 0
    ensures ByteAt(s, m, p) == 0
  {
    if 0 <= p < MAX_BYTES {
      Offsets(p);
      BlockRefs(s, m, p / BLOCK_SIZE, m, p / BLOCK_SIZE);
      hide Entry, BlockRef;
    }
  }

  /** Once the new inode is right, so is the image. */
  lemma Completed(img: Img, owner: map<int, Ref>, t: Img, o: map<int, Ref>)
    requires Built(img, owner) && img.nextInode < Inodes(img) && Sized(t) && |t.kinds| == |img.kinds|
    requires OnlyFile(img.fs, t.fs, img.nextInode) && t.nextInode == img.nextInode + 1
    requires forall m :: 0 <= m < |img.kinds| && m != img.nextInode ==> t.kinds[m] == img.kinds[m]
    requires forall m :: 0 <= m < |img.kinds| && m != img.nextInode ==> (img.kinds[m] == Free ==> t.fs.inodes[m].zone == img.fs.inodes[m].zone)
    requires t.ibits == img.ibits[img.nextInode := true]
    requires Good(t.fs, o) && Tidy(t.fs) && Bump(t.fs, t.nextZone) && Node(t, img.nextInode)
    ensures Built(t, o)
  {
    forall m | 0 <= m < |t.kinds|
      ensures Node(t, m)
    {
      if m != img.nextInode {
        hide Entry, Contents, Node, Good, Tidy, Bump;
        NodeKept(img, t, m);
      }
    }
    hide Entry, Contents, Node, Good, Tidy, Bump;
  }

  // ---------- making a file ----------

  lemma {:induction false} WriteInodes(s: Fs, n: int, pos: nat, bytes: seq<Byte>)
    ensures var t := FileWrite(s, n, pos, bytes).0;
      && |t.inodes| == |s.inodes| && forall m :: 0 <= m < |s.inodes| && m != n ==> t.inodes[m] == s.inodes[m]
    decreases |bytes|
  {
    hide Create, BlockRef, PutPiece;
    if bytes != [] {
      CreateInodes(s, BlockRef(n, pos / BLOCK_SIZE));
      BlockRefInode(n, pos / BLOCK_SIZE);
      var (a, z) := Create(s, BlockRef(n, pos / BLOCK_SIZE));
      if z != 0 {
        var c := Chunk(pos, |bytes|);
        PutInodes(a, n, z, pos, bytes[..c]);
        WriteInodes(PutPiece(a, n, z, pos, bytes[..c]), n, pos + c, bytes[c..]);
      }
    }
  }

  lemma PutInodes(s: Fs, n: int, z: nat, pos: nat, bytes: seq<Byte>)
    ensures var t := PutPiece(s, n, z, pos, bytes);
      && |t.inodes| == |s.inodes| && forall m :: 0 <= m < |s.inodes| && m != n ==> t.inodes[m] == s.inodes[m]
  {
  }

  lemma BlockRefInode(n: int, b: int)
    ensures BlockRef(n, b).n == n
  {
  }

  lemma BlocksFit(s: Fs, len: nat, next: nat)
    requires Bump(s, next) && next + FileZoneCount(len) <= s.nzones
    ensures Blocks(len) <= MAX_BLOCKS && len <= MAX_BYTES && FileZoneCount(len) == Total(Blocks(len))
  {
    FileCountIs(len);
    CountIsTotal(Blocks(len));
  }

  /** The whole of `data` written into a file that owns nothing yet. */
  ghost predicate FileFilled(s: Fs, owner: map<int, Ref>, n: int, data: seq<Byte>, next: nat, t: Fs, o: map<int, Ref>) {
    && Good(t, o) && Tidy(t) && Bump(t, next + FileZoneCount(|data|)) && OnlyFile(s, t, n) && File(t, n)
    && t.inodes[n].size == |data| && Contents(t, n) == data && Dense(t, n, Blocks(|data|))
    && forall m :: 0 <= m < |s.inodes| && m != n ==> t.inodes[m] == s.inodes[m]
  }

  lemma FillWorks(s: Fs, owner: map<int, Ref>, n: int, data: seq<Byte>, next: nat) returns (o: map<int, Ref>)
    requires Good(s, owner) && Tidy(s) && Bump(s, next) && File(s, n) && s.inodes[n].size == |data| && Dense(s, n, 0)
    requires next + FileZoneCount(|data|) <= s.nzones
    ensures FileFilled(s, owner, n, data, next, FileWrite(s, n, 0, data).0, o) && FileWrite(s, n, 0, data).1 == |data|
  {
    hide ByteAt, Contents, Entry, FileWrite, Bump, Good, Tidy, Stored, Dense, Overlay, Blocks, Total, FileZoneCount;
    BlocksFit(s, |data|, next);
    var t := FileWrite(s, n, 0, data).0;
    o := WriteFills(s, owner, n, 0, data, next);
    var w := WriteWorks(s, owner, n, 0, data);
    assert data[..|data|] == data;
    StoredContents(s, n, 0, data, t);
    WriteInodes(s, n, 0, data);
    WholeOverlay(s, n, data);
    StoredSizes(s, n, data, t);
    StoredOnly(s, n, data, t);
    NoBlocks();
  }

  lemma NoBlocks()
    ensures Total(0) == 0
  {
  }

  /** A new file takes exactly the zones counted in advance, in order, and reads back as its
      bytes; every other file and directory is as before. */
  lemma FileWorks(img: Img, owner: map<int, Ref>, data: seq<Byte>) returns (o: map<int, Ref>)
    requires Built(img, owner) && MakeFile(img, data).Some?
    ensures var t := MakeFile(img, data).value; var n := img.nextInode;
      && Built(t, o) && OnlyFile(img.fs, t.fs, n) && t.kinds == img.kinds[n := Regular] && t.nextInode == n + 1
      && t.nextZone == img.nextZone + FileZoneCount(|data|) && Contents(t.fs, n) == data
      && FileWrite(Begun(img, Regular, 1, NoZones(), |data|).fs, n, 0, data).1 == |data|
  {
    hide ByteAt, Contents, Entry, FileWrite, Bump, Good, Tidy, Listing, Blocks, FileZoneCount;
    var n := img.nextInode;
    BlocksFit(img.fs, |data|, img.nextZone);
    BegunWorks(img, owner, Regular, 1, NoZones(), |data|);
    var a := Begun(img, Regular, 1, NoZones(), |data|);
    assert Dense(a.fs, n, 0);
    hide Dense, NoZones;
    o := FillWorks(a.fs, owner, n, data, a.nextZone);
    var t := MakeFile(img, data).value;
    OnlyFileTwice(img.fs, a.fs, t.fs, n);
    assert forall m :: 0 <= m < |img.kinds| && m != n ==> t.kinds[m] == img.kinds[m];
    assert Node(t, n);
    Completed(img, owner, t, o);
  }

  lemma StoredSizes(s: Fs, n: int, data: seq<Byte>, t: Fs)
    requires Stored(s, n, 0, data, t) && File(s, n) && s.inodes[n].size == |data|
    ensures File(t, n) && t.inodes[n].size == |data|
  {
    hide ByteAt;
  }

  lemma StoredOnly(s: Fs, n: int, data: seq<Byte>, t: Fs)
    requires Stored(s, n, 0, data, t) && File(s, n)
    requires forall m :: 0 <= m < |s.inodes| && m != n && |t.inodes| == |s.inodes| ==>
      t.inodes[m].zone == s.inodes[m].zone && Contents(t, m) == Contents(s, m)
    requires forall q: Ref :: q.n != n ==> Entry(t, q) == Entry(s, q)
    ensures OnlyFile(s, t, n)
  {
    hide ByteAt, Contents, Entry;
  }

  lemma OnlyFileTwice(s: Fs, a: Fs, t: Fs, n: int)
    requires OnlyFile(s, a, n) && OnlyFile(a, t, n)
    ensures OnlyFile(s, t, n)
  {
    hide Contents, Entry;
    forall m | 0 <= m < |s.inodes| && m != n
      ensures SameNode(s, t, m)
    {
      assert SameNode(s, a, m) && SameNode(a, t, m);
    }
  }

  lemma WholeOverlay(s: Fs, n: int, data: seq<Byte>)
    requires File(s, n) && s.inodes[n].size == |data|
    ensures Overlay(Contents(s, n), 0, data) == data
  {
  }

  lemma DeviceWorks(img: Img, owner: map<int, Ref>, major: int, minor: int)
    requires Built(img, owner) && MakeDevice(img, major, minor).Some?
    ensures var t := MakeDevice(img, major, minor).value; var n := img.nextInode;
      && Built(t, owner) && OnlyFile(img.fs, t.fs, n) && t.kinds == img.kinds[n := Device] && t.nextInode == n + 1
  {
    hide ByteAt, Contents, Entry, Bump, Good, Tidy, Listing;
    var zone := DeviceZone(major, minor);
    BegunWorks(img, owner, Device, 1, zone, 0);
    var t := Begun(img, Device, 1, zone, 0);
    Completed(img, owner, t, owner);
  }

  // ---------- making a directory ----------

  lemma BareDirWorks(img: Img, owner: map<int, Ref>) returns (o: map<int, Ref>)
    requires Built(img, owner) && img.nextInode < Inodes(img) && img.nextZone < img.fs.nzones
    ensures var a := BareDir(img); var n := img.nextInode;
      && Open(a.fs, o, n, a.nextZone, a.nextInode) && Contents(a.fs, n) == [] && OnlyFile(img.fs, a.fs, n)
      && Sized(a) && a.kinds == img.kinds[n := Dir] && a.nextInode == n + 1 && a.nextZone == img.nextZone + 1
      && a.ibits == img.ibits[n := true]
  {
    hide ByteAt, Contents, Entry, Bump, Good, Tidy, Listing, Create;
    var n := img.nextInode;
    BegunWorks(img, owner, Dir, 2, NoZones(), 0);
    var b := Begun(img, Dir, 2, NoZones(), 0);
    assert Dense(b.fs, n, 0);
    o := NextBlock(b.fs, owner, n, 0, b.nextZone);
    var a := BareDir(img);
    var w := CreateStores(b.fs, owner, n, 0);
    StoredContents(b.fs, n, 0, [], a.fs);
    StoredFile(b.fs, n, 0, [], a.fs);
    assert Contents(a.fs, n) == [];
    NothingListed(a.nextInode);
    CreateInodes(b.fs, Slot(n, 0));
    StoredOnly(b.fs, n, [], a.fs);
    OnlyFileTwice(img.fs, b.fs, a.fs, n);
  }

  lemma NothingListed(next: nat)
    ensures Listing([], next)
  {
  }

  lemma DotsDiffer()
    ensures Padded(Dot()) != Padded(DotDot()) && ValidName(Dot()) && ValidName(DotDot())
    ensures CString(Dot()) && CString(DotDot())
  {
    assert Padded(Dot())[1] == 0 && Padded(DotDot())[1] == 46;
  }

  function Home(n: nat, parent: nat): nat {
    if parent == 0 then n else parent
  }

  /** The entry `.` of a new directory. */
  lemma FirstEntry(a: Img, o: map<int, Ref>, n: nat)
    requires Open(a.fs, o, n, a.nextZone, a.nextInode) && Contents(a.fs, n) == [] && 1 <= n < a.nextInode && n < 65536
    ensures AddEntry(a, n, Dot(), n).Some?
    ensures var b := AddEntry(a, n, Dot(), n).value;
      && b == a.(fs := b.fs) && OnlyFile(a.fs, b.fs, n) && Open(b.fs, o, n, b.nextZone, b.nextInode)
      && Contents(b.fs, n) == Dirent(n, Dot()) && !HasName(Dirent(n, Dot()), DotDot())
  {
    hide Contents, Entry, Bump, Good, Tidy, Listing, Padded, Dirent, Dot, DotDot, AddEntry, HasName;
    DotsDiffer();
    assert !HasName([], Dot()) by { NoNames(Dot()); }
    EntryWorks(a, o, n, Dot(), n);
    var b := AddEntry(a, n, Dot(), n).value;
    ListingGrows([], a.nextInode, n, Dot());
    assert [] + Dirent(n, Dot()) == Dirent(n, Dot());
    OneName(n, Dot(), DotDot());
    DenseKept(a.fs, b.fs, n, 1);
  }

  /** A new directory holds `.` and `..` and takes one zone. */
  lemma DirWorks(img: Img, owner: map<int, Ref>, parent: nat) returns (o: map<int, Ref>)
    requires Built(img, owner) && parent < img.nextInode
    ensures MakeDir(img, parent).Some? <==> img.nextInode < Inodes(img) && img.nextZone < img.fs.nzones
    ensures MakeDir(img, parent).Some? ==>
      var t := MakeDir(img, parent).value; var n := img.nextInode;
      && Built(t, o) && OnlyFile(img.fs, t.fs, n) && t.kinds == img.kinds[n := Dir] && t.nextInode == n + 1
      && t.nextZone == img.nextZone + 1
      && Contents(t.fs, n) == Dirent(n, Dot()) + Dirent(Home(n, parent), DotDot())
  {
    o := owner;
    if img.nextInode < Inodes(img) && img.nextZone < img.fs.nzones {
      hide Contents, Entry, Bump, Good, Tidy, Listing, Padded, Dirent, Dot, DotDot, AddEntry, BareDir, HasName, Begun;
      var n := img.nextInode;
      o := BareDirWorks(img, owner);
      var a := BareDir(img);
      FirstEntry(a, o, n);
      DotsDiffer();
      var b := AddEntry(a, n, Dot(), n).value;
      EntryWorks(b, o, n, DotDot(), Home(n, parent));
      var t := AddEntry(b, n, DotDot(), Home(n, parent)).value;
      ListingGrows(Dirent(n, Dot()), a.nextInode, Home(n, parent), DotDot());
      DenseKept(b.fs, t.fs, n, 1);
      OnlyFileTwice(img.fs, a.fs, b.fs, n);
      OnlyFileTwice(img.fs, b.fs, t.fs, n);
      DirNode(img, owner, t, o, n);
    }
  }

  lemma NoNames(name: seq<Byte>)
    requires |name| <= NAME_LEN
    ensures !HasName([], name)
  {
  }

  lemma OneName(target: nat, name: seq<Byte>, other: seq<Byte>)
    requires target < 65536 && |name| <= NAME_LEN && |other| <= NAME_LEN && Padded(name) != Padded(other)
    ensures !HasName(Dirent(target, name), other)
  {
    var d := Dirent(target, name);
    assert forall i: nat :: DIRENT * i + DIRENT <= |d| ==> i == 0;
    assert Name(d, 0) == Padded(name);
  }

  lemma DirNode(img: Img, owner: map<int, Ref>, t: Img, o: map<int, Ref>, n: nat)
    requires Built(img, owner) && n == img.nextInode < Inodes(img) && Sized(t) && t.nextInode == n + 1
    requires t.kinds == img.kinds[n := Dir] && t.ibits == img.ibits[n := true] && OnlyFile(img.fs, t.fs, n)
    requires Good(t.fs, o) && Tidy(t.fs) && Bump(t.fs, t.nextZone) && File(t.fs, n) && Dense(t.fs, n, 1)
    requires |Contents(t.fs, n)| == 2 * DIRENT && Listing(Contents(t.fs, n), t.nextInode)
    ensures Built(t, o)
  {
    hide Entry, Contents, Bump, Good, Tidy, Listing;
    assert t.fs.inodes[n].size == 2 * DIRENT;
    assert Blocks(2 * DIRENT) == 1;
    forall m | 0 <= m < |img.kinds| && m != n
      ensures img.kinds[m] == Free ==> t.fs.inodes[m].zone == img.fs.inodes[m].zone
    {
      assert Node(img, m) && SameNode(img.fs, t.fs, m);
    }
    Completed(img, owner, t, o);
  }

  // ---------- one operation ----------

  /** What decides whether an operation succeeds: an inode, the zones, a good new name, a slot in
      the directory and, for a directory, room in the parent's link count. */
  ghost predicate Fits(img: Img, op: Addition)
    requires Sized(img) && MayAdd(img, op)
  {
    && img.nextInode < Inodes(img)
    && CanEnter(Contents(img.fs, op.parent), op.name, img.nextInode)
    && match op
       case NewDir(p, name) => img.nextZone < img.fs.nzones && img.links[p] != 255
       case NewFile(p, name, data) => img.nextZone + FileZoneCount(|data|) <= img.fs.nzones
       case NewDevice(p, name, major, minor) => 0 <= major <= 255 && 0 <= minor <= 255
  }

  /** A directory starts with `.`, which names itself, and `..`, which names its parent. */
  predicate Dotted(c: seq<Byte>, n: nat, parent: nat) {
    && |c| >= 32 && (c[0] as int) + 256 * (c[1] as int) == n && c[2] == 46 && c[3] == 0
    && (c[16] as int) + 256 * (c[17] as int) == parent && c[18] == 46 && c[19] == 46 && c[20] == 0
  }

  lemma DotsAre(n: nat, parent: nat)
    requires n < 65536 && parent < 65536
    ensures Dotted(Dirent(n, Dot()) + Dirent(parent, DotDot()), n, parent)
  {
  }

  /** What the operation puts into the image: an inode of its own, entered under its name. */
  ghost predicate Holds(t: Img, op: Addition, n: nat) {
    && Sized(t) && op.parent < |t.kinds| && n < |t.kinds| && |op.name| <= NAME_LEN
    && Listed(Contents(t.fs, op.parent), Padded(op.name), n)
    && match op
       case NewDir(p, name) => t.kinds[n] == Dir && Dotted(Contents(t.fs, n), n, p)
       case NewFile(p, name, data) => t.kinds[n] == Regular && Contents(t.fs, n) == data
       case NewDevice(p, name, major, minor) => t.kinds[n] == Device && t.fs.inodes[n].zone == DeviceZone(major, minor)
  }

  /** Later images keep every inode: files and devices as they are, directories with more entries. */
  ghost predicate Extends(img: Img, t: Img) {
    && Sized(img) && Sized(t) && |img.kinds| == |t.kinds|
    && forall n :: 0 <= n < |img.kinds| && img.kinds[n] != Free ==> KeepsNode(img, t, n)
  }

  ghost predicate KeepsNode(img: Img, t: Img, n: int)
    requires Sized(img) && Sized(t) && |img.kinds| == |t.kinds| && 0 <= n < |img.kinds|
  {
    && t.kinds[n] == img.kinds[n]
    && (img.kinds[n] == Regular ==> Contents(t.fs, n) == Contents(img.fs, n))
    && (img.kinds[n] == Device ==> t.fs.inodes[n] == img.fs.inodes[n])
    && (img.kinds[n] == Dir ==> Contents(img.fs, n) <= Contents(t.fs, n))
  }

  /** Making the inode, whichever kind. */
  ghost predicate MadeWell(img: Img, op: Addition, a: Img, o: map<int, Ref>) {
    var n := img.nextInode;
    && Built(a, o) && |a.kinds| == |img.kinds| && OnlyFile(img.fs, a.fs, n) && n < |img.kinds| && a.nextInode == n + 1
    && a.kinds == img.kinds[n := if op.NewDir? then Dir else if op.NewFile? then Regular else Device]
    && (op.NewDir? ==> Dotted(Contents(a.fs, n), n, op.parent))
    && (op.NewFile? ==> Contents(a.fs, n) == op.data)
    && (op.NewDevice? ==> a.fs.inodes[n].zone == DeviceZone(op.major, op.minor))
    && |a.links| == |img.links| && (forall m :: 0 <= m < |img.links| && m != n ==> a.links[m] == img.links[m])
  }

  lemma MadeWorks(img: Img, owner: map<int, Ref>, op: Addition) returns (o: map<int, Ref>)
    requires Built(img, owner) && MayAdd(img, op)
    ensures match Made(img, op)
      case None => !Fits(img, op)
      case Some(a) =>
        && MadeWell(img, op, a, o) && img.nextInode < Inodes(img)
        && (op.NewDir? ==> img.nextZone < img.fs.nzones)
        && (op.NewFile? ==> img.nextZone + FileZoneCount(|op.data|) <= img.fs.nzones)
        && (op.NewDevice? ==> DeviceRange(op.major, op.minor))
  {
    hide Contents, Entry, Bump, Good, Tidy, Listing, Padded, Dirent;
    assert Node(img, op.parent);
    o := owner;
    match op
    case NewDir(parent, name) =>
      o := DirWorks(img, owner, parent);
      if MakeDir(img, parent).Some? {
        DirLinks(img, parent);
        DotsAre(img.nextInode, parent);
      }
    case NewFile(parent, name, data) =>
      if MakeFile(img, data).Some? {
        o := FileWorks(img, owner, data);
      }
    case NewDevice(parent, name, major, minor) =>
      if MakeDevice(img, major, minor).Some? {
        DeviceWorks(img, owner, major, minor);
      }
  }

  lemma DirLinks(img: Img, parent: nat)
    requires Sized(img) && MakeDir(img, parent).Some?
    ensures MakeDir(img, parent).value.links == img.links[img.nextInode := 2]
  {
  }

  /** Entering the new inode in its parent keeps everything right. */
  lemma EntryBuilt(img: Img, owner: map<int, Ref>, dir: nat, name: seq<Byte>, n: nat)
    requires Built(img, owner) && dir < |img.kinds| && img.kinds[dir] == Dir && CString(name) && 1 <= n < img.nextInode
    ensures var c := Contents(img.fs, dir);
      match AddEntry(img, dir, name, n)
      case None => !CanEnter(c, name, n)
      case Some(t) =>
        && CanEnter(c, name, n) && t == img.(fs := t.fs) && OnlyFile(img.fs, t.fs, dir) && Built(t, owner)
        && Contents(t.fs, dir) == c + Dirent(n, name) && Listed(Contents(t.fs, dir), Padded(name), n)
  {
    hide Contents, Entry, Bump, Good, Tidy, Listing, Padded, Dirent, HasName, Listed, AddEntry;
    assert Node(img, dir);
    var c := Contents(img.fs, dir);
    ShortListing(c, img.nextInode);
    EntryWorks(img, owner, dir, name, n);
    if AddEntry(img, dir, name, n).Some? {
      var t := AddEntry(img, dir, name, n).value;
      ListingGrows(c, img.nextInode, n, name);
      DenseKept(img.fs, t.fs, dir, 1);
      ShortListing(Contents(t.fs, dir), img.nextInode);
      forall m | 0 <= m < |t.kinds|
        ensures Node(t, m)
      {
        assert Node(img, m);
        if m != dir {
          assert SameNode(img.fs, t.fs, m);
          assert Kept(img, t, m);
          NodeKept(img, t, m);
        }
      }
    }
  }

  lemma DirOpen(img: Img, owner: map<int, Ref>, dir: nat)
    requires Built(img, owner) && dir < |img.kinds| && img.kinds[dir] == Dir
    ensures Open(img.fs, owner, dir, img.nextZone, img.nextInode)
  {
    hide Contents, Entry, Bump, Good, Tidy, Listing;
    assert Node(img, dir);
    ShortListing(Contents(img.fs, dir), img.nextInode);
  }

  lemma ShortListing(c: seq<Byte>, next: nat)
    requires Listing(c, next)
    ensures |c| <= BLOCK_SIZE && |c| % DIRENT == 0 && (|c| > 0 ==> Blocks(|c|) == 1)
  {
  }

  lemma ReadyLinked(img: Img, owner: map<int, Ref>, dir: nat)
    requires Built(img, owner) && Linked(img, dir).Some?
    ensures Built(Linked(img, dir).value, owner) && Linked(img, dir).value.fs == img.fs
    ensures Linked(img, dir).value.kinds == img.kinds && Linked(img, dir).value.nextInode == img.nextInode
  {
    hide Contents, Entry, Bump, Good, Tidy, Listing;
    var t := Linked(img, dir).value;
    forall m | 0 <= m < |t.kinds|
      ensures Node(t, m)
    {
      assert Node(img, m);
    }
  }

  /** The image after an operation, and whether it succeeds. */
  lemma AddedWorks(img: Img, owner: map<int, Ref>, op: Addition) returns (o: map<int, Ref>)
    requires Built(img, owner) && MayAdd(img, op)
    ensures Added(img, op).Some? <==> Fits(img, op)
    ensures Added(img, op).Some? ==>
      var t := Added(img, op).value;
      Built(t, o) && Extends(img, t) && Holds(t, op, img.nextInode) && t.nextInode == img.nextInode + 1
  {
    hide Contents, Entry, Bump, Good, Tidy, Listing, Padded, Dirent, HasName, Listed, AddEntry, Made, Node;
    var n := img.nextInode;
    o := MadeWorks(img, owner, op);
    if Made(img, op).Some? {
      var a := Made(img, op).value;
      InUse(img, owner);
      assert SameNode(img.fs, a.fs, op.parent);
      EntryBuilt(a, o, op.parent, op.name, n);
      if AddEntry(a, op.parent, op.name, n).Some? {
        var b := AddEntry(a, op.parent, op.name, n).value;
        InUse(a, o);
        AddedExtends(img, op, a, o, b);
        if op.NewDir? && Linked(b, op.parent).Some? {
          ReadyLinked(b, o, op.parent);
        }
      }
    }
  }

  /** Only inodes below the next one are in use, and devices own no zones. */
  ghost predicate KindsRight(img: Img) {
    Sized(img) && forall n :: 0 <= n < |img.kinds| && img.kinds[n] != Free ==>
      1 <= n < img.nextInode && (img.kinds[n] == Device ==> !img.fs.inodes[n].owns)
  }

  lemma InUse(img: Img, owner: map<int, Ref>)
    requires Built(img, owner)
    ensures KindsRight(img)
  {
    hide Entry, Contents, Due, Listing;
    forall n | 0 <= n < |img.kinds| && img.kinds[n] != Free
      ensures 1 <= n < img.nextInode && (img.kinds[n] == Device ==> !img.fs.inodes[n].owns)
    {
      assert Node(img, n);
    }
  }

  lemma AddedExtends(img: Img, op: Addition, a: Img, o: map<int, Ref>, b: Img)
    requires Sized(img) && MayAdd(img, op) && MadeWell(img, op, a, o) && op.parent < img.nextInode
    requires KindsRight(img) && KindsRight(a)
    requires Sized(b) && b == a.(fs := b.fs) && OnlyFile(a.fs, b.fs, op.parent)
    requires |op.name| <= NAME_LEN && img.nextInode < 65536
    requires Contents(b.fs, op.parent) == Contents(a.fs, op.parent) + Dirent(img.nextInode, op.name)
    requires Listed(Contents(b.fs, op.parent), Padded(op.name), img.nextInode)
    ensures Extends(img, b) && Holds(b, op, img.nextInode)
  {
    hide Contents, Entry, Built, Padded, Dirent, Listed;
    forall n | 0 <= n < |img.kinds| && img.kinds[n] != Free
      ensures KeepsNode(img, b, n)
    {
      assert SameNode(img.fs, a.fs, n);
      if n != op.parent {
        assert SameNode(a.fs, b.fs, n);
      }
    }
    assert SameNode(a.fs, b.fs, img.nextInode);
  }

  // ---------- whole images ----------

  ghost predicate MayBuild(img: Img, ops: seq<Addition>)
    decreases |ops|
  {
    ops == [] || (Sized(img) && MayAdd(img, ops[0]) && (Added(img, ops[0]).Some? ==> MayBuild(Added(img, ops[0]).value, ops[1..])))
  }

  /** The operations in order; none if one of them fails. */
  ghost function Assembled(img: Img, ops: seq<Addition>): Option<Img>
    requires MayBuild(img, ops)
    decreases |ops|
  {
    if ops == [] then Some(img)
    else
      match Added(img, ops[0])
      case None => None
      case Some(a) => Assembled(a, ops[1..])
  }

  lemma ExtendsTwice(a: Img, b: Img, c: Img)
    requires Extends(a, b) && Extends(b, c)
    ensures Extends(a, c)
  {
    hide Contents;
    forall n | 0 <= n < |a.kinds| && a.kinds[n] != Free
      ensures KeepsNode(a, c, n)
    {
      assert KeepsNode(a, b, n);
      assert KeepsNode(b, c, n);
    }
  }

  lemma HoldsStays(a: Img, b: Img, op: Addition, n: nat)
    requires Extends(a, b) && Holds(a, op, n) && a.kinds[op.parent] == Dir
    ensures Holds(b, op, n)
  {
    hide Contents;
    assert KeepsNode(a, b, n) && KeepsNode(a, b, op.parent);
    ListedStays(Contents(a.fs, op.parent), Contents(b.fs, op.parent), Padded(op.name), n);
  }

  lemma ListedStays(c: seq<Byte>, d: seq<Byte>, f: seq<Byte>, n: nat)
    requires c <= d && Listed(c, f, n)
    ensures Listed(d, f, n)
  {
    var i: nat :| DIRENT * i + DIRENT <= |c| && Name(c, i) == f && Ino(c, i) == n;
    assert Name(d, i) == Name(c, i);
  }

  /** An image built by any operations is in order, and still holds at the end what each of them
      put there: the file under its name with its bytes, the device with its numbers. */
  lemma {:induction false} AssembledWorks(img: Img, owner: map<int, Ref>, ops: seq<Addition>) returns (o: map<int, Ref>)
    requires Built(img, owner) && MayBuild(img, ops) && Assembled(img, ops).Some?
    ensures var t := Assembled(img, ops).value;
      && Built(t, o) && Extends(img, t) && t.nextInode == img.nextInode + |ops|
      && forall k :: 0 <= k < |ops| ==> Holds(t, ops[k], img.nextInode + k)
    decreases |ops|
  {
    hide Built, Added, Contents, KeepsNode, Holds;
    o := owner;
    if ops == [] {
      SelfExtends(img, owner);
    } else {
      o := AddedWorks(img, owner, ops[0]);
      var a := Added(img, ops[0]).value;
      o := AssembledWorks(a, o, ops[1..]);
      var t := Assembled(img, ops).value;
      ExtendsTwice(img, a, t);
      assert KeepsNode(img, a, ops[0].parent);
      ParentStays(img, a, ops[0].parent);
      HoldsStays(a, t, ops[0], img.nextInode);
      forall k | 0 <= k < |ops|
        ensures Holds(t, ops[k], img.nextInode + k)
      {
        if k > 0 {
          assert ops[1..][k - 1] == ops[k];
        }
      }
    }
  }

  lemma ParentStays(img: Img, a: Img, dir: nat)
    requires Extends(img, a) && dir < |img.kinds| && img.kinds[dir] == Dir
    ensures a.kinds[dir] == Dir
  {
    assert KeepsNode(img, a, dir);
  }

  lemma SelfExtends(img: Img, owner: map<int, Ref>)
    requires Built(img, owner)
    ensures Extends(img, img)
  {
    hide Contents;
  }

  // ---------- the first image ----------

  const NZONES: nat := 1024
  const NINODES: nat := 256
  const FIRST_DATA_ZONE: nat := 12
  const MAP_BITS: nat := 8192

  /** The cleared image with its super block and the two bits that are set before anything. */
  function Blank(): Img {
    Img(Fs(seq(MAP_BITS, k => k == 0), FIRST_DATA_ZONE, NZONES, seq(NZONES, z => ZeroBlock()),
           seq(NINODES + 1, n => Inode(false, NoZones(), 0))),
        seq(NINODES + 1, n => Free), seq(NINODES + 1, n => 0), seq(MAP_BITS, k => k == 0), 1, FIRST_DATA_ZONE)
  }

  lemma {:induction false} BlankEntries(q: Ref)
    ensures Entry(Blank().fs, q) == 0
    decreases Depth(q)
  {
    if !q.Slot? {
      BlankEntries(Parent(q));
      TableIsParent(Blank().fs, q);
    }
  }

  lemma BlankBuilt()
    ensures Built(Blank(), map[])
  {
    var img := Blank();
    forall q
      ensures Entry(img.fs, q) == 0
    {
      BlankEntries(q);
    }
    forall n | 0 <= n < |img.kinds|
      ensures Node(img, n)
    {
      assert img.fs.inodes[n] == Inode(false, NoZones(), 0);
    }
    hide Entry;
  }

  /** The root directory is inode 1, and what is built on it is a volume that the kernel's file
      system works on: every zone in use has one owner and every file its bytes. */
  lemma ImageIsVolume(ops: seq<Addition>) returns (o: map<int, Ref>)
    ensures MakeDir(Blank(), 0).Some?
    ensures var root := MakeDir(Blank(), 0).value;
      && root.kinds[1..2] == [Dir] && Contents(root.fs, 1) == Dirent(1, Dot()) + Dirent(1, DotDot())
      && (MayBuild(root, ops) && Assembled(root, ops).Some? ==>
            Built(Assembled(root, ops).value, o) && Conserved(Assembled(root, ops).value.fs))
  {
    hide Built, Assembled, Contents, Dirent, Blank, MakeDir;
    BlankBuilt();
    BlankSizes();
    o := DirWorks(Blank(), map[], 0);
    var root := MakeDir(Blank(), 0).value;
    if MayBuild(root, ops) && Assembled(root, ops).Some? {
      o := AssembledWorks(root, o, ops);
      BuiltConserves(Assembled(root, ops).value, o);
    }
  }

  lemma BlankSizes()
    ensures Blank().nextInode == 1 && Inodes(Blank()) == NINODES && Blank().nextZone < Blank().fs.nzones
    ensures |Blank().kinds| == NINODES + 1 && Sized(Blank())
  {
  }

  lemma BuiltConserves(img: Img, o: map<int, Ref>)
    requires Built(img, o)
    ensures Conserved(img.fs)
  {
  }
}
