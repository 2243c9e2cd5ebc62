/** Link counts of the images that mkimage writes: the count in an inode is the number of directory
    entries that name it, `.` and `..` among them. */
module ImageLinks {
  import opened Options
  import opened ZoneTree
  import opened FileBytes
  import opened ImageZones
  import opened ImageBuild

  /** How many of the first `k` entries of a directory's bytes name inode `x`. */
  function Naming(c: seq<Byte>, x: int, k: nat): nat
    requires 16 * k <= |c|
  {
    if k == 0 then 0
    else
      assert 16 * (k - 1) <= |c|;
      Naming(c, x, k - 1) + if (c[16 * (k - 1)] as int) + 256 * (c[16 * (k - 1) + 1] as int) == x then 1 else 0
  }

  ghost function EntriesNaming(c: seq<Byte>, x: int): nat {
    Naming(c, x, |c| / 16)
  }

  /** The entries of the directories below inode `m` that name `x`. */
  ghost function References(img: Img, x: int, m: nat): nat
    requires Sized(img) && m <= |img.kinds|
  {
    if m == 0 then 0
    else References(img, x, m - 1) + if img.kinds[m - 1] == Dir then EntriesNaming(Contents(img.fs, m - 1), x) else 0
  }

  ghost predicate LinksExact(img: Img) {
    Sized(img) && forall x :: 0 <= x < |img.kinds| && img.kinds[x] != Free ==> LinkExact(img, x)
  }

  ghost predicate LinkExact(img: Img, x: int)
    requires Sized(img) && 0 <= x < |img.kinds|
  {
    img.links[x] == References(img, x, |img.kinds|)
  }

  // ---------- entries ----------

  lemma {:induction false} NamingPrefix(c: seq<Byte>, d: seq<Byte>, x: int, k: nat)
    requires 16 * k <= |c|
    ensures Naming(c + d, x, k) == Naming(c, x, k)
  {
    if k > 0 {
      assert 16 * (k - 1) <= |c|;
      NamingPrefix(c, d, x, k - 1);
    }
  }

  lemma OneMoreEntry(c: seq<Byte>, target: nat, name: seq<Byte>, x: int)
    requires |c| % 16 == 0 && target < 65536 && |name| <= 14
    ensures EntriesNaming(c + Dirent(target, name), x) == EntriesNaming(c, x) + if x == target then 1 else 0
  {
    var d := Dirent(target, name);
    var k := |c| / 16;
    assert |c| == 16 * k && |c + d| / 16 == k + 1;
    NamingPrefix(c, d, x, k);
    assert (c + d)[16 * k] == d[0] && (c + d)[16 * k + 1] == d[1];
    assert d[0] == target % 256 && d[1] == target / 256;
  }

  lemma NoEntries(x: int)
    ensures EntriesNaming([], x) == 0
  {
  }

  /** The entries `.` and `..`. */
  lemma DotEntries(n: nat, parent: nat, x: int)
    requires n < 65536 && parent < 65536
    ensures EntriesNaming(Dirent(n, Dot()) + Dirent(parent, DotDot()), x)
         == (if x == n then 1 else 0) + if x == parent then 1 else 0
  {
    var none: seq<Byte> := [];
    OneMoreEntry(none, n, Dot(), x);
    assert none + Dirent(n, Dot()) == Dirent(n, Dot());
    NoEntries(x);
    OneMoreEntry(Dirent(n, Dot()), parent, DotDot(), x);
  }

  lemma {:induction false} UnusedUnnamed(c: seq<Byte>, next: nat, x: int, k: nat)
    requires Listing(c, next) && x >= next && 16 * k <= |c|
    ensures Naming(c, x, k) == 0
  {
    if k > 0 {
      assert 16 * (k - 1) + 16 <= |c|;
      assert Ino(c, k - 1) < next;
      UnusedUnnamed(c, next, x, k - 1);
    }
  }

  lemma {:induction false} NotYetNamed(img: Img, owner: map<int, Ref>, x: int, m: nat)
    requires Built(img, owner) && Sized(img) && x >= img.nextInode && m <= |img.kinds|
    ensures References(img, x, m) == 0
  {
    hide Built, Contents, Listing;
    if m > 0 {
      NotYetNamed(img, owner, x, m - 1);
      if img.kinds[m - 1] == Dir {
        DirListing(img, owner, m - 1);
        var c := Contents(img.fs, m - 1);
        UnusedUnnamed(c, img.nextInode, x, |c| / 16);
      }
    }
  }

  lemma DirListing(img: Img, owner: map<int, Ref>, d: nat)
    requires Built(img, owner) && d < |img.kinds| && img.kinds[d] == Dir
    ensures Sized(img)
    ensures Listing(Contents(img.fs, d), img.nextInode) && |Contents(img.fs, d)| % 16 == 0 && 1 <= d < img.nextInode
  {
    hide Contents, Entry;
    assert Node(img, d);
  }

  // ---------- one operation ----------

  /** What an operation does to kinds, links and directories. */
  ghost predicate Enters(img: Img, op: Addition, t: Img) {
    var n := img.nextInode;
    && Sized(img) && Sized(t) && n < |img.kinds| == |t.kinds| && op.parent < n < 65536 && |op.name| <= 14
    && img.kinds[n] == Free && img.kinds[op.parent] == Dir
    && t.kinds == img.kinds[n := if op.NewDir? then Dir else if op.NewFile? then Regular else Device]
    && (forall x :: 0 <= x < |t.links| ==>
          t.links[x] == if x == n then (if op.NewDir? then 2 else 1) else img.links[x] + if op.NewDir? && x == op.parent then 1 else 0)
    && (forall d :: 0 <= d < |t.kinds| && d != n && d != op.parent && img.kinds[d] == Dir ==> Contents(t.fs, d) == Contents(img.fs, d))
    && Contents(t.fs, op.parent) == Contents(img.fs, op.parent) + Dirent(n, op.name)
    && (op.NewDir? ==> Contents(t.fs, n) == Dirent(n, Dot()) + Dirent(op.parent, DotDot()))
  }

  lemma AddedEnters(img: Img, owner: map<int, Ref>, op: Addition)
    requires Built(img, owner) && MayAdd(img, op) && Added(img, op).Some?
    ensures Enters(img, op, Added(img, op).value)
  {
    hide Contents, Entry, Bump, Good, Tidy, Listing, Padded, Dirent, HasName, Listed, AddEntry, Dot, DotDot;
    var n := img.nextInode;
    DirListing(img, owner, op.parent);
    assert Node(img, n);
    var o := MadeWorks(img, owner, op);
    var a := Made(img, op).value;
    EntryBuilt(a, o, op.parent, op.name, n);
    var b := AddEntry(a, op.parent, op.name, n).value;
    MadeLinks(img, op);
    if op.NewDir? {
      var p := DirWorks(img, owner, op.parent);
    }
    forall d | 0 <= d < |img.kinds| && d != n && d != op.parent
      ensures Contents(b.fs, d) == Contents(img.fs, d)
    {
      assert SameNode(img.fs, a.fs, d) && SameNode(a.fs, b.fs, d);
    }
    assert SameNode(img.fs, a.fs, op.parent);
    assert SameNode(a.fs, b.fs, n);
  }

  lemma MadeLinks(img: Img, op: Addition)
    requires Sized(img) && Made(img, op).Some?
    ensures Made(img, op).value.links == img.links[img.nextInode := if op.NewDir? then 2 else 1]
  {
    if op.NewDir? {
      DirLinks(img, op.parent);
    }
  }

  /** The sum over the directories changes by the new entries. */
  lemma {:induction false} MoreReferences(img: Img, op: Addition, t: Img, x: int, m: nat)
    requires Enters(img, op, t) && Sized(img) && Sized(t) && m <= |img.kinds| == |t.kinds| && op.parent < |img.kinds| && |Contents(img.fs, op.parent)| % 16 == 0
    ensures var n := img.nextInode;
      References(t, x, m)
      == References(img, x, m) + (if op.parent < m && x == n then 1 else 0)
         + if n < m && op.NewDir? then (if x == n then 1 else 0) + (if x == op.parent then 1 else 0) else 0
  {
    hide Contents, EntriesNaming, Dirent, Dot, DotDot;
    if m > 0 {
      var d := m - 1;
      MoreReferences(img, op, t, x, d);
      if d == op.parent {
        OneMoreEntry(Contents(img.fs, d), img.nextInode, op.name, x);
      } else if d == img.nextInode && op.NewDir? {
        DotEntries(d, op.parent, x);
      }
    }
  }

  /** Every operation keeps the link counts exact. */
  lemma LinksStay(img: Img, owner: map<int, Ref>, op: Addition)
    requires Built(img, owner) && MayAdd(img, op) && Added(img, op).Some? && LinksExact(img)
    ensures LinksExact(Added(img, op).value)
  {
    hide Built, Contents, Added, References, Dirent, Dot, DotDot;
    var t := Added(img, op).value;
    AddedEnters(img, owner, op);
    DirListing(img, owner, op.parent);
    forall x | 0 <= x < |t.kinds| && t.kinds[x] != Free
      ensures LinkExact(t, x)
    {
      MoreReferences(img, op, t, x, |t.kinds|);
      if x == img.nextInode {
        NotYetNamed(img, owner, x, |t.kinds|);
      } else {
        assert LinkExact(img, x);
      }
    }
  }

  lemma {:induction false} RunLinks(img: Img, owner: map<int, Ref>, ops: seq<Addition>)
    requires Built(img, owner) && LinksExact(img) && MayBuild(img, ops) && Assembled(img, ops).Some?
    ensures LinksExact(Assembled(img, ops).value)
    decreases |ops|
  {
    hide Built, Added, LinksExact;
    if ops != [] {
      LinksStay(img, owner, ops[0]);
      var o := AddedWorks(img, owner, ops[0]);
      RunLinks(Added(img, ops[0]).value, o, ops[1..]);
    }
  }

  /** In every image that mkimage finishes the link count of each inode in use is the number of
      directory entries that name it. */
  lemma ImageLinksExact(ops: seq<Addition>)
    ensures MakeDir(Blank(), 0).Some?
    ensures var root := MakeDir(Blank(), 0).value;
      MayBuild(root, ops) && Assembled(root, ops).Some? ==> LinksExact(Assembled(root, ops).value)
  {
    hide Built, Assembled, Contents, Dirent, Blank, MakeDir, LinksExact, Dot, DotDot;
    BlankBuilt();
    BlankSizes();
    var o := DirWorks(Blank(), map[], 0);
    RootLinks();
    var root := MakeDir(Blank(), 0).value;
    if MayBuild(root, ops) && Assembled(root, ops).Some? {
      RunLinks(root, o, ops);
    }
  }

  lemma RootLinks()
    ensures MakeDir(Blank(), 0).Some? && LinksExact(MakeDir(Blank(), 0).value)
  {
    hide Built, Contents, Dirent, Dot, DotDot, MakeDir, References;
    BlankBuilt();
    BlankSizes();
    var o := DirWorks(Blank(), map[], 0);
    DirLinks(Blank(), 0);
    BlankKinds();
    var root := MakeDir(Blank(), 0).value;
    BuiltSized(root, o);
    forall x | 0 <= x < |root.kinds| && root.kinds[x] != Free
      ensures LinkExact(root, x)
    {
      OnlyRoot(root, x, |root.kinds|);
    }
  }

  lemma BlankKinds()
    ensures forall n :: 0 <= n < |Blank().kinds| ==> Blank().kinds[n] == Free
  {
  }

  lemma BuiltSized(img: Img, owner: map<int, Ref>)
    requires Built(img, owner)
    ensures Sized(img)
  {
  }

  lemma {:induction false} OnlyRoot(root: Img, x: int, m: nat)
    requires Sized(root) && m <= |root.kinds| && |root.kinds| > 1 && (forall d :: 0 <= d < |root.kinds| && d != 1 ==> root.kinds[d] != Dir)
    requires root.kinds[1] == Dir && Contents(root.fs, 1) == Dirent(1, Dot()) + Dirent(1, DotDot())
    ensures References(root, x, m) == if m > 1 && x == 1 then 2 else 0
  {
    hide Contents, Dirent, Dot, DotDot, EntriesNaming;
    if m > 0 {
      OnlyRoot(root, x, m - 1);
      DotEntries(1, 1, x);
    }
  }
}
