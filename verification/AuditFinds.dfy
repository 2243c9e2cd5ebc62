/** What the audit cannot overlook, in any image at all: each lemma takes a fault that can be seen in
    the image's own bytes and bits, and the image is then not clean. */
module AuditFinds {
  import opened ZoneTree
  import opened FileBytes
  import opened ImageZones
  import opened ImageBuild
  import opened ImageAudit

  /** An inode that is used and marked free, or marked used and free. */
  lemma FindsWrongInodeBit(img: Img, n: int)
    requires Sized(img) && 1 <= n < |img.kinds| && img.ibits[n] != (img.kinds[n] != Free)
    ensures !Clean(img)
  {
    assert InodeUsed(img, n) <==> img.ibits[n];
  }

  /** The bit of zone `z`. */
  predicate Marked(s: Fs, z: int) {
    1 <= z - s.first + 1 < |s.zmap| && s.zmap[z - s.first + 1]
  }

  /** A zone marked used that no inode in use names. */
  lemma FindsLostZone(img: Img, z: nat)
    requires Sized(img) && img.fs.first <= z < img.fs.nzones && Marked(img.fs, z)
    requires forall n, q: Ref :: 1 <= n < |img.kinds| && img.kinds[n] != Free && q.n == n ==> Entry(Raw(img.fs), q) != z
    ensures !Clean(img)
  {
    hide Entry, Raw, Walk, EntriesClean;
    assert InRange(img.fs, z) && Used(img.fs, z);
    if Reached(img, z) {
      var n :| 1 <= n < |img.kinds| && img.kinds[n] != Free && z in Walk(Raw(img.fs), n, 0, 0);
      WalkIsNamed(Raw(img.fs), n, 0, 0, z);
    }
  }

  /** A zone that an inode in use names and that is marked free, if the file has no hole. */
  lemma FindsUnmarkedZone(img: Img, q: Ref, z: nat)
    requires Sized(img) && img.fs.first <= z < img.fs.nzones && !Marked(img.fs, z)
    requires 1 <= q.n < |img.kinds| && img.kinds[q.n] != Free && Entry(Raw(img.fs), q) == z && z != 0
    requires img.fs.inodes[q.n].size <= MAX_BYTES && Dense(Raw(img.fs), q.n, Blocks(img.fs.inodes[q.n].size))
    ensures !Clean(img)
  {
    hide Entry, Walk, EntriesClean, Due, Blocks;
    assert Size(Raw(img.fs), q.n) == img.fs.inodes[q.n].size;
    hide Raw;
    assert Names(Raw(img.fs), q.n, z);
    WalkIsExact(Raw(img.fs), q.n, z);
    assert InRange(img.fs, z) && Reached(img, z);
  }

  lemma {:induction false} NoneSkipped(s: Fs, n: int, pass: nat)
    requires forall i :: 0 <= i < pass ==> SlotZone(s, n, i) != 0
    ensures Before(s, n, pass) == pass
  {
    if pass > 0 {
      NoneSkipped(s, n, pass - 1);
    }
  }

  /** An entry, in any direct block of a directory that has the blocks before it, that names an inode
      which is not there or not used. */
  lemma FindsDanglingEntry(img: Img, n: int, pass: nat, j: nat)
    requires Sized(img) && 1 <= n < |img.kinds| && img.kinds[n] == Dir && img.fs.inodes[n].owns
    requires pass < 7 <= |img.fs.inodes[n].zone| && j < 64 && 1024 * pass + 16 * j < img.fs.inodes[n].size
    requires forall i :: 0 <= i < pass ==> img.fs.inodes[n].zone[i] != 0
    requires var z := img.fs.inodes[n].zone[pass]; 0 < z < |img.fs.blocks| && |img.fs.blocks[z]| == 1024
    requires var b := img.fs.blocks[img.fs.inodes[n].zone[pass]]; var x := (b[16 * j] as int) + 256 * (b[16 * j + 1] as int);
      x != 0 && (x >= |img.fs.inodes| || !img.ibits[x])
    ensures !Clean(img)
  {
    var s := Raw(img.fs);
    assert forall i :: 0 <= i < 7 ==> SlotZone(s, n, i) == img.fs.inodes[n].zone[i];
    NoneSkipped(s, n, pass);
    assert 2 * (8 * j) == 16 * j;
    assert Looked(s, n, pass, j);
    assert !InodeUsed(img, Target(s, n, pass, j));
  }
}
