/** The pointers of fs/buffer.c: a circular doubly linked list and doubly linked hash chains,
    as sequences. */
module BufferLinks {
  import opened BufferModel

  const NULL: int := -1

  // ---------- the circular list ----------

  ghost function Succ(r: seq<int>, i: int): int
    requires 0 <= i < |r|
  {
    if i + 1 < |r| then r[i + 1] else r[0]
  }

  ghost function SuccIndex(r: seq<int>, i: int): int
    requires 0 <= i < |r|
  {
    if i + 1 < |r| then i + 1 else 0
  }

  ghost predicate LinkOk(r: seq<int>, nf: seq<int>, pf: seq<int>, i: int)
    requires 0 <= i < |r|
  {
    && 0 <= r[i] < |nf| && 0 <= Succ(r, i) < |pf|
    && nf[r[i]] == Succ(r, i) && pf[Succ(r, i)] == r[i]
  }

  /** `nf` and `pf` link the buffers of `r` in a circle. */
  ghost predicate Circular(r: seq<int>, nf: seq<int>, pf: seq<int>) {
    Distinct(r) && |nf| == |pf| && forall i :: 0 <= i < |r| ==> LinkOk(r, nf, pf, i)
  }

  /** Buffer `b` on the list, its successor and its predecessor. */
  lemma Neighbours(r: seq<int>, nf: seq<int>, pf: seq<int>, b: int) returns (i: int)
    requires Circular(r, nf, pf) && b in r
    ensures 0 <= i < |r| && r[i] == b && 0 <= b < |nf|
    ensures nf[b] == Succ(r, i) && pf[b] == r[if i > 0 then i - 1 else |r| - 1]
    ensures 0 <= nf[b] < |nf| && 0 <= pf[b] < |nf| && nf[b] in r && pf[b] in r
  {
    i :| 0 <= i < |r| && r[i] == b;
    var j := if i > 0 then i - 1 else |r| - 1;
    assert LinkOk(r, nf, pf, i) && LinkOk(r, nf, pf, j);
    assert Succ(r, j) == b;
  }

  lemma {:induction false} WithoutAt(r: seq<int>, i: int)
    requires Distinct(r) && 0 <= i < |r|
    ensures Without(r, r[i]) == r[..i] + r[i + 1..]
  {
    if i > 0 {
      WithoutAt(r[1..], i - 1);
      assert r[..i] + r[i + 1..] == [r[0]] + (r[1..][..i - 1] + r[1..][i..]);
    } else {
      assert r[..0] + r[1..] == r[1..];
    }
  }

  /** Taking a buffer out of the circle: its neighbours are linked to each other. */
  lemma CircleRemove(r: seq<int>, nf: seq<int>, pf: seq<int>, b: int)
    requires Circular(r, nf, pf) && b in r && |r| >= 2
    ensures 0 <= b < |nf| && 0 <= nf[b] < |nf| && 0 <= pf[b] < |nf|
    ensures Circular(Without(r, b), nf[pf[b] := nf[b]], pf[nf[b] := pf[b]])
    ensures Without(r, b)[0] == if r[0] == b then nf[b] else r[0]
  {
    var i := Neighbours(r, nf, pf, b);
    WithoutAt(r, i);
    WithoutIs(r, b);
    var w, m, p := Without(r, b), nf[pf[b] := nf[b]], pf[nf[b] := pf[b]];
    forall k | 0 <= k < |w|
      ensures LinkOk(w, m, p, k)
    {
      RemovedLink(r, nf, pf, i, k);
    }
  }

  lemma RemovedLink(r: seq<int>, nf: seq<int>, pf: seq<int>, i: int, k: int)
    requires Circular(r, nf, pf) && |r| >= 2 && 0 <= i < |r| && 0 <= k < |r| - 1
    requires 0 <= r[i] < |nf| && nf[r[i]] == Succ(r, i) && pf[r[i]] == r[if i > 0 then i - 1 else |r| - 1]
    requires 0 <= nf[r[i]] < |nf| && 0 <= pf[r[i]] < |nf|
    ensures LinkOk(r[..i] + r[i + 1..], nf[pf[r[i]] := nf[r[i]]], pf[nf[r[i]] := pf[r[i]]], k)
  {
    var j := if k < i then k else k + 1;
    assert (r[..i] + r[i + 1..])[k] == r[j];
    assert LinkOk(r, nf, pf, j);
    var s := SuccIndex(r, j);
    assert Succ(r, j) == r[s];
    if s == i {
      assert LinkOk(r, nf, pf, i);
    }
  }

  /** Putting a buffer in front of the first, which is the end of the list. */
  lemma CircleInsert(r: seq<int>, nf: seq<int>, pf: seq<int>, b: int)
    requires Circular(r, nf, pf) && r != [] && b !in r && 0 <= b < |nf|
    ensures 0 <= r[0] < |nf| && 0 <= pf[r[0]] < |nf| && pf[r[0]] in r
    ensures Circular(r + [b], nf[b := r[0]][pf[r[0]] := b], pf[b := pf[r[0]]][r[0] := b])
  {
    var i := Neighbours(r, nf, pf, r[0]);
    assert i == 0;
    DistinctAppend(r, b);
    var w, m, p := r + [b], nf[b := r[0]][pf[r[0]] := b], pf[b := pf[r[0]]][r[0] := b];
    forall k | 0 <= k < |w|
      ensures LinkOk(w, m, p, k)
    {
      InsertedLink(r, nf, pf, b, k);
    }
  }

  lemma InsertedLink(r: seq<int>, nf: seq<int>, pf: seq<int>, b: int, k: int)
    requires Circular(r, nf, pf) && r != [] && b !in r && 0 <= b < |nf| && 0 <= k <= |r|
    requires 0 <= r[0] < |nf| && pf[r[0]] == r[|r| - 1] && 0 <= pf[r[0]] < |nf|
    ensures LinkOk(r + [b], nf[b := r[0]][pf[r[0]] := b], pf[b := pf[r[0]]][r[0] := b], k)
  {
    if k < |r| {
      assert LinkOk(r, nf, pf, k);
      assert r[k] != b;
      if k + 1 < |r| {
        assert r[k + 1] != b;
      }
    }
  }

  // ---------- a hash chain ----------

  ghost function After(c: seq<int>, i: int): int {
    if 0 <= i && i + 1 < |c| then c[i + 1] else NULL
  }

  ghost function Before(c: seq<int>, i: int): int {
    if 0 < i <= |c| then c[i - 1] else NULL
  }

  ghost function First(c: seq<int>): int {
    if c == [] then NULL else c[0]
  }

  ghost predicate ChainLink(c: seq<int>, nx: seq<int>, pv: seq<int>, i: int)
    requires 0 <= i < |c|
  {
    0 <= c[i] < |nx| == |pv| && nx[c[i]] == After(c, i) && pv[c[i]] == Before(c, i)
  }

  ghost predicate Linear(c: seq<int>, nx: seq<int>, pv: seq<int>) {
    Distinct(c) && |nx| == |pv| && forall i :: 0 <= i < |c| ==> ChainLink(c, nx, pv, i)
  }

  function Set(s: seq<int>, i: int, v: int): (r: seq<int>)
    ensures |r| == |s|
  {
    if 0 <= i < |s| then s[i := v] else s
  }

  lemma ChainNeighbours(c: seq<int>, nx: seq<int>, pv: seq<int>, b: int) returns (i: int)
    requires Linear(c, nx, pv) && b in c
    ensures 0 <= i < |c| && c[i] == b && 0 <= b < |nx| && nx[b] == After(c, i) && pv[b] == Before(c, i)
    ensures nx[b] != NULL ==> 0 <= nx[b] < |nx| && nx[b] in c
    ensures pv[b] != NULL ==> 0 <= pv[b] < |nx| && pv[b] in c
    ensures First(c) == b <==> i == 0
  {
    i :| 0 <= i < |c| && c[i] == b;
    assert ChainLink(c, nx, pv, i);
    if i + 1 < |c| {
      assert ChainLink(c, nx, pv, i + 1);
    }
    if i > 0 {
      assert ChainLink(c, nx, pv, i - 1);
    }
  }

  lemma ChainRemove(c: seq<int>, nx: seq<int>, pv: seq<int>, b: int)
    requires Linear(c, nx, pv) && b in c && 0 <= b < |nx|
    ensures Linear(Without(c, b), Set(nx, pv[b], nx[b]), Set(pv, nx[b], pv[b]))
    ensures First(Without(c, b)) == if First(c) == b then nx[b] else First(c)
  {
    var i := ChainNeighbours(c, nx, pv, b);
    WithoutAt(c, i);
    WithoutIs(c, b);
    var w, m, p := Without(c, b), Set(nx, pv[b], nx[b]), Set(pv, nx[b], pv[b]);
    forall k | 0 <= k < |w|
      ensures ChainLink(w, m, p, k)
    {
      ChainRemovedLink(c, nx, pv, i, k);
    }
  }

  lemma ChainRemovedLink(c: seq<int>, nx: seq<int>, pv: seq<int>, i: int, k: int)
    requires Distinct(c) && |nx| == |pv| && 0 <= i < |c| && 0 <= k < |c| - 1 && ChainLink(c, nx, pv, i)
    requires ChainLink(c, nx, pv, if k < i then k else k + 1)
    ensures ChainLink(c[..i] + c[i + 1..], Set(nx, pv[c[i]], nx[c[i]]), Set(pv, nx[c[i]], pv[c[i]]), k)
  {
    var w := c[..i] + c[i + 1..];
    assert w[k] == c[if k < i then k else k + 1];
    assert After(w, k) == if k + 1 == i then After(c, i) else After(c, if k < i then k else k + 1);
    assert Before(w, k) == if k == i then Before(c, i) else Before(c, if k < i then k else k + 1);
  }

  /** Links of buffers outside a chain may change. */
  lemma ChainFrame(c: seq<int>, nx: seq<int>, pv: seq<int>, nx2: seq<int>, pv2: seq<int>)
    requires Linear(c, nx, pv) && |nx2| == |nx| && |pv2| == |pv|
    requires forall x :: 0 <= x < |nx| && x in c ==> nx2[x] == nx[x] && pv2[x] == pv[x]
    ensures Linear(c, nx2, pv2)
  {
    forall k | 0 <= k < |c|
      ensures ChainLink(c, nx2, pv2, k)
    {
      assert ChainLink(c, nx, pv, k) && c[k] in c;
    }
  }

  lemma ChainInsert(c: seq<int>, nx: seq<int>, pv: seq<int>, b: int)
    requires Linear(c, nx, pv) && b !in c && 0 <= b < |nx|
    ensures Linear([b] + c, nx[b := First(c)], Set(pv[b := NULL], First(c), b))
  {
    DistinctPrepend(b, c);
    var w, m, p := [b] + c, nx[b := First(c)], Set(pv[b := NULL], First(c), b);
    forall k | 0 <= k < |w|
      ensures ChainLink(w, m, p, k)
    {
      if k > 0 {
        assert ChainLink(c, nx, pv, k - 1) && c[k - 1] != b;
      }
    }
  }
}
