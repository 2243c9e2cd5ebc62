/** The buffer cache of fs/buffer.c as values: buffer heads, the circular list that starts at
    `free_list`, and the hash chains. */
module BufferModel {
  import opened Options

  const NR_HASH: nat := 307

  type Block = seq<int>

  datatype Buf = Buf(dev: nat, block: nat, data: Block, uptodate: bool, dirt: bool, count: nat)

  datatype Cache = Cache(bufs: seq<Buf>, ring: seq<int>, chains: seq<seq<int>>)

  /** `dev ^ block`. */
  function Xor(a: nat, b: nat): nat
    decreases a + b
  {
    if a == 0 && b == 0 then 0
    else (if a % 2 == b % 2 then 0 else 1) + 2 * Xor(a / 2, b / 2)
  }

  function Bit(n: nat, k: nat): bool
    decreases k
  {
    if k == 0 then n % 2 == 1 else Bit(n / 2, k - 1)
  }

  /** The bits of `dev ^ block` are those in which the two differ. */
  lemma {:induction false} XorBits(a: nat, b: nat, k: nat)
    ensures Bit(Xor(a, b), k) <==> Bit(a, k) != Bit(b, k)
    decreases k
  {
    if k > 0 {
      XorBits(a / 2, b / 2, k - 1);
    }
  }

  function Hash(dev: nat, block: nat): (h: nat)
    ensures h < NR_HASH
  {
    Xor(dev, block) % NR_HASH
  }

  // ---------- sequences without repetition ----------

  ghost predicate Distinct(s: seq<int>) {
    forall i, j :: 0 <= i < j < |s| ==> s[i] != s[j]
  }

  function Without(s: seq<int>, b: int): seq<int> {
    if s == [] then [] else if s[0] == b then s[1..] else [s[0]] + Without(s[1..], b)
  }

  lemma {:induction false} WithoutIs(s: seq<int>, b: int)
    requires Distinct(s)
    ensures Distinct(Without(s, b)) && forall x :: x in Without(s, b) <==> x in s && x != b
    ensures b in s ==> |Without(s, b)| == |s| - 1
  {
    if s != [] {
      assert forall x :: x in s <==> x == s[0] || x in s[1..];
      if s[0] != b {
        WithoutIs(s[1..], b);
        assert s[0] !in Without(s[1..], b);
        DistinctPrepend(s[0], Without(s[1..], b));
      }
    }
  }

  lemma DistinctPrepend(b: int, s: seq<int>)
    requires Distinct(s) && b !in s
    ensures Distinct([b] + s)
  {
  }

  lemma DistinctAppend(s: seq<int>, b: int)
    requires Distinct(s) && b !in s
    ensures Distinct(s + [b]) && Distinct([b] + s)
  {
  }

  // ---------- the structure ----------

  predicate SameKey(b: Buf, dev: nat, block: nat) {
    b.dev == dev && b.block == block
  }

  function ChainOf(b: Buf): nat {
    Hash(b.dev, b.block)
  }

  ghost predicate InBounds(c: Cache, s: seq<int>) {
    forall x :: x in s ==> 0 <= x < |c.bufs|
  }

  /** Buffer `b` is on the circular list and belongs to a device. */
  ghost predicate Chained(c: Cache, b: int) {
    b in c.ring && 0 <= b < |c.bufs| && c.bufs[b].dev != 0
  }

  /** The hash chains hold exactly the listed buffers that belong to a device, each once. */
  ghost predicate ChainsExact(c: Cache) {
    && |c.chains| == NR_HASH
    && (forall h :: 0 <= h < NR_HASH ==> Distinct(c.chains[h]))
    && (forall h, b :: 0 <= h < NR_HASH ==> (b in c.chains[h] <==> Chained(c, b) && ChainOf(c.bufs[b]) == h))
  }

  /** No two chained buffers are for the same block. */
  ghost predicate KeysUnique(c: Cache) {
    forall a, b :: Chained(c, a) && Chained(c, b) && SameKey(c.bufs[a], c.bufs[b].dev, c.bufs[b].block) ==> a == b
  }

  ghost predicate Struct(c: Cache) {
    Distinct(c.ring) && InBounds(c, c.ring) && ChainsExact(c) && KeysUnique(c)
  }

  function RemoveFromQueues(c: Cache, b: int): Cache
    requires 0 <= b < |c.bufs| && |c.chains| == NR_HASH
  {
    var h := ChainOf(c.bufs[b]);
    c.(ring := Without(c.ring, b), chains := c.chains[h := Without(c.chains[h], b)])
  }

  function InsertIntoQueues(c: Cache, b: int): Cache
    requires 0 <= b < |c.bufs| && |c.chains| == NR_HASH
  {
    var h := ChainOf(c.bufs[b]);
    c.(ring := c.ring + [b], chains := if c.bufs[b].dev == 0 then c.chains else c.chains[h := [b] + c.chains[h]])
  }

  function FindIn(c: Cache, chain: seq<int>, dev: nat, block: nat): Option<int> {
    if chain == [] then None
    else if 0 <= chain[0] < |c.bufs| && SameKey(c.bufs[chain[0]], dev, block) then Some(chain[0])
    else FindIn(c, chain[1..], dev, block)
  }

  function FindBuffer(c: Cache, dev: nat, block: nat): Option<int>
    requires |c.chains| == NR_HASH
  {
    FindIn(c, c.chains[Hash(dev, block)], dev, block)
  }

  lemma {:induction false} FindInIs(c: Cache, chain: seq<int>, dev: nat, block: nat)
    requires InBounds(c, chain)
    ensures match FindIn(c, chain, dev, block)
            case Some(b) => b in chain && 0 <= b < |c.bufs| && SameKey(c.bufs[b], dev, block)
            case None => forall b :: b in chain ==> !SameKey(c.bufs[b], dev, block)
  {
    if chain != [] {
      assert forall x :: x in chain <==> x == chain[0] || x in chain[1..];
      FindInIs(c, chain[1..], dev, block);
    }
  }

  /** Searching one chain finds the buffer for a block if any listed buffer is for it. */
  lemma FindBufferIs(c: Cache, dev: nat, block: nat)
    requires Struct(c) && dev != 0
    ensures match FindBuffer(c, dev, block)
            case Some(b) => Chained(c, b) && SameKey(c.bufs[b], dev, block)
            case None => forall b :: Chained(c, b) ==> !SameKey(c.bufs[b], dev, block)
  {
    var h := Hash(dev, block);
    assert forall x :: x in c.chains[h] ==> Chained(c, x);
    FindInIs(c, c.chains[h], dev, block);
    if FindBuffer(c, dev, block).None? {
      forall b | Chained(c, b)
        ensures !SameKey(c.bufs[b], dev, block)
      {
        assert b in c.chains[ChainOf(c.bufs[b])];
      }
    }
  }

  lemma RemoveKeeps(c: Cache, b: int)
    requires Struct(c) && b in c.ring
    ensures var r := RemoveFromQueues(c, b);
      Struct(r) && r.bufs == c.bufs && |r.ring| == |c.ring| - 1 && forall x :: x in r.ring <==> x in c.ring && x != b
  {
    var h := ChainOf(c.bufs[b]);
    WithoutIs(c.ring, b);
    WithoutIs(c.chains[h], b);
    var r := RemoveFromQueues(c, b);
    forall g, x | 0 <= g < NR_HASH
      ensures x in r.chains[g] <==> Chained(r, x) && ChainOf(r.bufs[x]) == g
    {
      assert x in c.chains[g] <==> Chained(c, x) && ChainOf(c.bufs[x]) == g;
    }
  }

  lemma InsertKeeps(c: Cache, b: int)
    requires Struct(c) && b !in c.ring && 0 <= b < |c.bufs|
    requires c.bufs[b].dev != 0 ==> forall x :: Chained(c, x) ==> !SameKey(c.bufs[x], c.bufs[b].dev, c.bufs[b].block)
    ensures var r := InsertIntoQueues(c, b);
      Struct(r) && r.bufs == c.bufs && |r.ring| == |c.ring| + 1 && forall x :: x in r.ring <==> x in c.ring || x == b
  {
    var h := ChainOf(c.bufs[b]);
    var r := InsertIntoQueues(c, b);
    DistinctAppend(c.ring, b);
    assert b !in c.chains[h];
    DistinctAppend(c.chains[h], b);
    assert forall x :: Chained(r, x) <==> Chained(c, x) || (x == b && c.bufs[b].dev != 0);
    forall g, x | 0 <= g < NR_HASH
      ensures x in r.chains[g] <==> Chained(r, x) && ChainOf(r.bufs[x]) == g
    {
      assert x in c.chains[g] <==> Chained(c, x) && ChainOf(c.bufs[x]) == g;
    }
  }

  /** A buffer off the list can be given any identity; any buffer, new contents or count. */
  lemma ChangeKeeps(c: Cache, b: int, v: Buf)
    requires Struct(c) && 0 <= b < |c.bufs|
    requires b !in c.ring || SameKey(v, c.bufs[b].dev, c.bufs[b].block)
    ensures Struct(c.(bufs := c.bufs[b := v]))
    ensures forall x :: Chained(c.(bufs := c.bufs[b := v]), x) <==> Chained(c, x)
  {
    var r := c.(bufs := c.bufs[b := v]);
    assert forall x :: Chained(r, x) <==> Chained(c, x);
    forall g, x | 0 <= g < NR_HASH
      ensures x in r.chains[g] <==> Chained(r, x) && ChainOf(r.bufs[x]) == g
    {
      assert x in c.chains[g] <==> Chained(c, x) && ChainOf(c.bufs[x]) == g;
    }
  }
}
