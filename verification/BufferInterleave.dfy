/** `getblk`, `get_hash_table` and `brelse` of fs/buffer.c run by several tasks.  Control moves
    from one task to another only where the code can sleep; the steps below are the stretches
    between those points, and any task may take the next one.  A step that in the code follows
    without sleeping may still be delayed here, and the walk over the list may go on to any
    buffer at all, so every interleaving of the code is among these. */
module BufferInterleave {
  import opened Options
  import opened BufferModel

  /** Where a task is. */
  datatype Pc =
    | Outside
    | Wanting(dev: nat, block: nat)            // at `repeat` in getblk
    | Found(dev: nat, block: nat, b: int)      // waiting for the buffer it found, counted
    | Walking(dev: nat, block: nat, b: int)    // looking at buffer b of the list
    | Sleeping(dev: nat, block: nat)           // no free buffer
    | Evicting(dev: nat, block: nat, b: int)   // b taken off the list, its device being synced

  /** A reference to a buffer: who has it and the block it was asked for as. */
  datatype Use = Use(t: nat, b: int, dev: nat, block: nat)

  datatype State = State(c: Cache, pcs: seq<Pc>, uses: seq<Use>)

  datatype Step =
    | Ask(t: nat, dev: nat, block: nat)   // call getblk
    | Look(t: nat)                        // get_hash_table up to its wait, or start walking
    | Check(t: nat)                       // the identity check after the wait
    | Pick(t: nat)                        // take the buffer if its count is 0
    | Move(t: nat, next: Option<int>)     // on to another buffer, or none left
    | Wake(t: nat)
    | Finish(t: nat)                      // getblk after sync_dev
    | Release(u: Use)
    | Touch(b: int, data: Block, uptodate: bool, dirt: bool)  // I/O or the holder

  // ---------- references ----------

  function CountUses(uses: seq<Use>, b: int): nat {
    if uses == [] then 0 else (if uses[0].b == b then 1 else 0) + CountUses(uses[1..], b)
  }

  function Dropped(uses: seq<Use>, u: Use): seq<Use> {
    if uses == [] then [] else if uses[0] == u then uses[1..] else [uses[0]] + Dropped(uses[1..], u)
  }

  lemma {:induction false} CountAdded(uses: seq<Use>, u: Use, b: int)
    ensures CountUses(uses + [u], b) == CountUses(uses, b) + if u.b == b then 1 else 0
  {
    if uses != [] {
      assert (uses + [u])[1..] == uses[1..] + [u];
      CountAdded(uses[1..], u, b);
    }
  }

  lemma {:induction false} CountDropped(uses: seq<Use>, u: Use, b: int)
    requires u in uses
    ensures CountUses(uses, b) == CountUses(Dropped(uses, u), b) + if u.b == b then 1 else 0
  {
    if uses[0] != u {
      CountDropped(uses[1..], u, b);
      assert Dropped(uses, u)[1..] == Dropped(uses[1..], u);
    }
  }

  lemma {:induction false} DroppedIn(uses: seq<Use>, u: Use)
    ensures forall v :: v in Dropped(uses, u) ==> v in uses
  {
    if uses != [] && uses[0] != u {
      DroppedIn(uses[1..], u);
    }
  }

  lemma {:induction false} UseCounts(uses: seq<Use>, u: Use)
    requires u in uses
    ensures CountUses(uses, u.b) >= 1
  {
    if uses[0] != u {
      UseCounts(uses[1..], u);
    }
  }

  // ---------- the steps ----------

  function SetCount(c: Cache, b: int, n: int): Cache {
    if 0 <= b < |c.bufs| && n >= 0 then c.(bufs := c.bufs[b := c.bufs[b].(count := n)]) else c
  }

  predicate Buffer(s: State, b: int) {
    0 <= b < |s.c.bufs|
  }

  function Next(s: State, e: Step): State
    requires |s.c.chains| == NR_HASH
  {
    match e
    case Ask(t, dev, block) =>
      if t < |s.pcs| && s.pcs[t].Outside? && dev != 0 then s.(pcs := s.pcs[t := Wanting(dev, block)]) else s
    case Look(t) =>
      if t < |s.pcs| && s.pcs[t].Wanting? then
        var (dev, block) := (s.pcs[t].dev, s.pcs[t].block);
        match FindBuffer(s.c, dev, block)
        case Some(b) =>
          if Buffer(s, b) then
            State(SetCount(s.c, b, s.c.bufs[b].count + 1), s.pcs[t := Found(dev, block, b)], s.uses + [Use(t, b, dev, block)])
          else s
        case None => if s.c.ring == [] then s else s.(pcs := s.pcs[t := Walking(dev, block, s.c.ring[0])])
      else s
    case Check(t) =>
      if t < |s.pcs| && s.pcs[t].Found? && Buffer(s, s.pcs[t].b) then
        var (dev, block, b) := (s.pcs[t].dev, s.pcs[t].block, s.pcs[t].b);
        if SameKey(s.c.bufs[b], dev, block) then s.(pcs := s.pcs[t := Outside])
        else State(SetCount(s.c, b, s.c.bufs[b].count - 1), s.pcs[t := Wanting(dev, block)], Dropped(s.uses, Use(t, b, dev, block)))
      else s
    case Pick(t) =>
      if t < |s.pcs| && s.pcs[t].Walking? && Buffer(s, s.pcs[t].b) && s.c.bufs[s.pcs[t].b].count == 0 then
        var (dev, block, b) := (s.pcs[t].dev, s.pcs[t].block, s.pcs[t].b);
        s.(c := RemoveFromQueues(SetCount(s.c, b, 1), b), pcs := s.pcs[t := Evicting(dev, block, b)])
      else s
    case Move(t, next) =>
      if t < |s.pcs| && s.pcs[t].Walking? then
        var (dev, block) := (s.pcs[t].dev, s.pcs[t].block);
        s.(pcs := s.pcs[t := if next.Some? then Walking(dev, block, next.value) else Sleeping(dev, block)])
      else s
    case Wake(t) =>
      if t < |s.pcs| && s.pcs[t].Sleeping? then s.(pcs := s.pcs[t := Wanting(s.pcs[t].dev, s.pcs[t].block)]) else s
    case Finish(t) =>
      if t < |s.pcs| && s.pcs[t].Evicting? && Buffer(s, s.pcs[t].b) then
        var (dev, block, b) := (s.pcs[t].dev, s.pcs[t].block, s.pcs[t].b);
        var v := s.c.bufs[b].(dev := dev, block := block, dirt := false, uptodate := false);
        var c := s.c.(bufs := s.c.bufs[b := v]);
        if FindBuffer(c, dev, block).Some? then
          var free := v.(dev := 0, block := 0, count := 0);
          s.(c := InsertIntoQueues(c.(bufs := c.bufs[b := free]), b), pcs := s.pcs[t := Wanting(dev, block)])
        else
          State(InsertIntoQueues(c, b), s.pcs[t := Outside], s.uses + [Use(t, b, dev, block)])
      else s
    case Release(u) =>
      if u in s.uses && u.t < |s.pcs| && s.pcs[u.t].Outside? && Buffer(s, u.b) then
        s.(c := SetCount(s.c, u.b, s.c.bufs[u.b].count - 1), uses := Dropped(s.uses, u))
      else s
    case Touch(b, data, uptodate, dirt) =>
      if Buffer(s, b) then
        s.(c := s.c.(bufs := s.c.bufs[b := s.c.bufs[b].(data := data, uptodate := uptodate, dirt := dirt)]))
      else s
  }

  // ---------- the invariant ----------

  ghost predicate Evicts(s: State, t: int, b: int) {
    0 <= t < |s.pcs| && s.pcs[t].Evicting? && s.pcs[t].b == b
  }

  /** A buffer is off the list exactly while one task is recycling it. */
  ghost predicate OffList(s: State) {
    && (forall t, b :: Evicts(s, t, b) ==> Buffer(s, b) && b !in s.c.ring)
    && (forall b :: Buffer(s, b) && b !in s.c.ring ==> exists t :: Evicts(s, t, b))
    && (forall t, u, b :: Evicts(s, t, b) && Evicts(s, u, b) ==> t == u)
  }

  /** A count is the number of references, and one more while the buffer is recycled. */
  ghost predicate CountsExact(s: State) {
    forall b :: Buffer(s, b) ==> s.c.bufs[b].count == CountUses(s.uses, b) + if b in s.c.ring then 0 else 1
  }

  /** A referenced buffer is listed and is still for the block it was asked for. */
  ghost predicate UsesHold(s: State) {
    && (forall u :: u in s.uses ==> u.dev != 0 && Chained(s.c, u.b) && SameKey(s.c.bufs[u.b], u.dev, u.block))
    && (forall t :: 0 <= t < |s.pcs| && s.pcs[t].Found? ==> Use(t, s.pcs[t].b, s.pcs[t].dev, s.pcs[t].block) in s.uses)
    && (forall t :: 0 <= t < |s.pcs| && !s.pcs[t].Outside? ==> s.pcs[t].dev != 0)
  }

  ghost predicate Inv(s: State) {
    Struct(s.c) && |s.c.bufs| > |s.pcs| && OffList(s) && CountsExact(s) && UsesHold(s)
  }

  lemma CountKeeps(c: Cache, b: int, n: int)
    requires Struct(c)
    ensures var r := SetCount(c, b, n);
      && Struct(r) && r.ring == c.ring && r.chains == c.chains && |r.bufs| == |c.bufs|
      && (forall x :: Chained(r, x) <==> Chained(c, x))
      && forall x :: 0 <= x < |c.bufs| ==> r.bufs[x] == if x == b && n >= 0 then c.bufs[x].(count := n) else c.bufs[x]
  {
    if 0 <= b < |c.bufs| && n >= 0 {
      ChangeKeeps(c, b, c.bufs[b].(count := n));
    }
  }

  /** Only the program counter of task `t` changes, between places that hold nothing. */
  lemma MoveKeeps(s: State, t: nat, p: Pc)
    requires Inv(s) && t < |s.pcs| && !s.pcs[t].Evicting? && !p.Evicting? && !p.Found?
    requires p.Outside? || p.dev != 0
    ensures Inv(s.(pcs := s.pcs[t := p]))
  {
    var r := s.(pcs := s.pcs[t := p]);
    assert forall u, b :: Evicts(r, u, b) <==> Evicts(s, u, b);
    forall b | Buffer(r, b) && b !in r.c.ring
      ensures exists u :: Evicts(r, u, b)
    {
      var u :| Evicts(s, u, b);
      assert Evicts(r, u, b);
    }
  }

  lemma HasChains(c: Cache)
    requires Struct(c)
    ensures |c.chains| == NR_HASH
  {
  }

  lemma LookKeeps(s: State, t: nat)
    requires Inv(s)
    ensures Inv(Next(s, Look(t)))
  {
    hide Struct, Chained, OffList, CountsExact, SetCount, CountUses, FindBuffer;
    HasChains(s.c);
    if t < |s.pcs| && s.pcs[t].Wanting? {
      var dev, block := s.pcs[t].dev, s.pcs[t].block;
      FindBufferIs(s.c, dev, block);
      match FindBuffer(s.c, dev, block) {
        case None =>
          if s.c.ring != [] {
            MoveKeeps(s, t, Walking(dev, block, s.c.ring[0]));
          }
        case Some(b) => ReferKeeps(s, t, b);
      }
    }
  }

  /** One more reference, to a listed buffer. */
  lemma ReferKeeps(s: State, t: nat, b: int)
    requires Inv(s) && t < |s.pcs| && s.pcs[t].Wanting?
    requires Chained(s.c, b) && SameKey(s.c.bufs[b], s.pcs[t].dev, s.pcs[t].block)
    ensures var (dev, block) := (s.pcs[t].dev, s.pcs[t].block);
      Inv(State(SetCount(s.c, b, s.c.bufs[b].count + 1), s.pcs[t := Found(dev, block, b)], s.uses + [Use(t, b, dev, block)]))
  {
    var dev, block := s.pcs[t].dev, s.pcs[t].block;
    var u := Use(t, b, dev, block);
    MoveKeeps(s, t, Outside);
    CountKeeps(s.c, b, s.c.bufs[b].count + 1);
    hide Struct, Chained;
    var r := State(SetCount(s.c, b, s.c.bufs[b].count + 1), s.pcs[t := Found(dev, block, b)], s.uses + [u]);
    SameEvictions(s.(pcs := s.pcs[t := Outside]), r);
    forall x
      ensures CountUses(r.uses, x) == CountUses(s.uses, x) + if x == b then 1 else 0
    {
      CountAdded(s.uses, u, x);
    }
    assert b in s.c.ring by { InRing(s.c, b); }
    assert u in r.uses;
  }

  lemma InRing(c: Cache, b: int)
    requires Chained(c, b)
    ensures b in c.ring && 0 <= b < |c.bufs|
  {
  }

  lemma SameEvictions(s: State, r: State)
    requires OffList(s) && r.c.ring == s.c.ring && |r.c.bufs| == |s.c.bufs| && |r.pcs| == |s.pcs|
    requires forall t :: 0 <= t < |s.pcs| && (s.pcs[t].Evicting? || r.pcs[t].Evicting?) ==> r.pcs[t] == s.pcs[t]
    ensures OffList(r)
  {
    assert forall u, b :: Evicts(r, u, b) <==> Evicts(s, u, b);
    forall b | Buffer(r, b) && b !in r.c.ring
      ensures exists u :: Evicts(r, u, b)
    {
      var u :| Evicts(s, u, b);
      assert Evicts(r, u, b);
    }
  }

  /** The identity check after the wait always succeeds. */
  lemma CheckSucceeds(s: State, t: nat)
    requires Inv(s) && t < |s.pcs| && s.pcs[t].Found?
    ensures Buffer(s, s.pcs[t].b) && SameKey(s.c.bufs[s.pcs[t].b], s.pcs[t].dev, s.pcs[t].block)
    ensures Next(s, Check(t)) == s.(pcs := s.pcs[t := Outside])
  {
    var u := Use(t, s.pcs[t].b, s.pcs[t].dev, s.pcs[t].block);
    assert u in s.uses;
  }

  /** A buffer whose count is 0 is not referenced. */
  lemma FreeIsUnused(s: State, b: int)
    requires CountsExact(s) && Buffer(s, b) && s.c.bufs[b].count == 0
    ensures b in s.c.ring && forall u :: u in s.uses ==> u.b != b
  {
    forall u | u in s.uses
      ensures u.b != b
    {
      UseCounts(s.uses, u);
    }
  }

  /** What taking buffer `b` off the list does to the cache. */
  lemma TakenOff(c: Cache, b: int)
    requires Struct(c) && 0 <= b < |c.bufs| && b in c.ring
    ensures |SetCount(c, b, 1).chains| == NR_HASH
    ensures var r := RemoveFromQueues(SetCount(c, b, 1), b);
      && Struct(r) && |r.bufs| == |c.bufs|
      && (forall x :: x in r.ring <==> x in c.ring && x != b)
      && (forall x :: 0 <= x < |c.bufs| ==> r.bufs[x] == if x == b then c.bufs[x].(count := 1) else c.bufs[x])
      && (forall x :: x != b ==> (Chained(r, x) <==> Chained(c, x)))
  {
    CountKeeps(c, b, 1);
    RemoveKeeps(SetCount(c, b, 1), b);
    hide Struct, RemoveFromQueues, SetCount;
  }

  lemma PickKeeps(s: State, t: nat)
    requires Inv(s)
    ensures Inv(Next(s, Pick(t)))
  {
    hide Struct, Chained, RemoveFromQueues, SetCount, CountUses;
    HasChains(s.c);
    if t < |s.pcs| && s.pcs[t].Walking? && Buffer(s, s.pcs[t].b) && s.c.bufs[s.pcs[t].b].count == 0 {
      var dev, block, b := s.pcs[t].dev, s.pcs[t].block, s.pcs[t].b;
      FreeIsUnused(s, b);
      TakenOff(s.c, b);
      var r := Next(s, Pick(t));
      NewEviction(s, r, t, b);
      forall x | Buffer(r, x)
        ensures r.c.bufs[x].count == CountUses(r.uses, x) + if x in r.c.ring then 0 else 1
      {
        assert s.c.bufs[x].count == CountUses(s.uses, x) + if x in s.c.ring then 0 else 1;
      }
      forall u | u in r.uses
        ensures u.dev != 0 && 0 <= u.b < |r.c.bufs| && Chained(r.c, u.b) && SameKey(r.c.bufs[u.b], u.dev, u.block)
      {
        InRing(s.c, u.b);
      }
    }
  }

  /** Task `t` starts to recycle `b`. */
  lemma NewEviction(s: State, r: State, t: nat, b: int)
    requires OffList(s) && t < |s.pcs| && !s.pcs[t].Evicting? && Buffer(s, b) && b in s.c.ring
    requires |r.c.bufs| == |s.c.bufs| && (forall x :: x in r.c.ring <==> x in s.c.ring && x != b)
    requires |r.pcs| == |s.pcs| && r.pcs == s.pcs[t := r.pcs[t]] && r.pcs[t].Evicting? && r.pcs[t].b == b
    ensures OffList(r)
  {
    assert forall u, x :: Evicts(r, u, x) <==> Evicts(s, u, x) || (u == t && x == b);
    forall x | Buffer(r, x) && x !in r.c.ring
      ensures exists u :: Evicts(r, u, x)
    {
      if x == b {
        assert Evicts(r, t, b);
      } else {
        var u :| Evicts(s, u, x);
        assert Evicts(r, u, x);
      }
    }
  }

  lemma ReleaseKeeps(s: State, u: Use)
    requires Inv(s)
    ensures Inv(Next(s, Release(u)))
  {
    hide Struct, Chained, SetCount, CountUses, Dropped;
    HasChains(s.c);
    if u in s.uses && u.t < |s.pcs| && s.pcs[u.t].Outside? && Buffer(s, u.b) {
      var r := Next(s, Release(u));
      UseCounts(s.uses, u);
      InRing(s.c, u.b);
      CountKeeps(s.c, u.b, s.c.bufs[u.b].count - 1);
      SameEvictions(s, r);
      DroppedIn(s.uses, u);
      forall x | Buffer(r, x)
        ensures r.c.bufs[x].count == CountUses(r.uses, x) + if x in r.c.ring then 0 else 1
      {
        CountDropped(s.uses, u, x);
        assert s.c.bufs[x].count == CountUses(s.uses, x) + if x in s.c.ring then 0 else 1;
      }
      forall t | 0 <= t < |s.pcs| && s.pcs[t].Found?
        ensures Use(t, s.pcs[t].b, s.pcs[t].dev, s.pcs[t].block) in r.uses
      {
        StillIn(s.uses, u, Use(t, s.pcs[t].b, s.pcs[t].dev, s.pcs[t].block));
      }
      forall v | v in r.uses
        ensures v.dev != 0 && 0 <= v.b < |r.c.bufs| && Chained(r.c, v.b) && SameKey(r.c.bufs[v.b], v.dev, v.block)
      {
        InRing(s.c, v.b);
      }
    }
  }

  lemma {:induction false} StillIn(uses: seq<Use>, u: Use, v: Use)
    requires v in uses && v != u
    ensures v in Dropped(uses, u)
  {
    if uses[0] != u && uses[0] != v {
      StillIn(uses[1..], u, v);
    }
  }

  lemma {:induction false} NoUses(uses: seq<Use>, b: int)
    requires forall u :: u in uses ==> u.b != b
    ensures CountUses(uses, b) == 0
  {
    if uses != [] {
      NoUses(uses[1..], b);
    }
  }

  /** Putting the recycled buffer back on the list, when its task stops recycling. */
  lemma BackOnList(s: State, t: nat, b: int, c: Cache, p: Pc)
    requires OffList(s) && Evicts(s, t, b) && !p.Evicting?
    requires |c.bufs| == |s.c.bufs| && forall x :: x in c.ring <==> x in s.c.ring || x == b
    ensures OffList(State(c, s.pcs[t := p], s.uses))
  {
    var r := State(c, s.pcs[t := p], s.uses);
    assert forall u, x :: Evicts(r, u, x) <==> Evicts(s, u, x) && u != t;
    forall x | Buffer(r, x) && x !in c.ring
      ensures exists u :: Evicts(r, u, x)
    {
      var u :| Evicts(s, u, x);
      assert Evicts(r, u, x);
    }
  }

  /** The three assignments in the cache that `Finish` chooses between. */
  function Renamed(c: Cache, b: int, dev: nat, block: nat): Cache
    requires 0 <= b < |c.bufs|
  {
    c.(bufs := c.bufs[b := c.bufs[b].(dev := dev, block := block, dirt := false, uptodate := false)])
  }

  function Freed(c: Cache, b: int): Cache
    requires 0 <= b < |c.bufs|
  {
    c.(bufs := c.bufs[b := c.bufs[b].(dev := 0, block := 0, count := 0)])
  }

  lemma RenameWorks(c: Cache, b: int, dev: nat, block: nat)
    requires Struct(c) && 0 <= b < |c.bufs| && b !in c.ring && dev != 0
    ensures var n := Renamed(c, b, dev, block);
      && Struct(n) && |n.chains| == NR_HASH && n.ring == c.ring && (forall x :: Chained(n, x) <==> Chained(c, x))
      && if FindBuffer(n, dev, block).Some?
         then Struct(InsertIntoQueues(Freed(n, b), b)) && SameOthers(c, InsertIntoQueues(Freed(n, b), b), b)
              && InsertIntoQueues(Freed(n, b), b).bufs[b].count == 0
         else Struct(InsertIntoQueues(n, b)) && SameOthers(c, InsertIntoQueues(n, b), b)
              && Chained(InsertIntoQueues(n, b), b) && SameKey(InsertIntoQueues(n, b).bufs[b], dev, block)
              && InsertIntoQueues(n, b).bufs[b].count == c.bufs[b].count
  {
    var n := Renamed(c, b, dev, block);
    ChangeKeeps(c, b, n.bufs[b]);
    FindBufferIs(n, dev, block);
    if FindBuffer(n, dev, block).Some? {
      var f := Freed(n, b);
      ChangeKeeps(n, b, f.bufs[b]);
      InsertKeeps(f, b);
    } else {
      InsertKeeps(n, b);
    }
  }

  /** Listed as before but for `b`, which is on the list too, and the other buffers unchanged. */
  ghost predicate SameOthers(c: Cache, r: Cache, b: int) {
    && |r.bufs| == |c.bufs| && (forall x :: x in r.ring <==> x in c.ring || x == b)
    && (forall x :: 0 <= x < |c.bufs| && x != b ==> r.bufs[x] == c.bufs[x])
    && (forall x :: x != b ==> (Chained(r, x) <==> Chained(c, x)))
  }

  lemma FinishCounts(s: State, b: int, c: Cache, pcs: seq<Pc>, uses: seq<Use>, k: nat)
    requires CountsExact(s) && Buffer(s, b) && b !in s.c.ring && CountUses(s.uses, b) == 0
    requires SameOthers(s.c, c, b) && c.bufs[b].count == k
    requires forall x :: CountUses(uses, x) == CountUses(s.uses, x) + if x == b then k else 0
    ensures CountsExact(State(c, pcs, uses))
  {
    hide CountUses, Chained;
  }

  /** Someone else has added the block in the meantime: the buffer is freed. */
  lemma FinishBeaten(s: State, t: nat, b: int)
    requires Inv(s) && Evicts(s, t, b) && Buffer(s, b)
    requires FindBuffer(Renamed(s.c, b, s.pcs[t].dev, s.pcs[t].block), s.pcs[t].dev, s.pcs[t].block).Some?
    ensures Inv(Next(s, Finish(t)))
  {
    var dev, block := s.pcs[t].dev, s.pcs[t].block;
    EvictedFacts(s, t, b);
    RenameWorks(s.c, b, dev, block);
    var c := InsertIntoQueues(Freed(Renamed(s.c, b, dev, block), b), b);
    BackOnList(s, t, b, c, Wanting(dev, block));
    hide Struct, Chained, InsertIntoQueues, FindBuffer, OffList, CountsExact;
    FinishCounts(s, b, c, s.pcs[t := Wanting(dev, block)], s.uses, 0);
  }

  lemma FinishTakes(s: State, t: nat, b: int)
    requires Inv(s) && Evicts(s, t, b) && Buffer(s, b)
    requires FindBuffer(Renamed(s.c, b, s.pcs[t].dev, s.pcs[t].block), s.pcs[t].dev, s.pcs[t].block).None?
    ensures Inv(Next(s, Finish(t)))
  {
    var dev, block := s.pcs[t].dev, s.pcs[t].block;
    var u := Use(t, b, dev, block);
    EvictedFacts(s, t, b);
    RenameWorks(s.c, b, dev, block);
    var c := InsertIntoQueues(Renamed(s.c, b, dev, block), b);
    BackOnList(s, t, b, c, Outside);
    SameEvictions(State(c, s.pcs[t := Outside], s.uses), State(c, s.pcs[t := Outside], s.uses + [u]));
    FinishUses(s, t, b, c);
    forall x
      ensures CountUses(s.uses + [u], x) == CountUses(s.uses, x) + if x == b then 1 else 0
    {
      CountAdded(s.uses, u, x);
    }
    hide Struct, Chained, InsertIntoQueues, FindBuffer, OffList, CountsExact, UsesHold, SameOthers;
    FinishCounts(s, b, c, s.pcs[t := Outside], s.uses + [u], 1);
  }

  /** A buffer being recycled is off the list, and the one reference to it is the recycler's. */
  lemma EvictedFacts(s: State, t: nat, b: int)
    requires Inv(s) && Evicts(s, t, b)
    ensures Buffer(s, b) && b !in s.c.ring && s.pcs[t].dev != 0 && s.c.bufs[b].count == 1
    ensures CountUses(s.uses, b) == 0 && forall u :: u in s.uses ==> u.b != b
  {
    assert forall u :: u in s.uses ==> u.b in s.c.ring;
    NoUses(s.uses, b);
  }

  lemma FinishKeeps(s: State, t: nat)
    requires Inv(s)
    ensures Inv(Next(s, Finish(t)))
  {
    hide Inv;
    InvChains(s);
    if t < |s.pcs| && s.pcs[t].Evicting? && Buffer(s, s.pcs[t].b) {
      var b := s.pcs[t].b;
      if FindBuffer(Renamed(s.c, b, s.pcs[t].dev, s.pcs[t].block), s.pcs[t].dev, s.pcs[t].block).Some? {
        FinishBeaten(s, t, b);
      } else {
        FinishTakes(s, t, b);
      }
    }
  }

  lemma InvChains(s: State)
    requires Inv(s)
    ensures |s.c.chains| == NR_HASH
  {
  }

  lemma FinishUses(s: State, t: nat, b: int, c: Cache)
    requires UsesHold(s) && t < |s.pcs| && s.pcs[t].Evicting? && forall u :: u in s.uses ==> u.b != b
    requires SameOthers(s.c, c, b) && Chained(c, b) && SameKey(c.bufs[b], s.pcs[t].dev, s.pcs[t].block)
    ensures UsesHold(State(c, s.pcs[t := Outside], s.uses + [Use(t, b, s.pcs[t].dev, s.pcs[t].block)]))
  {
  }

  lemma TouchKeeps(s: State, b: int, data: Block, uptodate: bool, dirt: bool)
    requires Inv(s)
    ensures Inv(Next(s, Touch(b, data, uptodate, dirt)))
  {
    if Buffer(s, b) {
      ChangeKeeps(s.c, b, s.c.bufs[b].(data := data, uptodate := uptodate, dirt := dirt));
      hide Struct;
      SameEvictions(s, Next(s, Touch(b, data, uptodate, dirt)));
    }
  }

  /** Every step keeps the structure of the cache. */
  lemma StepKeeps(s: State, e: Step)
    requires Inv(s)
    ensures Inv(Next(s, e)) && |Next(s, e).pcs| == |s.pcs|
  {
    hide Struct, OffList, CountsExact, UsesHold, FindBuffer;
    InvChains(s);
    match e
    case Ask(t, dev, block) =>
      if t < |s.pcs| && s.pcs[t].Outside? && dev != 0 {
        MoveKeeps(s, t, Wanting(dev, block));
      }
    case Look(t) => LookKeeps(s, t);
    case Check(t) =>
      if t < |s.pcs| && s.pcs[t].Found? {
        CheckSucceeds(s, t);
        MoveKeeps(s, t, Outside);
      }
    case Pick(t) => PickKeeps(s, t);
    case Move(t, next) =>
      if t < |s.pcs| && s.pcs[t].Walking? {
        WalkerDev(s, t);
        MoveKeeps(s, t, if next.Some? then Walking(s.pcs[t].dev, s.pcs[t].block, next.value) else Sleeping(s.pcs[t].dev, s.pcs[t].block));
      }
    case Wake(t) =>
      if t < |s.pcs| && s.pcs[t].Sleeping? {
        WalkerDev(s, t);
        MoveKeeps(s, t, Wanting(s.pcs[t].dev, s.pcs[t].block));
      }
    case Finish(t) => FinishKeeps(s, t);
    case Release(u) => ReleaseKeeps(s, u);
    case Touch(b, data, uptodate, dirt) => TouchKeeps(s, b, data, uptodate, dirt);
  }

  lemma WalkerDev(s: State, t: nat)
    requires Inv(s) && t < |s.pcs| && !s.pcs[t].Outside?
    ensures s.pcs[t].dev != 0
  {
  }

  ghost function Run(s: State, es: seq<Step>): State
    requires Inv(s)
    decreases |es|
  {
    if es == [] then s
    else
      StepKeeps(s, es[0]);
      Run(Next(s, es[0]), es[1..])
  }

  /** In every interleaving: each buffer that is not being recycled is on the list exactly
      once, the chains hold exactly the listed buffers that have a device, and no two of them
      are for the same block. */
  lemma {:induction false} RunKeeps(s: State, es: seq<Step>)
    requires Inv(s)
    ensures Inv(Run(s, es))
    decreases |es|
  {
    hide Inv, Next;
    if es != [] {
      InvChains(s);
      StepKeeps(s, es[0]);
      RunKeeps(Next(s, es[0]), es[1..]);
    }
  }

  ghost predicate NeverReleased(u: Use, es: seq<Step>) {
    Release(u) !in es
  }

  /** A buffer keeps its identity for as long as a reference to it is not released, whatever
      the other tasks do. */
  lemma {:induction false} HeldBufferStays(s: State, es: seq<Step>, u: Use)
    requires Inv(s) && u in s.uses && NeverReleased(u, es)
    ensures u in Run(s, es).uses && 0 <= u.b < |Run(s, es).c.bufs|
    ensures SameKey(Run(s, es).c.bufs[u.b], u.dev, u.block) && Run(s, es).c.bufs[u.b].count > 0
    decreases |es|
  {
    hide Next;
    if es == [] {
      UseCounts(s.uses, u);
      assert Chained(s.c, u.b);
    } else {
      hide Inv;
      StepKeeps(s, es[0]);
      UseStays(s, es[0], u);
      assert forall x :: x in es[1..] ==> x in es;
      HeldBufferStays(Next(s, es[0]), es[1..], u);
    }
  }

  lemma UseStays(s: State, e: Step, u: Use)
    requires Inv(s) && u in s.uses && e != Release(u)
    ensures |s.c.chains| == NR_HASH && u in Next(s, e).uses
  {
    hide Struct, OffList, CountsExact, FindBuffer, SetCount, InsertIntoQueues, RemoveFromQueues;
    InvChains(s);
    match e
    case Check(t) =>
      if t < |s.pcs| && s.pcs[t].Found? {
        CheckSucceeds(s, t);
      }
    case Release(v) => StillIn(s.uses, v, u);
    case _ =>
  }

  // ---------- more buffers than tasks ----------

  function Recycled(pcs: seq<Pc>): (r: set<int>)
    ensures |r| <= |pcs|
  {
    if pcs == [] then {}
    else Recycled(pcs[1..]) + if pcs[0].Evicting? then {pcs[0].b} else {}
  }

  lemma {:induction false} RecycledHas(pcs: seq<Pc>, t: int)
    requires 0 <= t < |pcs| && pcs[t].Evicting?
    ensures pcs[t].b in Recycled(pcs)
  {
    if t > 0 {
      RecycledHas(pcs[1..], t - 1);
    }
  }

  function Upto(n: nat): (r: set<int>)
    ensures |r| == n && forall x :: x in r <==> 0 <= x < n
  {
    if n == 0 then {} else Upto(n - 1) + {n - 1}
  }

  lemma SubsetSize(a: set<int>, b: set<int>)
    requires a <= b
    ensures |a| <= |b|
  {
    assert b * a == a;
    assert |b - a| + |b * a| == |b|;
  }

  /** The list is never empty, so `free_list` always points at a listed buffer. */
  lemma ListNeverEmpty(s: State)
    requires Inv(s)
    ensures s.c.ring != []
  {
    if s.c.ring == [] {
      var all := Upto(|s.c.bufs|);
      forall b | b in all
        ensures b in Recycled(s.pcs)
      {
        assert Buffer(s, b);
        var t :| Evicts(s, t, b);
        RecycledHas(s.pcs, t);
      }
      SubsetSize(all, Recycled(s.pcs));
    }
  }

  /** `buffer_init`. */
  lemma BootGood(c: Cache, tasks: nat)
    requires Struct(c) && |c.bufs| > tasks && (forall b :: 0 <= b < |c.bufs| ==> b in c.ring && c.bufs[b].count == 0)
    ensures Inv(State(c, seq(tasks, i => Outside), []))
  {
    var s := State(c, seq(tasks, i => Outside), []);
    assert forall t, b :: !Evicts(s, t, b);
  }
}
