/** What each step of several tasks in the buffer cache does, in full, and what `getblk` has
    brought its caller by the time it returns. */
module BufferSteps {
  import opened Options
  import opened BufferModel
  import opened BufferInterleave

  ghost predicate OtherTasks(s: State, r: State, t: int) {
    |r.pcs| == |s.pcs| && forall u :: 0 <= u < |s.pcs| && u != t ==> r.pcs[u] == s.pcs[u]
  }

  /** Every buffer but `b` is as it was, and where it was. */
  ghost predicate OtherBuffers(s: State, r: State, b: int) {
    && |r.c.bufs| == |s.c.bufs|
    && (forall x :: 0 <= x < |s.c.bufs| && x != b ==> r.c.bufs[x] == s.c.bufs[x])
    && forall x :: x != b ==> (x in r.c.ring <==> x in s.c.ring)
  }

  ghost predicate Named(c: Cache, b: int, dev: nat, block: nat) {
    Chained(c, b) && SameKey(c.bufs[b], dev, block)
  }

  lemma AskDoes(s: State, t: nat, dev: nat, block: nat)
    requires Inv(s) && t < |s.pcs| && s.pcs[t].Outside? && dev != 0
    ensures |s.c.chains| == NR_HASH
    ensures var r := Next(s, Ask(t, dev, block));
      r.pcs[t] == Wanting(dev, block) && OtherTasks(s, r, t) && r.c == s.c && r.uses == s.uses
  {
    HasChains(s.c);
  }

  /** A look finds the buffer that is listed for the block and counts it, or starts to search the
      list where it begins. */
  lemma LookDoes(s: State, t: nat)
    requires Inv(s) && t < |s.pcs| && s.pcs[t].Wanting?
    ensures |s.c.chains| == NR_HASH && s.c.ring != []
    ensures var r := Next(s, Look(t)); var (dev, block) := (s.pcs[t].dev, s.pcs[t].block);
      && OtherTasks(s, r, t)
      && if exists b :: Named(s.c, b, dev, block) then
           && r.pcs[t].Found? && r.pcs[t] == Found(dev, block, r.pcs[t].b) && Named(s.c, r.pcs[t].b, dev, block)
           && OtherBuffers(s, r, r.pcs[t].b) && r.c.ring == s.c.ring
           && r.c.bufs[r.pcs[t].b] == s.c.bufs[r.pcs[t].b].(count := s.c.bufs[r.pcs[t].b].count + 1)
           && r.uses == s.uses + [Use(t, r.pcs[t].b, dev, block)]
         else r.pcs[t] == Walking(dev, block, s.c.ring[0]) && r.c == s.c && r.uses == s.uses
  {
    HasChains(s.c);
    ListNeverEmpty(s);
    FindBufferIs(s.c, s.pcs[t].dev, s.pcs[t].block);
    hide Struct, FindBuffer;
    match FindBuffer(s.c, s.pcs[t].dev, s.pcs[t].block)
    case Some(b) => assert Named(s.c, b, s.pcs[t].dev, s.pcs[t].block);
    case None =>
  }

  /** A buffer that nobody uses is taken off the list, and no other is. */
  lemma PickDoes(s: State, t: nat)
    requires Inv(s) && t < |s.pcs| && s.pcs[t].Walking? && Buffer(s, s.pcs[t].b)
    ensures |s.c.chains| == NR_HASH
    ensures var r := Next(s, Pick(t)); var b := s.pcs[t].b;
      if s.c.bufs[b].count == 0 then
        && r.pcs[t] == Evicting(s.pcs[t].dev, s.pcs[t].block, b) && OtherTasks(s, r, t) && r.uses == s.uses
        && b in s.c.ring && b !in r.c.ring && r.c.bufs[b] == s.c.bufs[b].(count := 1) && OtherBuffers(s, r, b)
      else r == s
  {
    HasChains(s.c);
    var b := s.pcs[t].b;
    if s.c.bufs[b].count == 0 {
      FreeIsUnused(s, b);
      TakenOff(s.c, b);
      hide Struct, RemoveFromQueues, SetCount;
    }
  }

  lemma MoveDoes(s: State, t: nat, next: Option<int>)
    requires Inv(s) && t < |s.pcs| && s.pcs[t].Walking?
    ensures |s.c.chains| == NR_HASH
    ensures var r := Next(s, Move(t, next)); var (dev, block) := (s.pcs[t].dev, s.pcs[t].block);
      && OtherTasks(s, r, t) && r.c == s.c && r.uses == s.uses
      && r.pcs[t] == if next.None? then Sleeping(dev, block) else Walking(dev, block, next.value)
  {
    HasChains(s.c);
  }

  lemma WakeDoes(s: State, t: nat)
    requires Inv(s) && t < |s.pcs| && s.pcs[t].Sleeping?
    ensures |s.c.chains| == NR_HASH
    ensures var r := Next(s, Wake(t));
      OtherTasks(s, r, t) && r.c == s.c && r.uses == s.uses && r.pcs[t] == Wanting(s.pcs[t].dev, s.pcs[t].block)
  {
    HasChains(s.c);
  }

  /** The evicted buffer is listed again: for the block and with one reference, or, if another
      buffer has been listed for it meanwhile, for none and free. */
  lemma FinishDoes(s: State, t: nat)
    requires Inv(s) && t < |s.pcs| && s.pcs[t].Evicting?
    ensures |s.c.chains| == NR_HASH && Buffer(s, s.pcs[t].b)
    ensures var r := Next(s, Finish(t)); var (dev, block, b) := (s.pcs[t].dev, s.pcs[t].block, s.pcs[t].b);
      && OtherTasks(s, r, t) && OtherBuffers(s, r, b) && b !in s.c.ring && b in r.c.ring
      && if exists x :: Named(s.c, x, dev, block) then
           && r.pcs[t] == Wanting(dev, block) && r.uses == s.uses
           && r.c.bufs[b].dev == 0 && r.c.bufs[b].count == 0 && !r.c.bufs[b].dirt && !r.c.bufs[b].uptodate
         else
           && r.pcs[t] == Outside && r.uses == s.uses + [Use(t, b, dev, block)]
           && Named(r.c, b, dev, block) && r.c.bufs[b].count == 1 && !r.c.bufs[b].dirt && !r.c.bufs[b].uptodate
  {
    HasChains(s.c);
    var dev, block, b := s.pcs[t].dev, s.pcs[t].block, s.pcs[t].b;
    assert Evicts(s, t, b);
    EvictedFacts(s, t, b);
    RenameWorks(s.c, b, dev, block);
    var n := Renamed(s.c, b, dev, block);
    StillNamed(s.c, n, b, dev, block);
    FinishIs(s, t);
    InsertedBuf(n, b);
    InsertedBuf(Freed(n, b), b);
    hide *;
  }

  lemma FinishIs(s: State, t: nat)
    requires |s.c.chains| == NR_HASH && t < |s.pcs| && s.pcs[t].Evicting? && Buffer(s, s.pcs[t].b)
    ensures var (dev, block, b) := (s.pcs[t].dev, s.pcs[t].block, s.pcs[t].b); var n := Renamed(s.c, b, dev, block);
      Next(s, Finish(t))
      == if FindBuffer(n, dev, block).Some? then State(InsertIntoQueues(Freed(n, b), b), s.pcs[t := Wanting(dev, block)], s.uses)
         else State(InsertIntoQueues(n, b), s.pcs[t := Outside], s.uses + [Use(t, b, dev, block)])
  {
    hide FindBuffer, InsertIntoQueues;
  }

  lemma StillNamed(c: Cache, n: Cache, b: int, dev: nat, block: nat)
    requires Struct(n) && dev != 0 && 0 <= b < |c.bufs| && b !in c.ring && n == Renamed(c, b, dev, block)
    ensures FindBuffer(n, dev, block).Some? <==> exists x :: Named(c, x, dev, block)
  {
    FindBufferIs(n, dev, block);
    hide Struct, FindBuffer;
    assert forall x :: Named(n, x, dev, block) <==> Named(c, x, dev, block);
    if FindBuffer(n, dev, block).Some? {
      assert Named(n, FindBuffer(n, dev, block).value, dev, block);
    }
  }

  lemma InsertedBuf(c: Cache, b: int)
    requires 0 <= b < |c.bufs| && |c.chains| == NR_HASH
    ensures InsertIntoQueues(c, b).bufs == c.bufs && b in InsertIntoQueues(c, b).ring
  {
  }

  lemma ReleaseDoes(s: State, u: Use)
    requires Inv(s) && u in s.uses && u.t < |s.pcs| && s.pcs[u.t].Outside?
    ensures |s.c.chains| == NR_HASH && 0 <= u.b < |s.c.bufs| && s.c.bufs[u.b].count > 0
    ensures var r := Next(s, Release(u));
      && r.pcs == s.pcs && OtherBuffers(s, r, u.b) && r.c.ring == s.c.ring
      && r.c.bufs[u.b] == s.c.bufs[u.b].(count := s.c.bufs[u.b].count - 1)
      && multiset(r.uses) == multiset(s.uses) - multiset{u}
  {
    HasChains(s.c);
    UseCounts(s.uses, u);
    assert Chained(s.c, u.b);
    DroppedOnce(s.uses, u);
  }

  lemma {:induction false} DroppedOnce(uses: seq<Use>, u: Use)
    requires u in uses
    ensures multiset(Dropped(uses, u)) == multiset(uses) - multiset{u}
  {
    assert uses == [uses[0]] + uses[1..];
    if uses[0] != u {
      DroppedOnce(uses[1..], u);
    }
  }

  lemma TouchDoes(s: State, b: int, data: Block, uptodate: bool, dirt: bool)
    requires Inv(s) && Buffer(s, b)
    ensures |s.c.chains| == NR_HASH
    ensures var r := Next(s, Touch(b, data, uptodate, dirt)); var v, w := s.c.bufs[b], r.c.bufs[b];
      && r.pcs == s.pcs && r.uses == s.uses && r.c.ring == s.c.ring && OtherBuffers(s, r, b)
      && w.data == data && w.uptodate == uptodate && w.dirt == dirt && w.dev == v.dev && w.block == v.block && w.count == v.count
  {
    HasChains(s.c);
  }

  // ---------- what getblk brings ----------

  /** Task `t` is on its way to the block, or has it. */
  ghost predicate AfterIt(s: State, t: nat, dev: nat, block: nat) {
    && t < |s.pcs|
    && if s.pcs[t].Outside? then exists b :: Use(t, b, dev, block) in s.uses
       else s.pcs[t].dev == dev && s.pcs[t].block == block
  }

  /** The task neither asks for another block nor gives one back. */
  ghost predicate Attentive(t: nat, es: seq<Step>) {
    && (forall e :: e in es && e.Ask? ==> e.t != t)
    && (forall e :: e in es && e.Release? ==> e.u.t != t)
  }

  lemma StaysAfterIt(s: State, e: Step, t: nat, dev: nat, block: nat)
    requires Inv(s) && |s.c.chains| == NR_HASH && AfterIt(s, t, dev, block)
    requires (e.Ask? ==> e.t != t) && (e.Release? ==> e.u.t != t)
    ensures AfterIt(Next(s, e), t, dev, block)
  {
    StepKeeps(s, e);
    if s.pcs[t].Outside? {
      var b :| Use(t, b, dev, block) in s.uses;
      if e.Check? {
        CheckIs(s, e.t);
      } else {
        UseStays(s, e, Use(t, b, dev, block));
        assert Use(t, b, dev, block) in Next(s, e).uses;
      }
      OutsideStays(s, e, t);
    } else if e == Check(t) {
      CheckIs(s, t);
    } else if e == Finish(t) && s.pcs[t].Evicting? {
      FinishDoes(s, t);
      assert Next(s, e).pcs[t].Outside? ==> Use(t, s.pcs[t].b, dev, block) in Next(s, e).uses;
    } else if e == Look(t) && s.pcs[t].Wanting? {
      LookDoes(s, t);
    } else {
      OnTheWay(s, e, t);
    }
  }

  /** Only its own steps move a task. */
  lemma OutsideStays(s: State, e: Step, t: nat)
    requires |s.c.chains| == NR_HASH && t < |s.pcs| && s.pcs[t].Outside? && (e.Ask? ==> e.t != t)
    ensures t < |Next(s, e).pcs| && Next(s, e).pcs[t].Outside?
  {
    hide FindBuffer, InsertIntoQueues, RemoveFromQueues, SetCount, Dropped;
  }

  lemma OnTheWay(s: State, e: Step, t: nat)
    requires |s.c.chains| == NR_HASH && t < |s.pcs| && !s.pcs[t].Outside? && e != Check(t)
    requires e == Finish(t) ==> !s.pcs[t].Evicting?
    requires e == Look(t) ==> !s.pcs[t].Wanting?
    ensures var r := Next(s, e); t < |r.pcs| && !r.pcs[t].Outside? && r.pcs[t].dev == s.pcs[t].dev && r.pcs[t].block == s.pcs[t].block
  {
    hide FindBuffer, InsertIntoQueues, RemoveFromQueues, SetCount, Dropped;
  }

  /** The check after the wait finds what was looked for. */
  lemma CheckIs(s: State, t: nat)
    requires Inv(s) && |s.c.chains| == NR_HASH
    ensures Next(s, Check(t)).uses == s.uses
    ensures t < |s.pcs| && s.pcs[t].Found? ==> Next(s, Check(t)).pcs == s.pcs[t := Outside] && Use(t, s.pcs[t].b, s.pcs[t].dev, s.pcs[t].block) in s.uses
    ensures !(t < |s.pcs| && s.pcs[t].Found?) ==> Next(s, Check(t)) == s
  {
    if t < |s.pcs| && s.pcs[t].Found? {
      CheckSucceeds(s, t);
      var u := Use(t, s.pcs[t].b, s.pcs[t].dev, s.pcs[t].block);
      assert u in s.uses;
    }
  }

  /** Whatever the other tasks do, when `getblk` has returned its caller has a reference to a
      listed buffer for the block that it asked for. */
  lemma {:induction false} GetblkReturnsTheBlock(s: State, es: seq<Step>, t: nat, dev: nat, block: nat)
    requires Inv(s) && AfterIt(s, t, dev, block) && Attentive(t, es)
    ensures AfterIt(Run(s, es), t, dev, block) && t < |Run(s, es).pcs|
    ensures Run(s, es).pcs[t].Outside? ==> exists b :: Use(t, b, dev, block) in Run(s, es).uses && Named(Run(s, es).c, b, dev, block)
    decreases |es|
  {
    hide Next, Struct, OffList, CountsExact;
    if es == [] {
      if s.pcs[t].Outside? {
        var b :| Use(t, b, dev, block) in s.uses;
        assert Named(s.c, b, dev, block);
      }
    } else {
      InvChains(s);
      StepKeeps(s, es[0]);
      StaysAfterIt(s, es[0], t, dev, block);
      assert forall e :: e in es[1..] ==> e in es;
      GetblkReturnsTheBlock(Next(s, es[0]), es[1..], t, dev, block);
    }
  }
}
