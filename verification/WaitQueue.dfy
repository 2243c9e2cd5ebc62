/** `sleep_on` and `wake_up` of kernel/sched.c.  A wait queue is one head pointer; the rest
    of the list exists only in the `tmp` locals of the sleeping tasks.  A task gives up the
    processor in the middle of `sleep_on`, so entering and resuming are separate steps. */
module WaitQueue {

  datatype Ref = Nobody | Task(i: nat)

  /** A task inside `sleep_on(q)`: its local `tmp`, when it went to sleep, and whether its
      state has been set back to running. */
  datatype Sleeper = Awake | Asleep(q: nat, tmp: Ref, since: nat, woken: bool)

  datatype State = State(tasks: seq<Sleeper>, heads: seq<Ref>, clock: nat)

  datatype Step = Enter(t: nat, q: nat) | WakeUp(q: nat) | Resume(t: nat)

  /** `(*p).state = 0`: nothing to see when the task is running already. */
  function SetRunning(tasks: seq<Sleeper>, r: Ref): (ts: seq<Sleeper>)
    ensures |ts| == |tasks|
  {
    if r.Task? && r.i < |tasks| && tasks[r.i].Asleep? then tasks[r.i := tasks[r.i].(woken := true)] else tasks
  }

  function Next(s: State, e: Step): State {
    match e
    case Enter(t, q) =>
      if t < |s.tasks| && q < |s.heads| && s.tasks[t] == Awake
      then State(s.tasks[t := Asleep(q, s.heads[q], s.clock, false)], s.heads[q := Task(t)], s.clock + 1)
      else s
    case WakeUp(q) =>
      if q < |s.heads| && s.heads[q].Task?
      then s.(tasks := SetRunning(s.tasks, s.heads[q]), heads := s.heads[q := Nobody])
      else s
    case Resume(t) =>
      if t < |s.tasks| && s.tasks[t].Asleep? && s.tasks[t].woken && s.tasks[t].q < |s.heads| then
        var me := s.tasks[t];
        var heads := if s.heads[me.q] == Task(t) then s.heads[me.q := me.tmp] else s.heads;
        s.(tasks := SetRunning(s.tasks, me.tmp)[t := Awake], heads := heads)
      else s
  }

  function Run(s: State, es: seq<Step>): State
    decreases |es|
  {
    if es == [] then s else Run(Next(s, es[0]), es[1..])
  }

  // ---------- the invariant ----------

  ghost predicate Blocked(s: State, t: int, q: int) {
    0 <= t < |s.tasks| && s.tasks[t].Asleep? && s.tasks[t].q == q && !s.tasks[t].woken
  }

  /** `w` is inside `sleep_on` and its local points at `t`. */
  ghost predicate PointsAt(s: State, w: int, t: int) {
    0 <= w < |s.tasks| && s.tasks[w].Asleep? && s.tasks[w].tmp.Task? && s.tasks[w].tmp.i == t
  }

  ghost predicate HeadIs(s: State, q: int, t: int) {
    0 <= q < |s.heads| && s.heads[q].Task? && s.heads[q].i == t
  }

  ghost predicate InRange(s: State) {
    forall t :: 0 <= t < |s.tasks| && s.tasks[t].Asleep? ==> s.tasks[t].q < |s.heads| && s.tasks[t].since < s.clock
  }

  /** Every pointer, in a head or in a local, is to a blocked task of that queue; locals point
      to tasks that went to sleep earlier, so chains cannot be circular. */
  ghost predicate Targets(s: State) {
    && (forall q, t :: HeadIs(s, q, t) ==> Blocked(s, t, q))
    && (forall w, t :: PointsAt(s, w, t) ==> Blocked(s, t, s.tasks[w].q) && s.tasks[t].since < s.tasks[w].since)
  }

  /** No task is pointed at twice. */
  ghost predicate Unique(s: State) {
    && (forall w, q, t :: PointsAt(s, w, t) ==> !HeadIs(s, q, t))
    && (forall v, w, t :: PointsAt(s, v, t) && PointsAt(s, w, t) ==> v == w)
  }

  /** Every blocked task is pointed at, by its queue's head or by another sleeper of the queue. */
  ghost predicate Reached(s: State) {
    forall t :: 0 <= t < |s.tasks| && s.tasks[t].Asleep? && !s.tasks[t].woken ==>
      HeadIs(s, s.tasks[t].q, t) || exists w :: PointsAt(s, w, t)
  }

  ghost predicate Inv(s: State) {
    InRange(s) && Targets(s) && Unique(s) && Reached(s)
  }

  lemma EnterKeeps(s: State, t: nat, q: nat)
    requires Inv(s)
    ensures Inv(Next(s, Enter(t, q)))
  {
    var r := Next(s, Enter(t, q));
    if r != s {
      forall p, u | HeadIs(r, p, u)
        ensures (p == q && u == t) || (p != q && HeadIs(s, p, u))
        ensures Blocked(r, u, p)
      {
      }
      forall w, u | PointsAt(r, w, u)
        ensures (w == t && HeadIs(s, q, u)) || (w != t && PointsAt(s, w, u))
        ensures Blocked(r, u, r.tasks[w].q) && r.tasks[u].since < r.tasks[w].since
      {
        if w == t {
          assert HeadIs(s, q, u);
        } else {
          assert PointsAt(s, w, u);
        }
      }
      forall u | 0 <= u < |r.tasks| && r.tasks[u].Asleep? && !r.tasks[u].woken
        ensures HeadIs(r, r.tasks[u].q, u) || exists w :: PointsAt(r, w, u)
      {
        if u != t {
          if HeadIs(s, s.tasks[u].q, u) {
            if s.tasks[u].q == q {
              assert PointsAt(r, t, u);
            } else {
              assert HeadIs(r, s.tasks[u].q, u);
            }
          } else {
            var w :| PointsAt(s, w, u);
            assert PointsAt(r, w, u);
          }
        } else {
          assert HeadIs(r, q, t);
        }
      }
    }
  }

  lemma WakeUpKeeps(s: State, q: nat)
    requires Inv(s)
    ensures Inv(Next(s, WakeUp(q)))
  {
    var r := Next(s, WakeUp(q));
    if r != s {
      var h := s.heads[q].i;
      assert HeadIs(s, q, h);
      forall p, u | HeadIs(r, p, u)
        ensures p != q && HeadIs(s, p, u) && Blocked(r, u, p)
      {
        assert HeadIs(s, p, u);
      }
      forall w, u | PointsAt(r, w, u)
        ensures PointsAt(s, w, u) && Blocked(r, u, r.tasks[w].q) && r.tasks[u].since < r.tasks[w].since
      {
        assert PointsAt(s, w, u);
      }
      forall u | 0 <= u < |r.tasks| && r.tasks[u].Asleep? && !r.tasks[u].woken
        ensures HeadIs(r, r.tasks[u].q, u) || exists w :: PointsAt(r, w, u)
      {
        if HeadIs(s, s.tasks[u].q, u) {
          assert HeadIs(r, s.tasks[u].q, u);
        } else {
          var w :| PointsAt(s, w, u);
          assert PointsAt(r, w, u);
        }
      }
    }
  }

  lemma ResumeKeeps(s: State, t: nat)
    requires Inv(s)
    ensures Inv(Next(s, Resume(t)))
    ensures Next(s, Resume(t)).heads == s.heads
  {
    var r := Next(s, Resume(t));
    if r != s {
      var me := s.tasks[t];
      assert !HeadIs(s, me.q, t);
      assert me.tmp.Task? ==> PointsAt(s, t, me.tmp.i);
      forall p, u | HeadIs(r, p, u)
        ensures HeadIs(s, p, u) && Blocked(r, u, p)
      {
        assert HeadIs(s, p, u);
      }
      forall w, u | PointsAt(r, w, u)
        ensures w != t && PointsAt(s, w, u)
        ensures Blocked(r, u, r.tasks[w].q) && r.tasks[u].since < r.tasks[w].since
      {
        assert PointsAt(s, w, u);
      }
      forall u | 0 <= u < |r.tasks| && r.tasks[u].Asleep? && !r.tasks[u].woken
        ensures HeadIs(r, r.tasks[u].q, u) || exists w :: PointsAt(r, w, u)
      {
        if HeadIs(s, s.tasks[u].q, u) {
          assert HeadIs(r, s.tasks[u].q, u);
        } else {
          var w :| PointsAt(s, w, u);
          assert w != t;
          assert PointsAt(r, w, u);
        }
      }
    }
  }

  // ---------- each step in full ----------

  /** All tasks but those in `but` are as they were. */
  ghost predicate OthersStay(s: State, r: State, but: set<int>) {
    |r.tasks| == |s.tasks| && |r.heads| == |s.heads| && forall u :: 0 <= u < |s.tasks| && u !in but ==> r.tasks[u] == s.tasks[u]
  }

  ghost predicate HeadsStay(s: State, r: State, q: int) {
    |r.heads| == |s.heads| && forall p :: 0 <= p < |s.heads| && p != q ==> r.heads[p] == s.heads[p]
  }

  /** A task that goes to sleep is blocked, heads its queue, and remembers who did before. */
  lemma EnterDoes(s: State, t: nat, q: nat)
    requires t < |s.tasks| && q < |s.heads| && s.tasks[t] == Awake
    ensures var r := Next(s, Enter(t, q));
      && OthersStay(s, r, {t}) && HeadsStay(s, r, q) && Blocked(r, t, q) && HeadIs(r, q, t)
      && r.tasks[t].tmp == s.heads[q] && r.tasks[t].since == s.clock < r.clock
  {
  }

  /** `wake_up` makes the first sleeper runnable and forgets the queue, and does nothing else. */
  lemma WakeUpDoes(s: State, q: nat)
    requires Inv(s) && q < |s.heads|
    ensures var r := Next(s, WakeUp(q));
      && r.heads[q] == Nobody && HeadsStay(s, r, q) && r.clock == s.clock
      && match s.heads[q]
         case Nobody => r.tasks == s.tasks
         case Task(t) =>
           Blocked(s, t, q) && OthersStay(s, r, {t}) && r.tasks[t].Asleep? && r.tasks[t].woken
           && r.tasks[t].q == q && r.tasks[t].tmp == s.tasks[t].tmp && r.tasks[t].since == s.tasks[t].since
  {
    assert s.heads[q].Task? ==> HeadIs(s, q, s.heads[q].i);
  }

  /** A woken sleeper that resumes leaves the queue and wakes the one that it remembered. */
  lemma ResumeDoes(s: State, t: nat)
    requires Inv(s) && t < |s.tasks| && s.tasks[t].Asleep? && s.tasks[t].woken
    ensures var r := Next(s, Resume(t));
      && r.tasks[t] == Awake && r.heads == s.heads && r.clock == s.clock
      && match s.tasks[t].tmp
         case Nobody => OthersStay(s, r, {t})
         case Task(u) =>
           Blocked(s, u, s.tasks[t].q) && OthersStay(s, r, {t, u}) && u != t && r.tasks[u].Asleep? && r.tasks[u].woken
           && r.tasks[u].q == s.tasks[u].q && r.tasks[u].tmp == s.tasks[u].tmp && r.tasks[u].since == s.tasks[u].since
  {
    var me := s.tasks[t];
    assert !HeadIs(s, me.q, t);
    assert me.tmp.Task? ==> PointsAt(s, t, me.tmp.i);
  }

  lemma StepKeeps(s: State, e: Step)
    requires Inv(s)
    ensures Inv(Next(s, e))
  {
    hide Next, Inv;
    match e
    case Enter(t, q) => EnterKeeps(s, t, q);
    case WakeUp(q) => WakeUpKeeps(s, q);
    case Resume(t) => ResumeKeeps(s, t);
  }

  /** In every interleaving each blocked task stays on exactly one acyclic chain. */
  lemma {:induction false} RunKeeps(s: State, es: seq<Step>)
    requires Inv(s)
    ensures Inv(Run(s, es))
    decreases |es|
  {
    hide Inv, Next;
    if es != [] {
      StepKeeps(s, es[0]);
      RunKeeps(Next(s, es[0]), es[1..]);
    }
  }

  // ---------- no lost sleeper ----------

  /** `t` went to sleep on `q` before time `c` and has not left `sleep_on` yet. */
  ghost predicate Old(s: State, q: nat, c: nat, t: int) {
    0 <= t < |s.tasks| && s.tasks[t].Asleep? && s.tasks[t].q == q && s.tasks[t].since < c
  }

  /** No old sleeper is behind the queue's head any more: each one still blocked is the next
      in line of another old sleeper. */
  ghost predicate Released(s: State, q: nat, c: nat) {
    && c <= s.clock
    && (forall t :: HeadIs(s, q, t) ==> !Old(s, q, c, t))
    && (forall t :: Old(s, q, c, t) && !s.tasks[t].woken ==> exists w :: PointsAt(s, w, t) && Old(s, q, c, w))
  }

  /** After one wake_up this holds of everyone who was asleep on the queue. */
  lemma WakeUpReleases(s: State, q: nat)
    requires Inv(s) && q < |s.heads|
    ensures Released(Next(s, WakeUp(q)), q, s.clock)
  {
    var r := Next(s, WakeUp(q));
    forall t | Old(r, q, s.clock, t) && !r.tasks[t].woken
      ensures exists w :: PointsAt(r, w, t) && Old(r, q, s.clock, w)
    {
      assert !HeadIs(s, q, t);
      var w :| PointsAt(s, w, t);
      assert Blocked(s, t, s.tasks[w].q);
      assert PointsAt(r, w, t) && Old(r, q, s.clock, w);
    }
  }

  lemma ReleasedKept(s: State, e: Step, q: nat, c: nat)
    requires Inv(s) && Released(s, q, c)
    ensures Released(Next(s, e), q, c)
  {
    var r := Next(s, e);
    StepKeeps(s, e);
    if r != s {
      if e.Resume? {
        ResumeKeeps(s, e.t);
      }
      forall t | HeadIs(r, q, t)
        ensures !Old(r, q, c, t)
      {
        assert HeadIs(s, q, t) || e == Enter(t, q);
      }
      forall t | Old(r, q, c, t) && !r.tasks[t].woken
        ensures exists w :: PointsAt(r, w, t) && Old(r, q, c, w)
      {
        assert Old(s, q, c, t) && !s.tasks[t].woken;
        var w :| PointsAt(s, w, t) && Old(s, q, c, w);
        assert PointsAt(r, w, t) && Old(r, q, c, w);
      }
    }
  }

  lemma {:induction false} RunReleased(s: State, es: seq<Step>, q: nat, c: nat)
    requires Inv(s) && Released(s, q, c)
    ensures Released(Run(s, es), q, c)
    decreases |es|
  {
    hide Inv, Next, Released;
    if es != [] {
      StepKeeps(s, es[0]);
      ReleasedKept(s, es[0], q, c);
      RunReleased(Next(s, es[0]), es[1..], q, c);
    }
  }

  /** While an old sleeper remains, one of them is runnable: the chain it is on starts at a
      task that has been woken. */
  lemma {:induction false} SomeoneCanRun(s: State, q: nat, c: nat, t: int) returns (w: int)
    requires Inv(s) && Released(s, q, c) && Old(s, q, c, t)
    ensures Old(s, q, c, w) && s.tasks[w].woken
    decreases c - s.tasks[t].since
  {
    if s.tasks[t].woken {
      w := t;
    } else {
      var p :| PointsAt(s, p, t) && Old(s, q, c, p);
      w := SomeoneCanRun(s, q, c, p);
    }
  }

  /** Letting a woken old sleeper run takes it off the list of old sleepers, and nobody joins. */
  ghost function OldSleepers(s: State, q: nat, c: nat): set<int> {
    set t: int | 0 <= t < |s.tasks| && Old(s, q, c, t)
  }

  lemma OldOnlyLeave(s: State, e: Step, q: nat, c: nat)
    requires Inv(s) && c <= s.clock
    ensures OldSleepers(Next(s, e), q, c)
         == if e.Resume? && e.t in OldSleepers(s, q, c) && s.tasks[e.t].woken
            then OldSleepers(s, q, c) - {e.t} else OldSleepers(s, q, c)
  {
    var r := Next(s, e);
    assert forall t :: 0 <= t < |s.tasks| ==> (Old(r, q, c, t) <==> Old(s, q, c, t) && !(e == Resume(t) && s.tasks[t].woken));
  }

  /** No lost sleeper: take any state, wake the queue once, and let the tasks be scheduled in
      any order, with any other calls in between.  As soon as no woken task is waiting to run,
      everyone who slept on the queue at the time of the wake_up has left `sleep_on`. */
  lemma NoLostSleeper(s: State, q: nat, es: seq<Step>)
    requires Inv(s) && q < |s.heads|
    ensures var r := Run(Next(s, WakeUp(q)), es);
      (forall w :: Old(r, q, s.clock, w) ==> !r.tasks[w].woken) ==> OldSleepers(r, q, s.clock) == {}
  {
    var a := Next(s, WakeUp(q));
    var r := Run(a, es);
    StepKeeps(s, WakeUp(q));
    WakeUpReleases(s, q);
    RunKeeps(a, es);
    RunReleased(a, es, q, s.clock);
    if forall w :: Old(r, q, s.clock, w) ==> !r.tasks[w].woken {
      forall t
        ensures t !in OldSleepers(r, q, s.clock)
      {
        if t in OldSleepers(r, q, s.clock) {
          var w := SomeoneCanRun(r, q, s.clock, t);
        }
      }
      assert OldSleepers(r, q, s.clock) == {};
    }
  }

  /** The other direction of progress: while old sleepers remain, resuming a woken one is
      possible and leaves one fewer, so as many resumptions as there were sleepers release all. */
  lemma EachResumptionCounts(s: State, q: nat, c: nat) returns (w: int)
    requires Inv(s) && Released(s, q, c) && OldSleepers(s, q, c) != {}
    ensures Old(s, q, c, w) && s.tasks[w].woken
    ensures Released(Next(s, Resume(w)), q, c)
    ensures |OldSleepers(Next(s, Resume(w)), q, c)| == |OldSleepers(s, q, c)| - 1
  {
    var t :| t in OldSleepers(s, q, c);
    w := SomeoneCanRun(s, q, c, t);
    ReleasedKept(s, Resume(w), q, c);
    OldOnlyLeave(s, Resume(w), q, c);
  }

  lemma QueueInRange(s: State, t: nat)
    requires Inv(s) && t < |s.tasks| && s.tasks[t].Asleep?
    ensures s.tasks[t].q < |s.heads|
  {
  }

  /** A resuming task never finds itself at the head of its queue, so with these two calls
      alone the head is restored by nobody. */
  lemma HeadNeverRestored(s: State, t: nat)
    requires Inv(s) && t < |s.tasks| && s.tasks[t].Asleep? && s.tasks[t].woken
    ensures !HeadIs(s, s.tasks[t].q, t)
    ensures Next(s, Resume(t)).heads == s.heads
  {
    ResumeKeeps(s, t);
  }

  /** Nobody asleep and every queue empty. */
  lemma BootGood(tasks: nat, queues: nat)
    ensures Inv(State(seq(tasks, i => Awake), seq(queues, i => Nobody), 0))
  {
  }

  // ---------- the code ----------

  /** The task table as far as sleeping goes, and the queue heads.  `clock` numbers the calls
      of `sleep_on`; nothing branches on it. */
  class Sleepers {
    const tasks: array<Sleeper>
    const heads: array<Ref>
    var clock: nat

    ghost function Snap(): State
      reads this, tasks, heads
    {
      State(tasks[..], heads[..], clock)
    }

    ghost predicate Valid()
      reads this, tasks, heads
    {
      Inv(Snap())
    }

    constructor (nt: nat, nq: nat)
      ensures Valid() && fresh(tasks) && fresh(heads)
      ensures Snap() == State(seq(nt, i => Awake), seq(nq, i => Nobody), 0)
    {
      tasks := new Sleeper[nt](i => Awake);
      heads := new Ref[nq](i => Nobody);
      clock := 0;
      new;
      BootGood(nt, nq);
      assert tasks[..] == seq(nt, i => Awake) && heads[..] == seq(nq, i => Nobody);
    }

    /** `(*p).state = 0` for a pointer that may be null. */
    method Run(p: Ref)
      modifies tasks
      ensures tasks[..] == SetRunning(old(tasks[..]), p)
    {
      if p.Task? && p.i < tasks.Length && tasks[p.i].Asleep? {
        tasks[p.i] := tasks[p.i].(woken := true);
      }
    }

    /** `sleep_on` up to the call of `schedule`. */
    method SleepOn(t: nat, q: nat)
      requires Valid() && t < tasks.Length && q < heads.Length && tasks[t] == Awake
      modifies this, tasks, heads
      ensures Valid() && Snap() == Next(old(Snap()), Enter(t, q))
    {
      hide Inv;
      StepKeeps(Snap(), Enter(t, q));
      var tmp := heads[q];
      heads[q] := Task(t);
      tasks[t] := Asleep(q, tmp, clock, false);
      clock := clock + 1;
    }

    /** `sleep_on` after `schedule` has returned to task `t`. */
    method WokenUp(t: nat)
      requires Valid() && t < tasks.Length && tasks[t].Asleep? && tasks[t].woken
      modifies tasks, heads
      ensures Valid() && Snap() == Next(old(Snap()), Resume(t))
      ensures heads[..] == old(heads[..])
    {
      hide Inv;
      ghost var s := Snap();
      StepKeeps(s, Resume(t));
      QueueInRange(s, t);
      var q, tmp := tasks[t].q, tasks[t].tmp;
      if heads[q] == Task(t) {
        heads[q] := tmp;
      }
      Run(tmp);
      tasks[t] := Awake;
      HeadNeverRestored(s, t);
    }

    method WakeUpQueue(q: nat)
      requires Valid() && q < heads.Length
      modifies tasks, heads
      ensures Valid() && Snap() == Next(old(Snap()), WakeUp(q))
    {
      hide Inv;
      StepKeeps(Snap(), WakeUp(q));
      if heads[q].Task? {
        Run(heads[q]);
        heads[q] := Nobody;
      }
    }
  }
}
