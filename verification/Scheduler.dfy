/** The credit scheduler of kernel/sched.c: `schedule`, `do_timer` and `sys_nice`. */
module Scheduler {

  const NR_TASKS: nat := 64
  const SIGALRM: nat := 14

  datatype RunState = Running | Interruptible | Uninterruptible | Zombie | Stopped

  datatype Task = Task(state: RunState, counter: int, priority: int, signal: set<nat>, alarm: int)

  datatype Slot = Free | Used(t: Task)

  // ---------- specification ----------

  predicate Runnable(ts: seq<Slot>, i: int) {
    0 < i < |ts| && ts[i].Used? && ts[i].t.state == Running
  }

  /** What the first loop of `schedule` does to one task: fire its alarm, then let any
      pending signal wake it if its sleep is interruptible. */
  function Checked(s: Slot, jiffies: int): Slot {
    if s.Free? then s
    else
      var t := if s.t.alarm != 0 && s.t.alarm < jiffies
               then s.t.(signal := s.t.signal + {SIGALRM}, alarm := 0) else s.t;
      Used(if t.signal != {} && t.state == Interruptible then t.(state := Running) else t)
  }

  /** Task 0 is in none of the loops. */
  function CheckedAll(ts: seq<Slot>, jiffies: int): (r: seq<Slot>)
    ensures |r| == |ts|
  {
    seq(|ts|, i requires 0 <= i < |ts| => if i == 0 then ts[i] else Checked(ts[i], jiffies))
  }

  function Recharge(s: Slot): Slot {
    if s.Free? then s else Used(s.t.(counter := s.t.counter / 2 + s.t.priority))
  }

  function RechargedAll(ts: seq<Slot>): (r: seq<Slot>)
    ensures |r| == |ts|
  {
    seq(|ts|, i requires 0 <= i < |ts| => if i == 0 then ts[i] else Recharge(ts[i]))
  }

  /** The scan, from the last slot down to slot `n`: the greatest credit and where it was found. */
  function Pick(ts: seq<Slot>, n: nat): (r: (int, nat))
    requires n <= |ts|
    decreases |ts| - n
  {
    if n == |ts| then (-1, 0)
    else
      var (c, k) := Pick(ts, n + 1);
      if ts[n].Used? && ts[n].t.state == Running && ts[n].t.counter > c then (ts[n].t.counter, n) else (c, k)
  }

  function Scheduled(ts: seq<Slot>, jiffies: int): (r: (seq<Slot>, nat))
    requires |ts| == NR_TASKS
    ensures |r.0| == NR_TASKS
  {
    var a := CheckedAll(ts, jiffies);
    var (c, k) := Pick(a, 1);
    if c != 0 then (a, k) else (RechargedAll(a), Pick(RechargedAll(a), 1).1)
  }

  /** Credits are never negative and priorities never fall to 0. */
  predicate Funded(ts: seq<Slot>) {
    forall i :: 0 <= i < |ts| && ts[i].Used? ==> ts[i].t.counter >= 0 && ts[i].t.priority >= 1
  }

  // ---------- the code ----------

  class Kernel {
    const task: array<Slot>
    var current: nat
    var jiffies: int

    ghost predicate Valid()
      reads this, task
    {
      task.Length == NR_TASKS && current < NR_TASKS && task[current].Used? && task[0].Used? && Funded(task[..])
    }

    method CheckAlarmsAndSignals()
      requires Valid()
      modifies task
      ensures Valid() && task[..] == CheckedAll(old(task[..]), jiffies)
    {
      var i := NR_TASKS - 1;
      while i > 0
        invariant 0 <= i < NR_TASKS
        invariant forall j :: 0 <= j <= i ==> task[j] == old(task[j])
        invariant forall j :: i < j < NR_TASKS ==> task[j] == Checked(old(task[j]), jiffies)
      {
        if task[i].Used? {
          var t := task[i].t;
          if t.alarm != 0 && t.alarm < jiffies {
            t := t.(signal := t.signal + {SIGALRM}, alarm := 0);
          }
          if t.signal != {} && t.state == Interruptible {
            t := t.(state := Running);
          }
          task[i] := Used(t);
        }
        i := i - 1;
      }
    }

    method RechargeCounters()
      requires Valid()
      modifies task
      ensures Valid() && task[..] == RechargedAll(old(task[..]))
    {
      var i := NR_TASKS - 1;
      while i > 0
        invariant 0 <= i < NR_TASKS
        invariant forall j :: 0 <= j <= i ==> task[j] == old(task[j])
        invariant forall j :: i < j < NR_TASKS ==> task[j] == Recharge(old(task[j]))
      {
        if task[i].Used? {
          var t := task[i].t;
          task[i] := Used(t.(counter := t.counter / 2 + t.priority));
        }
        i := i - 1;
      }
    }

    method Scan() returns (c: int, next: nat)
      requires Valid()
      ensures (c, next) == Pick(task[..], 1)
    {
      c, next := -1, 0;
      var i := NR_TASKS;
      while i > 1
        invariant 1 <= i <= NR_TASKS
        invariant (c, next) == Pick(task[..], i)
      {
        i := i - 1;
        if task[i].Used? && task[i].t.state == Running && task[i].t.counter > c {
          c, next := task[i].t.counter, i;
        }
      }
    }

    /** `schedule`: the loop runs at most twice. */
    method Schedule()
      requires Valid()
      modifies this`current, task
      ensures Valid()
      ensures (task[..], current) == Scheduled(old(task[..]), jiffies)
    {
      ghost var was := task[..];
      CheckAlarmsAndSignals();
      ghost var a := task[..];
      ghost var rounds := 2;
      var c, next := Scan();
      while c == 0
        invariant Valid() && (c, next) == Pick(task[..], 1)
        invariant rounds == 2 ==> task[..] == a
        invariant rounds < 2 ==> Pick(a, 1).0 == 0 && task[..] == RechargedAll(a) && c != 0
        invariant 0 <= rounds <= 2
        decreases rounds
      {
        PickFound(task[..], 1);
        RechargeRevives(task[..]);
        RechargeCounters();
        c, next := Scan();
        rounds := rounds - 1;
      }
      PickFound(task[..], 1);
      current := next;
    }

    /** `do_timer`: `user` is a nonzero privilege level at the tick. */
    method DoTimer(user: bool)
      requires Valid()
      modifies this`current, task
      ensures Valid()
      ensures (task[..], current) == Ticked(old(task[..]), old(current), jiffies, user)
    {
      var t := task[current].t;
      t := t.(counter := t.counter - 1);
      if t.counter > 0 {
        task[current] := Used(t);
        return;
      }
      task[current] := Used(t.(counter := 0));
      if !user {
        return;
      }
      Schedule();
    }

    /** `sys_nice`: a priority stays positive. */
    method SysNice(increment: int, superuser: bool) returns (ok: bool)
      requires Valid()
      modifies task
      ensures Valid()
      ensures ok <==> increment >= 0 || superuser
      ensures forall i :: 0 <= i < NR_TASKS && i != current ==> task[i] == old(task[i])
      ensures task[current] == Used(old(task[current].t).(priority :=
        if ok && old(task[current].t.priority) - increment > 0
        then old(task[current].t.priority) - increment else old(task[current].t.priority)))
    {
      if increment < 0 && !superuser {
        return false;
      }
      var t := task[current].t;
      if t.priority - increment > 0 {
        task[current] := Used(t.(priority := t.priority - increment));
      }
      ok := true;
    }
  }

  function Ticked(ts: seq<Slot>, current: nat, jiffies: int, user: bool): (r: (seq<Slot>, nat))
    requires |ts| == NR_TASKS && current < NR_TASKS && ts[current].Used?
    ensures |r.0| == NR_TASKS
  {
    var t := ts[current].t;
    if t.counter - 1 > 0 then (ts[current := Used(t.(counter := t.counter - 1))], current)
    else
      var a := ts[current := Used(t.(counter := 0))];
      if user then Scheduled(a, jiffies) else (a, current)
  }

  // ---------- the choice ----------

  /** The scan finds a runnable task of greatest credit, the highest-numbered of those;
      it finds task 0 exactly when nothing above it is runnable. */
  lemma {:induction false} PickFound(ts: seq<Slot>, n: nat)
    requires 1 <= n <= |ts| && Funded(ts)
    ensures var (c, k) := Pick(ts, n);
      && (c == -1 <==> k == 0)
      && (k == 0 <==> forall i :: n <= i < |ts| ==> !Runnable(ts, i))
      && (k != 0 ==> n <= k < |ts| && Runnable(ts, k) && ts[k].t.counter == c)
      && (forall i :: n <= i < |ts| && Runnable(ts, i) ==> ts[i].t.counter <= c)
      && (forall i :: k < i < |ts| && n <= i && Runnable(ts, i) ==> ts[i].t.counter < c)
    decreases |ts| - n
  {
    if n < |ts| {
      PickFound(ts, n + 1);
      var (c, k) := Pick(ts, n);
      if k == 0 {
        assert !Runnable(ts, n);
      } else {
        assert Runnable(ts, k);
      }
    }
  }

  /** One recharge gives every runnable task credit, so there is never a second one. */
  lemma RechargeRevives(ts: seq<Slot>)
    requires Funded(ts) && |ts| >= 1 && Pick(ts, 1).0 == 0
    ensures Funded(RechargedAll(ts)) && Pick(RechargedAll(ts), 1).0 > 0
  {
    var r := RechargedAll(ts);
    PickFound(ts, 1);
    PickFound(r, 1);
    var k := Pick(ts, 1).1;
    assert Runnable(r, k);
  }

  /** What `schedule` chooses: it recharges exactly when every runnable task has spent its
      credit, and then runs a runnable task of greatest credit, which is positive; task 0
      runs only when no other task can. */
  lemma ScheduleChooses(ts: seq<Slot>, jiffies: int)
    requires |ts| == NR_TASKS && Funded(ts)
    ensures var a := CheckedAll(ts, jiffies);
      var (r, next) := Scheduled(ts, jiffies);
      && Funded(r)
      && (r == a || r == RechargedAll(a))
      && (next == 0 <==> forall i :: 1 <= i < NR_TASKS ==> !Runnable(r, i))
      && (next != 0 ==> Runnable(r, next) && r[next].t.counter > 0)
      && (forall i :: Runnable(r, i) ==> r[i].t.counter <= r[next].t.counter)
      && (forall i :: next < i && Runnable(r, i) ==> r[i].t.counter < r[next].t.counter)
      && (r != a ==> forall i :: Runnable(a, i) ==> a[i].t.counter == 0)
  {
    var a := CheckedAll(ts, jiffies);
    PickFound(a, 1);
    if Pick(a, 1).0 == 0 {
      RechargeRevives(a);
      PickFound(RechargedAll(a), 1);
    }
  }

  // ---------- bounded waiting ----------

  /** What can happen between two instants.  `Changes` covers a task blocking, being woken,
      stopping or exiting; whenever the processor is given up the kernel calls `schedule`. */
  datatype Event =
    | Tick(user: bool, jiffies: int)
    | Yield(jiffies: int)
    | Changes(i: nat, state: RunState)
    | Exits(i: nat)

  datatype Machine = Machine(ts: seq<Slot>, current: nat)

  predicate Good(m: Machine) {
    |m.ts| == NR_TASKS && m.ts[0].Used? && m.current < NR_TASKS && m.ts[m.current].Used? && Funded(m.ts)
  }

  function Next(m: Machine, e: Event): Machine
    requires Good(m)
  {
    match e
    case Tick(user, jiffies) =>
      var (ts, c) := Ticked(m.ts, m.current, jiffies, user);
      Machine(ts, c)
    case Yield(jiffies) =>
      var (ts, c) := Scheduled(m.ts, jiffies);
      Machine(ts, c)
    case Changes(i, state) =>
      if 0 < i < NR_TASKS && m.ts[i].Used? then m.(ts := m.ts[i := Used(m.ts[i].t.(state := state))]) else m
    case Exits(i) =>
      if 0 < i < NR_TASKS && m.ts[i].Used? && i != m.current then m.(ts := m.ts[i := Free]) else m
  }

  /** A task changes its state, or is gone, and no other task is touched. */
  lemma EventsHappen(m: Machine, i: nat, state: RunState)
    requires Good(m) && 0 < i < 64 && m.ts[i].Used?
    ensures var a, b := Next(m, Changes(i, state)), Next(m, Exits(i));
      && a.current == b.current == m.current && |a.ts| == |b.ts| == 64
      && a.ts[i] == Used(m.ts[i].t.(state := state)) && (i != m.current ==> b.ts[i] == Free)
      && forall j :: 0 <= j < 64 && j != i ==> a.ts[j] == b.ts[j] == m.ts[j]
  {
  }

  /** The credit of every task but `t`. */
  function Credit(ts: seq<Slot>, t: nat): (c: int)
    requires Funded(ts)
    ensures c >= 0
  {
    if ts == [] then 0
    else
      var n := |ts| - 1;
      assert ts[n].Used? ==> ts[n].t.counter >= 0;
      Credit(ts[..n], t) + if n != t && ts[n].Used? then ts[n].t.counter else 0
  }

  /** One full recharge of every task but `t`. */
  function Priorities(ts: seq<Slot>, t: nat): (p: int)
    requires Funded(ts)
    ensures p >= 0
  {
    if ts == [] then 0
    else
      var n := |ts| - 1;
      assert ts[n].Used? ==> ts[n].t.priority >= 1;
      Priorities(ts[..n], t) + if n != t && ts[n].Used? then ts[n].t.priority else 0
  }

  /** How many more ticks of user time others can be given before `t` runs. */
  function Patience(m: Machine, t: nat): (p: int)
    requires Good(m) && t < NR_TASKS && m.ts[t].Used?
    ensures p >= 0
  {
    Credit(m.ts, t)
    + (if m.ts[t].t.counter == 0 then Priorities(m.ts, t) else 0)
    + (if m.ts[m.current].t.counter == 0 then 1 else 0)
  }

  // How single changes move the sums.

  lemma {:induction false} SumsOfUpdate(ts: seq<Slot>, t: nat, i: nat, s: Slot)
    requires Funded(ts) && i < |ts| && ts[i].Used? && (s.Used? ==> s.t.counter >= 0 && s.t.priority >= 1)
    ensures Funded(ts[i := s])
    ensures Credit(ts[i := s], t) == Credit(ts, t)
      + if i == t then 0 else (if s.Used? then s.t.counter else 0) - ts[i].t.counter
    ensures Priorities(ts[i := s], t) == Priorities(ts, t)
      + if i == t then 0 else (if s.Used? then s.t.priority else 0) - ts[i].t.priority
  {
    var n := |ts| - 1;
    if i < n {
      assert ts[i := s][..n] == ts[..n][i := s];
      SumsOfUpdate(ts[..n], t, i, s);
    } else {
      assert ts[i := s][..n] == ts[..n];
    }
  }

  lemma {:induction false} SumsOfChecks(ts: seq<Slot>, t: nat, jiffies: int)
    requires Funded(ts)
    ensures Funded(CheckedAll(ts, jiffies))
    ensures Credit(CheckedAll(ts, jiffies), t) == Credit(ts, t)
    ensures Priorities(CheckedAll(ts, jiffies), t) == Priorities(ts, t)
  {
    if ts != [] {
      var n := |ts| - 1;
      assert CheckedAll(ts, jiffies)[..n] == CheckedAll(ts[..n], jiffies);
      SumsOfChecks(ts[..n], t, jiffies);
    }
  }

  lemma {:induction false} SumsOfRecharge(ts: seq<Slot>, t: nat)
    requires Funded(ts)
    ensures Funded(RechargedAll(ts))
    ensures Credit(RechargedAll(ts), t) <= Credit(ts, t) + Priorities(ts, t)
    ensures Priorities(RechargedAll(ts), t) == Priorities(ts, t)
  {
    if ts != [] {
      var n := |ts| - 1;
      assert RechargedAll(ts)[..n] == RechargedAll(ts[..n]);
      SumsOfRecharge(ts[..n], t);
    }
  }

  /** A call of `schedule` while `t` is runnable and passed over. */
  lemma YieldWaits(m: Machine, t: nat, jiffies: int)
    requires Good(m) && Runnable(m.ts, t)
    ensures var r := Next(m, Yield(jiffies));
      && Good(r) && Runnable(r.ts, t) && r.current != 0
      && r.ts[r.current].t.counter > 0
      && Patience(r, t) <= Credit(m.ts, t) + (if m.ts[t].t.counter == 0 then Priorities(m.ts, t) else 0)
  {
    hide Credit, Priorities;
    var a := CheckedAll(m.ts, jiffies);
    var (ts, next) := Scheduled(m.ts, jiffies);
    ScheduleChooses(m.ts, jiffies);
    SumsOfChecks(m.ts, t, jiffies);
    assert Runnable(a, t) && a[t].t.counter == m.ts[t].t.counter;
    if Pick(a, 1).0 == 0 {
      PickFound(a, 1);
      SumsOfRecharge(a, t);
      assert ts[t].t.counter > 0;
    }
  }

  lemma TickWaits(m: Machine, t: nat, user: bool, jiffies: int)
    requires Good(m) && Runnable(m.ts, t) && m.current != t
    ensures var r := Next(m, Tick(user, jiffies));
      && Good(r) && Runnable(r.ts, t)
      && Patience(r, t) <= Patience(m, t) - if user then 1 else 0
  {
    var c := m.current;
    var task := m.ts[c].t;
    var spent := task.counter - 1 <= 0;
    var now := Used(task.(counter := if spent then 0 else task.counter - 1));
    SumsOfUpdate(m.ts, t, c, now);
    var a := m.(ts := m.ts[c := now]);
    assert Good(a) && Runnable(a.ts, t) && a.ts[t] == m.ts[t];
    if spent && user {
      YieldWaits(a, t, jiffies);
      assert Next(m, Tick(user, jiffies)) == Next(a, Yield(jiffies));
    } else {
      assert Next(m, Tick(user, jiffies)) == a;
    }
  }

  /** The event is not `t` itself giving up the right to run. */
  predicate Stays(e: Event, t: nat) {
    match e
    case Changes(i, state) => i == t ==> state == Running
    case Exits(i) => i != t
    case _ => true
  }

  lemma EventWaits(m: Machine, t: nat, e: Event)
    requires Good(m) && Runnable(m.ts, t) && m.current != t && Stays(e, t)
    ensures var r := Next(m, e);
      && Good(r) && Runnable(r.ts, t)
      && Patience(r, t) <= Patience(m, t) - if e.Tick? && e.user then 1 else 0
  {
    match e
    case Tick(user, jiffies) => TickWaits(m, t, user, jiffies);
    case Yield(jiffies) => YieldWaits(m, t, jiffies);
    case Changes(i, state) =>
      if 0 < i < NR_TASKS && m.ts[i].Used? {
        SumsOfUpdate(m.ts, t, i, Used(m.ts[i].t.(state := state)));
      }
    case Exits(i) =>
      if 0 < i < NR_TASKS && m.ts[i].Used? && i != m.current {
        SumsOfUpdate(m.ts, t, i, Free);
      }
  }

  function UserTicks(es: seq<Event>): nat {
    if es == [] then 0 else UserTicks(es[1..]) + if es[0].Tick? && es[0].user then 1 else 0
  }

  lemma GoodNext(m: Machine, e: Event)
    requires Good(m)
    ensures Good(Next(m, e))
  {
    match e
    case Tick(user, jiffies) =>
      var task := m.ts[m.current].t;
      if task.counter - 1 <= 0 && user {
        ScheduleChooses(m.ts[m.current := Used(task.(counter := 0))], jiffies);
      }
    case Yield(jiffies) => ScheduleChooses(m.ts, jiffies);
    case Changes(i, state) =>
    case Exits(i) =>
  }

  /** Whether `t` has the processor at some point of the run. */
  predicate Dispatched(m: Machine, es: seq<Event>, t: nat)
    requires Good(m)
    decreases |es|
  {
    m.current == t ||
    (es != [] && (GoodNext(m, es[0]); Dispatched(Next(m, es[0]), es[1..], t)))
  }

  /** Bounded waiting: a task that stays runnable is given the processor before the others
      have used, as user-mode ticks, the credit they hold now, one full recharge if it has
      none itself, and one tick more. */
  lemma {:induction false} BoundedWaiting(m: Machine, es: seq<Event>, t: nat)
    requires Good(m) && Runnable(m.ts, t)
    requires forall i :: 0 <= i < |es| ==> Stays(es[i], t)
    requires UserTicks(es) > Patience(m, t)
    ensures Dispatched(m, es, t)
    decreases |es|
  {
    if m.current != t && es != [] {
      EventWaits(m, t, es[0]);
      GoodNext(m, es[0]);
      BoundedWaiting(Next(m, es[0]), es[1..], t);
    }
  }

  // ---------- credit stays below twice the priority ----------

  predicate BelowTwice(ts: seq<Slot>) {
    forall i :: 1 <= i < |ts| && ts[i].Used? ==> ts[i].t.counter < 2 * ts[i].t.priority
  }

  /** However long a task sleeps, recharges cannot pile its credit up to twice its priority. */
  lemma CreditBounded(m: Machine, e: Event)
    requires Good(m) && BelowTwice(m.ts)
    ensures BelowTwice(Next(m, e).ts)
  {
    match e
    case Tick(user, jiffies) =>
      var task := m.ts[m.current].t;
      if task.counter - 1 <= 0 {
        var a := m.ts[m.current := Used(task.(counter := 0))];
        assert BelowTwice(a) && BelowTwice(CheckedAll(a, jiffies)) && BelowTwice(RechargedAll(CheckedAll(a, jiffies)));
      }
    case Yield(jiffies) =>
      assert BelowTwice(CheckedAll(m.ts, jiffies)) && BelowTwice(RechargedAll(CheckedAll(m.ts, jiffies)));
    case Changes(i, state) =>
    case Exits(i) =>
  }

  // ---------- one call, field by field ----------

  /** Some task could run, and none that could has credit left. */
  ghost predicate Spent(ts: seq<Slot>, r: seq<Slot>) {
    |r| <= |ts| && (exists i :: Runnable(r, i)) && forall i :: Runnable(r, i) && ts[i].Used? ==> ts[i].t.counter == 0
  }

  /** The alarm of a task has run out. */
  predicate Due(t: Task, jiffies: int) {
    t.alarm != 0 && t.alarm < jiffies
  }

  /** An alarm that is due becomes signal 14, whoever has a signal is woken from an interruptible
      sleep, and only a recharge changes credit: the distance of a task's credit from one less
      than twice its priority is halved. */
  lemma ScheduleFields(ts: seq<Slot>, jiffies: int, i: nat)
    requires |ts| == NR_TASKS && Funded(ts) && 0 < i < NR_TASKS
    ensures var r := Scheduled(ts, jiffies).0;
      && r[0] == ts[0]
      && (ts[i].Free? ==> r[i].Free?)
      && (ts[i].Used? ==>
           && r[i].Used?
           && var t, u := ts[i].t, r[i].t;
             && u.priority == t.priority
             && u.signal == (if Due(t, jiffies) then t.signal + {14} else t.signal)
             && u.alarm == (if Due(t, jiffies) then 0 else t.alarm)
             && u.state == (if t.state == Interruptible && u.signal != {} then Running else t.state)
             && 2 * t.priority - 1 - u.counter
                == if Spent(ts, r) then (2 * t.priority - 1 - t.counter) / 2 else 2 * t.priority - 1 - t.counter)
  {
    var a := CheckedAll(ts, jiffies);
    PickFound(a, 1);
    var (c, k) := Pick(a, 1);
    var r := Scheduled(ts, jiffies).0;
    assert forall j :: Runnable(r, j) <==> Runnable(a, j);
    assert forall j :: Runnable(a, j) ==> ts[j].Used? && a[j].t.counter == ts[j].t.counter;
    if c == 0 {
      assert Runnable(r, k);
      assert Spent(ts, r);
    } else if k != 0 {
      assert Runnable(r, k) && ts[k].t.counter != 0;
    }
  }

  // ---------- what a sleeper gains ----------

  function Halved(d: int, k: nat): int
    decreases k
  {
    if k == 0 then d else Halved(d / 2, k - 1)
  }

  /** Whether this event recharges. */
  ghost predicate Recharging(m: Machine, e: Event)
    requires Good(m)
  {
    match e
    case Tick(user, jiffies) =>
      var t := m.ts[m.current].t;
      user && t.counter <= 1 && Spent(m.ts[m.current := Used(t.(counter := 0))], Next(m, e).ts)
    case Yield(jiffies) => Spent(m.ts, Next(m, e).ts)
    case _ => false
  }

  ghost function Recharges(m: Machine, es: seq<Event>): nat
    requires Good(m)
    decreases |es|
  {
    if es == [] then 0
    else
      GoodNext(m, es[0]);
      (if Recharging(m, es[0]) then 1 else 0) + Recharges(Next(m, es[0]), es[1..])
  }

  ghost function Run(m: Machine, es: seq<Event>): (r: Machine)
    requires Good(m)
    ensures Good(r)
    decreases |es|
  {
    if es == [] then m
    else
      GoodNext(m, es[0]);
      Run(Next(m, es[0]), es[1..])
  }

  /** Task `t` is not charged for any tick of the run and does not end. */
  predicate Aside(m: Machine, es: seq<Event>, t: nat)
    requires Good(m)
    decreases |es|
  {
    es == [] ||
    ((es[0].Tick? ==> m.current != t) && (es[0].Exits? ==> es[0].i != t) &&
     (GoodNext(m, es[0]); Aside(Next(m, es[0]), es[1..], t)))
  }

  lemma EventGains(m: Machine, e: Event, t: nat)
    requires Good(m) && 0 < t < NR_TASKS && m.ts[t].Used? && (e.Tick? ==> m.current != t) && (e.Exits? ==> e.i != t)
    ensures var r := Next(m, e);
      && |r.ts| == NR_TASKS && r.ts[t].Used? && r.ts[t].t.priority == m.ts[t].t.priority
      && var d := 2 * m.ts[t].t.priority - 1 - m.ts[t].t.counter;
        2 * r.ts[t].t.priority - 1 - r.ts[t].t.counter == if Recharging(m, e) then d / 2 else d
  {
    hide Scheduled, Spent;
    match e
    case Tick(user, jiffies) =>
      var task := m.ts[m.current].t;
      if task.counter - 1 <= 0 {
        ScheduleFields(m.ts[m.current := Used(task.(counter := 0))], jiffies, t);
      }
    case Yield(jiffies) => ScheduleFields(m.ts, jiffies, t);
    case Changes(i, state) =>
    case Exits(i) =>
  }

  /** Over any run a task that is not running comes nearer to one less than twice its priority
      by half the distance with each recharge, and by nothing else. */
  lemma {:induction false} SleeperGains(m: Machine, es: seq<Event>, t: nat)
    requires Good(m) && 0 < t < NR_TASKS && m.ts[t].Used? && Aside(m, es, t)
    ensures var r := Run(m, es);
      && r.ts[t].Used? && r.ts[t].t.priority == m.ts[t].t.priority
      && 2 * r.ts[t].t.priority - 1 - r.ts[t].t.counter
         == Halved(2 * m.ts[t].t.priority - 1 - m.ts[t].t.counter, Recharges(m, es))
    decreases |es|
  {
    hide Next, Recharging;
    if es != [] {
      GoodNext(m, es[0]);
      EventGains(m, es[0], t);
      SleeperGains(Next(m, es[0]), es[1..], t);
    }
  }

  function Pow2(n: nat): (p: nat)
    ensures p > 0
  {
    if n == 0 then 1 else 2 * Pow2(n - 1)
  }

  lemma HalfThenRest(d: nat, q: nat)
    requires q > 0
    ensures (d / 2) / q == d / (2 * q)
  {
    var a, b := d / 2, (d / 2) / q;
    assert a == q * b + a % q && d == 2 * a + d % 2;
    assert d == (2 * q) * b + (2 * (a % q) + d % 2);
    Quotient(d, 2 * q, b, 2 * (a % q) + d % 2);
  }

  lemma Quotient(d: nat, n: nat, b: nat, r: nat)
    requires n > 0 && d == n * b + r && r < n
    ensures d / n == b
  {
    var c := d / n;
    assert n * (b - c) == d % n - r;
    FactorSmall(n, b - c);
  }

  lemma FactorSmall(n: int, x: int)
    requires n > 0 && -n < n * x < n
    ensures x == 0
  {
  }

  /** So after `k` recharges the distance is the `2 ** k`-th part: credit rises with every one of
      them until it is there, and stays. */
  lemma {:induction false} HalvedIs(d: nat, k: nat)
    ensures Halved(d, k) == d / Pow2(k)
    ensures d > 0 && k > 0 ==> Halved(d, k) < d
    ensures d < Pow2(k) ==> Halved(d, k) == 0
  {
    if k > 0 {
      HalvedIs(d / 2, k - 1);
      HalfThenRest(d, Pow2(k - 1));
    }
  }

  // ---------- a slice ----------

  /** A task keeps the processor for exactly its credit in ticks; at the last, in user mode, it
      is taken off. */
  lemma {:induction false} SliceLasts(m: Machine, es: seq<Event>)
    requires Good(m) && |es| < m.ts[m.current].t.counter && forall e :: e in es ==> e.Tick?
    ensures var t := m.ts[m.current].t;
      Run(m, es) == m.(ts := m.ts[m.current := Used(t.(counter := t.counter - |es|))])
    decreases |es|
  {
    if es != [] {
      GoodNext(m, es[0]);
      assert es[0] in es && forall e :: e in es[1..] ==> e in es;
      SliceLasts(Next(m, es[0]), es[1..]);
    } else {
      assert m.ts == m.ts[m.current := m.ts[m.current]];
    }
  }

  lemma SliceEnds(m: Machine, user: bool, jiffies: int)
    requires Good(m) && m.ts[m.current].t.counter <= 1
    ensures var a := m.(ts := m.ts[m.current := Used(m.ts[m.current].t.(counter := 0))]);
      Good(a) && Next(m, Tick(user, jiffies)) == if user then Next(a, Yield(jiffies)) else a
  {
  }
}
