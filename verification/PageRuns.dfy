/** Whole runs: any sequence of forks, exits, faults and stores behaves as if every
    address space owned its own bytes. */
module PageRuns {
  import opened PageModel
  import opened PageInvariant
  import opened PageSteps
  import opened PageFork
  import opened PageFaults
  import opened PageSupply

  /** Physical memory together with the pages the kernel holds for itself. */
  datatype Machine = Machine(mem: Mem, held: multiset<nat>)

  datatype Op =
    | ForkTask(f: nat, t: nat, n: nat)
    | ExitTask(d: nat, n: nat)
    | WriteFault(v: nat)
    | DemandFault(v: nat)
    | StoreWord(v: nat, at: nat, w: Word)
    | ReleaseTask(page: nat)

  ghost predicate Good(m: Machine) { Inv(m.mem, m.held) }

  ghost predicate Enabled(m: Machine, op: Op)
    requires Sized(m.mem)
  {
    match op
    case ForkTask(f, t, n) => CanCopy(m.mem, f, t, n)
    case ExitTask(d, n) => SLOT_DIRS <= d && d + n <= ENTRIES
    case WriteFault(v) => User(v) && v in Entries(m.mem) && HasTable(m.mem, v) && Entry(m.mem, v).page < HIGH
    case DemandFault(v) => User(v) && v !in Entries(m.mem)
    case StoreWord(v, at, w) => User(v) && v in Entries(m.mem) && Entries(m.mem)[v].rw && at < 1024
    case ReleaseTask(k) => LOW <= k < HIGH && m.held[k] > 0
  }

  /** One operation, and whether it succeeded. */
  ghost function Apply(m: Machine, op: Op): (Machine, bool)
    requires Sized(m.mem)
  {
    if !Enabled(m, op) then (m, false)
    else
      match op
      case ForkTask(f, t, n) =>
        var (r, k) := Fork(m.mem, f, t, n);
        if k == 0 then (Machine(r, m.held), false) else (Machine(r, m.held + multiset{k}), true)
      case ExitTask(d, n) => (Machine(FreeDirs(m.mem, d, n), m.held), true)
      case WriteFault(v) => (Machine(UnWp(m.mem, v).0, m.held), UnWp(m.mem, v).1)
      case DemandFault(v) => (Machine(NoPage(m.mem, v).0, m.held), NoPage(m.mem, v).1)
      case StoreWord(v, at, w) => (Machine(Store(m.mem, v, at, w), m.held), true)
      case ReleaseTask(k) => (Machine(Release(m.mem, k), m.held - multiset{k}), true)
  }

  /** The same operation on address spaces that share nothing: a fork copies every page,
      a store writes one word, an exit drops a range. */
  ghost function Ideal(view: map<int, seq<Word>>, op: Op, ok: bool): map<int, seq<Word>> {
    if !ok then view
    else
      match op
      case ForkTask(f, t, n) => Shared(view, f * 1024, t * 1024, n * 1024)
      case ExitTask(d, n) => Without(view, d * 1024, n * 1024)
      case DemandFault(v) => view[v := ZeroPage()]
      case StoreWord(v, at, w) => if v in view && at < |view[v]| then view[v := view[v][at := w]] else view
      case WriteFault(v) => view
      case ReleaseTask(k) => view
  }

  lemma ForkStep(m: Machine, f: nat, t: nat, n: nat)
    requires Good(m) && CanCopy(m.mem, f, t, n)
    ensures var (r, ok) := Apply(m, ForkTask(f, t, n));
      Good(r) && View(r.mem) == Ideal(View(m.mem), ForkTask(f, t, n), ok)
  {
    hide Inv, View, Shared, Names, Fork;
    ForkWorks(m.mem, m.held, f, t, n);
    if Fork(m.mem, f, t, n).1 == 0 {
      ForkUndone(m.mem, m.held, f, t, n);
    }
  }

  lemma ExitStep(m: Machine, d: nat, n: nat)
    requires Good(m) && SLOT_DIRS <= d && d + n <= ENTRIES
    ensures var (r, ok) := Apply(m, ExitTask(d, n));
      Good(r) && View(r.mem) == Ideal(View(m.mem), ExitTask(d, n), ok)
  {
    hide Inv, View, Without, Entries, FreeDirs;
    FreeDirsKeeps(m.mem, m.held, d, n);
  }

  lemma FaultStep(m: Machine, op: Op)
    requires Good(m) && Enabled(m, op) && (op.WriteFault? || op.DemandFault?)
    ensures var (r, ok) := Apply(m, op);
      Good(r) && View(r.mem) == Ideal(View(m.mem), op, ok)
  {
    hide Inv, View, Entries, UnWp, NoPage;
    if op.WriteFault? {
      UnWpKeeps(m.mem, m.held, op.v);
    } else {
      NoPageKeeps(m.mem, m.held, op.v);
    }
  }

  lemma OtherStep(m: Machine, op: Op)
    requires Good(m) && Enabled(m, op) && (op.StoreWord? || op.ReleaseTask?)
    ensures var (r, ok) := Apply(m, op);
      Good(r) && View(r.mem) == Ideal(View(m.mem), op, ok)
  {
    hide Inv, View, Entries, Store, Release;
    if op.StoreWord? {
      StoreKeeps(m.mem, m.held, op.v, op.at, op.w);
    } else {
      ReleaseHeldKeeps(m.mem, m.held, op.page);
    }
  }

  /** Every operation keeps the counts exact and does to the views what it would do to
      unshared address spaces. */
  lemma StepRefines(m: Machine, op: Op)
    requires Good(m)
    ensures var (r, ok) := Apply(m, op);
      Good(r) && View(r.mem) == Ideal(View(m.mem), op, ok)
  {
    if Enabled(m, op) {
      assert Sized(m.mem);
      hide Good, Inv, View, Ideal, Apply;
      match op
      case ForkTask(f, t, n) => ForkStep(m, f, t, n);
      case ExitTask(d, n) => ExitStep(m, d, n);
      case WriteFault(v) => FaultStep(m, op);
      case DemandFault(v) => FaultStep(m, op);
      case StoreWord(v, at, w) => OtherStep(m, op);
      case ReleaseTask(k) => OtherStep(m, op);
    }
  }

  /** The free pages an operation cannot do without. */
  ghost function Needs(s: Mem, op: Op): nat
    requires Sized(s)
  {
    match op
    case ForkTask(f, t, n) => if f + n <= ENTRIES then 1 + |Present(s.dir, f, n)| else 0
    case WriteFault(v) =>
      var p := if User(v) then Entry(s, v).page else 0;
      if LOW <= p < HIGH && s.count[p - LOW] == 1 then 0 else 1
    case DemandFault(v) => if User(v) && s.dir[v / 1024].p then 1 else 2
    case _ => 0
  }

  /** An operation that makes sense fails only for want of memory, and exactly when there are
      fewer free pages than it needs. */
  lemma SucceedsExactlyWhen(m: Machine, op: Op)
    requires Good(m)
    ensures Sized(m.mem)
    ensures Apply(m, op).1 <==> Enabled(m, op) && Needs(m.mem, op) <= Free(m.mem.count)
  {
    if Enabled(m, op) {
      var s := m.mem;
      assert Sized(s);
      hide Inv, View, Entries, Free, Fork, UnWp, NoPage, EntryIn;
      match op
      case ForkTask(f, t, n) => ForkSucceedsExactlyWhen(s, m.held, f, t, n);
      case WriteFault(v) => WriteSucceedsExactlyWhen(s, m.held, v);
      case DemandFault(v) => DemandSucceedsExactlyWhen(s, m.held, v);
      case _ =>
    }
  }

  // ---------- runs ----------

  ghost function Run(m: Machine, ops: seq<Op>): (r: Machine)
    requires Good(m)
    ensures Good(r)
    decreases |ops|
  {
    if ops == [] then m
    else
      StepRefines(m, ops[0]);
      Run(Apply(m, ops[0]).0, ops[1..])
  }

  /** The run of the unshared machine, each operation succeeding exactly when the real one does. */
  ghost function IdealRun(m: Machine, view: map<int, seq<Word>>, ops: seq<Op>): map<int, seq<Word>>
    requires Good(m)
    decreases |ops|
  {
    if ops == [] then view
    else
      StepRefines(m, ops[0]);
      var (r, ok) := Apply(m, ops[0]);
      IdealRun(r, Ideal(view, ops[0], ok), ops[1..])
  }

  /** Copy-on-write is invisible: over every run the address spaces read what private
      copies would read, and every count is exact at the end. */
  lemma {:induction false} RunRefines(m: Machine, ops: seq<Op>)
    requires Good(m)
    ensures View(Run(m, ops).mem) == IdealRun(m, View(m.mem), ops)
    decreases |ops|
  {
    if ops != [] {
      StepRefines(m, ops[0]);
      hide Inv, View, Ideal, Apply;
      RunRefines(Apply(m, ops[0]).0, ops[1..]);
    }
  }

  /** Whether an operation belongs to the address space page `v` lies in, and may change it:
      a fork acts on the child, a store and a demand fault on their own page. */
  ghost predicate Touches(op: Op, v: int) {
    match op
    case ForkTask(f, t, n) => t * 1024 <= v < (t + n) * 1024
    case ExitTask(d, n) => d * 1024 <= v < (d + n) * 1024
    case DemandFault(u) => u == v
    case StoreWord(u, at, w) => u == v
    case WriteFault(u) => false
    case ReleaseTask(k) => false
  }

  ghost predicate SameAt<T>(a: map<int, T>, b: map<int, T>, v: int) {
    (v in a <==> v in b) && (v in a ==> a[v] == b[v])
  }

  lemma IdealUntouched(view: map<int, seq<Word>>, op: Op, ok: bool, v: int)
    requires 0 <= v < VPAGES && !Touches(op, v)
    ensures SameAt(view, Ideal(view, op, ok), v)
  {
    if op.ForkTask? {
      assert Source(v, op.f * 1024, op.t * 1024, op.n * 1024) == v;
    }
  }

  /** Isolation: whatever the other address spaces do, and however often pages are shared,
      split, freed and reused, a page that no operation acts on reads the same for ever. */
  lemma {:induction false} Isolation(m: Machine, ops: seq<Op>, v: int)
    requires Good(m) && User(v)
    requires forall i :: 0 <= i < |ops| ==> !Touches(ops[i], v)
    ensures SameAt(View(m.mem), View(Run(m, ops).mem), v)
    decreases |ops|
  {
    if ops != [] {
      StepRefines(m, ops[0]);
      var (r, ok) := Apply(m, ops[0]);
      assert Sized(m.mem) && 0 <= v < VPAGES;
      hide Inv, View, Ideal, Apply, User;
      IdealUntouched(View(m.mem), ops[0], ok, v);
      Isolation(r, ops[1..], v);
    }
  }

  /** A successful fork gives the child exactly the parent's pages. */
  lemma ChildReadsParent(m: Machine, f: nat, t: nat, n: nat, i: nat)
    requires Good(m) && CanCopy(m.mem, f, t, n) && i < n * 1024
    requires Apply(m, ForkTask(f, t, n)).1
    ensures var view, view' := View(m.mem), View(Apply(m, ForkTask(f, t, n)).0.mem);
      && (t * 1024 + i in view' <==> f * 1024 + i in view)
      && (f * 1024 + i in view ==> view'[t * 1024 + i] == view[f * 1024 + i])
      && SameAt(view, view', f * 1024 + i)
  {
    hide *;
    StepRefines(m, ForkTask(f, t, n));
    ForkShape(m, f, t, n);
    SharedAt(View(m.mem), f * 1024, t * 1024, n * 1024, i);
  }

  lemma ForkShape(m: Machine, f: nat, t: nat, n: nat)
    requires Good(m) && CanCopy(m.mem, f, t, n)
    ensures Sized(m.mem) && Sized(Apply(m, ForkTask(f, t, n)).0.mem)
    ensures Ideal(View(m.mem), ForkTask(f, t, n), true) == Shared(View(m.mem), f * 1024, t * 1024, n * 1024)
    ensures f * 1024 + n * 1024 <= VPAGES && t * 1024 + n * 1024 <= VPAGES
    ensures f * 1024 + n * 1024 <= t * 1024 || t * 1024 + n * 1024 <= f * 1024
  {
  }

  lemma SharedAt<T>(m: map<int, T>, from: nat, to: nat, n: nat, i: nat)
    requires i < n && from + n <= VPAGES && to + n <= VPAGES && (from + n <= to || to + n <= from)
    ensures var c := Shared(m, from, to, n);
      && (to + i in c <==> from + i in m) && (from + i in m ==> c[to + i] == m[from + i])
      && SameAt(m, c, from + i)
  {
    assert Source(to + i, from, to, n) == from + i;
    assert Source(from + i, from, to, n) == from + i;
  }

  /** Before any task has a page: nothing is mapped, nothing is counted. */
  lemma BootGood()
    ensures Good(Machine(Mem(seq(PAGES, i => 0), 0, ZeroPage(), seq(HIGH, i => ZeroPage())), multiset{}))
  {
    var dir := ZeroPage();
    var frames := seq(HIGH, i => ZeroPage());
    assert Entries(Mem(seq(PAGES, i => 0), 0, dir, frames)) == map[];
    forall k
      ensures Uses(map[], dir, multiset{}, k) == 0
    {
      assert Refs(map[], k) == {} && Tables(dir, k) == {};
    }
  }
}
