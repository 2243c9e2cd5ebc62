/** The request list of kernel/hd.c: where `add_request` puts a request, what the order of
    service then looks like, and what happens when the interrupt that completes a request
    arrives while the list is being changed. */
module Elevator {

  const NR_REQUEST: nat := 32
  const HEADS: nat := 5
  const SECTORS: nat := 17
  const CYLINDERS: nat := 977

  /** `hd` is -1 in a slot of the table that is not in use. */
  datatype Request = Request(hd: int, cyl: int, head: int, sector: int, bh: nat)

  predicate InOrder(a: Request, b: Request) {
    a.hd < b.hd || (a.hd == b.hd && (a.cyl < b.cyl || (a.cyl == b.cyl &&
    (a.head < b.head || (a.head == b.head && a.sector < b.sector)))))
  }

  predicate SamePlace(a: Request, b: Request) {
    a.hd == b.hd && a.cyl == b.cyl && a.head == b.head && a.sector == b.sector
  }

  predicate OnDisk(r: Request) {
    0 <= r.cyl < CYLINDERS && 0 <= r.head < HEADS && 1 <= r.sector <= SECTORS
  }

  function Lba(r: Request): int {
    (r.cyl * HEADS + r.head) * SECTORS + r.sector - 1
  }

  /** Comparing cylinder, head and sector is comparing sector numbers on the disk. */
  lemma InOrderIsLbaOrder(a: Request, b: Request)
    requires OnDisk(a) && OnDisk(b) && a.hd == b.hd
    ensures InOrder(a, b) <==> Lba(a) < Lba(b)
    ensures SamePlace(a, b) <==> Lba(a) == Lba(b)
  {
    var x, y := a.cyl * HEADS + a.head, b.cyl * HEADS + b.head;
    assert x < y ==> Lba(a) < Lba(b);
    assert y < x ==> Lba(b) < Lba(a);
  }

  // ---------- where a request goes ----------

  /** The test of the loop in `add_request`, between two neighbours of the list. */
  predicate Here(a: Request, b: Request, r: Request) {
    (InOrder(a, r) || !InOrder(a, b)) && InOrder(r, b)
  }

  function Placed(t: seq<Request>, r: Request): seq<Request>
    requires t != []
  {
    if |t| == 1 || Here(t[0], t[1], r) then [t[0], r] + t[1..] else [t[0]] + Placed(t[1..], r)
  }

  function Insert(q: seq<Request>, r: Request): seq<Request> {
    if |q| < 2 then q + [r] else [q[0]] + Placed(q[1..], r)
  }

  /** Never back to an earlier place. */
  ghost predicate Ascends(t: seq<Request>) {
    forall i, j :: 0 <= i < j < |t| ==> !InOrder(t[j], t[i])
  }

  /** One ascending sweep followed by at most one more. */
  ghost predicate TwoSweeps(t: seq<Request>) {
    exists d :: 0 <= d <= |t| && Ascends(t[..d]) && Ascends(t[d..])
  }

  ghost predicate ElsewhereThan(t: seq<Request>, r: Request) {
    forall i :: 0 <= i < |t| ==> !SamePlace(t[i], r)
  }

  ghost predicate Distinct(t: seq<Request>) {
    forall i, j :: 0 <= i < j < |t| ==> !SamePlace(t[i], t[j])
  }

  lemma {:induction false} PlacedIsPermutation(t: seq<Request>, r: Request)
    requires t != []
    ensures |Placed(t, r)| == |t| + 1 && Placed(t, r)[0] == t[0]
    ensures multiset(Placed(t, r)) == multiset(t) + multiset{r}
  {
    assert t == [t[0]] + t[1..];
    if |t| > 1 && !Here(t[0], t[1], r) {
      PlacedIsPermutation(t[1..], r);
    }
  }

  /** Nothing lost, nothing duplicated; the request in service and the one that an interrupt
      may make the request in service stay where they are. */
  lemma InsertIsPermutation(q: seq<Request>, r: Request)
    ensures |Insert(q, r)| == |q| + 1
    ensures multiset(Insert(q, r)) == multiset(q) + multiset{r}
    ensures forall i :: 0 <= i < |q| && i < 2 ==> Insert(q, r)[i] == q[i]
  {
    if |q| >= 2 {
      PlacedIsPermutation(q[1..], r);
      assert q == [q[0]] + q[1..];
    }
  }

  /** The first place where the loop stops: behind entry `k`. */
  ghost predicate StopsAt(t: seq<Request>, r: Request, k: nat) {
    && k < |t| && (k + 1 == |t| || Here(t[k], t[k + 1], r))
    && (forall i :: 0 <= i < k ==> !Here(t[i], t[i + 1], r))
  }

  function Behind(t: seq<Request>, r: Request, k: nat): (p: seq<Request>)
    requires k < |t|
    ensures |p| == |t| + 1
    ensures forall i :: 0 <= i < |p| ==> p[i] == if i <= k then t[i] else if i == k + 1 then r else t[i - 1]
  {
    t[..k + 1] + [r] + t[k + 1..]
  }

  lemma {:induction false} PlacedAt(t: seq<Request>, r: Request) returns (k: nat)
    requires t != []
    ensures StopsAt(t, r, k) && Placed(t, r) == Behind(t, r, k)
  {
    hide Here;
    if |t| == 1 || Here(t[0], t[1], r) {
      k := 0;
    } else {
      var j := PlacedAt(t[1..], r);
      k := j + 1;
      assert Placed(t, r) == [t[0]] + Placed(t[1..], r);
      forall i | 0 <= i < k
        ensures !Here(t[i], t[i + 1], r)
      {
        assert i > 0 ==> t[1..][i - 1] == t[i] && t[1..][i] == t[i + 1];
      }
    }
  }

  // ---------- the shape of the order of service ----------

  /** Every step of the list goes up or stays, but for the one to entry `d`. */
  ghost predicate RisesBut(t: seq<Request>, d: int) {
    forall i :: 0 < i < |t| && i != d ==> !InOrder(t[i], t[i - 1])
  }

  lemma {:induction false} RisingAscends(t: seq<Request>, i: int, j: int)
    requires 0 <= i < j < |t| && forall k :: i < k <= j ==> !InOrder(t[k], t[k - 1])
    ensures !InOrder(t[j], t[i])
    decreases j - i
  {
    if i + 1 < j {
      RisingAscends(t, i, j - 1);
    }
  }

  lemma SweepsAreRises(t: seq<Request>)
    ensures TwoSweeps(t) <==> exists d :: RisesBut(t, d)
  {
    hide InOrder;
    if TwoSweeps(t) {
      var d :| 0 <= d <= |t| && Ascends(t[..d]) && Ascends(t[d..]);
      forall i | 0 < i < |t| && i != d
        ensures !InOrder(t[i], t[i - 1])
      {
        if i < d {
          assert !InOrder(t[..d][i], t[..d][i - 1]);
        } else {
          assert !InOrder(t[d..][i - d], t[d..][i - 1 - d]);
        }
      }
      assert RisesBut(t, d);
    }
    if d :| RisesBut(t, d) {
      var c := if 0 <= d <= |t| then d else 0;
      RisesApart(t, c);
      assert Ascends(t[..c]) && Ascends(t[c..]);
    }
  }

  lemma RisesApart(t: seq<Request>, d: int)
    requires 0 <= d <= |t| && RisesBut(t, d)
    ensures forall i, j :: 0 <= i < j < |t| && (j < d || d <= i) ==> !InOrder(t[j], t[i])
  {
    hide InOrder;
    forall i, j | 0 <= i < j < |t| && (j < d || d <= i)
      ensures !InOrder(t[j], t[i])
    {
      RisingAscends(t, i, j);
    }
  }

  /** The second sweep starts at `d`. */
  predicate DropsAt(t: seq<Request>, d: int) {
    0 < d < |t| && InOrder(t[d], t[d - 1])
  }

  /** The request belongs between two neighbours of the first sweep. */
  ghost predicate Fits(t: seq<Request>, d: int, r: Request)
    requires 0 < d <= |t|
  {
    InOrder(t[0], r) && InOrder(r, t[d - 1]) && ElsewhereThan(t[..d], r)
  }

  /** Two neighbours of the first sweep name one place, and the request comes before them. */
  ghost predicate BeforeTwins(t: seq<Request>, d: int, r: Request)
    requires 0 < d <= |t|
  {
    exists i :: 0 < i < d && SamePlace(t[i - 1], t[i]) && InOrder(r, t[i])
  }

  /** The request's place is already named in the second sweep, which goes on beyond it. */
  ghost predicate AmongSecond(t: seq<Request>, d: int, r: Request)
    requires 0 < d < |t|
  {
    InOrder(r, t[|t| - 1]) && exists k :: d <= k < |t| && SamePlace(t[k], r)
  }

  /** The waiting list `t` has two sweeps and adding `r` makes it three. */
  ghost predicate Loses(t: seq<Request>, r: Request) {
    exists d :: DropsAt(t, d) && !Fits(t, d, r) && (BeforeTwins(t, d, r) || AmongSecond(t, d, r))
  }

  lemma OneDrop(t: seq<Request>, d: int, e: int)
    requires RisesBut(t, d) && DropsAt(t, e)
    ensures e == d
  {
  }

  /** The steps of the new list: those of the old one, but for two around the new request. */
  ghost predicate Steps(t: seq<Request>, r: Request, k: nat, e: int)
    requires k < |t|
  {
    && (forall i :: 0 < i <= k && i != e ==> !InOrder(t[i], t[i - 1]))
    && (e != k + 1 ==> !InOrder(r, t[k]))
    && (k + 1 < |t| && e != k + 2 ==> !InOrder(t[k + 1], r))
    && (forall i :: k + 1 < i < |t| && i + 1 != e ==> !InOrder(t[i], t[i - 1]))
  }

  lemma StepsOf(t: seq<Request>, r: Request, k: nat, e: int)
    requires k < |t|
    ensures RisesBut(Behind(t, r, k), e) <==> Steps(t, r, k, e)
  {
    hide InOrder;
    var p := Behind(t, r, k);
    if RisesBut(p, e) {
      assert p[k] == t[k] && p[k + 1] == r && (k + 1 < |t| ==> p[k + 2] == t[k + 1]);
      forall i | 0 < i <= k && i != e
        ensures !InOrder(t[i], t[i - 1])
      {
        assert p[i] == t[i] && p[i - 1] == t[i - 1];
      }
      forall i | k + 1 < i < |t| && i + 1 != e
        ensures !InOrder(t[i], t[i - 1])
      {
        assert p[i + 1] == t[i] && p[i] == t[i - 1];
      }
    }
    if Steps(t, r, k, e) {
      forall i | 0 < i < |p| && i != e
        ensures !InOrder(p[i], p[i - 1])
      {
        if k + 2 < i {
          assert p[i] == t[i - 1] && p[i - 1] == t[i - 1 - 1];
        }
      }
    }
  }

  /** The new list has three sweeps exactly if the old one has a drop elsewhere and the new
      request steps back from the entry it is put behind. */
  lemma DropsBehind(t: seq<Request>, r: Request, k: nat, d: int)
    requires RisesBut(t, d) && StopsAt(t, r, k)
    ensures TwoSweeps(Behind(t, r, k)) <==> !(DropsAt(t, d) && InOrder(r, t[k]) && k + 1 != d)
  {
    var p := Behind(t, r, k);
    SweepsAreRises(p);
    assert k + 1 < |t| ==> !InOrder(t[k + 1], r);
    hide InOrder, Here, Behind, TwoSweeps;
    if DropsAt(t, d) && InOrder(r, t[k]) && k + 1 != d {
      forall e
        ensures !RisesBut(p, e)
      {
        StepsOf(t, r, k, e);
        assert Steps(t, r, k, e) ==> e == k + 1;
        assert Steps(t, r, k, e) ==> e == if d <= k then d else d + 1;
      }
    } else if !InOrder(r, t[k]) {
      StepsOf(t, r, k, if d <= k then d else d + 1);
    } else {
      StepsOf(t, r, k, k + 1);
    }
  }

  lemma {:induction false} Crossing(t: seq<Request>, r: Request, i: nat, j: nat) returns (m: nat)
    requires i < j < |t| && !InOrder(r, t[i]) && InOrder(r, t[j])
    ensures i <= m < j && !InOrder(r, t[m]) && InOrder(r, t[m + 1])
    decreases j - i
  {
    if InOrder(r, t[j - 1]) {
      m := Crossing(t, r, i, j - 1);
    } else {
      m := j - 1;
    }
  }

  /** A request that fits into the first sweep is put there. */
  lemma FittingStops(t: seq<Request>, r: Request, k: nat, d: int)
    requires RisesBut(t, d) && StopsAt(t, r, k) && 0 < d <= |t| && Fits(t, d, r)
    ensures !InOrder(r, t[k])
  {
    var m := Crossing(t, r, 0, d - 1);
    assert t[..d][m] == t[m];
    assert Here(t[m], t[m + 1], r);
    if k < m {
      RisingAscends(t, k, m);
    }
  }

  /** Stopping in the first sweep, ahead of its last entry, without stepping back is fitting. */
  lemma StopFits(t: seq<Request>, r: Request, k: nat, d: int)
    requires RisesBut(t, d) && StopsAt(t, r, k) && k + 1 < d <= |t| && !InOrder(r, t[k])
    ensures Fits(t, d, r)
  {
    assert Here(t[k], t[k + 1], r);
    forall i | 0 <= i < d
      ensures !SamePlace(t[..d][i], r) && (i <= k ==> InOrder(t[i], r)) && (i > k ==> InOrder(r, t[i]))
    {
      if i < k {
        RisingAscends(t, i, k);
      } else if k + 1 < i {
        RisingAscends(t, k + 1, i);
      }
    }
  }

  lemma SteppingBackLoses(t: seq<Request>, r: Request, k: nat, d: int)
    requires RisesBut(t, d) && StopsAt(t, r, k) && DropsAt(t, d) && InOrder(r, t[k]) && k + 1 != d
    ensures !Fits(t, d, r) && (BeforeTwins(t, d, r) || AmongSecond(t, d, r))
  {
    if Fits(t, d, r) {
      FittingStops(t, r, k, d);
    }
    if k + 1 < d {
      assert SamePlace(t[k], t[k + 1]);
      assert BeforeTwins(t, d, r) by { assert 0 < k + 1 < d && SamePlace(t[k + 1 - 1], t[k + 1]) && InOrder(r, t[k + 1]); }
    } else {
      assert !Here(t[d - 1], t[d], r);
      var m := Crossing(t, r, d, k);
      assert !Here(t[m], t[m + 1], r);
      assert SamePlace(t[m], r);
      if k < |t| - 1 {
        RisingAscends(t, k, |t| - 1);
      }
    }
  }

  lemma LosingStepsBack(t: seq<Request>, r: Request, k: nat, d: int)
    requires RisesBut(t, d) && StopsAt(t, r, k) && DropsAt(t, d)
    requires !Fits(t, d, r) && (BeforeTwins(t, d, r) || AmongSecond(t, d, r))
    ensures InOrder(r, t[k]) && k + 1 != d
  {
    if k + 1 < d {
      if !InOrder(r, t[k]) {
        StopFits(t, r, k, d);
      }
    } else {
      if BeforeTwins(t, d, r) {
        var i :| 0 < i < d && SamePlace(t[i - 1], t[i]) && InOrder(r, t[i]);
        assert Here(t[i - 1], t[i], r);
      }
      var m :| d <= m < |t| && SamePlace(t[m], r);
      if k + 1 == d {
        if d < m {
          RisingAscends(t, d, m);
        }
      } else {
        StoppedAmong(t, r, k, d, m);
      }
    }
  }

  lemma StoppedAmong(t: seq<Request>, r: Request, k: nat, d: int, m: int)
    requires RisesBut(t, d) && StopsAt(t, r, k) && 0 < d <= k && d <= m < |t| && SamePlace(t[m], r) && InOrder(r, t[|t| - 1])
    ensures InOrder(r, t[k])
  {
    if k + 1 < |t| && !InOrder(r, t[k]) {
      assert Here(t[k], t[k + 1], r) && InOrder(t[k], r);
      if m < k {
        RisingAscends(t, m, k);
      } else if k + 1 < m {
        RisingAscends(t, k + 1, m);
      }
    }
  }

  /** Adding a request leaves one or two sweeps exactly if it does not: the list may be any that
      has them, with places named twice or not. */
  lemma PlacedKeepsSweepsExactly(t: seq<Request>, r: Request)
    requires t != [] && TwoSweeps(t)
    ensures TwoSweeps(Placed(t, r)) <==> !Loses(t, r)
  {
    SweepsAreRises(t);
    var d :| RisesBut(t, d);
    var k := PlacedAt(t, r);
    hide RisesBut, StopsAt, Behind, InOrder, TwoSweeps, Placed, Fits, BeforeTwins, AmongSecond;
    DropsBehind(t, r, k, d);
    if DropsAt(t, d) && InOrder(r, t[k]) && k + 1 != d {
      SteppingBackLoses(t, r, k, d);
    }
    if Loses(t, r) {
      var e :| DropsAt(t, e) && !Fits(t, e, r) && (BeforeTwins(t, e, r) || AmongSecond(t, e, r));
      OneDrop(t, d, e);
      LosingStepsBack(t, r, k, d);
    }
  }

  /** Everything behind the request in service is one or two sweeps. */
  ghost predicate Shape(q: seq<Request>) {
    |q| > 1 ==> TwoSweeps(q[1..])
  }

  /** When adding a request to the queue makes a third sweep. */
  ghost predicate LosesShape(q: seq<Request>, r: Request) {
    |q| > 1 && Loses(q[1..], r)
  }

  lemma InsertKeepsShapeExactly(q: seq<Request>, r: Request)
    requires Shape(q)
    ensures Shape(Insert(q, r)) <==> !LosesShape(q, r)
  {
    hide TwoSweeps, Loses, Placed;
    var n := Insert(q, r);
    if |q| >= 2 {
      PlacedKeepsSweepsExactly(q[1..], r);
      PlacedIsPermutation(q[1..], r);
      assert n[1..] == Placed(q[1..], r);
    } else if |q| == 1 {
      assert n[1..] == [r];
      OneRequest(r);
    }
  }

  lemma OneRequest(r: Request)
    ensures TwoSweeps([r])
  {
    assert Ascends([r][..1]) && Ascends([r][1..]);
  }

  /** Different places are never lost: that needs a place named twice. */
  lemma DistinctNeverLoses(q: seq<Request>, r: Request)
    requires Distinct(q) && ElsewhereThan(q, r)
    ensures !LosesShape(q, r)
  {
    if |q| > 1 {
      var t := q[1..];
      assert forall i :: 0 <= i < |t| ==> t[i] == q[i + 1];
      assert forall i :: 0 < i < |t| ==> !SamePlace(t[i - 1], t[i]);
      assert forall i :: 0 <= i < |t| ==> !SamePlace(t[i], r);
    }
  }

  lemma InsertKeepsShape(q: seq<Request>, r: Request)
    requires Distinct(q) && Shape(q) && ElsewhereThan(q, r)
    ensures Distinct(Insert(q, r)) && Shape(Insert(q, r))
  {
    hide Shape, LosesShape, Insert, Distinct, ElsewhereThan;
    DistinctNeverLoses(q, r);
    InsertKeepsShapeExactly(q, r);
    InsertKeepsDistinct(q, r);
  }

  lemma InsertKeepsDistinct(q: seq<Request>, r: Request)
    requires Distinct(q) && ElsewhereThan(q, r)
    ensures Distinct(Insert(q, r))
  {
    var n := |q|;
    if n >= 2 {
      var k := PlacedAt(q[1..], r);
      var m := Insert(q, r);
      forall i, j | 0 <= i < j < |m|
        ensures !SamePlace(m[i], m[j])
      {
        assert m[i] == if i < k + 2 then q[i] else if i == k + 2 then r else q[i - 1];
        assert m[j] == if j < k + 2 then q[j] else if j == k + 2 then r else q[j - 1];
      }
    }
  }

  lemma DoneKeepsShape(q: seq<Request>)
    requires q != [] && Shape(q)
    ensures Shape(q[1..])
  {
    var n := q[1..];
    if |n| > 1 {
      SweepsAreRises(n);
      var d :| RisesBut(n, d);
      assert forall i :: 0 < i < |n[1..]| ==> n[1..][i] == n[i + 1] && n[1..][i - 1] == n[i];
      assert RisesBut(n[1..], d - 1);
      SweepsAreRises(n[1..]);
    }
  }

  /** It does happen with different places queued: a second request for the first sectors of the
      second sweep goes to the end and starts a third. */
  lemma EqualPlacesBreakShape(s: Request, bh: nat)
    requires s.sector == 1
    ensures var q := [s.(sector := 4), s.(sector := 3), s, s.(sector := 2)];
      Distinct(q) && Shape(q) && !Shape(Insert(q, s.(bh := bh)))
  {
    var r := s.(bh := bh);
    var q := [s.(sector := 4), s.(sector := 3), s, s.(sector := 2)];
    var t := q[1..];
    assert t[0] == s.(sector := 3) && t[1] == s && t[2] == s.(sector := 2) && |t| == 3;
    assert RisesBut(t, 1);
    SweepsAreRises(t);
    assert DropsAt(t, 1) && SamePlace(t[1], r) && InOrder(r, t[|t| - 1]) && !InOrder(t[0], r);
    assert AmongSecond(t, 1, r) && !Fits(t, 1, r);
    hide TwoSweeps, Insert;
    InsertKeepsShapeExactly(q, r);
  }

  // ---------- whole runs ----------

  datatype Event = Add(r: Request) | Done

  datatype Progress = Progress(queue: seq<Request>, served: seq<Request>)

  function Step(p: Progress, e: Event): Progress {
    match e
    case Add(r) => p.(queue := Insert(p.queue, r))
    case Done => if p.queue == [] then p else Progress(p.queue[1..], p.served + [p.queue[0]])
  }

  function Run(p: Progress, es: seq<Event>): Progress
    decreases |es|
  {
    if es == [] then p else Run(Step(p, es[0]), es[1..])
  }

  function Added(es: seq<Event>): multiset<Request> {
    if es == [] then multiset{}
    else (if es[0].Add? then multiset{es[0].r} else multiset{}) + Added(es[1..])
  }

  /** No request is added at a moment when it makes a third sweep. */
  ghost predicate NeverLoses(p: Progress, es: seq<Event>)
    decreases |es|
  {
    es == [] || ((es[0].Add? ==> !LosesShape(p.queue, es[0].r)) && NeverLoses(Step(p, es[0]), es[1..]))
  }

  /** Whenever a request is added, nothing queued names the same sectors. */
  ghost predicate AlwaysElsewhere(p: Progress, es: seq<Event>)
    decreases |es|
  {
    es == [] || ((es[0].Add? ==> ElsewhereThan(p.queue, es[0].r)) && AlwaysElsewhere(Step(p, es[0]), es[1..]))
  }

  /** The shape lasts through every mix of requests and completions that avoids that. */
  lemma {:induction false} RunKeepsShape(p: Progress, es: seq<Event>)
    requires Shape(p.queue) && NeverLoses(p, es)
    ensures Shape(Run(p, es).queue)
    decreases |es|
  {
    hide Shape, LosesShape, Insert;
    if es != [] {
      if es[0].Add? {
        InsertKeepsShapeExactly(p.queue, es[0].r);
      } else if p.queue != [] {
        DoneKeepsShape(p.queue);
      }
      RunKeepsShape(Step(p, es[0]), es[1..]);
    }
  }

  /** Queues of different places always do. */
  lemma {:induction false} ElsewhereNeverLoses(p: Progress, es: seq<Event>)
    requires Distinct(p.queue) && AlwaysElsewhere(p, es)
    ensures NeverLoses(p, es)
    decreases |es|
  {
    hide LosesShape, Insert, ElsewhereThan;
    if es != [] {
      if es[0].Add? {
        DistinctNeverLoses(p.queue, es[0].r);
        InsertKeepsDistinct(p.queue, es[0].r);
      }
      ElsewhereNeverLoses(Step(p, es[0]), es[1..]);
    }
  }

  lemma StepConserves(p: Progress, e: Event)
    ensures var n := Step(p, e);
      multiset(n.queue) + multiset(n.served)
      == multiset(p.queue) + multiset(p.served) + if e.Add? then multiset{e.r} else multiset{}
  {
    if e.Add? {
      InsertIsPermutation(p.queue, e.r);
    } else if p.queue != [] {
      assert p.queue == [p.queue[0]] + p.queue[1..];
    }
  }

  /** Every request added is served once or still queued, whatever the requests are. */
  lemma {:induction false} RunConserves(p: Progress, es: seq<Event>)
    ensures var r := Run(p, es);
      multiset(r.queue) + multiset(r.served) == multiset(p.queue) + multiset(p.served) + Added(es)
    ensures |Run(p, es).served| >= |p.served| && Run(p, es).served[..|p.served|] == p.served
    decreases |es|
  {
    if es != [] {
      var n := Step(p, es[0]);
      StepConserves(p, es[0]);
      RunConserves(n, es[1..]);
      assert n.served[..|p.served|] == p.served;
    }
  }

  // ---------- the window in which `sorting` is set ----------

  /** `busy`: the controller has a command in hand and will interrupt.  `handler`: `do_hd` is
      not null. */
  datatype Driver = Driver(queue: seq<Request>, handler: bool, busy: bool)

  function DoRequest(d: Driver, sorting: bool): Driver {
    if sorting then d
    else if d.queue == [] then d.(handler := false)
    else d.(handler := true, busy := true)
  }

  /** The interrupt that ends the request in service; only a busy controller sends one. */
  function Completed(d: Driver, sorting: bool): Driver {
    if d.busy && d.queue != [] then DoRequest(d.(queue := d.queue[1..], busy := false), sorting) else d
  }

  /** The points inside `add_request` at which the interrupt can arrive while `sorting` is 1:
      before `this_request` is read, before the new request is linked in, and after. */
  datatype Moment = Never | BeforeRead | BeforeLink | AfterLink

  function AddRequest(d0: Driver, r: Request, when: Moment): Driver {
    var d1 := if when == BeforeRead then Completed(d0, true) else d0;
    var tmp := d1.queue;
    var d2 := if when == BeforeLink then Completed(d1, true) else d1;
    var d3 :=
      if tmp == [] then d2.(queue := [r])
      else if d2.queue == tmp then d2.(queue := Insert(tmp, r))
      else if |tmp| == 1 then d2            // linked behind a request that is already done
      else d2.(queue := Insert(tmp, r)[1..]);
    var d4 := if when == AfterLink then Completed(d3, true) else d3;
    if d4.handler then d4 else DoRequest(d4, false)
  }

  /** Something queued exactly when something is being served. */
  predicate Live(d: Driver) {
    (d.queue != [] <==> d.busy) && (d.handler <==> d.busy)
  }

  /** Adding works exactly when no completion arrives in the window; if one does, the request
      list stops being served. */
  lemma AddIsLiveExactlyWhen(d: Driver, r: Request, when: Moment)
    requires Live(d)
    ensures Live(AddRequest(d, r, when)) <==> !d.busy || when == Never
    ensures !d.busy || when == Never ==> AddRequest(d, r, when).queue == Insert(d.queue, r)
    ensures d.busy && when != Never ==> Dead(AddRequest(d, r, when))
    ensures |d.queue| == 1 && when == BeforeLink ==> AddRequest(d, r, when).queue == []
    ensures d.busy && when != Never && !(|d.queue| == 1 && when == BeforeLink) ==>
      multiset(AddRequest(d, r, when).queue) == multiset(d.queue[1..]) + multiset{r}
  {
    hide Insert;
    InsertIsPermutation(d.queue, r);
    if d.queue == [] {
      InsertShort(d.queue, r);
    } else {
      InsertIsPermutation(d.queue[1..], r);
      TailsAgree(d.queue, Insert(d.queue, r), r);
    }
  }

  lemma TailsAgree(q: seq<Request>, i: seq<Request>, r: Request)
    requires q != [] && i != [] && i[0] == q[0] && multiset(i) == multiset(q) + multiset{r}
    ensures multiset(i[1..]) == multiset(q[1..]) + multiset{r}
  {
    assert q == [q[0]] + q[1..] && i == [i[0]] + i[1..];
    assert multiset(q) == multiset{q[0]} + multiset(q[1..]);
    assert multiset(i) == multiset{q[0]} + multiset(i[1..]);
    assert multiset(i[1..]) == multiset(i) - multiset{q[0]};
  }

  /** No command is outstanding, yet `do_hd` says one is. */
  predicate Dead(d: Driver) {
    d.handler && !d.busy
  }

  /** What happens to the driver, one thing at a time. */
  datatype DriverStep = Submitted(r: Request, when: Moment) | Interrupted

  function StepDriver(d: Driver, x: DriverStep): Driver {
    match x
    case Submitted(r, when) => AddRequest(d, r, when)
    case Interrupted => Completed(d, false)
  }

  function RunDriver(d: Driver, xs: seq<DriverStep>): Driver
    decreases |xs|
  {
    if xs == [] then d else RunDriver(StepDriver(d, xs[0]), xs[1..])
  }

  /** No completion arrives while a request is being added. */
  predicate Undisturbed(d: Driver, xs: seq<DriverStep>)
    decreases |xs|
  {
    xs == []
    || ((xs[0].Submitted? ==> !d.busy || xs[0].when == Never) && Undisturbed(StepDriver(d, xs[0]), xs[1..]))
  }

  /** The same run, as events of the queue alone. */
  function EventsOf(xs: seq<DriverStep>): (es: seq<Event>)
    ensures |es| == |xs|
  {
    seq(|xs|, i requires 0 <= i < |xs| => if xs[i].Submitted? then Add(xs[i].r) else Done)
  }

  /** The end of a request starts the next one. */
  lemma CompletedKeepsLive(d: Driver)
    requires Live(d)
    ensures Live(Completed(d, false))
    ensures Completed(d, false).queue == if d.queue == [] then [] else d.queue[1..]
  {
  }

  /** A dead driver never starts again, whatever follows. */
  lemma {:induction false} DeadForever(d: Driver, xs: seq<DriverStep>)
    requires Dead(d)
    ensures Dead(RunDriver(d, xs))
    decreases |xs|
  {
    if xs != [] {
      DeadForever(StepDriver(d, xs[0]), xs[1..]);
    }
  }

  /** Over a whole run the driver is alive at the end exactly when no completion ever arrived
      in the window; then its queue is the one the events make, and otherwise it is dead. */
  lemma {:induction false} RunIsLiveExactlyWhen(d: Driver, served: seq<Request>, xs: seq<DriverStep>)
    requires Live(d)
    ensures Live(RunDriver(d, xs)) <==> Undisturbed(d, xs)
    ensures Undisturbed(d, xs) ==> RunDriver(d, xs).queue == Run(Progress(d.queue, served), EventsOf(xs)).queue
    ensures !Undisturbed(d, xs) ==> Dead(RunDriver(d, xs))
    decreases |xs|
  {
    hide Insert, AddRequest, Completed;
    if xs != [] {
      var n, es := StepDriver(d, xs[0]), EventsOf(xs);
      assert es[1..] == EventsOf(xs[1..]);
      if xs[0].Submitted? {
        AddIsLiveExactlyWhen(d, xs[0].r, xs[0].when);
      } else {
        CompletedKeepsLive(d);
      }
      if Live(n) {
        RunIsLiveExactlyWhen(n, Step(Progress(d.queue, served), es[0]).served, xs[1..]);
      } else {
        DeadForever(n, xs[1..]);
      }
    }
  }

  // ---------- the list in the table ----------

  const NULL: int := -1

  /** `next` links the slots of `chain`, which are distinct, in that order. */
  ghost predicate Chained(chain: seq<int>, next: seq<int>) {
    && (forall i :: 0 <= i < |chain| ==> 0 <= chain[i] < |next|)
    && (forall i, j :: 0 <= i < j < |chain| ==> chain[i] != chain[j])
    && (forall i {:trigger After(chain, i)} :: 0 <= i < |chain| ==> next[chain[i]] == After(chain, i))
  }

  ghost function After(chain: seq<int>, i: int): int {
    if 0 <= i && i + 1 < |chain| then chain[i + 1] else NULL
  }

  ghost function First(chain: seq<int>): int {
    if chain == [] then NULL else chain[0]
  }

  lemma LinkBehind(chain: seq<int>, next: seq<int>, i: int, req: int)
    requires Chained(chain, next) && 0 <= i < |chain| && 0 <= req < |next| && req !in chain
    ensures Chained(chain[..i + 1] + [req] + chain[i + 1..], next[req := next[chain[i]]][chain[i] := req])
  {
    var c, n := chain[..i + 1] + [req] + chain[i + 1..], next[req := next[chain[i]]][chain[i] := req];
    forall k | 0 <= k < |c|
      ensures 0 <= c[k] < |n| && n[c[k]] == After(c, k)
    {
      assert c[k] == if k <= i then chain[k] else if k == i + 1 then req else chain[k - 1];
      assert k < i ==> next[chain[k]] == After(chain, k);
      assert k > i + 1 ==> next[chain[k - 1]] == After(chain, k - 1);
      assert next[chain[i]] == After(chain, i);
    }
  }

  lemma Unlink(chain: seq<int>, next: seq<int>)
    requires Chained(chain, next) && chain != []
    ensures 0 <= chain[0] < |next| && First(chain) == chain[0]
    ensures Chained(chain[1..], next) && First(chain[1..]) == next[chain[0]] && chain[0] !in chain[1..]
  {
    assert next[chain[0]] == After(chain, 0);
    forall k | 0 <= k < |chain[1..]|
      ensures next[chain[1..][k]] == After(chain[1..], k)
    {
      assert next[chain[k + 1]] == After(chain, k + 1);
    }
  }

  /** A slot that is not on the list may be written. */
  lemma LinkFree(chain: seq<int>, next: seq<int>, req: int, v: int)
    requires Chained(chain, next) && 0 <= req < |next| && req !in chain
    ensures Chained(chain, next[req := v])
  {
    forall i | 0 <= i < |chain|
      ensures next[req := v][chain[i]] == After(chain, i)
    {
      assert chain[i] in chain && next[chain[i]] == After(chain, i);
    }
  }

  ghost function Contents(chain: seq<int>, request: seq<Request>): (q: seq<Request>)
    requires forall i :: 0 <= i < |chain| ==> 0 <= chain[i] < |request|
    ensures |q| == |chain|
  {
    seq(|chain|, i requires 0 <= i < |chain| => request[chain[i]])
  }

  lemma InsertShort(q: seq<Request>, r: Request)
    requires |q| < 2
    ensures Insert(q, r) == q + [r]
  {
  }

  lemma PlacedBeyond(q: seq<Request>, i: int, r: Request)
    requires 1 <= i && i + 1 < |q| && !Here(q[i], q[i + 1], r)
    ensures q[..i] + Placed(q[i..], r) == q[..i + 1] + Placed(q[i + 1..], r)
  {
    assert q[i..][1..] == q[i + 1..] && q[..i + 1] == q[..i] + [q[i]];
  }

  lemma PlacedHere(q: seq<Request>, i: int, r: Request)
    requires 1 <= i < |q| && (i + 1 == |q| || Here(q[i], q[i + 1], r))
    ensures q[..i] + Placed(q[i..], r) == q[..i + 1] + [r] + q[i + 1..]
  {
    assert q[i..][1..] == q[i + 1..] && q[..i + 1] == q[..i] + [q[i]];
  }

  lemma Inserted(chain: seq<int>, request: seq<Request>, next: seq<int>, i: int, req: int)
    requires Chained(chain, next) && |next| == |request| && 0 <= i < |chain| && 0 <= req < |next|
    ensures forall j :: 0 <= j < |chain| ==> 0 <= chain[j] < |request|
    ensures var c := chain[..i + 1] + [req] + chain[i + 1..];
      && (forall k :: k in c <==> k in chain || k == req) && First(c) == First(chain)
      && (forall j :: 0 <= j < |c| ==> 0 <= c[j] < |request|)
      && Contents(c, request)
         == Contents(chain, request)[..i + 1] + [request[req]] + Contents(chain, request)[i + 1..]
  {
    assert chain == chain[..i + 1] + chain[i + 1..];
  }

  /** The first slot may be overwritten once it is off the list. */
  lemma Served(chain: seq<int>, request: seq<Request>, next: seq<int>, r: Request)
    requires Chained(chain, next) && |next| == |request| && chain != []
    ensures forall j :: 0 <= j < |chain| ==> 0 <= chain[j] < |request|
    ensures forall j :: 0 <= j < |chain[1..]| ==> 0 <= chain[1..][j] < |request|
    ensures Contents(chain, request)[0] == request[chain[0]]
    ensures Contents(chain[1..], request[chain[0] := r]) == Contents(chain, request)[1..]
  {
    hide After;
    var t, c := chain[1..], request[chain[0] := r];
    forall j | 0 <= j < |t|
      ensures 0 <= t[j] < |request| && c[t[j]] == request[chain[j + 1]]
    {
      assert t[j] == chain[j + 1];
    }
    assert |Contents(t, c)| == |Contents(chain, request)[1..]|;
  }

  lemma OffTheList(chain: seq<int>, next: seq<int>)
    requires Chained(chain, next) && chain != []
    ensures forall k :: k in chain[1..] <==> k in chain && k != chain[0]
  {
    hide After;
    assert chain == [chain[0]] + chain[1..];
  }

  lemma FirstTwo(chain: seq<int>, next: seq<int>)
    requires Chained(chain, next)
    ensures First(chain) == NULL <==> chain == []
    ensures chain != [] ==> 0 <= chain[0] < |next| && First(chain) == chain[0]
    ensures chain != [] ==> (next[chain[0]] == NULL <==> |chain| == 1)
  {
    if chain != [] {
      assert next[chain[0]] == After(chain, 0);
    }
  }

  lemma Alone(request: seq<Request>, next: seq<int>, req: int)
    requires 0 <= req < |next| == |request| && next[req] == NULL
    ensures Chained([req], next) && Contents([], request) == [] && Contents([req], request) == [request[req]]
  {
  }

  lemma LinkLast(only: int, request: seq<Request>, next: seq<int>, req: int)
    requires Chained([only], next) && |next| == |request|
    requires 0 <= req < |next| && next[req] == NULL && req != only
    ensures 0 <= only < |next| && Chained([only, req], next[only := req])
    ensures Contents([only], request) == [request[only]]
    ensures Contents([only, req], request) == [request[only], request[req]]
  {
    assert [only][0] == only;
  }

  // ---------- the code ----------

  /** The request table; `next` holds table indices. */
  class RequestTable {
    const request: array<Request>
    const next: array<int>
    var thisRequest: int
    ghost var chain: seq<int>

    /** `spare` are slots filled in but not linked yet. */
    ghost predicate Linked(spare: set<int>)
      reads this, request, next
    {
      && request.Length == next.Length == NR_REQUEST && thisRequest == First(chain)
      && Chained(chain, next[..])
      && forall k :: 0 <= k < NR_REQUEST ==> (request[k].hd >= 0 <==> k in chain || k in spare)
    }

    ghost predicate Valid()
      reads this, request, next
    {
      Linked({})
    }

    /** The requests in the order in which they will be served. */
    ghost function Queue(): (q: seq<Request>)
      requires Chained(chain, next[..]) && request.Length == next.Length
      reads this, request, next
      ensures |q| == |chain|
    {
      Contents(chain, request[..])
    }

    constructor ()
      ensures Valid() && Queue() == [] && fresh(request) && fresh(next)
    {
      request := new Request[NR_REQUEST](i => Request(-1, 0, 0, 0, 0));
      next := new int[NR_REQUEST](i => NULL);
      thisRequest := NULL;
      chain := [];
    }

    /** The table has a free slot exactly when fewer than NR_REQUEST requests are queued. */
    method FindFree() returns (slot: nat)
      requires Valid()
      ensures slot <= NR_REQUEST
      ensures slot < NR_REQUEST ==> request[slot].hd < 0 && slot !in chain
      ensures slot == NR_REQUEST ==> forall k :: 0 <= k < NR_REQUEST ==> k in chain
    {
      slot := 0;
      while slot < NR_REQUEST
        invariant slot <= NR_REQUEST
        invariant forall k :: 0 <= k < slot ==> k in chain
      {
        if request[slot].hd < 0 {
          return;
        }
        slot := slot + 1;
      }
    }

    /** `rw_abs_hd` for a write, up to waiting for the buffer; `done` is false when it must
        sleep until a slot comes free. */
    method Enqueue(r: Request) returns (done: bool)
      requires Valid() && r.hd >= 0
      modifies this, request, next
      ensures Valid()
      ensures done ==> Queue() == Insert(old(Queue()), r)
      ensures !done ==> Queue() == old(Queue()) && forall k :: 0 <= k < NR_REQUEST ==> k in chain
    {
      var slot := FindFree();
      done := slot < NR_REQUEST;
      if done {
        LinkFree(chain, next[..], slot, NULL);
        request[slot] := r;
        next[slot] := NULL;
        assert next[..] == old(next[..])[slot := NULL];
        assert forall i :: 0 <= i < |chain| ==> chain[i] in chain;
        assert Contents(chain, request[..]) == old(Queue());
        AddRequest(slot);
      }
    }

    /** `add_request`, with no interrupt between its first and last line. */
    method AddRequest(req: nat)
      requires Linked({req}) && req < NR_REQUEST && req !in chain && next[req] == NULL
      modifies this, next
      ensures Valid() && Queue() == Insert(old(Queue()), request[req])
    {
      hide Insert, Placed, Here, Chained, After, Contents;
      ghost var q := Queue();
      FirstTwo(chain, next[..]);
      var tmp := thisRequest;
      if tmp == NULL {
        assert chain == [];
        Alone(request[..], next[..], req);
        InsertShort(q, request[req]);
        thisRequest := req;
        chain := [req];
      } else if next[tmp] == NULL {
        assert chain == [chain[0]];
        LinkLast(chain[0], request[..], next[..], req);
        InsertShort(q, request[req]);
        next[tmp] := req;
        assert next[..] == old(next[..])[tmp := req];
        chain := [chain[0], req];
      } else {
        ghost var i;
        tmp, i := Search(req);
        LinkIn(tmp, req, i);
      }
    }

    /** Link slot `req` behind `tmp`. */
    method LinkIn(tmp: int, req: nat, ghost i: int)
      requires Linked({req}) && req < NR_REQUEST && req !in chain
      requires 0 <= i < |chain| && tmp == chain[i] && 0 <= tmp < NR_REQUEST
      modifies this, next
      ensures Valid() && Queue() == old(Queue())[..i + 1] + [request[req]] + old(Queue())[i + 1..]
    {
      hide Chained, After;
      LinkBehind(chain, next[..], i, req);
      Inserted(chain, request[..], next[..], i, req);
      next[req] := next[tmp];
      next[tmp] := req;
      chain := chain[..i + 1] + [req] + chain[i + 1..];
      assert next[..] == old(next[..])[req := old(next[..])[tmp]][tmp := req];
    }

    /** The loop of `add_request`: the entry behind which the new request goes, starting from
        the second. */
    method Search(req: nat) returns (tmp: int, ghost i: int)
      requires Linked({req}) && req < NR_REQUEST && |chain| >= 2
      ensures 1 <= i < |chain| && tmp == chain[i] && 0 <= tmp < NR_REQUEST
      ensures Insert(Queue(), request[req]) == Queue()[..i + 1] + [request[req]] + Queue()[i + 1..]
    {
      hide Here;
      ghost var q := Queue();
      ghost var r := request[req];
      assert next[chain[0]] == After(chain, 0) && next[chain[1]] == After(chain, 1);
      tmp, i := next[thisRequest], 1;
      while next[tmp] != NULL
        invariant 1 <= i < |chain| && tmp == chain[i] && next[tmp] == After(chain, i)
        invariant Insert(q, r) == q[..i] + Placed(q[i..], r)
        decreases |chain| - i
      {
        if Here(request[tmp], request[next[tmp]], request[req]) {
          break;
        }
        PlacedBeyond(q, i, r);
        tmp, i := next[tmp], i + 1;
        assert next[chain[i]] == After(chain, i);
      }
      PlacedHere(q, i, r);
    }

    /** The end of a request in `write_intr`: its slot is free again and the next one is in
        service. */
    method Complete() returns (r: Request)
      requires Valid() && chain != []
      modifies this, request
      ensures Valid() && r == old(Queue())[0] && Queue() == old(Queue())[1..]
    {
      hide Chained, After;
      Unlink(chain, next[..]);
      OffTheList(chain, next[..]);
      Served(chain, request[..], next[..], request[thisRequest].(hd := -1));
      r := request[thisRequest];
      request[thisRequest] := r.(hd := -1);
      thisRequest := next[thisRequest];
      assert request[..] == old(request[..])[chain[0] := r.(hd := -1)];
      chain := chain[1..];
    }
  }
}
