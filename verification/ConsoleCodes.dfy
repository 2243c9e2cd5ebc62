/** What the bytes sent to the console mean: the control codes, the two-byte sequences and the
    control sequences with parameters, each by its effect on the cells, the cursor and the
    attribute.  The parser of `Console` is what is being described and is not referred to. */
module ConsoleCodes {
  import opened Console

  // ---------- numbers in decimal ----------

  predicate Digits(d: seq<int>) {
    forall k :: 0 <= k < |d| ==> 48 <= d[k] <= 57
  }

  function Pow10(n: nat): (p: nat)
    ensures p > 0
  {
    if n == 0 then 1 else 10 * Pow10(n - 1)
  }

  /** The number that the digits stand for, each by its place. */
  function Number(d: seq<int>): int {
    if d == [] then 0 else (d[0] - 48) * Pow10(|d| - 1) + Number(d[1..])
  }

  /** The digits of a number. */
  function Decimal(n: nat): (d: seq<int>)
    ensures Digits(d)
  {
    if n < 10 then [48 + n] else Decimal(n / 10) + [48 + n % 10]
  }

  lemma {:induction false} NumberAppend(d: seq<int>, c: int)
    ensures Number(d + [c]) == 10 * Number(d) + (c - 48)
  {
    if d == [] {
      assert [c][1..] == [];
    } else {
      assert (d + [c])[1..] == d[1..] + [c];
      NumberAppend(d[1..], c);
      TenTimes(d[0] - 48, Pow10(|d| - 1));
    }
  }

  lemma TenTimes(a: int, p: int)
    ensures a * (10 * p) == 10 * (a * p)
  {
  }

  lemma {:induction false} DecimalIs(n: nat)
    ensures Number(Decimal(n)) == n
  {
    if n >= 10 {
      DecimalIs(n / 10);
      NumberAppend(Decimal(n / 10), 48 + n % 10);
    } else {
      assert [48 + n][1..] == [];
    }
  }

  // ---------- what is meant ----------

  /** Numbers are 32 bits wide. */
  function Cyclic(n: int): int {
    n % 0x1_0000_0000
  }

  function AtLeastOne(n: int): int {
    if n == 0 then 1 else n
  }

  function FromZero(n: int): int {
    if n == 0 then 0 else n - 1
  }

  function AtMost(n: int, limit: int): int {
    if n > limit then limit else n
  }

  /** The cursor goes to column `x` of line `y` if there is such a place, and nothing else changes. */
  ghost predicate MovedTo(t: Term, r: Term, x: int, y: int) {
    && r.cells == t.cells && r.p.attr == t.p.attr
    && r.u == if 0 <= x < 80 && 0 <= y < 50 then t.u.(x := x, y := y) else t.u
  }

  /** Only cells change. */
  ghost predicate Redrawn(t: Term, r: Term) {
    |t.cells| == |r.cells| == 4000 && r.u == t.u && r.p.attr == t.p.attr
  }

  /** The cells from `from` up to `to` are blank, the others as before. */
  ghost predicate Erased(t: Term, r: Term, from: int, to: int) {
    Redrawn(t, r) && forall k :: 0 <= k < 4000 ==> r.cells[k] == if from <= k < to then 0x0720 else t.cells[k]
  }

  /** Cell `k` when from `from` up to `to` the contents move on by `n` cells and blanks come in at the start. */
  function OnCell(c: seq<Cell>, from: int, to: int, n: int, k: int): Cell
    requires |c| == 4000 && 0 <= k < 4000
  {
    if k < from || k >= to then c[k] else if from <= k - n && 0 <= k - n < 4000 then c[k - n] else 0x0720
  }

  /** Cell `k` when they move back and blanks come in at the end. */
  function BackCell(c: seq<Cell>, from: int, to: int, n: int, k: int): Cell
    requires |c| == 4000 && 0 <= k < 4000
  {
    if k < from || k >= to then c[k] else if k + n < to && 0 <= k + n < 4000 then c[k + n] else 0x0720
  }

  ghost predicate MovedOn(t: Term, r: Term, from: int, to: int, n: int) {
    Redrawn(t, r) && forall k :: 0 <= k < 4000 ==> r.cells[k] == OnCell(t.cells, from, to, n, k)
  }

  ghost predicate MovedBack(t: Term, r: Term, from: int, to: int, n: int) {
    Redrawn(t, r) && forall k :: 0 <= k < 4000 ==> r.cells[k] == BackCell(t.cells, from, to, n, k)
  }

  /** The colours of the standard, red being 1 and blue 4, as the video card numbers them. */
  function Colour(n: int): int {
    4 * (n % 2) + 2 * (n / 2 % 2) + n / 4
  }

  function Painted(attr: int, v: int): int {
    if v == 0 || v == 27 then 7
    else if v == 1 || v == 4 then 15
    else if v == 7 then 112
    else if 30 <= v <= 37 then attr - attr % 16 + Colour(v - 30)
    else if v == 39 then attr - attr % 16 + 7
    else attr
  }

  function PaintedAll(attr: int, vs: seq<int>): int
    decreases |vs|
  {
    if vs == [] then attr else PaintedAll(Painted(attr, vs[0]), vs[1..])
  }

  /** A control sequence that ends in `f`, with the numbers `vs`. */
  ghost predicate Means(t: Term, r: Term, f: int, vs: seq<int>)
    requires vs != []
  {
    var a, b := vs[0], if |vs| > 1 then vs[1] else 0;
    var x, y := t.u.x, t.u.y;
    var here, line := 80 * y + x, 80 * y;
    if f == 65 then MovedTo(t, r, x, Cyclic(y - AtLeastOne(a)))                      // A
    else if f == 66 || f == 101 then MovedTo(t, r, x, Cyclic(y + AtLeastOne(a)))     // B e
    else if f == 67 || f == 97 then MovedTo(t, r, Cyclic(x + AtLeastOne(a)), y)      // C a
    else if f == 68 then MovedTo(t, r, Cyclic(x - AtLeastOne(a)), y)                 // D
    else if f == 69 then MovedTo(t, r, 0, Cyclic(y + AtLeastOne(a)))                 // E
    else if f == 70 then MovedTo(t, r, 0, Cyclic(y - AtLeastOne(a)))                 // F
    else if f == 71 || f == 96 then MovedTo(t, r, FromZero(a), y)                    // G `
    else if f == 100 then MovedTo(t, r, x, FromZero(a))                              // d
    else if f == 72 || f == 102 then MovedTo(t, r, FromZero(b), FromZero(a))         // H f
    else if f == 74 then                                                             // J
      Erased(t, r, if a == 0 then here else 0, if a == 0 || a == 2 then 4000 else if a == 1 then here else 0)
    else if f == 75 then                                                             // K
      Erased(t, r, if a == 0 then here else line, if a == 0 || a == 2 then line + 80 else if a == 1 then here else 0)
    else if f == 76 then MovedOn(t, r, line, 4000, 80 * AtMost(AtLeastOne(a), 50))   // L
    else if f == 77 then MovedBack(t, r, line, 4000, 80 * AtMost(AtLeastOne(a), 50)) // M
    else if f == 64 then MovedOn(t, r, here, line + 80, AtMost(AtLeastOne(a), 80))   // @
    else if f == 80 then MovedBack(t, r, here, line + 80, AtMost(AtLeastOne(a), 80)) // P
    else if f == 109 then r.cells == t.cells && r.u == t.u && r.p.attr == PaintedAll(t.p.attr, vs)  // m
    else if f == 114 then                                                            // r
      var top, bottom := FromZero(a), if b == 0 then 50 else b;
      && r.cells == t.cells && r.p.attr == t.p.attr
      && r.u == if top < bottom <= 50 then t.u.(top := top, bottom := bottom) else t.u
    else if f == 115 then r.cells == t.cells && r.p.attr == t.p.attr && r.u == t.u.(sx := x, sy := y)       // s
    else if f == 117 then r.cells == t.cells && r.p.attr == t.p.attr && r.u == t.u.(x := t.u.sx, y := t.u.sy) // u
    else r.cells == t.cells && r.p.attr == t.p.attr && r.u == t.u
  }

  /** The line the cursor is in after a line feed. */
  function NextLine(u: Cursor): int {
    if u.y + 1 < u.bottom then u.y + 1 else u.y
  }

  /** Cell `k` after a line feed: at the end of the region its lines move up. */
  function FedCell(t: Term, k: int): int
    requires |t.cells| == 4000 && 0 <= k < 4000
  {
    if t.u.y + 1 < t.u.bottom then t.cells[k] else BackCell(t.cells, 80 * t.u.top, 80 * t.u.bottom, 80, k)
  }

  ghost predicate Fed(t: Term, r: Term, x: int) {
    && |t.cells| == |r.cells| == 4000 && r.p.attr == t.p.attr && r.u == t.u.(x := x, y := NextLine(t.u))
    && forall k :: 0 <= k < 4000 ==> r.cells[k] == FedCell(t, k)
  }

  /** A line up, or at the start of the region its lines move down. */
  ghost predicate FedBack(t: Term, r: Term) {
    if t.u.y > t.u.top then r.cells == t.cells && r.p.attr == t.p.attr && r.u == t.u.(y := t.u.y - 1)
    else MovedOn(t, r, 80 * t.u.top, 80 * t.u.bottom, 80)
  }

  /** A character in the cursor's place, or past the last column at the start of the next line. */
  ghost predicate Printed(t: Term, r: Term, c: int) {
    && |t.cells| == |r.cells| == 4000 && r.p.attr == t.p.attr
    && if t.u.x < 80 then
         && r.u == t.u.(x := t.u.x + 1)
         && forall k :: 0 <= k < 4000 ==> r.cells[k] == if k == 80 * t.u.y + t.u.x then 256 * t.p.attr + c else t.cells[k]
       else
         && r.u == t.u.(x := 1, y := NextLine(t.u))
         && forall k :: 0 <= k < 4000 ==> r.cells[k] == if k == 80 * NextLine(t.u) then 256 * t.p.attr + c else FedCell(t, k)
  }

  ghost predicate Unchanged(t: Term, r: Term) {
    r.cells == t.cells && r.p.attr == t.p.attr && r.u == t.u
  }

  /** A byte outside any sequence. */
  ghost predicate ByteMeans(t: Term, r: Term, c: int, erase: int) {
    var x, y := t.u.x, t.u.y;
    if c > 31 && c != 127 then Printed(t, r, c)
    else if c == 10 || c == 11 || c == 12 then Fed(t, r, x)
    else if c == 13 then MovedTo(t, r, 0, y)
    else if c == erase then
      if x == 0 then Unchanged(t, r)
      else
        && |t.cells| == |r.cells| == 4000 && r.p.attr == t.p.attr && r.u == t.u.(x := x - 1)
        && forall k :: 0 <= k < 4000 ==> r.cells[k] == if k == 80 * y + x - 1 then 0x0720 else t.cells[k]
    else if c == 8 then MovedTo(t, r, x - 1, y)
    else if c == 9 then
      if x == 80 then Fed(t, r, 8)
      else r.cells == t.cells && r.p.attr == t.p.attr && r.u == t.u.(x := x - x % 8 + 8)
    else Unchanged(t, r)
  }

  /** The byte after an escape. */
  ghost predicate EscapeMeans(t: Term, r: Term, c: int) {
    if c == 69 then MovedTo(t, r, 0, t.u.y + 1)                                                        // E
    else if c == 77 then FedBack(t, r)                                                                 // M
    else if c == 68 then Fed(t, r, t.u.x)                                                              // D
    else if c == 55 then r.cells == t.cells && r.p.attr == t.p.attr && r.u == t.u.(sx := t.u.x, sy := t.u.y)    // 7
    else if c == 56 then r.cells == t.cells && r.p.attr == t.p.attr && r.u == t.u.(x := t.u.sx, y := t.u.sy)    // 8
    else Unchanged(t, r)
  }

  // ---------- reading the text ----------

  /** The parameters, separated by semicolons. */
  function Text(ds: seq<seq<int>>): seq<int> {
    if ds == [] then []
    else if |ds| == 1 then ds[0]
    else Text(ds[..|ds| - 1]) + [59] + ds[|ds| - 1]
  }

  predicate AllDigits(ds: seq<seq<int>>) {
    forall i :: 0 <= i < |ds| ==> Digits(ds[i])
  }

  function Values(ds: seq<seq<int>>): (vs: seq<int>)
    ensures |vs| == |ds| && forall i :: 0 <= i < |ds| ==> vs[i] == Cyclic(Number(ds[i]))
  {
    seq(|ds|, i requires 0 <= i < |ds| => Cyclic(Number(ds[i])))
  }

  /** `t` has read the parameters `ds`, the last of them perhaps in part, and is otherwise `t0`. */
  ghost predicate Reading(t0: Term, t: Term, ds: seq<seq<int>>) {
    && TermOk(t) && Unchanged(t0, t) && t.p.state == 3 && 1 <= |ds| <= 16 && t.p.npar == |ds| - 1 && |t.p.par| == 16
    && forall i :: 0 <= i < 16 ==> t.p.par[i] == if i < |ds| then Cyclic(Number(ds[i])) else 0
  }

  lemma {:induction false} BytesSplit(t: Term, a: seq<int>, b: seq<int>, erase: int)
    requires TermOk(t)
    ensures TermOk(TermBytes(t, a, erase)) && TermBytes(t, a + b, erase) == TermBytes(TermBytes(t, a, erase), b, erase)
    decreases |a|
  {
    hide TermByte, TermOk;
    if a == [] {
      assert a + b == b;
    } else {
      TermKeeps(t, a[0], erase);
      assert (a + b)[0] == a[0] && (a + b)[1..] == a[1..] + b;
      BytesSplit(TermByte(t, a[0], erase), a[1..], b, erase);
    }
  }

  lemma OneByte(t: Term, c: int, erase: int)
    requires TermOk(t)
    ensures TermOk(TermByte(t, c, erase)) && TermBytes(t, [c], erase) == TermByte(t, c, erase)
  {
    hide TermByte, TermOk;
    TermKeeps(t, c, erase);
    assert [c][1..] == [];
  }

  lemma TakesDigit(t0: Term, t: Term, ds: seq<seq<int>>, d: seq<int>, c: int, erase: int)
    requires Reading(t0, t, ds + [d]) && 48 <= c <= 57
    ensures Reading(t0, TermByte(t, c, erase), ds + [d + [c]])
  {
    NumberAppend(d, c);
    var n := |ds|;
    var before, after := ds + [d], ds + [d + [c]];
    assert forall i :: 0 <= i <= n ==> after[i] == if i < n then before[i] else d + [c];
    assert t.p.par[n] == Cyclic(Number(d));
    TenTimesCyclic(Number(d), c - 48);
  }

  lemma TenTimesCyclic(n: int, d: int)
    ensures (10 * (n % 0x1_0000_0000) + d) % 0x1_0000_0000 == (10 * n + d) % 0x1_0000_0000
  {
    var q, w := n / 0x1_0000_0000, 0x1_0000_0000;
    assert 10 * n + d == 10 * (n % w) + d + 10 * q * w;
  }

  lemma TakesSemicolon(t0: Term, t: Term, ds: seq<seq<int>>, erase: int)
    requires Reading(t0, t, ds) && |ds| < 16
    ensures Reading(t0, TermByte(t, 59, erase), ds + [[]])
  {
    var after := ds + [[]];
    assert Number([]) == 0;
    assert forall i :: 0 <= i < |after| ==> after[i] == if i < |ds| then ds[i] else [];
  }

  lemma {:induction false} TakesDigits(t0: Term, t: Term, ds: seq<seq<int>>, d: seq<int>, rest: seq<int>, erase: int)
    requires Reading(t0, t, ds + [d]) && Digits(rest)
    ensures Reading(t0, TermBytes(t, rest, erase), ds + [d + rest])
    decreases |rest|
  {
    hide TermByte;
    if rest == [] {
      assert d + rest == d;
    } else {
      TakesDigit(t0, t, ds, d, rest[0], erase);
      assert d + rest == d + [rest[0]] + rest[1..];
      TakesDigits(t0, TermByte(t, rest[0], erase), ds, d + [rest[0]], rest[1..], erase);
    }
  }

  lemma {:induction false} TakesText(t0: Term, t: Term, ds: seq<seq<int>>, erase: int)
    requires Reading(t0, t, [[]]) && AllDigits(ds) && 1 <= |ds| <= 16
    ensures Reading(t0, TermBytes(t, Text(ds), erase), ds)
    decreases |ds|
  {
    hide TermByte, TermBytes;
    var n := |ds| - 1;
    var none: seq<seq<int>> := [];
    if n == 0 {
      assert none + [[]] == [[]] && [] + ds[0] == ds[0] && none + [ds[0]] == ds;
      TakesDigits(t0, t, none, [], ds[0], erase);
    } else {
      var front, s := ds[..n], Text(ds[..n]);
      TakesText(t0, t, front, erase);
      var u := TermBytes(t, s, erase);
      TakesSemicolon(t0, u, front, erase);
      TakesDigits(t0, TermByte(u, 59, erase), front, [], ds[n], erase);
      assert [] + ds[n] == ds[n] && front + [ds[n]] == ds;
      BytesSplit(t, s, [59], erase);
      OneByte(u, 59, erase);
      BytesSplit(t, s + [59], ds[n], erase);
    }
  }

  /** The state in which the parameters of a sequence begin. */
  function Fresh(t: Term): Term {
    t.(p := t.p.(state := 3, npar := 0, par := NoPars()))
  }

  /** The byte after the bracket is read as if the parameters had been cleared before. */
  lemma FreshFirst(t: Term, bs: seq<int>, erase: int)
    requires TermOk(t) && t.p.state == 2 && bs != [] && bs[0] != 63
    ensures TermOk(Fresh(t)) && TermBytes(t, bs, erase) == TermBytes(Fresh(t), bs, erase)
  {
    hide TermDo, TermBytes, Parameter;
    var f := Fresh(t);
    assert Parse(t.p, t.u, bs[0], erase) == Parse(f.p, f.u, bs[0], erase);
    assert TermByte(t, bs[0], erase) == TermByte(f, bs[0], erase);
    BytesHead(t, bs, erase);
    BytesHead(f, bs, erase);
  }

  lemma BytesHead(t: Term, bs: seq<int>, erase: int)
    requires TermOk(t) && bs != []
    ensures TermOk(TermByte(t, bs[0], erase)) && TermBytes(t, bs, erase) == TermBytes(TermByte(t, bs[0], erase), bs[1..], erase)
  {
    hide TermByte;
    TermKeeps(t, bs[0], erase);
  }

  // ---------- the final letter ----------

  lemma ControlMoves(t0: Term, t: Term, ds: seq<seq<int>>, f: int, erase: int)
    requires Reading(t0, t, ds) && f in [65, 66, 69, 70, 100, 101]
    ensures TermByte(t, f, erase).p.state == 0 && Means(t0, TermByte(t, f, erase), f, Values(ds))
  {
    hide GridUp, GridDown, GridErase, RepeatCells, Attributes;
  }

  lemma ControlSteps(t0: Term, t: Term, ds: seq<seq<int>>, f: int, erase: int)
    requires Reading(t0, t, ds) && f in [67, 68, 97]
    ensures TermByte(t, f, erase).p.state == 0 && Means(t0, TermByte(t, f, erase), f, Values(ds))
  {
    hide GridUp, GridDown, GridErase, RepeatCells, Attributes;
  }

  lemma ControlPlaces(t0: Term, t: Term, ds: seq<seq<int>>, f: int, erase: int)
    requires Reading(t0, t, ds) && f in [71, 72, 96, 102]
    ensures TermByte(t, f, erase).p.state == 0 && Means(t0, TermByte(t, f, erase), f, Values(ds))
  {
    hide GridUp, GridDown, GridErase, RepeatCells, Attributes;
  }

  lemma ControlMarks(t0: Term, t: Term, ds: seq<seq<int>>, f: int, erase: int)
    requires Reading(t0, t, ds) && (f == 114 || f == 115 || f == 117)
    ensures TermByte(t, f, erase).p.state == 0 && Means(t0, TermByte(t, f, erase), f, Values(ds))
  {
    hide GridUp, GridDown, GridErase, RepeatCells, Attributes;
  }

  predicate IsFinal(f: int) {
    f == 64 || 65 <= f <= 72 || 74 <= f <= 77 || f == 80 || 96 <= f <= 97 || 100 <= f <= 102 || f == 109 || f == 114 || f == 115 || f == 117
  }

  lemma ControlIgnores(t0: Term, t: Term, ds: seq<seq<int>>, f: int, erase: int)
    requires Reading(t0, t, ds) && !(48 <= f <= 57) && (f == 59 ==> |ds| == 16) && !IsFinal(f)
    ensures TermByte(t, f, erase).p.state == 0 && Means(t0, TermByte(t, f, erase), f, Values(ds))
  {
    hide GridUp, GridDown, GridErase, RepeatCells, Attributes;
    assert Parse(t.p, t.u, f, erase) == (t.p.(state := 0), Nothing);
  }

  lemma ControlErases(t0: Term, t: Term, ds: seq<seq<int>>, f: int, erase: int)
    requires Reading(t0, t, ds) && (f == 74 || f == 75)
    ensures TermByte(t, f, erase).p.state == 0 && Means(t0, TermByte(t, f, erase), f, Values(ds))
  {
    hide GridUp, GridDown, RepeatCells, Attributes;
  }

  lemma {:induction false} Paints(attr: int, par: seq<int>, i: nat, vs: seq<int>)
    requires |par| == 16 && 1 <= |vs| && i + |vs| <= 16 && vs == par[i..i + |vs|]
    ensures Attributes(attr, par, i, i + |vs| - 1) == PaintedAll(attr, vs)
    decreases |vs|
  {
    assert vs[0] == par[i];
    PaintsOne(attr, par[i]);
    if |vs| > 1 {
      assert vs[1..] == par[i + 1..i + 1 + |vs[1..]|];
      Paints(Attribute(attr, par[i]), par, i + 1, vs[1..]);
    } else {
      assert vs[1..] == [];
    }
  }

  lemma PaintsOne(attr: int, v: int)
    ensures Attribute(attr, v) == Painted(attr, v)
  {
  }

  lemma ControlPaints(t0: Term, t: Term, ds: seq<seq<int>>, erase: int)
    requires Reading(t0, t, ds)
    ensures TermByte(t, 109, erase).p.state == 0 && Means(t0, TermByte(t, 109, erase), 109, Values(ds))
  {
    hide Painted, Attribute;
    var vs := Values(ds);
    assert t.p.par[0..0 + |vs|] == vs;
    Paints(t.p.attr, t.p.par, 0, vs);
  }

  // ---------- repeated lines and characters ----------

  lemma DownAt(c: seq<Cell>, top: int, bottom: int, k: int)
    requires |c| == 4000 && 0 <= top < bottom <= 50 && 0 <= k < 4000
    ensures GridDown(c, top, bottom)[k] == OnCell(c, 80 * top, 80 * bottom, 80, k)
  {
  }

  lemma UpAt(c: seq<Cell>, top: int, bottom: int, k: int)
    requires |c| == 4000 && 0 <= top < bottom <= 50 && 0 <= k < 4000
    ensures GridUp(c, top, bottom)[k] == BackCell(c, 80 * top, 80 * bottom, 80, k)
  {
  }

  lemma InsertAt(c: seq<Cell>, u: Cursor, k: int)
    requires |c| == 4000 && CursorOk(u) && 0 <= k < 4000
    ensures GridInsert(c, u)[k] == OnCell(c, 80 * u.y + u.x, 80 * u.y + 80, 1, k)
  {
  }

  lemma DeleteAt(c: seq<Cell>, u: Cursor, k: int)
    requires |c| == 4000 && CursorOk(u) && 0 <= k < 4000
    ensures GridDelete(c, u)[k] == BackCell(c, 80 * u.y + u.x, 80 * u.y + 80, 1, k)
  {
  }

  lemma RepeatsOnce(op: Action, c: seq<Cell>, u: Cursor, n: nat)
    requires |c| == 4000 && CursorOk(u)
    ensures n == 0 ==> RepeatCells(op, c, u, n) == c
    ensures n > 0 && op.InsertLines? ==> RepeatCells(op, c, u, n) == RepeatCells(op, GridDown(c, u.y, 50), u, n - 1)
    ensures n > 0 && op.DeleteLines? ==> RepeatCells(op, c, u, n) == RepeatCells(op, GridUp(c, u.y, 50), u, n - 1)
    ensures n > 0 && op.InsertChars? ==> RepeatCells(op, c, u, n) == RepeatCells(op, GridInsert(c, u), u, n - 1)
    ensures n > 0 && op.DeleteChars? ==> RepeatCells(op, c, u, n) == RepeatCells(op, GridDelete(c, u), u, n - 1)
  {
  }

  lemma OnAgain(c: seq<Cell>, d: seq<Cell>, from: int, to: int, s: int, m: int, k: int)
    requires |c| == |d| == 4000 && 0 <= from <= to <= 4000 && s > 0 && m >= 0 && 0 <= k < 4000
    requires d[k] == OnCell(c, from, to, s, k) && (k - m >= 0 ==> d[k - m] == OnCell(c, from, to, s, k - m))
    ensures OnCell(d, from, to, m, k) == OnCell(c, from, to, m + s, k)
  {
  }

  lemma BackAgain(c: seq<Cell>, d: seq<Cell>, from: int, to: int, s: int, m: int, k: int)
    requires |c| == |d| == 4000 && 0 <= from <= to <= 4000 && s > 0 && m >= 0 && 0 <= k < 4000
    requires d[k] == BackCell(c, from, to, s, k) && (k + m < 4000 ==> d[k + m] == BackCell(c, from, to, s, k + m))
    ensures BackCell(d, from, to, m, k) == BackCell(c, from, to, m + s, k)
  {
  }

  lemma {:induction false} LinesMoveOn(a: int, c: seq<Cell>, u: Cursor, n: nat, k: int)
    requires |c| == 4000 && CursorOk(u) && 0 <= k < 4000
    ensures RepeatCells(InsertLines(a), c, u, n)[k] == OnCell(c, 80 * u.y, 4000, 80 * n, k)
    decreases n
  {
    hide RepeatCells, GridDown;
    RepeatsOnce(InsertLines(a), c, u, n);
    if n > 0 {
      var d := GridDown(c, u.y, 50);
      var j := k - 80 * (n - 1);
      LinesMoveOn(a, d, u, n - 1, k);
      DownAt(c, u.y, 50, k);
      if 0 <= j {
        DownAt(c, u.y, 50, j);
      }
      OnAgain(c, d, 80 * u.y, 4000, 80, 80 * (n - 1), k);
    }
  }

  lemma {:induction false} LinesMoveBack(a: int, c: seq<Cell>, u: Cursor, n: nat, k: int)
    requires |c| == 4000 && CursorOk(u) && 0 <= k < 4000
    ensures RepeatCells(DeleteLines(a), c, u, n)[k] == BackCell(c, 80 * u.y, 4000, 80 * n, k)
    decreases n
  {
    hide RepeatCells, GridUp;
    RepeatsOnce(DeleteLines(a), c, u, n);
    if n > 0 {
      var d := GridUp(c, u.y, 50);
      var j := k + 80 * (n - 1);
      LinesMoveBack(a, d, u, n - 1, k);
      UpAt(c, u.y, 50, k);
      if j < 4000 {
        UpAt(c, u.y, 50, j);
      }
      BackAgain(c, d, 80 * u.y, 4000, 80, 80 * (n - 1), k);
    }
  }

  lemma {:induction false} CharsMoveOn(a: int, c: seq<Cell>, u: Cursor, n: nat, k: int)
    requires |c| == 4000 && CursorOk(u) && 0 <= k < 4000
    ensures RepeatCells(InsertChars(a), c, u, n)[k] == OnCell(c, 80 * u.y + u.x, 80 * u.y + 80, n, k)
    decreases n
  {
    hide RepeatCells, GridInsert;
    RepeatsOnce(InsertChars(a), c, u, n);
    if n > 0 {
      var d := GridInsert(c, u);
      var j := k - (n - 1);
      CharsMoveOn(a, d, u, n - 1, k);
      InsertAt(c, u, k);
      if 0 <= j {
        InsertAt(c, u, j);
      }
      OnAgain(c, d, 80 * u.y + u.x, 80 * u.y + 80, 1, (n - 1), k);
    }
  }

  lemma {:induction false} CharsMoveBack(a: int, c: seq<Cell>, u: Cursor, n: nat, k: int)
    requires |c| == 4000 && CursorOk(u) && 0 <= k < 4000
    ensures RepeatCells(DeleteChars(a), c, u, n)[k] == BackCell(c, 80 * u.y + u.x, 80 * u.y + 80, n, k)
    decreases n
  {
    hide RepeatCells, GridDelete;
    RepeatsOnce(DeleteChars(a), c, u, n);
    if n > 0 {
      var d := GridDelete(c, u);
      var j := k + (n - 1);
      CharsMoveBack(a, d, u, n - 1, k);
      DeleteAt(c, u, k);
      if j < 4000 {
        DeleteAt(c, u, j);
      }
      BackAgain(c, d, 80 * u.y + u.x, 80 * u.y + 80, 1, (n - 1), k);
    }
  }

  lemma ControlLines(t0: Term, t: Term, ds: seq<seq<int>>, f: int, erase: int)
    requires Reading(t0, t, ds) && (f == 76 || f == 77)
    ensures TermByte(t, f, erase).p.state == 0 && Means(t0, TermByte(t, f, erase), f, Values(ds))
  {
    hide RepeatCells, GridErase, GridUp, GridDown, Attributes;
    var a, c, u := t.p.par[0], t.cells, t.u;
    var n := Times(a, LINES);
    forall k | 0 <= k < 4000
      ensures f == 76 ==> RepeatCells(InsertLines(a), c, u, n)[k] == OnCell(c, 80 * u.y, 4000, 80 * n, k)
      ensures f == 77 ==> RepeatCells(DeleteLines(a), c, u, n)[k] == BackCell(c, 80 * u.y, 4000, 80 * n, k)
    {
      LinesMoveOn(a, c, u, n, k);
      LinesMoveBack(a, c, u, n, k);
    }
  }

  lemma ControlChars(t0: Term, t: Term, ds: seq<seq<int>>, f: int, erase: int)
    requires Reading(t0, t, ds) && (f == 64 || f == 80)
    ensures TermByte(t, f, erase).p.state == 0 && Means(t0, TermByte(t, f, erase), f, Values(ds))
  {
    hide RepeatCells, GridErase, GridUp, GridDown, Attributes;
    var a, c, u := t.p.par[0], t.cells, t.u;
    var n := Times(a, COLUMNS);
    forall k | 0 <= k < 4000
      ensures f == 64 ==> RepeatCells(InsertChars(a), c, u, n)[k] == OnCell(c, 80 * u.y + u.x, 80 * u.y + 80, n, k)
      ensures f == 80 ==> RepeatCells(DeleteChars(a), c, u, n)[k] == BackCell(c, 80 * u.y + u.x, 80 * u.y + 80, n, k)
    {
      CharsMoveOn(a, c, u, n, k);
      CharsMoveBack(a, c, u, n, k);
    }
  }

  /** The final letter of a control sequence acts on what has been read. */
  lemma ControlActs(t0: Term, t: Term, ds: seq<seq<int>>, f: int, erase: int)
    requires Reading(t0, t, ds) && !(48 <= f <= 57) && (f == 59 ==> |ds| == 16)
    ensures TermByte(t, f, erase).p.state == 0 && Means(t0, TermByte(t, f, erase), f, Values(ds))
  {
    hide TermByte, Means, Reading;
    if f == 74 || f == 75 {
      ControlErases(t0, t, ds, f, erase);
    } else if f == 76 || f == 77 {
      ControlLines(t0, t, ds, f, erase);
    } else if f == 64 || f == 80 {
      ControlChars(t0, t, ds, f, erase);
    } else if f == 109 {
      ControlPaints(t0, t, ds, erase);
    } else if f == 114 || f == 115 || f == 117 {
      ControlMarks(t0, t, ds, f, erase);
    } else if f in [67, 68, 97] {
      ControlSteps(t0, t, ds, f, erase);
    } else if f in [71, 72, 96, 102] {
      ControlPlaces(t0, t, ds, f, erase);
    } else if IsFinal(f) {
      ControlMoves(t0, t, ds, f, erase);
    } else {
      ControlIgnores(t0, t, ds, f, erase);
    }
  }

  // ---------- whole sequences ----------

  /** Escape, bracket, perhaps a question mark, the parameters and the final letter. */
  function Sequence(question: bool, ds: seq<seq<int>>, f: int): seq<int> {
    [27, 91] + (if question then [63] else []) + Text(ds) + [f]
  }

  /** A control sequence does what its final letter means for the numbers that its digits write,
      wherever the terminal is between sequences. */
  lemma SequenceMeans(t: Term, question: bool, ds: seq<seq<int>>, f: int, erase: int)
    requires TermOk(t) && t.p.state == 0
    requires 1 <= |ds| <= 16 && AllDigits(ds) && !(48 <= f <= 57) && f != 63 && (f == 59 ==> |ds| == 16)
    ensures var r := TermBytes(t, Sequence(question, ds, f), erase);
      TermOk(r) && r.p.state == 0 && Means(t, r, f, Values(ds))
  {
    hide TermBytes, Means, Text, Values;
    var rest := Text(ds) + [f];
    var s := Opened(t, erase);
    BytesSplit(t, [27, 91], (if question then [63] else []) + rest, erase);
    assert Sequence(question, ds, f) == [27, 91] + ((if question then [63] else []) + rest);
    if question {
      Questioned(t, s, erase);
      BytesSplit(s, [63], rest, erase);
    } else {
      TextFirst(ds, f);
      FreshFirst(s, rest, erase);
      assert [] + rest == rest;
    }
    var u := Fresh(s);
    assert Reading(t, u, [[]]) by { FreshReads(t, s); }
    TakesText(t, u, ds, erase);
    BytesSplit(u, Text(ds), [f], erase);
    var v := TermBytes(u, Text(ds), erase);
    OneByte(v, f, erase);
    ControlActs(t, v, ds, f, erase);
  }

  function DecimalAll(ns: seq<nat>): (ds: seq<seq<int>>)
    ensures |ds| == |ns| && AllDigits(ds)
    ensures forall i :: 0 <= i < |ns| ==> ds[i] == Decimal(ns[i])
  {
    seq(|ns|, i requires 0 <= i < |ns| => Decimal(ns[i]))
  }

  /** So a program that writes numbers below 2^32 in decimal gets what it means by them. */
  lemma NumbersMean(t: Term, question: bool, ns: seq<nat>, f: int, erase: int)
    requires TermOk(t) && t.p.state == 0
    requires 1 <= |ns| <= 16 && (forall i :: 0 <= i < |ns| ==> ns[i] < 0x1_0000_0000)
    requires !(48 <= f <= 57) && f != 63 && (f == 59 ==> |ns| == 16)
    ensures var r := TermBytes(t, Sequence(question, DecimalAll(ns), f), erase);
      TermOk(r) && r.p.state == 0 && Means(t, r, f, ns)
  {
    hide TermBytes, Means, Sequence, Number, Decimal;
    var ds := DecimalAll(ns);
    SequenceMeans(t, question, ds, f, erase);
    forall i | 0 <= i < |ns| ensures Values(ds)[i] == ns[i] {
      DecimalIs(ns[i]);
    }
    assert Values(ds) == ns;
  }

  lemma FreshReads(t: Term, s: Term)
    requires TermOk(s) && Unchanged(t, s)
    ensures Reading(t, Fresh(s), [[]])
  {
    assert Number([]) == 0;
  }

  /** After the bracket. */
  lemma Opened(t: Term, erase: int) returns (s: Term)
    requires TermOk(t) && t.p.state == 0
    ensures TermOk(s) && s == TermBytes(t, [27, 91], erase) && Unchanged(t, s) && s.p.state == 2
  {
    hide TermBytes;
    var e := TermByte(t, 27, erase);
    OneByte(t, 27, erase);
    s := TermByte(e, 91, erase);
    OneByte(e, 91, erase);
    BytesSplit(t, [27], [91], erase);
    assert [27] + [91] == [27, 91];
  }

  lemma Questioned(t: Term, s: Term, erase: int)
    requires TermOk(s) && s.p.state == 2
    ensures TermBytes(s, [63], erase) == Fresh(s)
  {
    OneByte(s, 63, erase);
  }

  lemma {:induction false} TextFirst(ds: seq<seq<int>>, f: int)
    requires 1 <= |ds| && AllDigits(ds) && f != 63
    ensures (Text(ds) + [f])[0] != 63
    decreases |ds|
  {
    if |ds| > 1 {
      var front := ds[..|ds| - 1];
      TextFirst(front, 59);
      assert (Text(front) + [59])[0] == Text(ds)[0];
    }
  }

  /** A sequence of escape and one byte. */
  lemma EscapeByteMeans(t: Term, c: int, erase: int)
    requires TermOk(t) && t.p.state == 0 && c != 91
    ensures var r := TermBytes(t, [27, c], erase);
      TermOk(r) && r.p.state == 0 && EscapeMeans(t, r, c)
  {
    hide TermBytes;
    var e := TermByte(t, 27, erase);
    OneByte(t, 27, erase);
    OneByte(e, c, erase);
    BytesSplit(t, [27], [c], erase);
    assert [27] + [c] == [27, c];
    EscapeActs(t, e, c, erase);
  }

  lemma EscapeActs(t: Term, e: Term, c: int, erase: int)
    requires TermOk(e) && Unchanged(t, e) && e.p.state == 1 && c != 91
    ensures TermByte(e, c, erase).p.state == 0 && EscapeMeans(t, TermByte(e, c, erase), c)
  {
    hide GridUp, GridDown;
    if c == 77 && e.u.y <= e.u.top {
      forall k | 0 <= k < 4000
        ensures GridDown(e.cells, e.u.top, e.u.bottom)[k] == OnCell(e.cells, 80 * e.u.top, 80 * e.u.bottom, 80, k)
      {
        DownAt(e.cells, e.u.top, e.u.bottom, k);
      }
    } else if c == 68 {
      FeedIs(e);
    }
  }

  /** A line feed moves the cursor down or the lines up. */
  lemma FeedIs(t: Term)
    requires TermOk(t)
    ensures Fed(t, TermFeed(t), t.u.x) && TermFeed(t).p == t.p
  {
    hide GridUp;
    if t.u.y + 1 >= t.u.bottom {
      forall k | 0 <= k < 4000
        ensures GridUp(t.cells, t.u.top, t.u.bottom)[k] == BackCell(t.cells, 80 * t.u.top, 80 * t.u.bottom, 80, k)
      {
        UpAt(t.cells, t.u.top, t.u.bottom, k);
      }
    }
  }

  /** A byte outside any sequence. */
  lemma PlainByteMeans(t: Term, c: int, erase: int)
    requires TermOk(t) && t.p.state == 0 && c != 27
    ensures var r := TermByte(t, c, erase);
      TermOk(r) && r.p.state == 0 && ByteMeans(t, r, c, erase)
  {
    hide TermFeed;
    TermKeeps(t, c, erase);
    FeedIs(t);
    if t.u.x == 80 {
      FeedIs(t.(u := t.u.(x := 0)));
      FeedIs(t.(u := t.u.(x := 8)));
    }
  }

  // ---------- on the console ----------

  function Look(c: Con): Term
    requires ConOk(c)
  {
    Term(Window(c), c.u, c.p)
  }

  /** The same on the console itself, through the window on video memory. */
  lemma ConsoleSequenceMeans(c: Con, question: bool, ds: seq<seq<int>>, f: int, erase: int)
    requires ConOk(c) && c.p.state == 0
    requires 1 <= |ds| <= 16 && AllDigits(ds) && !(48 <= f <= 57) && f != 63 && (f == 59 ==> |ds| == 16)
    ensures var d := ConBytes(c, Sequence(question, ds, f), erase);
      ConOk(d) && d.p.state == 0 && Means(Look(c), Look(d), f, Values(ds))
  {
    hide ConBytes, TermBytes, Means, Sequence;
    LookShows(c);
    SequenceMeans(Look(c), question, ds, f, erase);
    BytesShow(c, Look(c), Sequence(question, ds, f), erase);
  }

  lemma LookShows(c: Con)
    requires ConOk(c)
    ensures Shows(c, Look(c)) && TermOk(Look(c)) && Look(c).p == c.p
  {
  }
}
