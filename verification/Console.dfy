/** The VGA console of kernel/console.c.  The screen is a window of 50 lines that slides over
    video memory instead of being moved when it scrolls; it must look like a plain grid of
    50 by 80 cells. */
module Console {

  const LINES: int := 50
  const COLUMNS: int := 80
  const SIZE: int := 4000
  const VIDEO: int := 16384
  const BLANK: int := 0x0720
  const NPAR: int := 16
  const WORD: int := 0x1_0000_0000

  type Cell = int

  // ---------- what a byte means ----------

  /** The escape-sequence parser: `state`, `npar`, `par` and the attribute. */
  datatype Parser = Parser(state: int, npar: int, par: seq<int>, attr: int)

  datatype Cursor = Cursor(x: int, y: int, top: int, bottom: int, sx: int, sy: int)

  datatype Action =
    | Nothing | Put(cell: Cell) | LineFeed | ReverseFeed | Return | Rubout | Back | Tab
    | Goto(x: int, y: int) | EraseDisplay(p: int) | EraseLine(p: int)
    | InsertLines(n: int) | DeleteLines(n: int) | InsertChars(n: int) | DeleteChars(n: int)
    | Region(top: int, bottom: int) | Save | Restore

  function NoPars(): (p: seq<int>)
    ensures |p| == NPAR
  {
    seq(NPAR, i => 0)
  }

  /** Arithmetic is on 32-bit words. */
  function Wrap(v: int): (r: int)
    ensures 0 <= r < WORD
  {
    v % WORD
  }

  function Attribute(attr: int, p: int): int {
    if p == 0 || p == 27 then 0x07
    else if p == 1 || p == 4 then 0x0f
    else if p == 7 then 0x70
    else if p == 30 then attr / 16 * 16
    else if p == 31 then attr / 16 * 16 + 4
    else if p == 32 then attr / 16 * 16 + 2
    else if p == 33 then attr / 16 * 16 + 6
    else if p == 34 then attr / 16 * 16 + 1
    else if p == 35 then attr / 16 * 16 + 5
    else if p == 36 then attr / 16 * 16 + 3
    else if p == 37 || p == 39 then attr / 16 * 16 + 7
    else attr
  }

  /** `csi_m` over parameters `i` to `npar`. */
  function Attributes(attr: int, par: seq<int>, i: nat, npar: int): int
    decreases npar - i
  {
    if i > npar || i >= |par| then attr else Attributes(Attribute(attr, par[i]), par, i + 1, npar)
  }

  function Par(p: Parser, i: int): int {
    if 0 <= i < |p.par| then p.par[i] else 0
  }

  function OrOne(v: int): int {
    if v == 0 then 1 else v
  }

  function LessOne(v: int): int {
    if v == 0 then 0 else v - 1
  }

  /** How often `csi_at` and the like repeat. */
  function Times(n: int, limit: int): (r: nat)
    requires limit > 0
    ensures 1 <= r <= limit
  {
    if n > limit || n < 0 then limit else if n == 0 then 1 else n
  }

  /** The final letter of a control sequence. */
  function Control(p: Parser, u: Cursor, c: int): (Parser, Action) {
    var p0, p1 := Par(p, 0), Par(p, 1);
    var q := p.(state := 0);
    if c == 'G' as int || c == '`' as int then (q, Goto(LessOne(p0), u.y))
    else if c == 'A' as int then (q, Goto(u.x, Wrap(u.y - OrOne(p0))))
    else if c == 'B' as int || c == 'e' as int then (q, Goto(u.x, Wrap(u.y + OrOne(p0))))
    else if c == 'C' as int || c == 'a' as int then (q, Goto(Wrap(u.x + OrOne(p0)), u.y))
    else if c == 'D' as int then (q, Goto(Wrap(u.x - OrOne(p0)), u.y))
    else if c == 'E' as int then (q, Goto(0, Wrap(u.y + OrOne(p0))))
    else if c == 'F' as int then (q, Goto(0, Wrap(u.y - OrOne(p0))))
    else if c == 'd' as int then (q, Goto(u.x, LessOne(p0)))
    else if c == 'H' as int || c == 'f' as int then (q, Goto(LessOne(p1), LessOne(p0)))
    else if c == 'J' as int then (q, EraseDisplay(p0))
    else if c == 'K' as int then (q, EraseLine(p0))
    else if c == 'L' as int then (q, InsertLines(p0))
    else if c == 'M' as int then (q, DeleteLines(p0))
    else if c == 'P' as int then (q, DeleteChars(p0))
    else if c == '@' as int then (q, InsertChars(p0))
    else if c == 'm' as int then (q.(attr := Attributes(p.attr, p.par, 0, p.npar)), Nothing)
    else if c == 'r' as int then (q, Region(LessOne(p0), if p1 == 0 then LINES else p1))
    else if c == 's' as int then (q, Save)
    else if c == 'u' as int then (q, Restore)
    else (q, Nothing)
  }

  /** `case 3` of `con_write`, with its fall into `case 4`. */
  function Parameter(p: Parser, u: Cursor, c: int): (Parser, Action) {
    if c == ';' as int && p.npar < NPAR - 1 then (p.(npar := p.npar + 1), Nothing)
    else if '0' as int <= c <= '9' as int then
      (if 0 <= p.npar < |p.par| then p.(par := p.par[p.npar := Wrap(10 * p.par[p.npar] + c - '0' as int)]) else p, Nothing)
    else Control(p, u, c)
  }

  /** One byte of `con_write`; `erase` is the tty's erase character. */
  function Parse(p: Parser, u: Cursor, c: int, erase: int): (Parser, Action) {
    if p.state == 0 then
      if c > 31 && c != 127 then (p, Put(256 * p.attr + c))
      else if c == 27 then (p.(state := 1), Nothing)
      else if 10 <= c <= 12 then (p, LineFeed)
      else if c == 13 then (p, Return)
      else if c == erase then (p, Rubout)
      else if c == 8 then (p, Back)
      else if c == 9 then (p, Tab)
      else (p, Nothing)
    else if p.state == 1 then
      var q := p.(state := 0);
      if c == '[' as int then (p.(state := 2), Nothing)
      else if c == 'E' as int then (q, Goto(0, u.y + 1))
      else if c == 'M' as int then (q, ReverseFeed)
      else if c == 'D' as int then (q, LineFeed)
      else if c == '7' as int then (q, Save)
      else if c == '8' as int then (q, Restore)
      else (q, Nothing)
    else if p.state == 2 then
      var q := p.(state := 3, npar := 0, par := NoPars());
      if c == '?' as int then (q, Nothing) else Parameter(q, u, c)
    else if p.state == 3 then Parameter(p, u, c)
    else Control(p, u, c)
  }

  // ---------- a plain terminal ----------

  /** 50 lines of 80 cells, row by row; scrolling moves lines. */
  datatype Term = Term(cells: seq<Cell>, u: Cursor, p: Parser)

  function Blanks(n: int): (b: seq<Cell>)
    requires n >= 0
    ensures |b| == n && forall k :: 0 <= k < n ==> b[k] == BLANK
  {
    seq(n, i => BLANK)
  }

  ghost predicate CursorOk(u: Cursor) {
    && 0 <= u.x <= COLUMNS && 0 <= u.y < LINES && 0 <= u.top < u.bottom <= LINES
    && 0 <= u.sx <= COLUMNS && 0 <= u.sy < LINES
  }

  ghost predicate TermOk(t: Term) {
    |t.cells| == SIZE && CursorOk(t.u)
  }

  function At(u: Cursor): int {
    COLUMNS * u.y + u.x
  }

  /** Lines `top` to `bottom` move up by one and the last of them is blank. */
  function GridUp(c: seq<Cell>, top: int, bottom: int): (r: seq<Cell>)
    requires |c| == SIZE && 0 <= top < bottom <= LINES
    ensures |r| == SIZE
  {
    c[..COLUMNS * top] + c[COLUMNS * (top + 1)..COLUMNS * bottom] + Blanks(COLUMNS) + c[COLUMNS * bottom..]
  }

  function GridDown(c: seq<Cell>, top: int, bottom: int): (r: seq<Cell>)
    requires |c| == SIZE && 0 <= top < bottom <= LINES
    ensures |r| == SIZE
  {
    c[..COLUMNS * top] + Blanks(COLUMNS) + c[COLUMNS * top..COLUMNS * (bottom - 1)] + c[COLUMNS * bottom..]
  }

  function GridErase(c: seq<Cell>, at: int, n: int): (r: seq<Cell>)
    requires 0 <= at && 0 <= n && at + n <= |c|
    ensures |r| == |c| && forall k :: 0 <= k < |c| ==> r[k] == if at <= k < at + n then BLANK else c[k]
  {
    c[..at] + Blanks(n) + c[at + n..]
  }

  /** A blank put in at `at`: the `room` cells from there move right and the last is lost. */
  function ShiftIn(m: seq<Cell>, at: int, room: int): (r: seq<Cell>)
    requires 0 <= at && 0 < room && at + room <= |m|
    ensures |r| == |m|
    ensures forall k :: 0 <= k < |m| ==> r[k] == if k < at || k >= at + room then m[k] else if k == at then BLANK else m[k - 1]
  {
    m[..at] + [BLANK] + m[at..at + room - 1] + m[at + room..]
  }

  /** The cell at `at` taken out: the rest of the `room` cells move left. */
  function ShiftOut(m: seq<Cell>, at: int, room: int): (r: seq<Cell>)
    requires 0 <= at && 0 < room && at + room <= |m|
    ensures |r| == |m|
    ensures forall k :: 0 <= k < |m| ==> r[k] == if k < at || k >= at + room then m[k] else if k == at + room - 1 then BLANK else m[k + 1]
  {
    m[..at] + m[at + 1..at + room] + [BLANK] + m[at + room..]
  }

  function GridInsert(c: seq<Cell>, u: Cursor): (r: seq<Cell>)
    requires |c| == SIZE && CursorOk(u)
    ensures |r| == SIZE
  {
    if u.x >= COLUMNS then c else ShiftIn(c, At(u), COLUMNS - u.x)
  }

  function GridDelete(c: seq<Cell>, u: Cursor): (r: seq<Cell>)
    requires |c| == SIZE && CursorOk(u)
    ensures |r| == SIZE
  {
    if u.x >= COLUMNS then c else ShiftOut(c, At(u), COLUMNS - u.x)
  }

  function TermFeed(t: Term): Term
    requires TermOk(t)
  {
    if t.u.y + 1 < t.u.bottom then t.(u := t.u.(y := t.u.y + 1))
    else t.(cells := GridUp(t.cells, t.u.top, t.u.bottom))
  }

  function TermReverse(t: Term): Term
    requires TermOk(t)
  {
    if t.u.y > t.u.top then t.(u := t.u.(y := t.u.y - 1))
    else t.(cells := GridDown(t.cells, t.u.top, t.u.bottom))
  }

  function RepeatCells(op: Action, c: seq<Cell>, u: Cursor, n: nat): (r: seq<Cell>)
    requires |c| == SIZE && CursorOk(u)
    ensures |r| == SIZE
    decreases n
  {
    if n == 0 then c
    else
      var d := match op
        case InsertLines(_) => GridDown(c, u.y, LINES)
        case DeleteLines(_) => GridUp(c, u.y, LINES)
        case InsertChars(_) => GridInsert(c, u)
        case DeleteChars(_) => GridDelete(c, u)
        case _ => c;
      RepeatCells(op, d, u, n - 1)
  }

  function TermDo(t: Term, a: Action): Term
    requires TermOk(t)
  {
    match a
    case Nothing => t
    case Put(cell) =>
      var s := if t.u.x >= COLUMNS then TermFeed(t.(u := t.u.(x := t.u.x - COLUMNS))) else t;
      Term(s.cells[At(s.u) := cell], s.u.(x := s.u.x + 1), s.p)
    case LineFeed => TermFeed(t)
    case ReverseFeed => TermReverse(t)
    case Return => t.(u := t.u.(x := 0))
    case Rubout => if t.u.x > 0 then Term(t.cells[At(t.u) - 1 := BLANK], t.u.(x := t.u.x - 1), t.p) else t
    case Back => if t.u.x > 0 then t.(u := t.u.(x := t.u.x - 1)) else t
    case Tab =>
      var x := t.u.x + 8 - t.u.x % 8;
      if x > COLUMNS then TermFeed(t.(u := t.u.(x := x - COLUMNS))) else t.(u := t.u.(x := x))
    case Goto(x, y) => if 0 <= x < COLUMNS && 0 <= y < LINES then t.(u := t.u.(x := x, y := y)) else t
    case EraseDisplay(p) =>
      t.(cells := if p == 0 then GridErase(t.cells, At(t.u), SIZE - At(t.u))
                  else if p == 1 then GridErase(t.cells, 0, At(t.u))
                  else if p == 2 then Blanks(SIZE) else t.cells)
    case EraseLine(p) =>
      var line := COLUMNS * t.u.y;
      t.(cells := if p == 0 then GridErase(t.cells, At(t.u), COLUMNS - t.u.x)
                  else if p == 1 then GridErase(t.cells, line, t.u.x)
                  else if p == 2 then GridErase(t.cells, line, COLUMNS) else t.cells)
    case InsertLines(n) => t.(cells := RepeatCells(a, t.cells, t.u, Times(n, LINES)))
    case DeleteLines(n) => t.(cells := RepeatCells(a, t.cells, t.u, Times(n, LINES)))
    case InsertChars(n) => t.(cells := RepeatCells(a, t.cells, t.u, Times(n, COLUMNS)))
    case DeleteChars(n) => t.(cells := RepeatCells(a, t.cells, t.u, Times(n, COLUMNS)))
    case Region(top, bottom) => if 0 <= top < bottom <= LINES then t.(u := t.u.(top := top, bottom := bottom)) else t
    case Save => t.(u := t.u.(sx := t.u.x, sy := t.u.y))
    case Restore => t.(u := t.u.(x := t.u.sx, y := t.u.sy))
  }

  function TermByte(t: Term, c: int, erase: int): Term
    requires TermOk(t)
  {
    var (p, a) := Parse(t.p, t.u, c, erase);
    TermDo(t.(p := p), a)
  }

  lemma TermKeeps(t: Term, c: int, erase: int)
    requires TermOk(t)
    ensures TermOk(TermByte(t, c, erase))
  {
    hide Parse;
    var (p, a) := Parse(t.p, t.u, c, erase);
    TermDoKeeps(t.(p := p), a);
  }

  lemma TermDoKeeps(t: Term, a: Action)
    requires TermOk(t)
    ensures TermOk(TermDo(t, a))
  {
    hide GridUp, GridDown, GridErase, RepeatCells;
  }

  // ---------- the console ----------

  /** Video memory, and positions in it counted in cells from its start. */
  datatype Con = Con(mem: seq<Cell>, origin: int, scrEnd: int, pos: int, u: Cursor, p: Parser)

  ghost predicate ConOk(c: Con) {
    && |c.mem| == VIDEO && CursorOk(c.u) && 0 <= c.origin && c.scrEnd == c.origin + SIZE <= VIDEO
    && c.pos == c.origin + At(c.u)
  }

  function Window(c: Con): (w: seq<Cell>)
    requires 0 <= c.origin && c.origin + SIZE <= |c.mem|
    ensures |w| == SIZE
  {
    c.mem[c.origin..c.origin + SIZE]
  }

  /** The console looks like the plain terminal. */
  ghost predicate Shows(c: Con, t: Term) {
    ConOk(c) && t == Term(Window(c), c.u, c.p)
  }

  predicate Fits(m: seq<Cell>, dest: int, src: int, n: int) {
    0 <= n && 0 <= dest && dest + n <= |m| && 0 <= src && src + n <= |m|
  }

  /** A copy of `n` cells as if through a second buffer. */
  function MemCopy(m: seq<Cell>, dest: int, src: int, n: int): (r: seq<Cell>)
    ensures |r| == |m|
    ensures Fits(m, dest, src, n) ==>
      forall k :: 0 <= k < |m| ==> r[k] == if dest <= k < dest + n then m[src + (k - dest)] else m[k]
  {
    if Fits(m, dest, src, n) then m[..dest] + m[src..src + n] + m[dest + n..] else m
  }

  function MemClear(m: seq<Cell>, at: int, n: int): (r: seq<Cell>)
    ensures |r| == |m|
  {
    if 0 <= n && 0 <= at && at + n <= |m| then GridErase(m, at, n) else m
  }

  function ScrUp(c: Con, top: int, bottom: int): Con {
    if top == 0 && bottom == LINES then
      var o, p, e := c.origin + COLUMNS, c.pos + COLUMNS, c.scrEnd + COLUMNS;
      if e > VIDEO then
        var m := MemClear(MemCopy(c.mem, 0, o, (LINES - 1) * COLUMNS), (LINES - 1) * COLUMNS, COLUMNS);
        c.(mem := m, scrEnd := e - o, pos := p - o, origin := 0)
      else c.(mem := MemClear(c.mem, e - COLUMNS, COLUMNS), scrEnd := e, pos := p, origin := o)
    else
      var m := MemCopy(c.mem, c.origin + COLUMNS * top, c.origin + COLUMNS * (top + 1), (bottom - top - 1) * COLUMNS);
      c.(mem := MemClear(m, c.origin + COLUMNS * (bottom - 1), COLUMNS))
  }

  function ScrDown(c: Con, top: int, bottom: int): Con {
    var m := MemCopy(c.mem, c.origin + COLUMNS * (top + 1), c.origin + COLUMNS * top, (bottom - top - 1) * COLUMNS);
    c.(mem := MemClear(m, c.origin + COLUMNS * top, COLUMNS))
  }

  function Lf(c: Con): Con {
    if c.u.y + 1 < c.u.bottom then c.(u := c.u.(y := c.u.y + 1), pos := c.pos + COLUMNS)
    else ScrUp(c, c.u.top, c.u.bottom)
  }

  function Ri(c: Con): Con {
    if c.u.y > c.u.top then c.(u := c.u.(y := c.u.y - 1), pos := c.pos - COLUMNS)
    else ScrDown(c, c.u.top, c.u.bottom)
  }

  function InsertChar(c: Con): Con {
    var room := COLUMNS - c.u.x;
    if room <= 0 || !(0 <= c.pos && c.pos + room <= |c.mem|) then c else c.(mem := ShiftIn(c.mem, c.pos, room))
  }

  function DeleteChar(c: Con): Con {
    var room := COLUMNS - c.u.x;
    if room <= 0 || !(0 <= c.pos && c.pos + room <= |c.mem|) then c else c.(mem := ShiftOut(c.mem, c.pos, room))
  }

  function Repeat(op: Action, c: Con, n: nat): Con
    decreases n
  {
    if n == 0 then c
    else
      Repeat(op, match op
                 case InsertLines(_) => ScrDown(c, c.u.y, LINES)
                 case DeleteLines(_) => ScrUp(c, c.u.y, LINES)
                 case InsertChars(_) => InsertChar(c)
                 case DeleteChars(_) => DeleteChar(c)
                 case _ => c, n - 1)
  }

  function Store(c: Con, at: int, v: Cell): Con {
    if 0 <= at < |c.mem| then c.(mem := c.mem[at := v]) else c
  }

  function ConDo(c: Con, a: Action): Con {
    match a
    case Nothing => c
    case Put(cell) =>
      var d := if c.u.x >= COLUMNS then Lf(c.(u := c.u.(x := c.u.x - COLUMNS), pos := c.pos - COLUMNS)) else c;
      Store(d, d.pos, cell).(pos := d.pos + 1, u := d.u.(x := d.u.x + 1))
    case LineFeed => Lf(c)
    case ReverseFeed => Ri(c)
    case Return => c.(pos := c.pos - c.u.x, u := c.u.(x := 0))
    case Rubout => if c.u.x > 0 then Store(c.(pos := c.pos - 1, u := c.u.(x := c.u.x - 1)), c.pos - 1, BLANK) else c
    case Back => if c.u.x > 0 then c.(pos := c.pos - 1, u := c.u.(x := c.u.x - 1)) else c
    case Tab =>
      var step := 8 - c.u.x % 8;
      var d := c.(u := c.u.(x := c.u.x + step), pos := c.pos + step);
      if d.u.x > COLUMNS then Lf(d.(u := d.u.(x := d.u.x - COLUMNS), pos := d.pos - COLUMNS)) else d
    case Goto(x, y) =>
      if 0 <= x < COLUMNS && 0 <= y < LINES
      then c.(u := c.u.(x := x, y := y), pos := c.origin + y * COLUMNS + x) else c
    case EraseDisplay(p) =>
      c.(mem := if p == 0 then MemClear(c.mem, c.pos, c.scrEnd - c.pos)
                else if p == 1 then MemClear(c.mem, c.origin, c.pos - c.origin)
                else if p == 2 then MemClear(c.mem, c.origin, COLUMNS * LINES) else c.mem)
    case EraseLine(p) =>
      c.(mem := if p == 0 then (if c.u.x >= COLUMNS then c.mem else MemClear(c.mem, c.pos, COLUMNS - c.u.x))
                else if p == 1 then MemClear(c.mem, c.pos - c.u.x, if c.u.x < COLUMNS then c.u.x else COLUMNS)
                else if p == 2 then MemClear(c.mem, c.pos - c.u.x, COLUMNS) else c.mem)
    case InsertLines(n) => Repeat(a, c, Times(n, LINES))
    case DeleteLines(n) => Repeat(a, c, Times(n, LINES))
    case InsertChars(n) => Repeat(a, c, Times(n, COLUMNS))
    case DeleteChars(n) => Repeat(a, c, Times(n, COLUMNS))
    case Region(top, bottom) => if 0 <= top < bottom <= LINES then c.(u := c.u.(top := top, bottom := bottom)) else c
    case Save => c.(u := c.u.(sx := c.u.x, sy := c.u.y))
    case Restore => c.(u := c.u.(x := c.u.sx, y := c.u.sy), pos := c.origin + c.u.sy * COLUMNS + c.u.sx)
  }

  function ConByte(c: Con, b: int, erase: int): Con {
    var (p, a) := Parse(c.p, c.u, b, erase);
    ConDo(c.(p := p), a)
  }

  // ---------- refinement ----------

  /** Sliding the window down one line, in the middle of video memory. */
  lemma UpSlidesAt(c: Con, k: int)
    requires ConOk(c) && c.scrEnd + COLUMNS <= VIDEO && 0 <= k < SIZE
    ensures var d := ScrUp(c, 0, LINES);
      ConOk(d) && d.u == c.u && d.p == c.p && Window(d)[k] == if k < SIZE - COLUMNS then Window(c)[k + COLUMNS] else BLANK
  {
    hide MemClear;
    var d := ScrUp(c, 0, LINES);
    var j := c.origin + COLUMNS + k;
    ClearAt(c.mem, c.scrEnd, COLUMNS, j);
    assert d == c.(mem := MemClear(c.mem, c.scrEnd, COLUMNS), scrEnd := c.scrEnd + COLUMNS, pos := c.pos + COLUMNS, origin := c.origin + COLUMNS);
    assert Window(d)[k] == d.mem[j];
    assert k < SIZE - COLUMNS ==> Window(c)[k + COLUMNS] == c.mem[j];
  }

  /** Going back to the start of video memory. */
  lemma UpWrapsAt(c: Con, k: int)
    requires ConOk(c) && c.scrEnd + COLUMNS > VIDEO && 0 <= k < SIZE
    ensures var d := ScrUp(c, 0, LINES);
      ConOk(d) && d.u == c.u && d.p == c.p && Window(d)[k] == if k < SIZE - COLUMNS then Window(c)[k + COLUMNS] else BLANK
  {
    hide MemClear, MemCopy;
    var d := ScrUp(c, 0, LINES);
    var n := (LINES - 1) * COLUMNS;
    var m := CopyAt(c.mem, 0, c.origin + COLUMNS, n, k);
    ClearAt(m, n, COLUMNS, k);
    assert Window(d)[k] == d.mem[k];
    assert k < SIZE - COLUMNS ==> Window(c)[k + COLUMNS] == c.mem[c.origin + COLUMNS + k];
  }

  lemma ClearAt(m: seq<Cell>, at: int, n: int, j: int)
    requires 0 <= n && 0 <= at && at + n <= |m| && 0 <= j < |m|
    ensures |MemClear(m, at, n)| == |m| && MemClear(m, at, n)[j] == if at <= j < at + n then BLANK else m[j]
  {
  }

  lemma CopyAt(m: seq<Cell>, dest: int, src: int, n: int, j: int) returns (r: seq<Cell>)
    requires Fits(m, dest, src, n) && 0 <= j < |m|
    ensures r == MemCopy(m, dest, src, n) && |r| == |m| && r[j] == if dest <= j < dest + n then m[src + (j - dest)] else m[j]
  {
    r := MemCopy(m, dest, src, n);
  }

  /** Moving the lines of a region up. */
  lemma UpMovesAt(c: Con, top: int, bottom: int, k: int)
    requires ConOk(c) && 0 <= top < bottom <= LINES && !(top == 0 && bottom == LINES) && 0 <= k < SIZE
    ensures var d := ScrUp(c, top, bottom);
      && ConOk(d) && d.u == c.u && d.p == c.p
      && Window(d)[k]
         == if k < COLUMNS * top || k >= COLUMNS * bottom then Window(c)[k]
            else if k < COLUMNS * (bottom - 1) then Window(c)[k + COLUMNS] else BLANK
  {
    hide MemClear, MemCopy;
    var d := ScrUp(c, top, bottom);
    var j := c.origin + k;
    Rows(top, bottom);
    var m := CopyAt(c.mem, c.origin + COLUMNS * top, c.origin + COLUMNS * (top + 1), (bottom - top - 1) * COLUMNS, j);
    ClearAt(m, c.origin + COLUMNS * (bottom - 1), COLUMNS, j);
    assert Window(d)[k] == d.mem[j] && Window(c)[k] == c.mem[j];
    assert k + COLUMNS < SIZE ==> Window(c)[k + COLUMNS] == c.mem[j + COLUMNS];
  }

  lemma Rows(top: int, bottom: int)
    requires 0 <= top < bottom <= LINES
    ensures (bottom - top - 1) * COLUMNS == COLUMNS * bottom - COLUMNS * top - COLUMNS
    ensures 0 <= COLUMNS * top && COLUMNS * top + COLUMNS <= COLUMNS * bottom <= SIZE
    ensures COLUMNS * (top + 1) == COLUMNS * top + COLUMNS && COLUMNS * (bottom - 1) == COLUMNS * bottom - COLUMNS
  {
  }

  /** Scrolling by sliding the window, or by going back to the start of video memory, looks
      like moving every line. */
  lemma UpShows(c: Con, top: int, bottom: int)
    requires ConOk(c) && 0 <= top < bottom <= LINES
    ensures var d := ScrUp(c, top, bottom);
      ConOk(d) && d.u == c.u && d.p == c.p && Window(d) == GridUp(Window(c), top, bottom)
  {
    hide GridUp, ScrUp, Window, ConOk;
    UpAt(c, top, bottom, 0);
    var w, g := Window(ScrUp(c, top, bottom)), GridUp(Window(c), top, bottom);
    forall k | 0 <= k < SIZE
      ensures w[k] == g[k]
    {
      UpAt(c, top, bottom, k);
    }
    WindowSize(c);
    WindowSize(ScrUp(c, top, bottom));
    GridSizes(Window(c), top, bottom);
  }

  lemma UpAt(c: Con, top: int, bottom: int, k: int)
    requires ConOk(c) && 0 <= top < bottom <= LINES && 0 <= k < SIZE
    ensures 0 <= c.origin && c.origin + SIZE <= |c.mem| && |Window(c)| == SIZE == |GridUp(Window(c), top, bottom)|
    ensures var d := ScrUp(c, top, bottom);
      && 0 <= d.origin && d.origin + SIZE <= |d.mem| && ConOk(d) && d.u == c.u && d.p == c.p
      && |Window(d)| == SIZE && Window(d)[k] == GridUp(Window(c), top, bottom)[k]
  {
    hide ScrUp, GridUp;
    Rows(top, bottom);
    WindowSize(c);
    GridUpAt(Window(c), top, bottom, k);
    if top != 0 || bottom != LINES {
      UpMovesAt(c, top, bottom, k);
    } else if c.scrEnd + COLUMNS <= VIDEO {
      UpSlidesAt(c, k);
    } else {
      UpWrapsAt(c, k);
    }
    GridSizes(Window(c), top, bottom);
  }

  lemma WindowSize(c: Con)
    requires ConOk(c)
    ensures 0 <= c.origin && c.origin + SIZE <= |c.mem| && |Window(c)| == SIZE
  {
  }

  lemma GridSizes(c: seq<Cell>, top: int, bottom: int)
    requires |c| == SIZE && 0 <= top < bottom <= LINES
    ensures |GridUp(c, top, bottom)| == SIZE && |GridDown(c, top, bottom)| == SIZE
  {
  }

  lemma GridUpAt(c: seq<Cell>, top: int, bottom: int, k: int)
    requires |c| == SIZE && 0 <= top < bottom <= LINES && 0 <= k < SIZE
    ensures GridUp(c, top, bottom)[k]
         == if k < COLUMNS * top || k >= COLUMNS * bottom then c[k]
            else if k < COLUMNS * (bottom - 1) then c[k + COLUMNS] else BLANK
  {
  }

  lemma GridDownAt(c: seq<Cell>, top: int, bottom: int, k: int)
    requires |c| == SIZE && 0 <= top < bottom <= LINES && 0 <= k < SIZE
    ensures GridDown(c, top, bottom)[k]
         == if k < COLUMNS * top || k >= COLUMNS * bottom then c[k]
            else if k >= COLUMNS * (top + 1) then c[k - COLUMNS] else BLANK
  {
  }

  lemma DownAt(c: Con, top: int, bottom: int, k: int)
    requires ConOk(c) && 0 <= top < bottom <= LINES && 0 <= k < SIZE
    ensures 0 <= c.origin && c.origin + SIZE <= |c.mem| && |Window(c)| == SIZE == |GridDown(Window(c), top, bottom)|
    ensures var d := ScrDown(c, top, bottom);
      && 0 <= d.origin && d.origin + SIZE <= |d.mem| && ConOk(d) && d.u == c.u && d.p == c.p
      && |Window(d)| == SIZE && Window(d)[k] == GridDown(Window(c), top, bottom)[k]
  {
    hide GridDown, MemClear, MemCopy;
    var d := ScrDown(c, top, bottom);
    var j := c.origin + k;
    Rows(top, bottom);
    GridSizes(Window(c), top, bottom);
    GridDownAt(Window(c), top, bottom, k);
    var m := CopyAt(c.mem, c.origin + COLUMNS * (top + 1), c.origin + COLUMNS * top, (bottom - top - 1) * COLUMNS, j);
    ClearAt(m, c.origin + COLUMNS * top, COLUMNS, j);
    assert Window(d)[k] == d.mem[j] && Window(c)[k] == c.mem[j];
    assert k >= COLUMNS ==> Window(c)[k - COLUMNS] == c.mem[j - COLUMNS];
  }

  lemma DownShows(c: Con, top: int, bottom: int)
    requires ConOk(c) && 0 <= top < bottom <= LINES
    ensures var d := ScrDown(c, top, bottom);
      ConOk(d) && d.u == c.u && d.p == c.p && Window(d) == GridDown(Window(c), top, bottom)
  {
    hide GridDown, ScrDown, Window, ConOk;
    DownAt(c, top, bottom, 0);
    var w, g := Window(ScrDown(c, top, bottom)), GridDown(Window(c), top, bottom);
    forall k | 0 <= k < SIZE
      ensures w[k] == g[k]
    {
      DownAt(c, top, bottom, k);
    }
  }

  lemma ClearShows(c: Con, at: int, n: int)
    requires ConOk(c) && 0 <= at && 0 <= n && at + n <= SIZE
    ensures var d := c.(mem := MemClear(c.mem, c.origin + at, n));
      ConOk(d) && Window(d) == GridErase(Window(c), at, n)
  {
    var d := c.(mem := MemClear(c.mem, c.origin + at, n));
    assert forall k :: 0 <= k < SIZE ==> Window(d)[k] == GridErase(Window(c), at, n)[k];
  }

  /** Shifting within a window is shifting in the memory behind it. */
  lemma ShiftWindow(m: seq<Cell>, o: int, n: int, at: int, room: int)
    requires 0 <= o && 0 <= at && 0 < room && at + room <= n && o + n <= |m|
    ensures ShiftIn(m, o + at, room)[o..o + n] == ShiftIn(m[o..o + n], at, room)
    ensures ShiftOut(m, o + at, room)[o..o + n] == ShiftOut(m[o..o + n], at, room)
  {
    var w := m[o..o + n];
    var i, d := ShiftIn(m, o + at, room), ShiftOut(m, o + at, room);
    forall k | 0 <= k < n
      ensures i[o..o + n][k] == ShiftIn(w, at, room)[k] && d[o..o + n][k] == ShiftOut(w, at, room)[k]
    {
      ShiftAt(m, o, n, at, room, k);
    }
  }

  lemma ShiftAt(m: seq<Cell>, o: int, n: int, at: int, room: int, k: int)
    requires 0 <= o && 0 <= at && 0 < room && at + room <= n && o + n <= |m| && 0 <= k < n
    ensures ShiftIn(m, o + at, room)[o..o + n][k] == ShiftIn(m[o..o + n], at, room)[k]
    ensures ShiftOut(m, o + at, room)[o..o + n][k] == ShiftOut(m[o..o + n], at, room)[k]
  {
    var w, j := m[o..o + n], o + k;
    assert ShiftIn(m, o + at, room)[o..o + n][k] == ShiftIn(m, o + at, room)[j];
    assert ShiftOut(m, o + at, room)[o..o + n][k] == ShiftOut(m, o + at, room)[j];
    assert w[k] == m[j] && (k > 0 ==> w[k - 1] == m[j - 1]) && (k + 1 < n ==> w[k + 1] == m[j + 1]);
  }

  lemma CharShows(c: Con)
    requires ConOk(c)
    ensures var d := InsertChar(c);
      ConOk(d) && d.u == c.u && d.p == c.p && Window(d) == GridInsert(Window(c), c.u)
    ensures var d := DeleteChar(c);
      ConOk(d) && d.u == c.u && d.p == c.p && Window(d) == GridDelete(Window(c), c.u)
  {
    if c.u.x < COLUMNS {
      ShiftWindow(c.mem, c.origin, SIZE, At(c.u), COLUMNS - c.u.x);
    }
  }

  lemma {:induction false} RepeatShows(op: Action, c: Con, n: nat)
    requires ConOk(c)
    ensures var d := Repeat(op, c, n);
      ConOk(d) && d.u == c.u && d.p == c.p && Window(d) == RepeatCells(op, Window(c), c.u, n)
    decreases n
  {
    hide Window, GridUp, GridDown, GridInsert, GridDelete, ScrUp, ScrDown, InsertChar, DeleteChar;
    if n > 0 {
      UpShows(c, c.u.y, LINES);
      DownShows(c, c.u.y, LINES);
      CharShows(c);
      match op
      case InsertLines(_) => RepeatShows(op, ScrDown(c, c.u.y, LINES), n - 1);
      case DeleteLines(_) => RepeatShows(op, ScrUp(c, c.u.y, LINES), n - 1);
      case InsertChars(_) => RepeatShows(op, InsertChar(c), n - 1);
      case DeleteChars(_) => RepeatShows(op, DeleteChar(c), n - 1);
      case _ => RepeatShows(op, c, n - 1);
    }
  }

  lemma FeedShows(c: Con, t: Term)
    requires Shows(c, t)
    ensures Shows(Lf(c), TermFeed(t)) && Shows(Ri(c), TermReverse(t))
  {
    hide ScrUp, ScrDown, GridUp, GridDown;
    UpShows(c, c.u.top, c.u.bottom);
    DownShows(c, c.u.top, c.u.bottom);
  }

  lemma PutShows(c: Con, t: Term, cell: Cell)
    requires Shows(c, t)
    ensures Shows(ConDo(c, Put(cell)), TermDo(t, Put(cell)))
  {
    hide Lf, TermFeed;
    if c.u.x >= COLUMNS {
      var d, s := c.(u := c.u.(x := c.u.x - COLUMNS), pos := c.pos - COLUMNS), t.(u := t.u.(x := t.u.x - COLUMNS));
      assert Shows(d, s);
      FeedShows(d, s);
      FedColumn(s);
      StoreShows(Lf(d), TermFeed(s), cell);
    } else {
      StoreShows(c, t, cell);
    }
  }

  lemma FedColumn(t: Term)
    requires TermOk(t)
    ensures TermFeed(t).u.x == t.u.x
  {
  }

  lemma StoreShows(c: Con, t: Term, cell: Cell)
    requires Shows(c, t) && c.u.x < COLUMNS
    ensures Shows(Store(c, c.pos, cell).(pos := c.pos + 1, u := c.u.(x := c.u.x + 1)),
                  Term(t.cells[At(t.u) := cell], t.u.(x := t.u.x + 1), t.p))
  {
    assert c.mem[c.pos := cell][c.origin..c.origin + SIZE] == Window(c)[At(c.u) := cell];
  }

  lemma RuboutShows(c: Con, t: Term)
    requires Shows(c, t) && c.u.x > 0
    ensures Shows(ConDo(c, Rubout), TermDo(t, Rubout))
  {
    assert c.mem[c.pos - 1 := BLANK][c.origin..c.origin + SIZE] == Window(c)[At(c.u) - 1 := BLANK];
  }

  lemma EraseDisplayShows(c: Con, t: Term, p: int)
    requires Shows(c, t)
    ensures Shows(ConDo(c, EraseDisplay(p)), TermDo(t, EraseDisplay(p)))
  {
    hide GridErase, MemClear;
    ClearShows(c, At(c.u), SIZE - At(c.u));
    ClearShows(c, 0, At(c.u));
    ClearShows(c, 0, SIZE);
    assert GridErase(t.cells, 0, SIZE) == Blanks(SIZE);
  }

  lemma EraseLineShows(c: Con, t: Term, p: int)
    requires Shows(c, t)
    ensures Shows(ConDo(c, EraseLine(p)), TermDo(t, EraseLine(p)))
  {
    hide GridErase, MemClear, Blanks, Window;
    var line := COLUMNS * c.u.y;
    if p == 0 {
      if c.u.x >= COLUMNS {
        EraseNothing(t.cells, At(t.u));
      } else {
        ClearShows(c, At(c.u), COLUMNS - c.u.x);
      }
    } else if p == 1 {
      ClearShows(c, line, c.u.x);
    } else if p == 2 {
      ClearShows(c, line, COLUMNS);
    }
  }

  lemma EraseNothing(c: seq<Cell>, at: int)
    requires 0 <= at <= |c|
    ensures GridErase(c, at, 0) == c
  {
  }

  /** Every action does to the window what it does to the grid. */
  lemma DoShows(c: Con, t: Term, a: Action)
    requires Shows(c, t)
    ensures Shows(ConDo(c, a), TermDo(t, a))
  {
    match a
    case Put(cell) => PutShows(c, t, cell);
    case LineFeed => FeedShows(c, t);
    case ReverseFeed => FeedShows(c, t);
    case Rubout => if c.u.x > 0 { RuboutShows(c, t); }
    case Tab => TabShows(c, t);
    case EraseDisplay(p) => EraseDisplayShows(c, t, p);
    case EraseLine(p) => EraseLineShows(c, t, p);
    case InsertLines(n) => RepeatShows(a, c, Times(n, LINES));
    case DeleteLines(n) => RepeatShows(a, c, Times(n, LINES));
    case InsertChars(n) => RepeatShows(a, c, Times(n, COLUMNS));
    case DeleteChars(n) => RepeatShows(a, c, Times(n, COLUMNS));
    case _ => hide ScrUp, ScrDown, GridUp, GridDown, Repeat, RepeatCells;
  }

  lemma TabShows(c: Con, t: Term)
    requires Shows(c, t)
    ensures Shows(ConDo(c, Tab), TermDo(t, Tab))
  {
    hide Lf, TermFeed;
    var step := 8 - c.u.x % 8;
    if c.u.x + step > COLUMNS {
      var d := c.(u := c.u.(x := c.u.x + step - COLUMNS), pos := c.pos + step - COLUMNS);
      FeedShows(d, t.(u := t.u.(x := t.u.x + step - COLUMNS)));
    }
  }

  function ConBytes(c: Con, bs: seq<int>, erase: int): Con
    decreases |bs|
  {
    if bs == [] then c else ConBytes(ConByte(c, bs[0], erase), bs[1..], erase)
  }

  function TermBytes(t: Term, bs: seq<int>, erase: int): Term
    requires TermOk(t)
    decreases |bs|
  {
    if bs == [] then t
    else
      TermKeeps(t, bs[0], erase);
      TermBytes(TermByte(t, bs[0], erase), bs[1..], erase)
  }

  /** After any bytes at all, across scrolling, regions and the return to the start of video
      memory, the window shows what the plain terminal shows, and stays inside video memory. */
  lemma {:induction false} BytesShow(c: Con, t: Term, bs: seq<int>, erase: int)
    requires Shows(c, t)
    ensures Shows(ConBytes(c, bs, erase), TermBytes(t, bs, erase))
    decreases |bs|
  {
    hide Parse, ConDo, TermDo, ConOk;
    ParserApart(c, t, c.p);
    if bs != [] {
      TermKeeps(t, bs[0], erase);
      var (p, a) := Parse(c.p, c.u, bs[0], erase);
      ParserApart(c, t, p);
      DoShows(c.(p := p), t.(p := p), a);
      BytesShow(ConByte(c, bs[0], erase), TermByte(t, bs[0], erase), bs[1..], erase);
    }
  }

  lemma ParserApart(c: Con, t: Term, p: Parser)
    requires Shows(c, t)
    ensures Shows(c.(p := p), t.(p := p)) && TermOk(t) && t.p == c.p && t.u == c.u
  {
  }

  // ---------- the code ----------

  class Screen {
    const mem: array<Cell>
    var origin: int
    var scrEnd: int
    var pos: int
    var u: Cursor
    var p: Parser

    ghost function Snap(): Con
      reads this, mem
    {
      Con(mem[..], origin, scrEnd, pos, u, p)
    }

    ghost predicate Valid()
      reads this, mem
    {
      ConOk(Snap())
    }

    constructor (video: array<Cell>)
      requires video.Length == VIDEO
      ensures Valid() && mem == video && Window(Snap()) == video[..SIZE]
      ensures u == Cursor(0, 0, 0, LINES, 0, 0) && p == Parser(0, 0, NoPars(), 0x07)
    {
      mem := video;
      origin, scrEnd, pos := 0, SIZE, 0;
      u := Cursor(0, 0, 0, LINES, 0, 0);
      p := Parser(0, 0, NoPars(), 0x07);
    }

    /** One long word: two cells. */
    method CopyPair(d: int, s: int)
      requires 0 <= d && d + 2 <= mem.Length && 0 <= s && s + 2 <= mem.Length
      modifies mem
      ensures mem[..] == old(mem[..])[d := old(mem[s])][d + 1 := old(mem[s + 1])]
    {
      mem[d], mem[d + 1] := mem[s], mem[s + 1];
    }

    /** Two cells at a time, upwards; the overlap is harmless when the target lies below. */
    method CopyScreen(dest: int, src: int, count: nat)
      requires 0 <= dest <= src && src + 2 * count <= mem.Length
      modifies mem
      ensures mem[..] == MemCopy(old(mem[..]), dest, src, 2 * count)
    {
      hide MemCopy;
      ghost var was := mem[..];
      var i := 0;
      CopyNothing(was, dest, src);
      while i < count
        invariant 0 <= i <= count && mem[..] == MemCopy(was, dest, src, 2 * i)
      {
        CopyMore(was, dest, src, 2 * i);
        CopyPair(dest + 2 * i, src + 2 * i);
        i := i + 1;
      }
    }

    /** The same downwards from the last two cells, for a target that lies above. */
    method CopyScreenDown(dest: int, src: int, count: nat)
      requires 0 <= src - 2 * count && src <= dest <= mem.Length
      modifies mem
      ensures mem[..] == MemCopy(old(mem[..]), dest - 2 * count, src - 2 * count, 2 * count)
    {
      hide MemCopy;
      ghost var was := mem[..];
      var i := 0;
      CopyNothing(was, dest, src);
      while i < count
        invariant 0 <= i <= count && mem[..] == MemCopy(was, dest - 2 * i, src - 2 * i, 2 * i)
      {
        var d, s := dest - 2 * i, src - 2 * i;
        CopyMoreBelow(was, d, s, 2 * i);
        CopyPair(d - 2, s - 2);
        i := i + 1;
      }
    }

    method ClearScreen(at: int, count: nat)
      requires 0 <= at && at + count <= mem.Length
      modifies mem
      ensures mem[..] == MemClear(old(mem[..]), at, count)
    {
      var i := 0;
      while i < count
        invariant 0 <= i <= count
        invariant forall k :: 0 <= k < mem.Length ==> mem[k] == if at <= k < at + i then BLANK else old(mem[k])
      {
        mem[at + i] := BLANK;
        i := i + 1;
      }
    }

    /** `scrup`, with its `top` and `bottom` given. */
    method ScrollUp(top: int, bottom: int)
      requires Valid() && 0 <= top < bottom <= LINES
      modifies this`origin, this`pos, this`scrEnd, mem
      ensures Valid() && Snap() == ScrUp(old(Snap()), top, bottom)
    {
      hide MemCopy, MemClear, Window, GridUp;
      UpShows(Snap(), top, bottom);
      if top == 0 && bottom == LINES {
        origin, pos, scrEnd := origin + COLUMNS, pos + COLUMNS, scrEnd + COLUMNS;
        if scrEnd > VIDEO {
          CopyScreen(0, origin, (LINES - 1) * (COLUMNS / 2));
          ClearScreen((LINES - 1) * COLUMNS, COLUMNS);
          scrEnd := scrEnd - origin;
          pos := pos - origin;
          origin := 0;
        } else {
          ClearScreen(scrEnd - COLUMNS, COLUMNS);
        }
      } else {
        CopyScreen(origin + COLUMNS * top, origin + COLUMNS * (top + 1), (bottom - top - 1) * (COLUMNS / 2));
        ClearScreen(origin + COLUMNS * (bottom - 1), COLUMNS);
      }
    }

    method ScrollDown(top: int, bottom: int)
      requires Valid() && 0 <= top < bottom <= LINES
      modifies mem
      ensures Valid() && Snap() == ScrDown(old(Snap()), top, bottom)
    {
      hide MemCopy, MemClear, Window, GridDown;
      DownShows(Snap(), top, bottom);
      CopyScreenDown(origin + COLUMNS * bottom, origin + COLUMNS * (bottom - 1), (bottom - top - 1) * (COLUMNS / 2));
      ClearScreen(origin + COLUMNS * top, COLUMNS);
    }

    method LineFeedAt()
      requires Valid()
      modifies this, mem
      ensures Valid() && Snap() == Lf(old(Snap()))
    {
      if u.y + 1 < u.bottom {
        u := u.(y := u.y + 1);
        pos := pos + COLUMNS;
        return;
      }
      ScrollUp(u.top, u.bottom);
    }

    method ReverseAt()
      requires Valid()
      modifies this, mem
      ensures Valid() && Snap() == Ri(old(Snap()))
    {
      if u.y > u.top {
        u := u.(y := u.y - 1);
        pos := pos - COLUMNS;
        return;
      }
      ScrollDown(u.top, u.bottom);
    }

    /** `insert_char`: carry each cell over to the next. */
    method InsertCell()
      requires Valid()
      modifies mem
      ensures Valid() && Snap() == InsertChar(old(Snap()))
    {
      hide ShiftIn, Window, GridInsert, GridDelete;
      CharShows(Snap());
      if u.x < COLUMNS {
        CarryRight(pos, COLUMNS - u.x);
      }
    }

    method CarryRight(at: int, room: int)
      requires 0 <= at && 0 < room && at + room <= mem.Length
      modifies mem
      ensures mem[..] == ShiftIn(old(mem[..]), at, room)
    {
      var i, last := 0, BLANK;
      while i < room
        invariant 0 <= i <= room && last == if i == 0 then BLANK else old(mem[at + i - 1])
        invariant forall k :: 0 <= k < mem.Length ==>
          mem[k] == if k < at || k >= at + i then old(mem[k]) else if k == at then BLANK else old(mem[k - 1])
      {
        var tmp := mem[at + i];
        mem[at + i] := last;
        last := tmp;
        i := i + 1;
      }
    }

    method DeleteCell()
      requires Valid()
      modifies mem
      ensures Valid() && Snap() == DeleteChar(old(Snap()))
    {
      hide ShiftOut, Window, GridInsert, GridDelete;
      CharShows(Snap());
      if u.x < COLUMNS {
        CarryLeft(pos, COLUMNS - u.x);
      }
    }

    method CarryLeft(at: int, room: int)
      requires 0 <= at && 0 < room && at + room <= mem.Length
      modifies mem
      ensures mem[..] == ShiftOut(old(mem[..]), at, room)
    {
      var i := 1;
      while i < room
        invariant 1 <= i <= room
        invariant forall k :: 0 <= k < mem.Length ==>
          mem[k] == if k < at || k >= at + i - 1 then old(mem[k]) else old(mem[k + 1])
      {
        mem[at + i - 1] := mem[at + i];
        i := i + 1;
      }
      mem[at + room - 1] := BLANK;
    }

    /** `csi_L`, `csi_M`, `csi_at` and `csi_P`. */
    method RepeatOp(op: Action, n: nat)
      requires Valid()
      modifies this`origin, this`pos, this`scrEnd, mem
      ensures Valid() && Snap() == Repeat(op, old(Snap()), n)
    {
      hide ScrUp, ScrDown, InsertChar, DeleteChar;
      var left := n;
      while left > 0
        invariant 0 <= left <= n && Valid() && Repeat(op, old(Snap()), n) == Repeat(op, Snap(), left)
        invariant u == old(u)
      {
        RepeatShows(op, Snap(), 1);
        match op {
          case InsertLines(_) => ScrollDown(u.y, LINES);
          case DeleteLines(_) => ScrollUp(u.y, LINES);
          case InsertChars(_) => InsertCell();
          case DeleteChars(_) => DeleteCell();
          case _ =>
        }
        left := left - 1;
      }
    }

    method Advance(dx: int, dpos: int)
      requires u.x + dx >= 0
      modifies this`u, this`pos
      ensures u == old(u).(x := old(u).x + dx) && pos == old(pos) + dpos
    {
      u := u.(x := u.x + dx);
      pos := pos + dpos;
    }

    method PutCell(cell: Cell)
      requires Valid()
      modifies this, mem
      ensures Valid() && Snap() == ConDo(old(Snap()), Put(cell))
    {
      hide Lf, Window;
      ghost var c := Snap();
      StaysOk(c, Put(cell));
      if u.x >= COLUMNS {
        Advance(-COLUMNS, -COLUMNS);
        LineFeedAt();
      }
      InMemory(Snap());
      mem[pos] := cell;
      Advance(1, 1);
    }

    method Erase(a: Action)
      requires Valid() && (a.EraseDisplay? || a.EraseLine?)
      modifies mem
      ensures Valid() && Snap() == ConDo(old(Snap()), a)
    {
      hide MemClear, Window;
      StaysOk(Snap(), a);
      if a.EraseDisplay? {
        if a.p == 0 {
          ClearScreen(pos, scrEnd - pos);
        } else if a.p == 1 {
          ClearScreen(origin, pos - origin);
        } else if a.p == 2 {
          ClearScreen(origin, COLUMNS * LINES);
        }
      } else if a.p == 0 {
        if u.x < COLUMNS {
          ClearScreen(pos, COLUMNS - u.x);
        }
      } else if a.p == 1 {
        ClearScreen(pos - u.x, if u.x < COLUMNS then u.x else COLUMNS);
      } else if a.p == 2 {
        ClearScreen(pos - u.x, COLUMNS);
      }
    }

    /** Backspace, delete and tab. */
    method StepCursor(a: Action)
      requires Valid() && (a.Rubout? || a.Back? || a.Tab?)
      modifies this, mem
      ensures Valid() && Snap() == ConDo(old(Snap()), a)
    {
      hide Lf, Ri, Window;
      StaysOk(Snap(), a);
      if a.Tab? {
        var step := 8 - u.x % 8;
        Advance(step, step);
        if u.x > COLUMNS {
          Advance(-COLUMNS, -COLUMNS);
          LineFeedAt();
        }
      } else if u.x > 0 {
        Advance(-1, -1);
        if a.Rubout? {
          InMemory(Snap());
          mem[pos] := BLANK;
        }
      }
    }

    /** The actions that only set the cursor. */
    method SetCursor(a: Action)
      requires Valid() && (a.Return? || a.Goto? || a.Region? || a.Save? || a.Restore?)
      modifies this`u, this`pos
      ensures Valid() && Snap() == ConDo(old(Snap()), a)
    {
      hide Window;
      StaysOk(Snap(), a);
      match a {
        case Return => Advance(-u.x, -u.x);
        case Goto(x, y) =>
          if 0 <= x < COLUMNS && 0 <= y < LINES {
            u := u.(x := x, y := y);
            pos := origin + y * COLUMNS + x;
          }
        case Region(top, bottom) =>
          if 0 <= top < bottom <= LINES {
            u := u.(top := top, bottom := bottom);
          }
        case Save => u := u.(sx := u.x, sy := u.y);
        case Restore =>
          u := u.(x := u.sx, y := u.sy);
          pos := origin + u.y * COLUMNS + u.x;
      }
    }

    /** The cursor movements of `con_write`. */
    method MoveCursor(a: Action)
      requires Valid() && !a.Put? && !a.EraseDisplay? && !a.EraseLine?
      requires !a.InsertLines? && !a.DeleteLines? && !a.InsertChars? && !a.DeleteChars?
      modifies this, mem
      ensures Valid() && Snap() == ConDo(old(Snap()), a)
    {
      hide Lf, Ri, Window;
      match a {
        case LineFeed => LineFeedAt();
        case ReverseFeed => ReverseAt();
        case Rubout => StepCursor(a);
        case Back => StepCursor(a);
        case Tab => StepCursor(a);
        case Return => SetCursor(a);
        case Goto(x, y) => SetCursor(a);
        case Region(top, bottom) => SetCursor(a);
        case Save => SetCursor(a);
        case Restore => SetCursor(a);
        case _ =>
      }
    }

    method Act(a: Action)
      requires Valid()
      modifies this, mem
      ensures Valid() && Snap() == ConDo(old(Snap()), a)
    {
      hide Repeat;
      StaysOk(Snap(), a);
      match a {
        case Put(cell) => PutCell(cell);
        case EraseDisplay(_) => Erase(a);
        case EraseLine(_) => Erase(a);
        case InsertLines(n) => RepeatOp(a, Times(n, LINES));
        case DeleteLines(n) => RepeatOp(a, Times(n, LINES));
        case InsertChars(n) => RepeatOp(a, Times(n, COLUMNS));
        case DeleteChars(n) => RepeatOp(a, Times(n, COLUMNS));
        case _ => MoveCursor(a);
      }
    }

    /** `con_write` on the bytes waiting in the tty's write queue. */
    method Write(queue: seq<int>, erase: int)
      requires Valid()
      modifies this, mem
      ensures Valid() && Snap() == ConBytes(old(Snap()), queue, erase)
    {
      hide ConDo, Parse;
      var i := 0;
      assert queue[0..] == queue;
      while i < |queue|
        invariant 0 <= i <= |queue| && Valid()
        invariant ConBytes(old(Snap()), queue, erase) == ConBytes(Snap(), queue[i..], erase)
      {
        assert queue[i..][0] == queue[i] && queue[i..][1..] == queue[i + 1..];
        var (q, a) := Parse(p, u, queue[i], erase);
        p := q;
        Act(a);
        i := i + 1;
      }
      assert queue[i..] == [];
    }
  }

  lemma CopyNothing(m: seq<Cell>, dest: int, src: int)
    ensures MemCopy(m, dest, src, 0) == m
  {
  }

  lemma CopiedAt(m: seq<Cell>, dest: int, src: int, n: int, j: int)
    requires Fits(m, dest, src, n) && 0 <= j < |m|
    ensures var r := MemCopy(m, dest, src, n); |r| == |m| && r[j] == if dest <= j < dest + n then m[src + (j - dest)] else m[j]
  {
  }

  /** Two more cells above, for a target that lies below. */
  lemma CopyMore(m: seq<Cell>, dest: int, src: int, n: int)
    requires Fits(m, dest, src, n + 2) && 0 <= n && dest <= src
    ensures var r := MemCopy(m, dest, src, n);
      MemCopy(m, dest, src, n + 2) == r[dest + n := r[src + n]][dest + n + 1 := r[src + n + 1]]
  {
    hide MemCopy;
    var r, t := MemCopy(m, dest, src, n), MemCopy(m, dest, src, n + 2);
    CopiedAt(m, dest, src, n, src + n);
    CopiedAt(m, dest, src, n, src + n + 1);
    CopiedAt(m, dest, src, n + 2, src + n);
    var u := r[dest + n := r[src + n]][dest + n + 1 := r[src + n + 1]];
    forall k | 0 <= k < |m|
      ensures t[k] == u[k]
    {
      CopiedAt(m, dest, src, n, k);
      CopiedAt(m, dest, src, n + 2, k);
    }
  }

  /** Two more cells below, for a target that lies above. */
  lemma CopyMoreBelow(m: seq<Cell>, dest: int, src: int, n: int)
    requires Fits(m, dest - 2, src - 2, n + 2) && 0 <= n && src <= dest
    ensures var r := MemCopy(m, dest, src, n);
      MemCopy(m, dest - 2, src - 2, n + 2) == r[dest - 2 := r[src - 2]][dest - 1 := r[src - 1]]
  {
    hide MemCopy;
    var r, t := MemCopy(m, dest, src, n), MemCopy(m, dest - 2, src - 2, n + 2);
    CopiedAt(m, dest, src, n, src - 2);
    CopiedAt(m, dest, src, n, src - 1);
    CopiedAt(m, dest - 2, src - 2, n + 2, src - 2);
    var u := r[dest - 2 := r[src - 2]][dest - 1 := r[src - 1]];
    forall k | 0 <= k < |m|
      ensures t[k] == u[k]
    {
      CopiedAt(m, dest, src, n, k);
      CopiedAt(m, dest - 2, src - 2, n + 2, k);
    }
  }

  lemma StaysOk(c: Con, a: Action)
    requires ConOk(c)
    ensures ConOk(ConDo(c, a))
  {
    hide ConDo, TermDo;
    DoShows(c, Term(Window(c), c.u, c.p), a);
  }

  lemma InMemory(c: Con)
    requires c.pos == c.origin + At(c.u) && 0 <= c.origin && c.origin + SIZE <= |c.mem| && CursorOk(c.u) && c.u.x < COLUMNS
    ensures 0 <= c.pos < |c.mem|
  {
  }
}
