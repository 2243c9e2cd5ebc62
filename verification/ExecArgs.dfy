/** The argument block of fs/exec.c: strings copied from the top of the new stack area down, and
    the pointer tables built below them. */
module ExecArgs {

  const PAGE_SIZE: nat := 4096
  const MAX_ARG_PAGES: nat := 32
  const AREA: nat := 131072
  const DATA_LIMIT: nat := 0x4000000

  type Byte = b: int | 0 <= b < 256

  /** The 32 page slots: which are filled, their bytes one after another, and how many more
      pages `get_free_page` can give. */
  datatype Area = Area(page: seq<bool>, data: seq<Byte>, free: nat)

  /** A C string, without its final zero. */
  ghost predicate IsString(s: seq<Byte>) {
    forall i :: 0 <= i < |s| ==> s[i] != 0
  }

  ghost predicate AllStrings(ss: seq<seq<Byte>>) {
    forall k :: 0 <= k < |ss| ==> IsString(ss[k])
  }

  /** The strings one after another, each with its zero. */
  function Flat(ss: seq<seq<Byte>>): seq<Byte> {
    if ss == [] then [] else ss[0] + [0] + Flat(ss[1..])
  }

  lemma {:induction false} FlatAppend(a: seq<seq<Byte>>, b: seq<seq<Byte>>)
    ensures Flat(a + b) == Flat(a) + Flat(b)
  {
    if a == [] {
      assert a + b == b;
    } else {
      FlatAppend(a[1..], b);
      assert (a + b)[1..] == a[1..] + b;
    }
  }

  lemma FlatLast(ss: seq<seq<Byte>>)
    requires ss != []
    ensures Flat(ss) == Flat(ss[..|ss| - 1]) + (ss[|ss| - 1] + [0])
  {
    var last := ss[|ss| - 1];
    FlatAppend(ss[..|ss| - 1], [last]);
    assert ss == ss[..|ss| - 1] + [last];
    assert Flat([last]) == last + [0] + Flat([]) == last + [0];
  }

  // ---------- copy_strings ----------

  /** Fill empty slots from `i` up to the first filled one; the loop stops early when no page
      is to be had. */
  function Fill(a: Area, i: nat): (Area, bool)
    decreases MAX_ARG_PAGES - i
  {
    if i >= MAX_ARG_PAGES || i >= |a.page| || a.page[i] then (a, true)
    else if a.free == 0 then (a, false)
    else Fill(a.(page := a.page[i := true], free := a.free - 1), i + 1)
  }

  /** One string: where it starts, or 0. */
  function CopyString(a: Area, s: seq<Byte>, p: nat): (Area, nat) {
    var len := |s| + 1;
    if len > p then (a, 0)
    else
      var (b, ok) := Fill(a, (p - len) / PAGE_SIZE);
      if !ok || p > |b.data| then (b, 0)
      else (b.(data := b.data[..p - len] + s + [0] + b.data[p..]), p - len)
  }

  /** The strings from the last to the first. */
  function CopyStrings(a: Area, ss: seq<seq<Byte>>, p: nat): (Area, nat)
    decreases |ss|
  {
    if ss == [] then (a, p)
    else
      var (b, q) := CopyString(a, ss[|ss| - 1], p);
      if q == 0 then (b, 0) else CopyStrings(b, ss[..|ss| - 1], q)
  }

  /** The filled slots are those from `f` on. */
  ghost predicate Suffix(a: Area, f: nat) {
    |a.page| == MAX_ARG_PAGES && |a.data| == AREA && f <= MAX_ARG_PAGES
    && forall i :: 0 <= i < MAX_ARG_PAGES ==> (a.page[i] <==> i >= f)
  }

  function Min(a: nat, b: nat): nat {
    if a < b then a else b
  }

  lemma {:induction false} FillWorks(a: Area, i: nat, f: nat, g: nat)
    requires |a.page| == MAX_ARG_PAGES && |a.data| == AREA && g <= i <= MAX_ARG_PAGES && f <= MAX_ARG_PAGES
    requires forall k :: 0 <= k < MAX_ARG_PAGES ==> (a.page[k] <==> k >= f || g <= k < i)
    ensures var (b, ok) := Fill(a, i);
      && b.data == a.data
      && (ok <==> i >= f || a.free >= f - i)
      && (ok ==> Suffix(b, Min(f, g)) && b.free == a.free - if i >= f then 0 else f - i)
    decreases MAX_ARG_PAGES - i
  {
    if i < MAX_ARG_PAGES && !a.page[i] && a.free > 0 {
      FillWorks(a.(page := a.page[i := true], free := a.free - 1), i + 1, f, g);
    }
  }

  lemma CopyStringWorks(a: Area, s: seq<Byte>, p: nat, f: nat)
    requires Suffix(a, f) && p <= AREA
    ensures var (b, q) := CopyString(a, s, p);
      var len := |s| + 1;
      var lo := (p - len) / PAGE_SIZE;
      if len > p || (lo < f && a.free < f - lo) then q == 0
      else q == p - len && Suffix(b, Min(f, lo)) && b.free == (if lo < f then a.free - (f - lo) else a.free)
           && b.data == a.data[..q] + (s + [0]) + a.data[p..]
  {
    var len := |s| + 1;
    if len <= p {
      FillWorks(a, (p - len) / PAGE_SIZE, f, (p - len) / PAGE_SIZE);
      assert a.data[..p - len] + s + [0] + a.data[p..] == a.data[..p - len] + (s + [0]) + a.data[p..];
    }
  }

  /** Pages still to be had for the bytes from `q` up. */
  function Lacking(f: nat, q: int): int {
    if q / PAGE_SIZE < f then f - q / PAGE_SIZE else 0
  }

  /** Copying succeeds exactly when the strings leave at least one byte below them and there
      are pages enough; then they lie one after another below `p`, exactly the pages lacking were
      taken, and the filled slots still run up to the last. */
  lemma {:induction false} CopyStringsWorks(a: Area, ss: seq<seq<Byte>>, p: nat, f: nat)
    requires Suffix(a, f) && 0 < p <= AREA
    ensures var (b, q) := CopyStrings(a, ss, p);
      var n := |Flat(ss)|;
      && (q != 0 <==> n < p && (ss == [] || a.free >= Lacking(f, p - n)))
      && (q != 0 ==>
            (q == p - n && b.data == a.data[..q] + Flat(ss) + a.data[p..]
             && b.free == a.free - (if ss == [] then 0 else Lacking(f, q))
             && Suffix(b, if ss == [] then f else Min(f, q / PAGE_SIZE))))
    decreases |ss|
  {
    hide CopyString;
    if ss == [] {
      assert a.data == a.data[..p] + [] + a.data[p..];
    } else {
      var last, init := ss[|ss| - 1], ss[..|ss| - 1];
      FlatLast(ss);
      CopyStringWorks(a, last, p, f);
      var (b, q) := CopyString(a, last, p);
      if q != 0 {
        var g := Min(f, q / PAGE_SIZE);
        CopyStringsWorks(b, init, q, g);
        var (c, r) := CopyStrings(b, init, q);
        if r != 0 {
          CopyJoin(a, b, c, Flat(init), last, p, q);
        }
      }
    }
  }

  lemma CopyJoin(a: Area, b: Area, c: Area, flat: seq<Byte>, last: seq<Byte>, p: nat, q: nat)
    requires |a.data| == |b.data| == AREA && q == p - (|last| + 1) && p <= AREA && |flat| < q
    requires b.data == a.data[..q] + (last + [0]) + a.data[p..]
    requires c.data == b.data[..q - |flat|] + flat + b.data[q..]
    ensures c.data == a.data[..q - |flat|] + (flat + (last + [0])) + a.data[p..]
  {
    assert b.data[q..] == (last + [0]) + a.data[p..];
    assert b.data[..q - |flat|] == a.data[..q - |flat|];
  }

  // ---------- create_tables ----------

  /** The 32-bit word at an address. */
  function Long(m: seq<Byte>, at: int): int {
    if 0 <= at && at + 4 <= |m| then (m[at] as int) + 256 * (m[at + 1] as int) + 65536 * (m[at + 2] as int) + 16777216 * (m[at + 3] as int) else 0
  }

  function PutLong(m: seq<Byte>, at: int, v: int): (r: seq<Byte>)
    ensures |r| == |m|
  {
    if 0 <= at && at + 4 <= |m|
    then m[at := v % 256][at + 1 := v / 256 % 256][at + 2 := v / 65536 % 256][at + 3 := v / 16777216 % 256]
    else m
  }

  lemma FourBytes(v: int)
    requires 0 <= v < 0x1_0000_0000
    ensures v == v % 256 + 256 * (v / 256 % 256) + 65536 * (v / 65536 % 256) + 16777216 * (v / 16777216 % 256)
  {
    var a := v / 256;
    var b := v / 65536;
    assert v == 256 * a + v % 256;
    assert b == a / 256 && a == 256 * b + a % 256;
    var c := v / 16777216;
    assert c == b / 256 && b == 256 * c + b % 256;
    assert c % 256 == c;
  }

  lemma PutBytes(m: seq<Byte>, at: int, v: int)
    requires 0 <= at && at + 4 <= |m|
    ensures var r := PutLong(m, at, v);
      && r[at] == v % 256 && r[at + 1] == v / 256 % 256 && r[at + 2] == v / 65536 % 256 && r[at + 3] == v / 16777216 % 256
      && forall k :: 0 <= k < |m| && !(at <= k < at + 4) ==> r[k] == m[k]
  {
  }

  lemma LongPut(m: seq<Byte>, at: int, v: int, a: int)
    requires 0 <= at && at + 4 <= |m| && 0 <= v < 0x1_0000_0000
    ensures Long(PutLong(m, at, v), at) == v
    ensures a + 4 <= at || at + 4 <= a ==> Long(PutLong(m, at, v), a) == Long(m, a)
  {
    hide PutLong;
    FourBytes(v);
    PutBytes(m, at, v);
  }

  /** The address after the next zero byte. */
  function AfterZero(m: seq<Byte>, p: nat): nat
    decreases |m| - p
  {
    if p >= |m| then p else if m[p] == 0 then p + 1 else AfterZero(m, p + 1)
  }

  function FillTable(m: seq<Byte>, table: int, p: nat, n: nat): (seq<Byte>, nat)
    decreases n
  {
    if n == 0 then (m, p)
    else
      var m1 := PutLong(m, table, p);
      FillTable(m1, table + 4, AfterZero(m1, p), n - 1)
  }

  /** The tables end at the last word boundary at or below `p`. */
  function EnvTable(p: nat, envc: nat): int {
    p / 4 * 4 - 4 * (envc + 1)
  }

  function ArgTable(p: nat, argc: nat, envc: nat): int {
    EnvTable(p, envc) - 4 * (argc + 1)
  }

  function CreateTables(m: seq<Byte>, p: nat, argc: nat, envc: nat): (seq<Byte>, int) {
    var envp, argv := EnvTable(p, envc), ArgTable(p, argc, envc);
    var m1 := PutLong(PutLong(PutLong(m, argv - 4, envp), argv - 8, argv), argv - 12, argc);
    var (m2, q) := FillTable(m1, argv, p, argc);
    var m3 := PutLong(m2, argv + 4 * argc, 0);
    var (m4, _) := FillTable(m3, envp, q, envc);
    (PutLong(m4, envp + 4 * envc, 0), argv - 12)
  }

  ghost predicate StringsAt(m: seq<Byte>, p: nat, ss: seq<seq<Byte>>) {
    p + |Flat(ss)| <= |m| && m[p..p + |Flat(ss)|] == Flat(ss)
  }

  /** Where string `k` starts. */
  function Offset(ss: seq<seq<Byte>>, k: nat): nat
    requires k <= |ss|
  {
    |Flat(ss[..k])|
  }

  ghost predicate SameOutside(m: seq<Byte>, r: seq<Byte>, lo: int, hi: int) {
    |r| == |m| && forall i :: 0 <= i < |m| && !(lo <= i < hi) ==> r[i] == m[i]
  }

  lemma {:induction false} AfterZeroIs(m: seq<Byte>, p: nat, n: nat)
    requires p + n < |m| && m[p + n] == 0 && forall i :: p <= i < p + n ==> m[i] != 0
    ensures AfterZero(m, p) == p + n + 1
    decreases n
  {
    if n > 0 {
      AfterZeroIs(m, p + 1, n - 1);
    }
  }

  lemma FirstString(m: seq<Byte>, p: nat, ss: seq<seq<Byte>>)
    requires StringsAt(m, p, ss) && AllStrings(ss) && ss != []
    ensures AfterZero(m, p) == p + |ss[0]| + 1 && StringsAt(m, p + |ss[0]| + 1, ss[1..])
    ensures m[p..p + |ss[0]| + 1] == ss[0] + [0]
  {
    var f, n := Flat(ss), |ss[0]|;
    assert IsString(ss[0]);
    assert forall i :: 0 <= i < |f| ==> m[p..p + |f|][i] == f[i];
    assert f[n] == 0 && forall i :: 0 <= i < n ==> f[i] == ss[0][i];
    AfterZeroIs(m, p, n);
    assert f[n + 1..] == Flat(ss[1..]);
    assert m[p + n + 1..p + |f|] == m[p..p + |f|][n + 1..];
    assert m[p..p + n + 1] == m[p..p + |f|][..n + 1];
  }

  lemma StringsKept(m: seq<Byte>, r: seq<Byte>, lo: int, hi: int, p: nat, ss: seq<seq<Byte>>)
    requires StringsAt(m, p, ss) && SameOutside(m, r, lo, hi) && hi <= p
    ensures StringsAt(r, p, ss)
  {
    assert r[p..p + |Flat(ss)|] == m[p..p + |Flat(ss)|];
  }

  /** Every entry of the table points at its string. */
  ghost predicate TableOf(m: seq<Byte>, table: int, p: nat, ss: seq<seq<Byte>>) {
    forall k :: 0 <= k < |ss| ==> Long(m, table + 4 * k) == p + Offset(ss, k)
  }

  lemma {:induction false} FillTableWorks(m: seq<Byte>, table: int, p: nat, ss: seq<seq<Byte>>)
    requires StringsAt(m, p, ss) && AllStrings(ss) && 0 <= table && table + 4 * |ss| <= p && |m| <= 0x1_0000_0000
    ensures var (r, q) := FillTable(m, table, p, |ss|);
      q == p + |Flat(ss)| && SameOutside(m, r, table, table + 4 * |ss|) && TableOf(r, table, p, ss)
    decreases |ss|
  {
    hide Flat, Long, PutLong, AfterZero, StringsAt, AllStrings;
    if ss == [] {
      FlatNone();
    } else {
      var m1 := PutLong(m, table, p);
      PutFrame(m, table, p);
      StringsKept(m, m1, table, table + 4, p, ss);
      StringsInside(m, p, ss);
      FirstString(m1, p, ss);
      var q := AfterZero(m1, p);
      LaterStrings(ss);
      FillTableWorks(m1, table + 4, q, ss[1..]);
      var r := FillTable(m1, table + 4, q, |ss| - 1).0;
      LongPut(m, table, p, table);
      LongSame(m1, r, table + 4, table + 4 * |ss|, table);
      forall k | 0 <= k < |ss|
        ensures Long(r, table + 4 * k) == p + Offset(ss, k)
      {
        OffsetNext(ss, k);
        if k > 0 {
          assert Long(r, (table + 4) + 4 * (k - 1)) == q + Offset(ss[1..], k - 1);
        }
      }
    }
  }

  lemma FlatNone()
    ensures |Flat([])| == 0
  {
  }

  lemma StringsInside(m: seq<Byte>, p: nat, ss: seq<seq<Byte>>)
    requires StringsAt(m, p, ss) && ss != []
    ensures p < |m|
  {
  }

  lemma LaterStrings(ss: seq<seq<Byte>>)
    requires AllStrings(ss) && ss != []
    ensures AllStrings(ss[1..]) && |Flat(ss)| == |ss[0]| + 1 + |Flat(ss[1..])|
  {
  }

  lemma OffsetNext(ss: seq<seq<Byte>>, k: nat)
    requires k < |ss|
    ensures Offset(ss, k) == if k == 0 then 0 else |ss[0]| + 1 + Offset(ss[1..], k - 1)
  {
    if k > 0 {
      assert ss[..k][1..] == ss[1..][..k - 1];
    }
  }

  lemma PutFrame(m: seq<Byte>, at: int, v: int)
    ensures SameOutside(m, PutLong(m, at, v), at, at + 4)
  {
  }

  lemma LongSame(m: seq<Byte>, r: seq<Byte>, lo: int, hi: int, a: int)
    requires SameOutside(m, r, lo, hi) && (a + 4 <= lo || hi <= a)
    ensures Long(r, a) == Long(m, a)
  {
  }

  /** Room for the tables below the strings. */
  ghost predicate Fits(m: seq<Byte>, p: nat, args: seq<seq<Byte>>, envs: seq<seq<Byte>>) {
    ArgTable(p, |args|, |envs|) >= 12 && |m| <= 0x1_0000_0000 && StringsAt(m, p, args + envs)
  }

  /** `create_tables` leaves, from the stack pointer up: the count, the two table addresses, and
      the two tables, each ended by a null, whose entries are the addresses of the strings; and
      it changes nothing else, the strings in particular. */
  lemma CreateTablesWorks(m: seq<Byte>, p: nat, args: seq<seq<Byte>>, envs: seq<seq<Byte>>)
    requires Fits(m, p, args, envs) && AllStrings(args) && AllStrings(envs)
    ensures var (r, sp) := CreateTables(m, p, |args|, |envs|);
      var argv, envp := ArgTable(p, |args|, |envs|), EnvTable(p, |envs|);
      && SameOutside(m, r, sp, p) && sp == argv - 12
      && Long(r, sp) == |args| && Long(r, sp + 4) == argv && Long(r, sp + 8) == envp
      && TableOf(r, argv, p, args) && Long(r, argv + 4 * |args|) == 0
      && TableOf(r, envp, p + |Flat(args)|, envs) && Long(r, envp + 4 * |envs|) == 0
  {
    hide Flat, Long, PutLong, StringsAt, AllStrings, FillTable, TableOf, SameOutside;
    var argv, envp := ArgTable(p, |args|, |envs|), EnvTable(p, |envs|);
    StringsParts(m, p, args, envs);
    var a := PutLong(m, argv - 4, envp);
    var b := PutLong(a, argv - 8, argv);
    var c := PutLong(b, argv - 12, |args|);
    InRoom(m, p, args + envs);
    HeaderPut(m, argv, envp, |args|);
    StringsKept(m, c, argv - 12, argv, p, args);
    StringsKept(m, c, argv - 12, argv, p + |Flat(args)|, envs);
    OneTable(c, argv, p, args);
    var (d0, q) := FillTable(c, argv, p, |args|);
    var d := PutLong(d0, argv + 4 * |args|, 0);
    StringsKept(c, d, argv, envp, q, envs);
    OneTable(d, envp, q, envs);
    var r := PutLong(FillTable(d, envp, q, |envs|).0, envp + 4 * |envs|, 0);
    TableKept(d, r, envp, envp + 4 * (|envs| + 1), argv, p, args);
    LongSame(d, r, envp, envp + 4 * (|envs| + 1), argv + 4 * |args|);
    HeaderKept(c, d, r, argv, envp, envp + 4 * (|envs| + 1));
    OutsideAll(m, c, d, r, argv, envp, envp + 4 * (|envs| + 1), p);
  }

  lemma InRoom(m: seq<Byte>, p: nat, ss: seq<seq<Byte>>)
    requires StringsAt(m, p, ss)
    ensures p <= |m|
  {
  }

  /** One table and the null after it. */
  lemma OneTable(m: seq<Byte>, table: int, p: nat, ss: seq<seq<Byte>>)
    requires StringsAt(m, p, ss) && AllStrings(ss) && 0 <= table && table + 4 * (|ss| + 1) <= p && |m| <= 0x1_0000_0000
    ensures var (d, q) := FillTable(m, table, p, |ss|);
      var r := PutLong(d, table + 4 * |ss|, 0);
      && q == p + |Flat(ss)| && |r| == |m| && SameOutside(m, r, table, table + 4 * (|ss| + 1))
      && TableOf(r, table, p, ss) && Long(r, table + 4 * |ss|) == 0
  {
    hide Flat, Long, PutLong, AllStrings, FillTable, TableOf;
    InRoom(m, p, ss);
    FillTableWorks(m, table, p, ss);
    var (d, q) := FillTable(m, table, p, |ss|);
    var r := PutLong(d, table + 4 * |ss|, 0);
    PutFrame(d, table + 4 * |ss|, 0);
    LongPut(d, table + 4 * |ss|, 0, 0);
    TableKept(d, r, table + 4 * |ss|, table + 4 * |ss| + 4, table, p, ss);
  }

  lemma SplitSlice(m: seq<Byte>, p: nat, a: seq<Byte>, b: seq<Byte>)
    requires p + |a| + |b| <= |m| && m[p..p + |a| + |b|] == a + b
    ensures m[p..p + |a|] == a && m[p + |a|..p + |a| + |b|] == b
  {
    var w := m[p..p + |a| + |b|];
    assert w[..|a|] == a && w[|a|..] == b;
    assert m[p..p + |a|] == w[..|a|] && m[p + |a|..p + |a| + |b|] == w[|a|..];
  }

  lemma StringsParts(m: seq<Byte>, p: nat, args: seq<seq<Byte>>, envs: seq<seq<Byte>>)
    requires StringsAt(m, p, args + envs)
    ensures StringsAt(m, p, args) && StringsAt(m, p + |Flat(args)|, envs)
  {
    FlatAppend(args, envs);
    hide Flat;
    SplitSlice(m, p, Flat(args), Flat(envs));
  }

  /** The three words below the argument table. */
  lemma HeaderPut(m: seq<Byte>, argv: int, envp: int, argc: nat)
    requires 12 <= argv <= envp < |m| <= 0x1_0000_0000 && argc < 0x1_0000_0000
    ensures var c := PutLong(PutLong(PutLong(m, argv - 4, envp), argv - 8, argv), argv - 12, argc);
      && SameOutside(m, c, argv - 12, argv)
      && Long(c, argv - 12) == argc && Long(c, argv - 8) == argv && Long(c, argv - 4) == envp
  {
    hide Long, PutLong;
    var a := PutLong(m, argv - 4, envp);
    var b := PutLong(a, argv - 8, argv);
    PutFrame(m, argv - 4, envp);
    PutFrame(a, argv - 8, argv);
    PutFrame(b, argv - 12, argc);
    LongPut(m, argv - 4, envp, 0);
    LongPut(a, argv - 8, argv, argv - 4);
    LongPut(b, argv - 12, argc, argv - 4);
    LongPut(b, argv - 12, argc, argv - 8);
  }

  lemma HeaderKept(c: seq<Byte>, d: seq<Byte>, r: seq<Byte>, argv: int, envp: int, end: int)
    requires SameOutside(c, d, argv, envp) && SameOutside(d, r, envp, end) && argv <= envp
    ensures forall a :: a + 4 <= argv ==> Long(r, a) == Long(c, a)
  {
    forall a | a + 4 <= argv
      ensures Long(r, a) == Long(c, a)
    {
      LongSame(c, d, argv, envp, a);
      LongSame(d, r, envp, end, a);
    }
  }

  lemma OutsideAll(m: seq<Byte>, c: seq<Byte>, d: seq<Byte>, r: seq<Byte>, argv: int, envp: int, end: int, p: int)
    requires SameOutside(m, c, argv - 12, argv) && SameOutside(c, d, argv, envp) && SameOutside(d, r, envp, end)
    requires argv <= envp <= end <= p
    ensures SameOutside(m, r, argv - 12, p)
  {
  }

  lemma TableKept(m: seq<Byte>, r: seq<Byte>, lo: int, hi: int, table: int, p: nat, ss: seq<seq<Byte>>)
    requires TableOf(m, table, p, ss) && SameOutside(m, r, lo, hi) && table + 4 * |ss| <= lo
    ensures TableOf(r, table, p, ss)
  {
    forall k | 0 <= k < |ss|
      ensures Long(r, table + 4 * k) == p + Offset(ss, k)
    {
      LongSame(m, r, lo, hi, table + 4 * k);
    }
  }

  // ---------- the whole block ----------

  /** No page taken yet. */
  function EmptyArea(free: nat): Area {
    Area(seq(MAX_ARG_PAGES, i => false), seq<Byte>(AREA, i => 0), free)
  }

  /** The two calls of `copy_strings` in `do_execve`; the block starts at the second result. */
  function CopyAll(free: nat, args: seq<seq<Byte>>, envs: seq<seq<Byte>>): (Area, nat) {
    var (a, p) := CopyStrings(EmptyArea(free), envs, AREA - 4);
    CopyStrings(a, args, p)
  }

  lemma EmptySuffix(free: nat)
    ensures Suffix(EmptyArea(free), MAX_ARG_PAGES) && EmptyArea(free).free == free
  {
  }

  lemma NothingBelowZero(a: Area, ss: seq<seq<Byte>>)
    ensures CopyStrings(a, ss, 0).1 == 0
  {
  }

  /** Strings and pages suffice: the strings leave a byte of the area free, and there is a page
      for every slot from the lowest one touched. */
  ghost predicate Room(free: nat, ss: seq<seq<Byte>>) {
    |Flat(ss)| < AREA - 4 && (ss == [] || free >= MAX_ARG_PAGES - (AREA - 4 - |Flat(ss)|) / PAGE_SIZE)
  }

  /** The pages of two calls add up to those of one. */
  lemma LackingAdds(p: nat, q: nat)
    requires q <= p < AREA
    ensures Lacking(MAX_ARG_PAGES, p) == MAX_ARG_PAGES - p / PAGE_SIZE && Min(MAX_ARG_PAGES, p / PAGE_SIZE) == p / PAGE_SIZE
    ensures Lacking(MAX_ARG_PAGES, q) == MAX_ARG_PAGES - q / PAGE_SIZE
    ensures Lacking(MAX_ARG_PAGES, p) + Lacking(p / PAGE_SIZE, q) == MAX_ARG_PAGES - q / PAGE_SIZE
  {
    assert q / PAGE_SIZE <= p / PAGE_SIZE < MAX_ARG_PAGES;
  }

  /** Copying the environment and then the arguments succeeds exactly when there is room; the
      block then holds the argument strings and after them the environment strings, up to four
      bytes below the top, with all of its pages filled. */
  lemma CopyAllWorks(free: nat, args: seq<seq<Byte>>, envs: seq<seq<Byte>>)
    ensures CopyAll(free, args, envs).1 != 0 <==> Room(free, args + envs)
    ensures var (b, q) := CopyAll(free, args, envs);
      q != 0 ==>
        (|b.data| == AREA && q + |Flat(args + envs)| == AREA - 4 && b.data[q..AREA - 4] == Flat(args + envs)
         && forall i :: q <= i < AREA - 4 ==> |b.page| == MAX_ARG_PAGES && b.page[i / PAGE_SIZE])
  {
    hide Flat, CopyStrings, Lacking, EmptyArea;
    var e := EmptyArea(free);
    var (a, p) := CopyStrings(e, envs, AREA - 4);
    EmptySuffix(free);
    CopyStringsWorks(e, envs, AREA - 4, MAX_ARG_PAGES);
    FlatAppend(args, envs);
    FlatNone();
    if p == 0 {
      NothingBelowZero(a, args);
      RoomFor(free, args, envs);
    } else {
      var f := if envs == [] then MAX_ARG_PAGES else Min(MAX_ARG_PAGES, p / PAGE_SIZE);
      CopyStringsWorks(a, args, p, f);
      RoomFor(free, args, envs);
      var (b, q) := CopyStrings(a, args, p);
      if q != 0 {
        TwoParts(e.data, a.data, b.data, Flat(envs), Flat(args), p, q);
        FilledFrom(b, if args == [] then f else Min(f, q / PAGE_SIZE), q, args + envs);
      }
    }
  }

  /** There is room for all exactly if there is for the environment and then for the arguments. */
  lemma RoomFor(free: nat, args: seq<seq<Byte>>, envs: seq<seq<Byte>>)
    ensures var p := AREA - 4 - |Flat(envs)|; var q := p - |Flat(args)|;
      var first := if envs == [] then 0 else Lacking(MAX_ARG_PAGES, p);
      var f := if envs == [] || p < 0 then MAX_ARG_PAGES else Min(MAX_ARG_PAGES, p / PAGE_SIZE);
      Room(free, args + envs) <==>
        p > 0 && free >= first && q > 0 && (args == [] || free - first >= Lacking(f, q))
  {
    hide Flat, Lacking, Min;
    FlatAppend(args, envs);
    FlatNone();
    var p := AREA - 4 - |Flat(envs)|;
    var q := p - |Flat(args)|;
    if q > 0 {
      LackingAdds(p, q);
    }
  }

  lemma FilledFrom(b: Area, f: nat, q: nat, ss: seq<seq<Byte>>)
    requires Suffix(b, f) && q + |Flat(ss)| == AREA - 4
    requires ss == [] || f <= q / PAGE_SIZE
    ensures forall i :: q <= i < AREA - 4 ==> b.page[i / PAGE_SIZE]
  {
    forall i | q <= i < AREA - 4
      ensures b.page[i / PAGE_SIZE]
    {
      if ss == [] {
        FlatNone();
      }
      assert q / PAGE_SIZE <= i / PAGE_SIZE < MAX_ARG_PAGES;
    }
  }

  lemma TwoParts(e: seq<Byte>, a: seq<Byte>, b: seq<Byte>, fe: seq<Byte>, fa: seq<Byte>, p: nat, q: nat)
    requires |e| == |a| == |b| == AREA && p + |fe| == AREA - 4 && q + |fa| == p
    requires a == e[..p] + fe + e[AREA - 4..] && b == a[..q] + fa + a[p..]
    ensures b[q..AREA - 4] == fa + fe
  {
    assert b[q..p] == fa && b[p..AREA - 4] == a[p..AREA - 4] == fe;
  }

  lemma {:induction false} OnePerByte(ss: seq<seq<Byte>>)
    ensures |ss| <= |Flat(ss)|
  {
    if ss != [] {
      OnePerByte(ss[1..]);
    }
  }

  lemma {:induction false} StringThere(m: seq<Byte>, p: nat, ss: seq<seq<Byte>>, k: nat)
    requires StringsAt(m, p, ss) && AllStrings(ss) && k < |ss|
    ensures var at := p + Offset(ss, k);
      at + |ss[k]| + 1 <= |m| && m[at..at + |ss[k]| + 1] == ss[k] + [0]
    decreases k
  {
    FirstString(m, p, ss);
    OffsetNext(ss, k);
    if k > 0 {
      LaterStrings(ss);
      StringThere(m, p + |ss[0]| + 1, ss[1..], k - 1);
    }
  }

  /** The `k`-th entry of a table of `r` points at an exact copy of the `k`-th string. */
  ghost predicate PointsAt(r: seq<Byte>, table: int, ss: seq<seq<Byte>>) {
    forall k :: 0 <= k < |ss| ==> IsAt(r, Long(r, table + 4 * k), ss[k])
  }

  ghost predicate IsAt(r: seq<Byte>, at: int, s: seq<Byte>) {
    0 <= at && at + |s| + 1 <= |r| && r[at..at + |s| + 1] == s + [0]
  }

  lemma TablePoints(r: seq<Byte>, table: int, p: nat, ss: seq<seq<Byte>>)
    requires TableOf(r, table, p, ss) && StringsAt(r, p, ss) && AllStrings(ss)
    ensures PointsAt(r, table, ss)
  {
    hide Flat, Long;
    forall k | 0 <= k < |ss|
      ensures IsAt(r, Long(r, table + 4 * k), ss[k])
    {
      StringThere(r, p, ss, k);
    }
  }

  /** From the strings given to `execve` to the stack of the new program: when the strings fit and
      there are pages for them, the count, two null-terminated tables, and exact copies of every string in
      order, the tables at word addresses right below the strings. */
  lemma ArgumentsArrive(free: nat, args: seq<seq<Byte>>, envs: seq<seq<Byte>>, m: seq<Byte>)
    requires AllStrings(args) && AllStrings(envs) && Room(free, args + envs)
    requires |m| == DATA_LIMIT && m[DATA_LIMIT - AREA..] == CopyAll(free, args, envs).0.data
    ensures CopyAll(free, args, envs).1 == AREA - 4 - |Flat(args + envs)|
    ensures var p := CopyAll(free, args, envs).1 + DATA_LIMIT - AREA;
      var (r, sp) := CreateTables(m, p, |args|, |envs|);
      var argv, envp := Long(r, sp + 4), Long(r, sp + 8);
      && 0 <= sp && Long(r, sp) == |args| && argv == sp + 12 && envp == argv + 4 * (|args| + 1)
      && PointsAt(r, argv, args) && Long(r, argv + 4 * |args|) == 0
      && PointsAt(r, envp, envs) && Long(r, envp + 4 * |envs|) == 0
      && sp % 4 == 0 && 0 <= p - (envp + 4 * (|envs| + 1)) < 4 && SameOutside(m, r, sp, p)
  {
    hide Flat, Long, CopyAll, TableOf, PointsAt, AllStrings, CreateTables;
    var q := CopyAll(free, args, envs).1;
    var p := q + DATA_LIMIT - AREA;
    CopyAllWorks(free, args, envs);
    TopStrings(m, CopyAll(free, args, envs).0.data, q, p, args + envs);
    OnePerByte(args + envs);
    CreateTablesWorks(m, p, args, envs);
    var (r, sp) := CreateTables(m, p, |args|, |envs|);
    StringsKept(m, r, sp, p, p, args + envs);
    StringsParts(r, p, args, envs);
    TablePoints(r, sp + 12, p, args);
    TablePoints(r, EnvTable(p, |envs|), p + |Flat(args)|, envs);
  }

  lemma TopStrings(m: seq<Byte>, data: seq<Byte>, q: nat, p: nat, ss: seq<seq<Byte>>)
    requires |m| == DATA_LIMIT && |data| == AREA && m[DATA_LIMIT - AREA..] == data && p == q + DATA_LIMIT - AREA
    requires q + |Flat(ss)| == AREA - 4 && data[q..AREA - 4] == Flat(ss)
    ensures StringsAt(m, p, ss)
  {
    hide Flat;
    forall k | 0 <= k < |Flat(ss)|
      ensures m[p..p + |Flat(ss)|][k] == Flat(ss)[k]
    {
      assert m[DATA_LIMIT - AREA..][q + k] == m[p + k];
      assert data[q..AREA - 4][k] == data[q + k];
    }
  }

  // ---------- the code ----------

  /** The `page` array of `do_execve`, and the bytes of its pages. */
  class StringPages {
    const page: array<bool>
    const data: array<Byte>
    var free: nat

    ghost function Snap(): Area
      reads this, page, data
    {
      Area(page[..], data[..], free)
    }

    constructor (available: nat)
      ensures Snap() == EmptyArea(available) && fresh(page) && fresh(data)
    {
      page := new bool[MAX_ARG_PAGES](i => false);
      data := new Byte[AREA](i => 0);
      free := available;
      new;
      assert page[..] == seq(MAX_ARG_PAGES, i => false) && data[..] == seq<Byte>(AREA, i => 0);
    }

    /** The loop of `copy_strings` that takes pages. */
    method FillPages(from: nat) returns (ok: bool)
      requires page.Length == MAX_ARG_PAGES
      modifies this`free, page
      ensures (Snap(), ok) == Fill(old(Snap()), from)
    {
      var i := from;
      while i < MAX_ARG_PAGES && !page[i]
        invariant from <= i && Fill(old(Snap()), from) == Fill(Snap(), i)
        decreases MAX_ARG_PAGES - i
      {
        if free == 0 {
          return false;
        }
        page[i] := true;
        free := free - 1;
        i := i + 1;
      }
      return true;
    }

    /** One turn of `copy_strings`, its string ended by a zero; the panic on a nonexistent page
        cannot come. */
    method CopyOne(s: seq<Byte>, p: nat, ghost f: nat) returns (q: nat)
      requires Suffix(Snap(), f) && p <= AREA && IsString(s)
      modifies this`free, page, data
      ensures (Snap(), q) == CopyString(old(Snap()), s, p)
    {
      hide Fill;
      var user := s + [0];
      var len := 0;
      while user[len] != 0
        invariant 0 <= len <= |s|
        decreases |s| - len
      {
        len := len + 1;
      }
      len := len + 1;
      if len > p {
        return 0;
      }
      ghost var lo := (p - len) / PAGE_SIZE;
      FillWorks(Snap(), lo, f, lo);
      var ok := FillPages((p - len) / PAGE_SIZE);
      if !ok {
        return 0;
      }
      q := CopyBack(user, p, len);
      assert data[..] == old(data[..p - len]) + s + [0] + old(data[p..]);
    }

    /** The `len` bytes of `user`, last to first, below `p`. */
    method CopyBack(user: seq<Byte>, p: nat, len: nat) returns (q: nat)
      requires len == |user| <= p <= AREA && page.Length == MAX_ARG_PAGES && data.Length == AREA
      requires forall i :: (p - len) / PAGE_SIZE <= i < MAX_ARG_PAGES ==> page[i]
      modifies data
      ensures q == p - len && data[..] == old(data[..])[..q] + user + old(data[..])[p..]
    {
      q := p;
      var left := len;
      while left > 0
        invariant 0 <= left <= len && q == p - (len - left)
        invariant forall k :: 0 <= k < AREA ==>
          data[k] == if q <= k < p then user[k - (p - len)] else old(data[k])
      {
        q := q - 1;
        if !page[q / PAGE_SIZE] {
          assert false; // "nonexistent page in exec.c"
        }
        left := left - 1;
        data[q] := user[left];
      }
    }

    /** `copy_strings`; 0 where it fails. */
    method CopyUp(ss: seq<seq<Byte>>, p: nat, ghost f: nat) returns (q: nat)
      requires Suffix(Snap(), f) && p <= AREA && AllStrings(ss)
      modifies this`free, page, data
      ensures (Snap(), q) == CopyStrings(old(Snap()), ss, p)
    {
      hide CopyString;
      q := p;
      var argc := |ss|;
      ghost var g := f;
      assert ss[..argc] == ss;
      while argc > 0
        invariant 0 <= argc <= |ss| && q <= AREA && Suffix(Snap(), g)
        invariant CopyStrings(old(Snap()), ss, p) == CopyStrings(Snap(), ss[..argc], q)
        decreases argc
      {
        argc := argc - 1;
        CopyStringWorks(Snap(), ss[argc], q, g);
        assert ss[..argc + 1][..argc] == ss[..argc] && ss[..argc + 1][argc] == ss[argc];
        ghost var was := g;
        q := CopyOne(ss[argc], q, was);
        if q == 0 {
          return;
        }
        g := Min(was, q / PAGE_SIZE);
      }
    }
  }

  method PutWord(mem: array<Byte>, at: nat, v: nat)
    requires at + 4 <= mem.Length
    modifies mem
    ensures mem[..] == PutLong(old(mem[..]), at, v)
  {
    mem[at] := v % 256;
    mem[at + 1] := v / 256 % 256;
    mem[at + 2] := v / 65536 % 256;
    mem[at + 3] := v / 16777216 % 256;
  }

  /** `while (get_fs_byte(p++))`. */
  method SkipString(mem: array<Byte>, p: nat) returns (q: nat)
    requires p <= mem.Length
    ensures q == AfterZero(mem[..], p) && q <= mem.Length
  {
    q := p;
    while q < mem.Length
      invariant p <= q <= mem.Length && AfterZero(mem[..], p) == AfterZero(mem[..], q)
    {
      q := q + 1;
      if mem[q - 1] == 0 {
        return;
      }
    }
  }

  /** One of the two loops of `create_tables`, over the strings `ss` that lie at `p`. */
  method FillPointers(mem: array<Byte>, table: nat, p: nat, n: nat, ghost ss: seq<seq<Byte>>) returns (q: nat)
    requires n == |ss| && StringsAt(mem[..], p, ss) && AllStrings(ss) && table + 4 * n <= p && mem.Length <= 0x1_0000_0000
    modifies mem
    ensures (mem[..], q) == FillTable(old(mem[..]), table, p, n)
  {
    hide Flat, PutLong, AllStrings, StringsAt, AfterZero;
    var left, at := n, table;
    q := p;
    ghost var rest := ss;
    StringsBound(mem[..], p, ss);
    while left > 0
      invariant 0 <= left <= n && at == table + 4 * (n - left) && left == |rest| && at + 4 * left <= p <= q <= mem.Length
      invariant StringsAt(mem[..], q, rest) && AllStrings(rest)
      invariant FillTable(old(mem[..]), table, p, n) == FillTable(mem[..], at, q, left)
    {
      left := left - 1;
      ghost var m := mem[..];
      PutFrame(m, at, q);
      PutWord(mem, at, q);
      StringsKept(m, mem[..], at, at + 4, q, rest);
      at := at + 4;
      FirstString(mem[..], q, rest);
      LaterStrings(rest);
      q := SkipString(mem, q);
      rest := rest[1..];
    }
  }

  lemma StringsBound(m: seq<Byte>, p: nat, ss: seq<seq<Byte>>)
    requires StringsAt(m, p, ss)
    ensures p <= |m|
  {
  }

  /** `create_tables`: the new stack pointer. */
  method MakeTables(mem: array<Byte>, p: nat, argc: nat, envc: nat, ghost args: seq<seq<Byte>>, ghost envs: seq<seq<Byte>>)
    returns (sp: nat)
    requires argc == |args| && envc == |envs| && AllStrings(args) && AllStrings(envs) && Fits(mem[..], p, args, envs)
    modifies mem
    ensures (mem[..], sp as int) == CreateTables(old(mem[..]), p, argc, envc)
  {
    hide Flat, Long, PutLong, AllStrings, FillTable, StringsAt, SameOutside, TableOf;
    ghost var m := mem[..];
    InRoom(m, p, args + envs);
    StringsParts(m, p, args, envs);
    var top := p / 4 * 4;
    var envp := top - 4 * (envc + 1);
    var argv := envp - 4 * (argc + 1);
    HeaderPut(m, argv, envp, argc);
    PutWord(mem, argv - 4, envp);
    PutWord(mem, argv - 8, argv);
    PutWord(mem, argv - 12, argc);
    sp := argv - 12;
    StringsKept(m, mem[..], argv - 12, argv, p, args);
    StringsKept(m, mem[..], argv - 12, argv, p + |Flat(args)|, envs);
    ghost var c := mem[..];
    OneTable(c, argv, p, args);
    var q := FillPointers(mem, argv, p, argc, args);
    PutWord(mem, argv + 4 * argc, 0);
    StringsKept(c, mem[..], argv, envp, q, envs);
    q := FillPointers(mem, envp, q, envc, envs);
    PutWord(mem, envp + 4 * envc, 0);
  }
}
