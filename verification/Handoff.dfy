/** The builder of bbp/bbp_build.c against the parser of bbp/bbp_kernel.c. */
module Handoff {
  import opened Options
  import opened HandoffBuild
  import opened HandoffParse

  /** The memory that is handed over: the info structure and the arena right above it. */
  function Handed(info: seq<Byte>, c: Builder, hint: nat, ptrMax: nat): Window
    requires |info| == INFO && c.phys >= INFO
  {
    Window(c.phys - INFO, info + c.mem, hint, ptrMax)
  }

  lemma ReadIsSlice(info: seq<Byte>, c: Builder, hint: nat, ptrMax: nat, off: nat, n: nat)
    requires |info| == INFO && c.phys >= INFO && off + n <= |c.mem|
    ensures var w := Handed(info, c, hint, ptrMax);
      w.lo <= c.phys + off && c.phys + off + n <= w.lo + |w.bytes| && Read(w, c.phys + off, n) == Slice(c.mem, off, n)
  {
    var w := Handed(info, c, hint, ptrMax);
    assert (info + c.mem)[INFO + off..INFO + off + n] == c.mem[off..off + n];
  }

  /** Everything the parser needs of one finished tag. */
  ghost predicate Ready(crc: Checksum, info: seq<Byte>, c: Builder, ts: seq<Tag>) {
    |info| == INFO && c.phys >= INFO && Chain(c, ts) && forall k :: 0 <= k < |ts| ==> TagSealed(crc, c.mem, ts[k])
  }

  function PhysOf(c: Builder, ts: seq<Tag>, k: nat): nat {
    if k < |ts| then c.phys + ts[k].off else 0
  }

  /** The parser can take tag `t`: its version, its size, and the reach of its addresses. */
  predicate Takes(w: Window, phys: nat, t: Tag) {
    t.version == 1 && t.size <= MAX_TAG && RegionOk(w, phys + t.off, t.size)
  }

  /** Reading a finished tag: it is found exactly when it can be taken, and then its fields are
      what the builder wrote and its checksum is right. */
  lemma TagRead(crc: Checksum, info: seq<Byte>, c: Builder, ts: seq<Tag>, k: nat, hint: nat, ptrMax: nat)
    requires Ready(crc, info, c, ts) && k < |ts|
    ensures var w := Handed(info, c, hint, ptrMax);
      var cur, t := c.phys + ts[k].off, ts[k];
      && TagAt(w, cur) == (if t.size <= MAX_TAG && RegionOk(w, cur, t.size) then Some(t.size) else None)
      && w.lo <= cur && cur + t.size <= w.lo + |w.bytes| && HEADER <= t.size
      && Value(Read(w, cur, 8)) == t.id && Value(Read(w, cur + 12, 2)) == t.version
      && Value(Read(w, cur + 16, 8)) == PhysOf(c, ts, k + 1) && CrcOk(crc, w, cur, t.size)
      && Read(w, cur + HEADER, t.size - HEADER) == Body(c.mem, t)
  {
    hide TagIn, Chain, Value, Slice, TagSealed, Read, RegionOk, CrcSkip, Handed;
    var w := Handed(info, c, hint, ptrMax);
    var t := ts[k];
    TagThere(c, ts, k);
    TagFields(c, ts, k);
    ChainFields(c, ts);
    TagBytes(info, c, t, hint, ptrMax);
    SealRead(crc, c.mem, t);
    HeaderInReach(w, c.phys + t.off, t.size);
  }

  /** Every part of a tag that the parser reads, as the arena holds it. */
  lemma TagBytes(info: seq<Byte>, c: Builder, t: Tag, hint: nat, ptrMax: nat)
    requires |info| == INFO && c.phys >= INFO && t.off + t.size <= |c.mem| && HEADER <= t.size
    ensures var w := Handed(info, c, hint, ptrMax);
      var cur := c.phys + t.off;
      && w.lo <= cur && cur + t.size <= w.lo + |w.bytes|
      && Read(w, cur, t.size) == Slice(c.mem, t.off, t.size)
      && Read(w, cur, 8) == Slice(c.mem, t.off, 8) && Read(w, cur + 8, 4) == Slice(c.mem, t.off + 8, 4)
      && Read(w, cur + 12, 2) == Slice(c.mem, t.off + 12, 2) && Read(w, cur + 16, 8) == Slice(c.mem, t.off + 16, 8)
      && Read(w, cur + SEAL_AT, 8) == Slice(c.mem, t.off + SEAL_AT, 8)
      && Read(w, cur + HEADER, t.size - HEADER) == Slice(c.mem, t.off + HEADER, t.size - HEADER)
  {
    hide Slice, Read, Handed;
    ReadIsSlice(info, c, hint, ptrMax, t.off, t.size);
    ReadIsSlice(info, c, hint, ptrMax, t.off, 8);
    ReadIsSlice(info, c, hint, ptrMax, t.off + 8, 4);
    ReadIsSlice(info, c, hint, ptrMax, t.off + 12, 2);
    ReadIsSlice(info, c, hint, ptrMax, t.off + 16, 8);
    ReadIsSlice(info, c, hint, ptrMax, t.off + SEAL_AT, 8);
    ReadIsSlice(info, c, hint, ptrMax, t.off + HEADER, t.size - HEADER);
  }

  lemma HeaderInReach(w: Window, cur: nat, size: nat)
    requires HEADER <= size
    ensures RegionOk(w, cur, size) ==> RegionOk(w, cur, HEADER)
  {
  }

  lemma SealRead(crc: Checksum, m: seq<Byte>, t: Tag)
    requires TagSealed(crc, m, t) && t.off + t.size <= |m| && HEADER <= t.size
    ensures CrcSkip(crc, Slice(m, t.off, t.size), SEAL_AT) == Value(Slice(m, t.off + SEAL_AT, 8))
  {
    hide CrcSkip, Value;
    assert Slice(m, t.off, t.size)[SEAL_AT..SEAL_AT + 8] == Slice(m, t.off + SEAL_AT, 8);
  }

  // ---------- validation ----------

  ghost predicate AllTaken(w: Window, phys: nat, ts: seq<Tag>, from: nat) {
    forall k :: from <= k < |ts| ==> Takes(w, phys, ts[k])
  }

  /** From tag `k` on there is no second HHDM tag. */
  predicate AtMostOne(ts: seq<Tag>, k: nat, seen: bool)
    decreases |ts| - k
  {
    k >= |ts| || (if ts[k].id == HHDM then !seen && AtMostOne(ts, k + 1, true) else AtMostOne(ts, k + 1, seen))
  }

  /** The first tag of a kind, from tag `k` on. */
  function FirstOf(ts: seq<Tag>, id: nat, k: nat): (r: Option<nat>)
    ensures r.Some? ==> k <= r.value < |ts| && ts[r.value].id == id && forall j :: k <= j < r.value ==> ts[j].id != id
    ensures r.None? ==> forall j :: k <= j < |ts| ==> ts[j].id != id
    decreases |ts| - k
  {
    if k >= |ts| then None else if ts[k].id == id then Some(k) else FirstOf(ts, id, k + 1)
  }

  lemma {:induction false} AtMostOneMeans(ts: seq<Tag>, k: nat, seen: bool)
    ensures AtMostOne(ts, k, seen) <==>
      ((forall i, j :: k <= i < j < |ts| ==> ts[i].id != HHDM || ts[j].id != HHDM)
       && (seen ==> forall i :: k <= i < |ts| ==> ts[i].id != HHDM))
    decreases |ts| - k
  {
    if k < |ts| {
      AtMostOneMeans(ts, k + 1, true);
      AtMostOneMeans(ts, k + 1, seen);
    }
  }

  lemma {:induction false} ValidateIs(crc: Checksum, info: seq<Byte>, c: Builder, ts: seq<Tag>, k: nat, h: Option<nat>, hint: nat, ptrMax: nat)
    requires Ready(crc, info, c, ts) && k <= |ts|
    ensures var w := Handed(info, c, hint, ptrMax);
      var (s, r) := Validate(crc, w, PhysOf(c, ts, k), |ts| - k, h);
      && (s == Ok <==> AllTaken(w, c.phys, ts, k) && AtMostOne(ts, k, h.Some?))
      && (s == Ok ==> r == match FirstOf(ts, HHDM, k) case Some(j) => Some(c.phys + ts[j].off) case None => h)
    decreases |ts| - k
  {
    hide Ready, CrcOk, Read, Value, RegionOk, TagAt;
    ReadyShape(crc, info, c, ts);
    var w := Handed(info, c, hint, ptrMax);
    if k < |ts| {
      TagRead(crc, info, c, ts, k, hint, ptrMax);
      assert AllTaken(w, c.phys, ts, k) <==> Takes(w, c.phys, ts[k]) && AllTaken(w, c.phys, ts, k + 1);
      if Takes(w, c.phys, ts[k]) {
        ValidateIs(crc, info, c, ts, k + 1, Some(c.phys + ts[k].off), hint, ptrMax);
        ValidateIs(crc, info, c, ts, k + 1, h, hint, ptrMax);
        if ts[k].id == HHDM && AtMostOne(ts, k, h.Some?) {
          AtMostOneMeans(ts, k + 1, true);
        }
      }
    }
  }

  lemma {:induction false} FindIs(crc: Checksum, info: seq<Byte>, c: Builder, ts: seq<Tag>, k: nat, id: nat, found: Option<nat>, hint: nat, ptrMax: nat)
    requires Ready(crc, info, c, ts) && k <= |ts| && AllTaken(Handed(info, c, hint, ptrMax), c.phys, ts, k)
    ensures FindFrom(crc, Handed(info, c, hint, ptrMax), PhysOf(c, ts, k), |ts| - k, id, found)
         == if found.Some? then found
            else match FirstOf(ts, id, k) case Some(j) => Some(c.phys + ts[j].off) case None => None
    decreases |ts| - k
  {
    hide Ready, CrcOk, Read, Value, RegionOk, TagAt;
    ReadyShape(crc, info, c, ts);
    if k < |ts| {
      var w := Handed(info, c, hint, ptrMax);
      TagRead(crc, info, c, ts, k, hint, ptrMax);
      assert Takes(w, c.phys, ts[k]);
      FindIs(crc, info, c, ts, k + 1, id, if found.None? && ts[k].id == id then Some(c.phys + ts[k].off) else found, hint, ptrMax);
    }
  }

  lemma ReadyShape(crc: Checksum, info: seq<Byte>, c: Builder, ts: seq<Tag>)
    requires Ready(crc, info, c, ts)
    ensures |info| == INFO && c.phys >= INFO
  {
  }

  // ---------- the info structure ----------

  lemma FilledFields(crc: Checksum, info: seq<Byte>, b: Builder)
    requires |info| == INFO && b.count <= MAX32 && b.first <= MAX64 && b.used <= MAX32 - INFO
    ensures var i := Filled(crc, info, b);
      && i[..16] == Magic() && Value(Slice(i, 16, 2)) == 1 && Value(Slice(i, 20, 4)) == INFO + b.used
      && Count(i) == b.count && First(i) == b.first
      && Value(Slice(i, INFO_SEAL_AT, 8)) == CrcSkip(crc, i, INFO_SEAL_AT)
  {
    hide Bytes, Value, Power, CrcSkip, Put, Seal, Slice;
    Powers();
    ValueOfBytes(2, 1);
    ValueOfBytes(4, INFO + b.used);
    ValueOfBytes(4, b.count);
    ValueOfBytes(8, b.first);
    FilledSlices(crc, info, b);
  }

  lemma FilledSlices(crc: Checksum, info: seq<Byte>, b: Builder)
    requires |info| == INFO
    ensures var i := Filled(crc, info, b);
      && i[..16] == Magic() && Slice(i, 16, 2) == Bytes(2, 1) && Slice(i, 20, 4) == Bytes(4, INFO + b.used)
      && Slice(i, 116, 4) == Bytes(4, b.count) && Slice(i, 120, 8) == Bytes(8, b.first)
      && Value(Slice(i, INFO_SEAL_AT, 8)) == CrcSkip(crc, i, INFO_SEAL_AT)
  {
    hide Bytes, Value, CrcSkip, Put, Seal, Magic;
    var i1 := Put(info, 16, Bytes(2, 1));
    var i2 := Put(i1, 18, Bytes(2, 1));
    var i3 := Put(i2, 0, Magic());
    var i4 := Put(i3, 116, Bytes(4, b.count));
    var i5 := Put(i4, 120, Bytes(8, b.first));
    var i6 := Put(i5, 20, Bytes(4, INFO + b.used));
    SealSeals(crc, i6, INFO_SEAL_AT);
    var i := Seal(crc, i6, INFO_SEAL_AT);
    Field(info, 16, Bytes(2, 1));
    OtherField(i1, 18, Bytes(2, 1), 16, 2);
    OtherField(i2, 0, Magic(), 16, 2);
    Field(i2, 0, Magic());
    OtherField(i3, 116, Bytes(4, b.count), 16, 2);
    OtherField(i3, 116, Bytes(4, b.count), 0, 16);
    Field(i3, 116, Bytes(4, b.count));
    OtherField(i4, 120, Bytes(8, b.first), 16, 2);
    OtherField(i4, 120, Bytes(8, b.first), 0, 16);
    OtherField(i4, 120, Bytes(8, b.first), 116, 4);
    Field(i4, 120, Bytes(8, b.first));
    OtherField(i5, 20, Bytes(4, INFO + b.used), 16, 2);
    OtherField(i5, 20, Bytes(4, INFO + b.used), 0, 16);
    OtherField(i5, 20, Bytes(4, INFO + b.used), 116, 4);
    OtherField(i5, 20, Bytes(4, INFO + b.used), 120, 8);
    Field(i5, 20, Bytes(4, INFO + b.used));
    assert i == Filled(crc, info, b);
    Before(i6, i, 16, 2);
    Before(i6, i, 0, 16);
    Before(i6, i, 20, 4);
    Before(i6, i, 116, 4);
    Before(i6, i, 120, 8);
  }

  lemma Field(m: seq<Byte>, at: nat, b: seq<Byte>)
    requires at + |b| <= |m|
    ensures Slice(Put(m, at, b), at, |b|) == b
  {
    SealedSlice(m, at, b);
  }

  lemma OtherField(m: seq<Byte>, at: nat, b: seq<Byte>, lo: nat, n: nat)
    requires at + |b| <= |m| && (lo + n <= at || at + |b| <= lo)
    ensures Slice(Put(m, at, b), lo, n) == Slice(m, lo, n)
  {
    PutSlice(m, at, b, lo, n);
  }

  lemma Before(m: seq<Byte>, r: seq<Byte>, lo: nat, n: nat)
    requires |m| == |r| == INFO && r[..INFO_SEAL_AT] == m[..INFO_SEAL_AT] && lo + n <= INFO_SEAL_AT
    ensures Slice(r, lo, n) == Slice(m, lo, n) == r[lo..lo + n]
  {
    var a, b := m[..INFO_SEAL_AT], r[..INFO_SEAL_AT];
    assert a[lo..lo + n] == m[lo..lo + n];
    assert b[lo..lo + n] == r[lo..lo + n];
  }

  // ---------- the round trip ----------

  /** When the parser takes what the builder made: a caller can check each of these first. */
  ghost predicate Acceptable(c: Builder, ts: seq<Tag>, w: Window) {
    && |ts| <= MAX_TAGS && INFO + c.used <= MAX_INFO && w.hhdm <= w.ptrMax
    && AllTaken(w, c.phys, ts, 0) && AtMostOne(ts, 0, false)
    && match FirstOf(ts, HHDM, 0)
       case None => true
       case Some(j) => ts[j].size == HHDM_SIZE && Value(Body(c.mem, ts[j])) == w.hhdm
  }

  /** There is a tag at `cur`, and it says what the caller knows. */
  ghost predicate HhdmFits(w: Window, cur: nat) {
    TagAt(w, cur).Some? && HhdmOk(w, cur)
  }

  lemma HhdmRead(crc: Checksum, info: seq<Byte>, c: Builder, ts: seq<Tag>, j: nat, w: Window)
    requires Ready(crc, info, c, ts) && j < |ts| && w.hhdm <= w.ptrMax
    requires |info| == INFO && c.phys >= INFO && w == Handed(info, c, w.hhdm, w.ptrMax) && Takes(w, c.phys, ts[j])
    ensures TagAt(w, c.phys + ts[j].off).Some?
    ensures HhdmFits(w, c.phys + ts[j].off) <==> ts[j].size == HHDM_SIZE && Value(Body(c.mem, ts[j])) == w.hhdm
  {
    hide Ready, CrcOk, Read, Value, RegionOk, TagAt, Body, Handed;
    TagRead(crc, info, c, ts, j, w.hhdm, w.ptrMax);
  }

  /** What the builder finalized is accepted over its own memory exactly when it is acceptable;
      and then the lookup of any kind gives the first tag appended with it, body intact, and
      nothing for a kind never appended. */
  lemma AcceptedExactlyWhen(crc: Checksum, w0: Work, its: seq<Item>, info0: seq<Byte>, infoVirt: nat, hint: nat, ptrMax: nat)
    requires Holds(w0, its) && |info0| == INFO && w0.b.phys >= INFO
    requires Finalize(crc, w0.b, info0, w0.b.phys - INFO, infoVirt).2
    ensures var (c, info, _) := Finalize(crc, w0.b, info0, w0.b.phys - INFO, infoVirt);
      |info| == INFO && c.phys >= INFO
    ensures var (c, info, _) := Finalize(crc, w0.b, info0, w0.b.phys - INFO, infoVirt);
      var w := Handed(info, c, hint, ptrMax);
      var (s, ctx) := InitWin(crc, info, w);
      && (s == Ok <==> Acceptable(c, w0.ts, w))
      && (s == Ok ==> ctx.Some? && forall id :: Answers(crc, ctx.value, w, its, id))
  {
    hide Chain, TagSealed, Filled, Ready, InitWin, Acceptable, Takes, Answers, Validate, FindTag;
    FinalizeWorks(crc, w0, its, info0, w0.b.phys - INFO, infoVirt);
    var (c, info, _) := Finalize(crc, w0.b, info0, w0.b.phys - INFO, infoVirt);
    FinalReady(crc, info, c, w0.ts);
    Verdict(crc, info0, info, c, w0.ts, hint, ptrMax);
    var w := Handed(info, c, hint, ptrMax);
    if InitWin(crc, info, w).0 == Ok {
      forall id
        ensures Answers(crc, InitWin(crc, info, w).1.value, w, its, id)
      {
        AnswersAll(crc, info, c, w0.ts, its, hint, ptrMax, id);
      }
    }
  }

  /** The whole way from `bbp_builder_init`: whatever calls filled the arena, finalizing succeeds
      exactly when nothing overflowed and the places fit, and then the parser finds what the
      producers meant. */
  lemma RoundTrip(crc: Checksum, mem: seq<Byte>, virt: nat, phys: nat, os: seq<Op>, info0: seq<Byte>, infoVirt: nat, hint: nat, ptrMax: nat)
    requires Versions(os) && |info0| == INFO && phys >= INFO
    ensures var w0 := DoAll(Work(Init(mem, virt, phys), []), os);
      var (c, info, ok) := Finalize(crc, w0.b, info0, phys - INFO, infoVirt);
      && (ok <==> !w0.b.overflow && phys <= MAX64 && infoVirt + INFO == virt <= MAX64 && w0.b.used <= MAX32 - INFO)
      && (ok ==> |info| == INFO && c.phys >= INFO && Found(crc, info, c, w0.ts, MeantAll([], os), hint, ptrMax))
  {
    hide DoAll, Finalize, Holds, MeantAll, Init, InitWin, Acceptable, Answers;
    var w0 := DoAll(Work(Init(mem, virt, phys), []), os);
    if w0.b.overflow {
      OverflowFails(crc, w0.b, info0, phys - INFO, infoVirt);
    } else {
      BuiltFromInit(mem, virt, phys, os);
      FinalizeWorks(crc, w0, MeantAll([], os), info0, phys - INFO, infoVirt);
      if Finalize(crc, w0.b, info0, phys - INFO, infoVirt).2 {
        AcceptedExactlyWhen(crc, w0, MeantAll([], os), info0, infoVirt, hint, ptrMax);
      }
    }
  }

  /** The parser accepts exactly what is acceptable, and then answers every search from `its`. */
  ghost predicate Found(crc: Checksum, info: seq<Byte>, c: Builder, ts: seq<Tag>, its: seq<Item>, hint: nat, ptrMax: nat)
    requires |info| == INFO && c.phys >= INFO
  {
    var w := Handed(info, c, hint, ptrMax);
    var (s, ctx) := InitWin(crc, info, w);
    && (s == Ok <==> Acceptable(c, ts, w))
    && (s == Ok ==> ctx.Some? && forall id :: Answers(crc, ctx.value, w, its, id))
  }

  lemma OverflowFails(crc: Checksum, b: Builder, info: seq<Byte>, infoPhys: nat, infoVirt: nat)
    requires b.overflow
    ensures !Finalize(crc, b, info, infoPhys, infoVirt).2
  {
  }

  lemma FinalReady(crc: Checksum, info: seq<Byte>, c: Builder, ts: seq<Tag>)
    requires |info| == INFO && c.phys >= INFO && Chain(c, ts) && forall k :: 0 <= k < |ts| ==> TagSealed(crc, c.mem, ts[k])
    ensures Ready(crc, info, c, ts)
  {
  }

  lemma Verdict(crc: Checksum, info0: seq<Byte>, info: seq<Byte>, c: Builder, ts: seq<Tag>, hint: nat, ptrMax: nat)
    requires Ready(crc, info, c, ts) && |info0| == INFO && info == Filled(crc, info0, c) && c.used <= MAX32 - INFO
    ensures c.phys >= INFO
    ensures var w := Handed(info, c, hint, ptrMax);
      var (s, ctx) := InitWin(crc, info, w);
      && (s == Ok <==> Acceptable(c, ts, w))
      && (s == Ok ==> ctx == Some(Context(|ts|, PhysOf(c, ts, 0), w)) && CountOk(|ts|, PhysOf(c, ts, 0)))
  {
    hide Ready, Filled, Magic, CrcSkip, Value, Slice, Read, RegionOk, TagAt, Validate, Body, HhdmOk, Count, First, Takes;
    ReadyShape(crc, info, c, ts);
    ReadyFields(crc, info, c, ts);
    FilledFields(crc, info0, c);
    var w := Handed(info, c, hint, ptrMax);
    ValidateIs(crc, info, c, ts, 0, None, hint, ptrMax);
    if AllTaken(w, c.phys, ts, 0) && hint <= ptrMax && FirstOf(ts, HHDM, 0).Some? {
      var j := FirstOf(ts, HHDM, 0).value;
      assert Takes(w, c.phys, ts[j]);
      HhdmRead(crc, info, c, ts, j, w);
    }
  }

  lemma ReadyFields(crc: Checksum, info: seq<Byte>, c: Builder, ts: seq<Tag>)
    requires Ready(crc, info, c, ts)
    ensures c.count == |ts| <= MAX32 && c.first == PhysOf(c, ts, 0) <= MAX64 && (c.count == 0 <==> c.first == 0)
  {
    hide TagIn;
    if ts != [] {
      TagSize(c, ts, 0);
    }
  }

  /** Item `j` is the first of its kind. */
  ghost predicate IsFirst(its: seq<Item>, id: nat, j: nat) {
    j < |its| && its[j].id == id && forall i :: 0 <= i < j ==> its[i].id != id
  }

  /** `bbp_find_tag` answers for `id` with the first item of that kind, whole, or with nothing if
      there is none. */
  ghost predicate Answers(crc: Checksum, ctx: Context, w: Window, its: seq<Item>, id: nat) {
    match FindTag(crc, ctx, id)
    case None => forall i :: 0 <= i < |its| ==> its[i].id != id
    case Some(cur) => exists j: nat :: IsFirst(its, id, j) && TagIs(w, cur, its[j])
  }

  /** The tag at `cur` is this item. */
  ghost predicate TagIs(w: Window, cur: nat, i: Item) {
    && w.lo <= cur && cur + HEADER + |i.body| <= w.lo + |w.bytes|
    && Value(Read(w, cur, 8)) == i.id && Read(w, cur + HEADER, |i.body|) == i.body
  }

  lemma AnswersAll(crc: Checksum, info: seq<Byte>, c: Builder, ts: seq<Tag>, its: seq<Item>, hint: nat, ptrMax: nat, id: nat)
    requires Ready(crc, info, c, ts) && Holds(Work(c, ts), its) && c.phys >= INFO && |info| == INFO
    requires Acceptable(c, ts, Handed(info, c, hint, ptrMax)) && CountOk(|ts|, PhysOf(c, ts, 0))
    ensures var w := Handed(info, c, hint, ptrMax);
      Answers(crc, Context(|ts|, PhysOf(c, ts, 0), w), w, its, id)
  {
    hide Ready, CrcOk, Value, RegionOk, TagAt, FindFrom, Chain, Read, Body, Takes;
    FindIs(crc, info, c, ts, 0, id, None, hint, ptrMax);
    SameIds(c, ts, its);
    match FirstOf(ts, id, 0)
    case None =>
    case Some(j) =>
      TagRead(crc, info, c, ts, j, hint, ptrMax);
      assert ItemAt(c.mem, ts[j], its[j]);
      assert IsFirst(its, id, j);
  }

  lemma SameIds(c: Builder, ts: seq<Tag>, its: seq<Item>)
    requires Holds(Work(c, ts), its)
    ensures |its| == |ts| && forall k :: 0 <= k < |its| ==> its[k].id == ts[k].id
  {
    hide Chain;
    forall k | 0 <= k < |its|
      ensures its[k].id == ts[k].id
    {
      assert ItemAt(c.mem, ts[k], its[k]);
    }
  }
}
