/** When the builder runs out: each call needs its bytes, from the next multiple of 8 on, to be in
    the arena and in the address space. */
module HandoffSpace {
  import opened Options
  import opened HandoffBuild

  /** The next multiple of 8. */
  function Up(n: nat): (r: nat)
    ensures r % 8 == 0 && n <= r < n + 8
  {
    if n % 8 == 0 then n else n + (8 - n % 8)
  }

  /** Every byte of `len` from `base + start`, or at least that place, has a 64-bit address. */
  predicate Within64(base: nat, start: nat, len: nat) {
    base + start + (if len > 0 then len - 1 else 0) <= 0xFFFF_FFFF_FFFF_FFFF
  }

  /** There is room for `len` bytes behind `used`. */
  predicate Room(b: Builder, used: nat, len: nat) {
    && used + 7 <= 0xFFFF_FFFF_FFFF_FFFF && Up(used) + len <= |b.mem|
    && Within64(b.virt, Up(used), len) && Within64(b.phys, Up(used), len) && b.phys + Up(used) > 0
  }

  /** Space is found exactly when there is room, and it is the next that is aligned. */
  lemma BumpSucceedsExactlyWhen(b: Builder, len: nat)
    ensures var (c, at) := Bump(b, len); var ok := !b.overflow && Room(b, b.used, len);
      && at == (if ok then Some(Up(b.used)) else None)
      && c == (if ok then b.(used := Up(b.used) + len) else b.(overflow := true))
  {
    AlignedIsUp(b.used);
  }

  lemma AlignedIsUp(n: nat)
    ensures Aligned(n) == Up(n)
  {
  }

  /** An arena is taken exactly when its addresses are multiples of 8 and its last byte has one. */
  lemma InitSucceedsExactlyWhen(mem: seq<Byte>, virt: nat, phys: nat)
    ensures var b := Init(mem, virt, phys);
      && b.virt == virt && b.phys == phys && b.used == 0 && b.count == 0 && b.first == 0 && b.last == None && |b.mem| == |mem|
      && (!b.overflow <==> virt % 8 == 0 && phys % 8 == 0 && (mem != [] ==> virt + |mem| - 1 <= 0xFFFF_FFFF_FFFF_FFFF))
      && (b.overflow ==> b.mem == mem) && (!b.overflow ==> forall i :: 0 <= i < |mem| ==> b.mem[i] == 0)
  {
  }

  // ---------- one call ----------

  /** The call asks for something there is. */
  predicate Served(b: Builder, used: nat, count: nat, o: Op) {
    match o
    case Alloc(_, _, size) => 32 <= size <= 0xFFFF_FFFF && count != 0xFFFF_FFFF && Room(b, used, size)
    case Fill(_, _) => true
    case Add(data) => Room(b, used, |data|)
  }

  /** Where the used part ends after a call. */
  function End(used: nat, o: Op): nat {
    match o
    case Alloc(_, _, size) => Up(used) + size
    case Fill(_, _) => used
    case Add(data) => Up(used) + |data|
  }

  function Tags(o: Op): nat {
    if o.Alloc? then 1 else 0
  }

  lemma CallSucceedsExactlyWhen(w: Work, o: Op)
    ensures var r := Do(w, o).b;
      && r.virt == w.b.virt && r.phys == w.b.phys && |r.mem| == |w.b.mem|
      && (!r.overflow <==> !w.b.overflow && Served(w.b, w.b.used, w.b.count, o))
      && (!r.overflow ==> r.used == End(w.b.used, o) && r.count == w.b.count + Tags(o))
  {
    hide Bump, Up;
    StepStays(w, o);
    match o
    case Alloc(_, _, size) => BumpSucceedsExactlyWhen(w.b, size);
    case Fill(_, _) =>
    case Add(data) => BumpSucceedsExactlyWhen(w.b, |data|);
  }

  // ---------- a run ----------

  predicate AllServed(b: Builder, used: nat, count: nat, os: seq<Op>)
    decreases |os|
  {
    os == [] || (Served(b, used, count, os[0]) && AllServed(b, End(used, os[0]), count + Tags(os[0]), os[1..]))
  }

  lemma SameRoom(b: Builder, c: Builder, used: nat, count: nat, os: seq<Op>)
    requires c.virt == b.virt && c.phys == b.phys && |c.mem| == |b.mem|
    ensures AllServed(b, used, count, os) == AllServed(c, used, count, os)
    decreases |os|
  {
    hide Up;
    if os != [] {
      SameRoom(b, c, End(used, os[0]), count + Tags(os[0]), os[1..]);
    }
  }

  /** A run does not overflow exactly when every call of it is served. */
  lemma {:induction false} RunSucceedsExactlyWhen(w: Work, os: seq<Op>)
    ensures !DoAll(w, os).b.overflow <==> !w.b.overflow && AllServed(w.b, w.b.used, w.b.count, os)
    decreases |os|
  {
    hide Do, Served, End;
    if os != [] {
      var r := Do(w, os[0]);
      CallSucceedsExactlyWhen(w, os[0]);
      RunSucceedsExactlyWhen(r, os[1..]);
      SameRoom(r.b, w.b, r.b.used, r.b.count, os[1..]);
    }
  }

  // ---------- an arena that lies in memory ----------

  function EndAll(used: nat, os: seq<Op>): nat
    decreases |os|
  {
    if os == [] then used else EndAll(End(used, os[0]), os[1..])
  }

  function TagsAll(os: seq<Op>): nat {
    if os == [] then 0 else Tags(os[0]) + TagsAll(os[1..])
  }

  predicate Sizes(os: seq<Op>) {
    forall o :: o in os && o.Alloc? ==> 32 <= o.size <= 0xFFFF_FFFF
  }

  lemma {:induction false} EndGrows(used: nat, os: seq<Op>)
    ensures used <= EndAll(used, os)
    decreases |os|
  {
    hide Up;
    if os != [] {
      EndGrows(End(used, os[0]), os[1..]);
    }
  }

  predicate Placed64(b: Builder) {
    && 0 < b.phys && |b.mem| + 7 <= 0xFFFF_FFFF_FFFF_FFFF
    && b.virt + |b.mem| <= 0xFFFF_FFFF_FFFF_FFFF && b.phys + |b.mem| <= 0xFFFF_FFFF_FFFF_FFFF
  }

  lemma {:induction false} ServedIsEnd(b: Builder, used: nat, count: nat, os: seq<Op>)
    requires Placed64(b) && used <= |b.mem| && count <= 0xFFFF_FFFF
    ensures AllServed(b, used, count, os) <==> Sizes(os) && count + TagsAll(os) <= 0xFFFF_FFFF && EndAll(used, os) <= |b.mem|
    decreases |os|
  {
    hide Up;
    if os != [] {
      var o, e, n := os[0], End(used, os[0]), count + Tags(os[0]);
      EndGrows(e, os[1..]);
      assert Sizes(os) <==> Sizes([o]) && Sizes(os[1..]) by { assert os == [o] + os[1..]; }
      if e <= |b.mem| && n <= 0xFFFF_FFFF {
        ServedIsEnd(b, e, n, os[1..]);
      }
    }
  }

  /** In an arena that lies below the end of the address space any calls go through exactly when
      both its addresses are multiples of 8, each tag has a possible size, there are not too many,
      and all of it together, each part moved up to a multiple of 8, is no longer than the arena. */
  lemma ArenaSuffices(mem: seq<Byte>, virt: nat, phys: nat, os: seq<Op>)
    requires 0 < phys && |mem| + 7 <= 0xFFFF_FFFF_FFFF_FFFF
    requires virt + |mem| <= 0xFFFF_FFFF_FFFF_FFFF && phys + |mem| <= 0xFFFF_FFFF_FFFF_FFFF
    ensures !DoAll(Work(Init(mem, virt, phys), []), os).b.overflow
       <==> virt % 8 == 0 && phys % 8 == 0 && Sizes(os) && TagsAll(os) <= 0xFFFF_FFFF && EndAll(0, os) <= |mem|
  {
    hide AllServed, EndAll, Sizes, DoAll;
    var b := Init(mem, virt, phys);
    RunSucceedsExactlyWhen(Work(b, []), os);
    ServedIsEnd(b, 0, 0, os);
  }
}
