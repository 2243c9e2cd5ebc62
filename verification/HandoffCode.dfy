/** The code of bbp/bbp_build.c and the loops of bbp/bbp_kernel.c, against `HandoffBuild` and
    `HandoffParse`. */
module HandoffCode {
  import opened Options
  import opened HandoffBuild
  import opened HandoffParse

  /** `struct bbp_builder`. */
  class TagBuilder {
    const arena: array<Byte>
    const virt: nat
    const phys: nat
    var used: nat
    var last: Option<nat>
    var first: nat
    var count: nat
    var overflow: bool

    ghost function Snap(): Builder
      reads this, arena
    {
      Builder(arena[..], virt, phys, used, last, first, count, overflow)
    }

    /** `bbp_builder_init`. */
    constructor (memory: array<Byte>, v: nat, p: nat)
      modifies memory
      ensures arena == memory && Snap() == Init(old(memory[..]), v, p)
    {
      arena, virt, phys := memory, v, p;
      used, last, first, count := 0, None, 0, 0;
      overflow := v % 8 != 0 || p % 8 != 0 || (memory.Length != 0 && memory.Length - 1 > MAX64 - v);
      new;
      if !overflow {
        forall i | 0 <= i < memory.Length {
          memory[i] := 0;
        }
      }
    }

    method Store(at: nat, bytes: seq<Byte>)
      requires at + |bytes| <= arena.Length
      modifies arena
      ensures arena[..] == Put(old(arena[..]), at, bytes)
    {
      var i := 0;
      while i < |bytes|
        invariant 0 <= i <= |bytes|
        invariant forall k :: 0 <= k < arena.Length ==>
          arena[k] == if at <= k < at + i then bytes[k - at] else old(arena[k])
      {
        arena[at + i] := bytes[i];
        i := i + 1;
      }
    }

    /** `arena_bump`. */
    method Take(len: nat) returns (at: Option<nat>)
      modifies this`used, this`overflow
      ensures (Snap(), at) == Bump(old(Snap()), len)
    {
      if overflow || used > MAX64 - 7 {
        overflow := true;
        return None;
      }
      var start := (used + 7) / 8 * 8;
      if start > arena.Length || len > arena.Length - start {
        overflow := true;
        return None;
      }
      if start > MAX64 - virt || (len > 0 && len - 1 > MAX64 - (virt + start)) || start > MAX64 - phys {
        overflow := true;
        return None;
      }
      var p := phys + start;
      if p == 0 || (len > 0 && len - 1 > MAX64 - p) {
        overflow := true;
        return None;
      }
      used := start + len;
      return Some(start);
    }

    /** `bbp_alloc_tag`. */
    method NewTag(id: nat, version: nat, size: nat, ghost ts: seq<Tag>) returns (at: Option<nat>)
      requires Chain(Snap(), ts)
      modifies this, arena
      ensures (Snap(), at) == AllocTag(old(Snap()), id, version, size)
    {
      hide Chain, Header, Bytes, Put;
      ghost var b := Snap();
      ChainFields(b, ts);
      if size < HEADER || size > MAX32 || count == MAX32 {
        overflow := true;
        return None;
      }
      BumpIs(b, size);
      LastInside(b, ts);
      at := Take(size);
      if at.None? {
        return;
      }
      Store(at.value, Header(id, size, version) + Zeros(size - HEADER));
      var p := phys + at.value;
      if last.Some? {
        Store(last.value + 16, Bytes(8, p));
      } else {
        first := p;
      }
      last := at;
      count := count + 1;
    }

    /** `bbp_arena_blob`. */
    method AddBlob(data: seq<Byte>) returns (at: Option<nat>)
      requires used <= arena.Length
      modifies this, arena
      ensures (Snap(), at) == AddBytes(old(Snap()), data)
    {
      hide Put;
      if !overflow {
        BumpIs(Snap(), |data|);
      }
      at := Take(|data|);
      if at.Some? {
        Store(at.value, data);
      }
    }

    /** `bbp_arena_strdup`: the length is found by looking no further than the room there is;
        `s` is the producer's string with at least its final zero. */
    method AddString(s: seq<Byte>) returns (at: Option<nat>, len: nat)
      requires used <= arena.Length && 0 in s
      modifies this, arena
      ensures at.Some? ==> 0 <= len < |s| && s[len] == 0 && forall i :: 0 <= i < len ==> s[i] != 0
      ensures at.Some? ==> (Snap(), at) == AddBytes(old(Snap()), s[..len] + [0])
      ensures at.None? ==> Snap() == Failed(old(Snap()))
    {
      at, len := None, 0;
      if overflow || used > MAX64 - 7 {
        overflow := true;
        return;
      }
      var start := (used + 7) / 8 * 8;
      if start > arena.Length {
        overflow := true;
        return;
      }
      var limit := arena.Length - start;
      if limit > MAX32 {
        limit := MAX32;
      }
      while len < limit && s[len] != 0
        invariant 0 <= len <= limit && len <= |s| && forall i :: 0 <= i < len ==> s[i] != 0
        invariant len < |s|
      {
        len := len + 1;
        assert len < |s| by {
          var z :| 0 <= z < |s| && s[z] == 0;
        }
      }
      if len == limit {
        overflow := true;
        return;
      }
      at := AddBlob(s[..len] + [0]);
    }

    /** The sealing loop of `bbp_builder_finalize`. */
    method SealAll(crc: Checksum, ghost ts: seq<Tag>) returns (cur: nat, ok: bool)
      requires Chain(Snap(), ts)
      modifies arena
      ensures (arena[..], cur, ok) == SealFrom(crc, old(Snap()), old(arena[..]), first, count)
    {
      hide Chain, Put, Seal, Value, SealFrom;
      ghost var b := Snap();
      ChainFields(b, ts);
      cur := first;
      var seen := 0;
      while seen < count
        invariant seen <= count && used <= arena.Length
        invariant SealFrom(crc, b, b.mem, first, count) == SealFrom(crc, b, arena[..], cur, count - seen)
      {
        ghost var m := arena[..];
        SealStops(crc, b, m, cur, count - seen);
        if cur % 8 != 0 || cur < phys || cur - phys > used || HEADER > used - (cur - phys) {
          return cur, false;
        }
        var off := cur - phys;
        var size := Value(arena[off + 8..off + 12]);
        assert arena[off + 8..off + 12] == Slice(m, off + 8, 4);
        if size < HEADER || size > used - off {
          return cur, false;
        }
        SealTurn(crc, b, m, off, size, count - seen);
        assert arena[off..off + size] == Slice(m, off, size);
        Store(off, Seal(crc, arena[off..off + size], SEAL_AT));
        cur := Value(arena[off + 16..off + 24]);
        assert arena[off + 16..off + 24] == Slice(arena[..], off + 16, 8);
        seen := seen + 1;
      }
      SealDone(crc, b, arena[..], cur);
      return cur, true;
    }

    /** `bbp_builder_finalize`. */
    method Finish(crc: Checksum, info: seq<Byte>, infoPhys: nat, infoVirt: nat, ghost ts: seq<Tag>)
      returns (filled: seq<Byte>, ok: bool)
      requires Chain(Snap(), ts)
      modifies this`overflow, arena
      ensures (Snap(), filled, ok) == Finalize(crc, old(Snap()), info, infoPhys, infoVirt)
    {
      hide Chain, SealFrom, Filled;
      filled := info;
      if overflow || infoPhys > MAX64 - INFO || infoPhys + INFO != phys || infoVirt > MAX64 - INFO
        || infoVirt + INFO != virt || used > MAX32 - INFO
      {
        overflow := true;
        return filled, false;
      }
      var cur;
      cur, ok := SealAll(crc, ts);
      if !ok || cur != 0 || (count == 0) != (first == 0) {
        overflow := true;
        return filled, false;
      }
      filled := Filled(crc, info, Builder(arena[..], virt, phys, used, last, first, count, overflow));
    }
  }

  /** Where the sealing loop gives up. */
  lemma SealStops(crc: Checksum, b: Builder, m: seq<Byte>, cur: nat, n: nat)
    requires n > 0
    ensures cur % 8 != 0 || cur < b.phys || cur - b.phys > b.used || HEADER > b.used - (cur - b.phys) ==>
      SealFrom(crc, b, m, cur, n) == (m, cur, false)
    ensures cur % 8 == 0 && b.phys <= cur && cur - b.phys <= b.used && HEADER <= b.used - (cur - b.phys) ==>
      (var size := Value(Slice(m, cur - b.phys + 8, 4));
       size < HEADER || size > b.used - (cur - b.phys) ==> SealFrom(crc, b, m, cur, n) == (m, cur, false))
  {
    hide Put, Seal, Value, Slice;
  }

  lemma SealDone(crc: Checksum, b: Builder, m: seq<Byte>, cur: nat)
    ensures SealFrom(crc, b, m, cur, 0) == (m, cur, true)
  {
  }

  lemma LastInside(b: Builder, ts: seq<Tag>)
    requires Chain(b, ts)
    ensures b.last.Some? ==> b.last.value + HEADER <= b.used
  {
    if ts != [] {
      TagThere(b, ts, |ts| - 1);
    }
  }

  // ---------- the parser ----------

  /** `bbp_validate_chain`, after its checks of the count. */
  method ValidateChain(crc: Checksum, w: Window, first: nat, count: nat) returns (s: Status, hhdm: Option<nat>)
    ensures (s, hhdm) == Validate(crc, w, first, count, None)
  {
    hide CrcOk, Value, TagAt;
    var cur, seen := first, 0;
    hhdm := None;
    while seen < count
      invariant 0 <= seen <= count && Validate(crc, w, first, count, None) == Validate(crc, w, cur, count - seen, hhdm)
    {
      var size := TagAt(w, cur);
      if size.None? {
        return BadSize, hhdm;
      }
      if Value(Read(w, cur + 12, 2)) != 1 {
        return BadVersion, hhdm;
      }
      if !CrcOk(crc, w, cur, size.value) {
        return BadTagChecksum, hhdm;
      }
      var next := Value(Read(w, cur + 16, 8));
      if Value(Read(w, cur, 8)) == HHDM {
        if hhdm.Some? {
          return BadSize, hhdm;
        }
        hhdm := Some(cur);
      }
      cur := next;
      seen := seen + 1;
    }
    s := if cur == 0 then Ok else BadSize;
  }

  /** `bbp_find_tag`. */
  method Find(crc: Checksum, c: Context, id: nat) returns (found: Option<nat>)
    ensures found == FindTag(crc, c, id)
  {
    hide CrcOk, Value, TagAt;
    found := None;
    if !CountOk(c.count, c.first) {
      return;
    }
    var cur, steps := c.first, 0;
    while steps < c.count
      invariant 0 <= steps <= c.count
      invariant FindFrom(crc, c.w, c.first, c.count, id, None) == FindFrom(crc, c.w, cur, c.count - steps, id, found)
    {
      var size := TagAt(c.w, cur);
      if size.None? || Value(Read(c.w, cur + 12, 2)) != 1 || !CrcOk(crc, c.w, cur, size.value) {
        return None;
      }
      if found.None? && Value(Read(c.w, cur, 8)) == id {
        found := Some(cur);
      }
      cur := Value(Read(c.w, cur + 16, 8));
      steps := steps + 1;
    }
    if cur != 0 {
      found := None;
    }
  }
}
