/** The parser of bbp/bbp_kernel.c, over a walk window of arbitrary bytes.  Every access is to
    a byte of the window, or the functions below would not be defined; so whatever the memory
    holds, no byte outside it is looked at. */
module HandoffParse {
  import opened Options
  import opened HandoffBuild

  const MAX_TAGS: nat := 1024
  const MAX_TAG: nat := 0x100_0000
  const MAX_INFO: nat := 0x400_0000
  const MAX_PHYS: nat := 0x1_0000_0000_0000
  const HHDM: nat := 0x2_0000_0000_0002
  const HHDM_SIZE: nat := 40

  datatype Status = Ok | BadMagic | BadVersion | BadSize | BadChecksum | BadTagChecksum

  /** `walk_lo`, the bytes up to `walk_hi`, the offset added to reach them, and the largest
      pointer. */
  datatype Window = Window(lo: nat, bytes: seq<Byte>, hhdm: nat, ptrMax: nat)

  /** `bbp_region_ok`, with a window. */
  predicate RegionOk(w: Window, phys: nat, len: nat) {
    && phys != 0 && len != 0 && len <= MAX_PHYS && phys <= MAX_PHYS - len
    && w.lo <= phys && len <= |w.bytes| && phys - w.lo <= |w.bytes| - len
    && phys <= w.ptrMax && w.hhdm <= w.ptrMax - phys && len - 1 <= w.ptrMax - (phys + w.hhdm)
  }

  /** `n` bytes of the window; the precondition is that they are in it. */
  function Read(w: Window, phys: nat, n: nat): (s: seq<Byte>)
    requires w.lo <= phys && phys + n <= w.lo + |w.bytes|
    ensures |s| == n
  {
    w.bytes[phys - w.lo..phys - w.lo + n]
  }

  /** `bbp_tag_at`: the size of the tag, if its header and then the whole of it are in range. */
  function TagAt(w: Window, cur: nat): (r: Option<nat>)
    ensures r.Some? ==> HEADER <= r.value && w.lo <= cur && cur + r.value <= w.lo + |w.bytes|
  {
    if cur == 0 || cur % 8 != 0 || !RegionOk(w, cur, HEADER) then None
    else
      var size := Value(Read(w, cur + 8, 4));
      if HEADER <= size <= MAX_TAG && RegionOk(w, cur, size) then Some(size) else None
  }

  /** `bbp_tag_crc_ok`. */
  predicate CrcOk(crc: Checksum, w: Window, cur: nat, size: nat)
    requires HEADER <= size && w.lo <= cur && cur + size <= w.lo + |w.bytes|
  {
    CrcSkip(crc, Read(w, cur, size), SEAL_AT) == Value(Read(w, cur + SEAL_AT, 8))
  }

  /** The loop of `bbp_validate_chain`; `hhdm` is the tag of that kind seen so far. */
  function Validate(crc: Checksum, w: Window, cur: nat, left: nat, hhdm: Option<nat>): (Status, Option<nat>)
    decreases left
  {
    if left == 0 then (if cur == 0 then Ok else BadSize, hhdm)
    else
      var size := TagAt(w, cur);
      if size.None? then (BadSize, hhdm)
      else if Value(Read(w, cur + 12, 2)) != 1 then (BadVersion, hhdm)
      else if !CrcOk(crc, w, cur, size.value) then (BadTagChecksum, hhdm)
      else
        var next := Value(Read(w, cur + 16, 8));
        if Value(Read(w, cur, 8)) == HHDM then
          if hhdm.Some? then (BadSize, hhdm) else Validate(crc, w, next, left - 1, Some(cur))
        else Validate(crc, w, next, left - 1, hhdm)
  }

  /** A chain that validates has its HHDM tag inside the window. */
  lemma {:induction false} ValidateFinds(crc: Checksum, w: Window, cur: nat, left: nat, hhdm: Option<nat>)
    requires hhdm.Some? ==> TagAt(w, hhdm.value).Some?
    ensures var (s, h) := Validate(crc, w, cur, left, hhdm); h.Some? ==> TagAt(w, h.value).Some?
    decreases left
  {
    hide CrcOk, Value, RegionOk;
    if left > 0 && TagAt(w, cur).Some? {
      var next := Value(Read(w, cur + 16, 8));
      ValidateFinds(crc, w, next, left - 1, Some(cur));
      ValidateFinds(crc, w, next, left - 1, hhdm);
    }
  }

  /** What `bbp_init_win` keeps of the info structure. */
  datatype Context = Context(count: nat, first: nat, w: Window)

  function Count(info: seq<Byte>): nat {
    Value(Slice(info, 116, 4))
  }

  function First(info: seq<Byte>): nat {
    Value(Slice(info, 120, 8))
  }

  predicate CountOk(count: nat, first: nat) {
    count <= MAX_TAGS && (count == 0 <==> first == 0)
  }

  /** `bbp_init_win` on a window; `w.hhdm` is the hint. */
  function InitWin(crc: Checksum, info: seq<Byte>, w: Window): (Status, Option<Context>)
    requires |info| == INFO
  {
    if info[..16] != Magic() then (BadMagic, None)
    else if Value(Slice(info, 16, 2)) != 1 then (BadVersion, None)
    else if !(INFO <= Value(Slice(info, 20, 4)) <= MAX_INFO) then (BadSize, None)
    else if Value(Slice(info, INFO_SEAL_AT, 8)) != CrcSkip(crc, info, INFO_SEAL_AT) then (BadChecksum, None)
    else if w.hhdm > w.ptrMax then (BadSize, None)
    else if !CountOk(Count(info), First(info)) then (BadSize, None)
    else
      var (s, h) := Validate(crc, w, First(info), Count(info), None);
      ValidateFinds(crc, w, First(info), Count(info), None);
      if s != Ok then (s, None)
      else if h.Some? && !HhdmOk(w, h.value) then (BadSize, None)
      else (Ok, Some(Context(Count(info), First(info), w)))
  }

  /** The HHDM tag may only say what the caller already knows. */
  predicate HhdmOk(w: Window, cur: nat)
    requires TagAt(w, cur).Some?
  {
    TagAt(w, cur).value == HHDM_SIZE && Value(Read(w, cur + HEADER, 8)) <= w.ptrMax && Value(Read(w, cur + HEADER, 8)) == w.hhdm
  }

  /** The loop of `bbp_find_tag`: where the first tag of this kind starts, provided the rest of
      the chain is sound. */
  function FindFrom(crc: Checksum, w: Window, cur: nat, left: nat, id: nat, found: Option<nat>): Option<nat>
    decreases left
  {
    if left == 0 then (if cur == 0 then found else None)
    else
      var size := TagAt(w, cur);
      if size.None? || Value(Read(w, cur + 12, 2)) != 1 || !CrcOk(crc, w, cur, size.value) then None
      else
        FindFrom(crc, w, Value(Read(w, cur + 16, 8)), left - 1, id,
                 if found.None? && Value(Read(w, cur, 8)) == id then Some(cur) else found)
  }

  function FindTag(crc: Checksum, c: Context, id: nat): Option<nat> {
    if CountOk(c.count, c.first) then FindFrom(crc, c.w, c.first, c.count, id, None) else None
  }
}
