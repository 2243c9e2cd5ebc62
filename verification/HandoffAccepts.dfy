/** What the parser accepts, for any info structure and any memory: the conditions written out
    over the bytes, with the limits as plain sums instead of the differences that the code
    compares to avoid wrapping round. */
module HandoffAccepts {
  import opened Options
  import opened HandoffBuild
  import opened HandoffParse

  /** The number that bytes stand for, the last of them being the most significant. */
  function Little(b: seq<Byte>): nat {
    if b == [] then 0 else Little(b[..|b| - 1]) + b[|b| - 1] * Place(|b| - 1)
  }

  function Place(n: nat): nat {
    if n == 0 then 1 else 256 * Place(n - 1)
  }

  lemma {:induction false} LittleIs(b: seq<Byte>)
    ensures Little(b) == Value(b)
    decreases |b|
  {
    if |b| == 1 {
      assert b[1..] == [] && b[..0] == [];
    } else if b != [] {
      var n := |b| - 1;
      var mid := b[1..n];
      LittleIs(b[..n]);
      LittleIs(b[1..]);
      LittleIs(mid);
      assert b[..n][1..] == mid && b[1..][..n - 1] == mid && b[1..][n - 1] == b[n];
      Shifted(b[n], n);
    }
  }

  lemma Shifted(v: nat, n: nat)
    requires n > 0
    ensures v * Place(n) == 256 * (v * Place(n - 1))
  {
  }

  // ---------- tags ----------

  /** `len` bytes from `at` are in the window, below 2^48, and can be pointed to. */
  predicate InReach(w: Window, at: nat, len: nat) {
    && 0 < at && w.lo <= at && at + len <= w.lo + |w.bytes|
    && at + len <= 0x1_0000_0000_0000 && at + w.hhdm + len - 1 <= w.ptrMax
  }

  function Part(w: Window, at: nat, n: nat): (s: seq<Byte>)
    requires w.lo <= at && at + n <= w.lo + |w.bytes|
    ensures |s| == n
  {
    w.bytes[at - w.lo..at - w.lo + n]
  }

  function Size(w: Window, at: nat): nat
    requires InReach(w, at, 32)
  {
    Little(Part(w, at + 8, 4))
  }

  /** A tag with a possible size, of version 1, whose checksum is that of its bytes with the
      checksum itself taken as zeros. */
  predicate SoundTag(crc: Checksum, w: Window, at: nat) {
    && at % 8 == 0 && InReach(w, at, 32)
    && 32 <= Size(w, at) <= 0x100_0000 && InReach(w, at, Size(w, at))
    && Little(Part(w, at + 12, 2)) == 1
    && Little(Part(w, at + 24, 8)) == crc(Part(w, at, 24) + [0, 0, 0, 0, 0, 0, 0, 0] + Part(w, at + 32, Size(w, at) - 32))
  }

  /** `tags` are the addresses of sound tags, each naming the next and the last naming none. */
  predicate SoundChain(crc: Checksum, w: Window, first: nat, tags: seq<nat>) {
    && first == (if tags == [] then 0 else tags[0])
    && forall i :: 0 <= i < |tags| ==> LinkAt(crc, w, tags, i)
  }

  predicate LinkAt(crc: Checksum, w: Window, tags: seq<nat>, i: nat)
    requires i < |tags|
  {
    SoundTag(crc, w, tags[i]) && NextIs(w, tags[i], if i + 1 < |tags| then tags[i + 1] else 0)
  }

  predicate NextIs(w: Window, at: nat, next: nat)
    requires InReach(w, at, 32)
  {
    Little(Part(w, at + 16, 8)) == next
  }

  predicate HasId(w: Window, at: nat, id: nat) {
    InReach(w, at, 32) && Little(Part(w, at, 8)) == id
  }

  lemma RegionIs(w: Window, at: nat, len: nat)
    requires len > 0
    ensures RegionOk(w, at, len) <==> InReach(w, at, len)
  {
  }

  lemma ReadIs(w: Window, at: nat, n: nat)
    requires w.lo <= at && at + n <= w.lo + |w.bytes|
    ensures Value(Read(w, at, n)) == Little(Part(w, at, n))
  {
    LittleIs(Part(w, at, n));
  }

  /** The checks on one tag, in the order of the code, let exactly the sound tags through. */
  lemma TagPasses(crc: Checksum, w: Window, at: nat)
    ensures TagAt(w, at).Some? ==> InReach(w, at, 32) && TagAt(w, at).value == Size(w, at)
    ensures (TagAt(w, at).Some? && Value(Read(w, at + 12, 2)) == 1 && CrcOk(crc, w, at, TagAt(w, at).value)) <==> SoundTag(crc, w, at)
  {
    hide CrcOk, Value, Little;
    RegionIs(w, at, 32);
    if InReach(w, at, 32) {
      ReadIs(w, at + 8, 4);
      ReadIs(w, at + 12, 2);
      if 32 <= Size(w, at) {
        RegionIs(w, at, Size(w, at));
        if InReach(w, at, Size(w, at)) {
          SealIs(crc, w, at);
        }
      }
    }
  }

  lemma SealIs(crc: Checksum, w: Window, at: nat)
    requires InReach(w, at, 32) && 32 <= Size(w, at) && InReach(w, at, Size(w, at))
    ensures CrcOk(crc, w, at, Size(w, at))
       <==> Little(Part(w, at + 24, 8)) == crc(Part(w, at, 24) + [0, 0, 0, 0, 0, 0, 0, 0] + Part(w, at + 32, Size(w, at) - 32))
  {
    hide Value, Little;
    var n := Size(w, at);
    var b := Read(w, at, n);
    ReadIs(w, at + 24, 8);
    assert b[..24] == Part(w, at, 24) && b[32..] == Part(w, at + 32, n - 32);
    assert Zeros(8) == [0, 0, 0, 0, 0, 0, 0, 0];
  }

  // ---------- chains ----------

  const HHDM_ID: nat := 0x0002_0000_0000_0002

  /** No tag of the kind that says where memory is mapped, or one. */
  predicate AtMostOne(w: Window, tags: seq<nat>) {
    forall i, j :: 0 <= i < j < |tags| ==> !(HasId(w, tags[i], HHDM_ID) && HasId(w, tags[j], HHDM_ID))
  }

  predicate NoneOf(w: Window, tags: seq<nat>, id: nat) {
    forall i :: 0 <= i < |tags| ==> !HasId(w, tags[i], id)
  }

  /** `h` is the tag of that kind in the chain, after `before`. */
  predicate Latest(w: Window, tags: seq<nat>, before: Option<nat>, h: Option<nat>) {
    if NoneOf(w, tags, HHDM_ID) then h == before else h.Some? && h.value in tags && HasId(w, h.value, HHDM_ID)
  }

  lemma ChainTail(crc: Checksum, w: Window, cur: nat, tags: seq<nat>)
    requires SoundChain(crc, w, cur, tags) && tags != []
    ensures cur == tags[0] && SoundTag(crc, w, cur) && InReach(w, cur, 32) && SoundChain(crc, w, Little(Part(w, cur + 16, 8)), tags[1..])
  {
    hide SoundTag, Little;
    assert LinkAt(crc, w, tags, 0);
    SoundReaches(crc, w, cur);
    var rest := tags[1..];
    forall i | 0 <= i < |rest|
      ensures LinkAt(crc, w, rest, i)
    {
      assert LinkAt(crc, w, tags, i + 1);
      assert rest[i] == tags[i + 1];
    }
  }

  lemma SoundReaches(crc: Checksum, w: Window, at: nat)
    requires SoundTag(crc, w, at)
    ensures InReach(w, at, 32)
  {
  }

  /** One turn of the loop on a sound tag. */
  lemma Turn(crc: Checksum, w: Window, cur: nat, left: nat, h: Option<nat>)
    requires left > 0 && SoundTag(crc, w, cur)
    ensures var next := Little(Part(w, cur + 16, 8));
      Validate(crc, w, cur, left, h)
      == if HasId(w, cur, HHDM_ID) then (if h.Some? then (BadSize, h) else Validate(crc, w, next, left - 1, Some(cur)))
         else Validate(crc, w, next, left - 1, h)
  {
    hide CrcOk, Value, Little, SoundTag;
    SoundReaches(crc, w, cur);
    TagPasses(crc, w, cur);
    ReadIs(w, cur, 8);
    ReadIs(w, cur + 16, 8);
  }

  /** A chain of sound tags validates exactly if there is not a second tag that says where
      memory is mapped. */
  lemma {:induction false} ChainValidates(crc: Checksum, w: Window, cur: nat, tags: seq<nat>, h: Option<nat>)
    requires SoundChain(crc, w, cur, tags)
    ensures var (s, h1) := Validate(crc, w, cur, |tags|, h);
      && (s == Ok <==> AtMostOne(w, tags) && (h.Some? ==> NoneOf(w, tags, HHDM_ID)))
      && (s == Ok ==> Latest(w, tags, h, h1))
    decreases |tags|
  {
    hide SoundTag, HasId, Validate, SoundChain, NoneOf, AtMostOne, Latest;
    if tags == [] {
      NoTags(crc, w, cur, tags, h);
    } else {
      ChainTail(crc, w, cur, tags);
      var rest, next := tags[1..], Little(Part(w, cur + 16, 8));
      Turn(crc, w, cur, |tags|, h);
      FirstOfAll(w, tags, HHDM_ID);
      if HasId(w, cur, HHDM_ID) {
        if h.None? {
          ChainValidates(crc, w, next, rest, Some(cur));
          LatestHere(w, tags, Validate(crc, w, next, |rest|, Some(cur)).1);
        }
      } else {
        ChainValidates(crc, w, next, rest, h);
        LatestLater(w, tags, h, Validate(crc, w, next, |rest|, h).1);
      }
    }
  }

  lemma NoTags(crc: Checksum, w: Window, cur: nat, tags: seq<nat>, h: Option<nat>)
    requires SoundChain(crc, w, cur, tags) && tags == []
    ensures Validate(crc, w, cur, 0, h) == (Ok, h) && AtMostOne(w, tags) && NoneOf(w, tags, HHDM_ID) && Latest(w, tags, h, h)
  {
  }

  lemma LatestHere(w: Window, tags: seq<nat>, h: Option<nat>)
    requires tags != [] && HasId(w, tags[0], HHDM_ID)
    ensures NoneOf(w, tags[1..], HHDM_ID) && Latest(w, tags[1..], Some(tags[0]), h) ==> Latest(w, tags, None, h)
  {
    hide HasId;
  }

  lemma LatestLater(w: Window, tags: seq<nat>, before: Option<nat>, h: Option<nat>)
    requires tags != [] && !HasId(w, tags[0], HHDM_ID)
    ensures Latest(w, tags[1..], before, h) ==> Latest(w, tags, before, h)
  {
    hide HasId;
    FirstOfAll(w, tags, HHDM_ID);
  }

  lemma FirstOfAll(w: Window, tags: seq<nat>, id: nat)
    requires tags != []
    ensures NoneOf(w, tags, id) <==> !HasId(w, tags[0], id) && NoneOf(w, tags[1..], id)
    ensures id == HHDM_ID ==> (AtMostOne(w, tags) <==> AtMostOne(w, tags[1..]) && (HasId(w, tags[0], id) ==> NoneOf(w, tags[1..], id)))
  {
    hide HasId;
    var rest := tags[1..];
    assert forall i :: 1 <= i < |tags| ==> tags[i] == rest[i - 1];
    assert forall i :: 0 <= i < |rest| ==> rest[i] == tags[i + 1];
  }

  /** What validates is such a chain. */
  lemma {:induction false} ValidatesChain(crc: Checksum, w: Window, cur: nat, left: nat, h: Option<nat>) returns (tags: seq<nat>)
    requires Validate(crc, w, cur, left, h).0 == Ok
    ensures |tags| == left && SoundChain(crc, w, cur, tags)
    decreases left
  {
    hide SoundTag, CrcOk, Value, Little;
    if left == 0 {
      tags := [];
    } else {
      TagPasses(crc, w, cur);
      SoundReaches(crc, w, cur);
      var next := Little(Part(w, cur + 16, 8));
      Turn(crc, w, cur, left, h);
      var rest := ValidatesChain(crc, w, next, left - 1, if HasId(w, cur, HHDM_ID) then Some(cur) else h);
      tags := [cur] + rest;
      ChainHead(crc, w, cur, rest);
    }
  }

  // ---------- the info structure ----------

  /** The fixed part: "BEAR_INFO", version 1, a possible size, its own checksum, and no more than
      1024 tags. */
  predicate Genuine(crc: Checksum, info: seq<Byte>)
    requires |info| == 144
  {
    && info[..16] == [66, 69, 65, 82, 95, 73, 78, 70, 79, 0, 0, 0, 0, 0, 0, 0]
    && Little(info[16..18]) == 1
    && 144 <= Little(info[20..24]) <= 0x400_0000
    && Little(info[136..144]) == crc(info[..136] + [0, 0, 0, 0, 0, 0, 0, 0])
    && Little(info[116..120]) <= 1024
  }

  /** The tags in memory: as many as the info structure says, from where it says, and the one that
      says where memory is mapped, if there is one, agrees with what the kernel uses. */
  predicate Holds(crc: Checksum, info: seq<Byte>, w: Window, tags: seq<nat>)
    requires |info| == 144
  {
    && |tags| == Little(info[116..120]) && SoundChain(crc, w, Little(info[120..128]), tags) && AtMostOne(w, tags)
    && forall i :: 0 <= i < |tags| ==> HasId(w, tags[i], HHDM_ID) ==> Agrees(w, tags[i])
  }

  predicate Agrees(w: Window, at: nat) {
    InReach(w, at, 40) && Size(w, at) == 40 && Little(Part(w, at + 32, 8)) == w.hhdm
  }

  lemma InfoFields(crc: Checksum, info: seq<Byte>)
    requires |info| == 144
    ensures Count(info) == Little(info[116..120]) && First(info) == Little(info[120..128])
    ensures Genuine(crc, info)
       <==> && info[..16] == Magic() && Value(Slice(info, 16, 2)) == 1 && INFO <= Value(Slice(info, 20, 4)) <= MAX_INFO
            && Value(Slice(info, INFO_SEAL_AT, 8)) == CrcSkip(crc, info, INFO_SEAL_AT) && Count(info) <= MAX_TAGS
  {
    hide Value, Little;
    LittleIs(info[16..18]);
    LittleIs(info[20..24]);
    LittleIs(info[116..120]);
    LittleIs(info[120..128]);
    LittleIs(info[136..144]);
    assert info[..136] + Zeros(8) + info[144..] == info[..136] + [0, 0, 0, 0, 0, 0, 0, 0];
  }

  lemma MapAgrees(w: Window, at: nat)
    requires TagAt(w, at).Some? && w.hhdm <= w.ptrMax
    ensures HhdmOk(w, at) <==> Agrees(w, at)
  {
    hide Value, Little;
    RegionIs(w, at, 32);
    ReadIs(w, at + 8, 4);
    if Size(w, at) == 40 {
      RegionIs(w, at, 40);
      ReadIs(w, at + 32, 8);
    }
  }

  /** Whatever the info structure and the memory hold: they are accepted exactly if the structure is
      genuine and the memory holds the chain of tags that it names. */
  lemma AcceptsExactlyWhen(crc: Checksum, info: seq<Byte>, w: Window)
    requires |info| == 144
    ensures InitWin(crc, info, w).0 == Ok <==> Genuine(crc, info) && w.hhdm <= w.ptrMax && exists tags :: Holds(crc, info, w, tags)
    ensures InitWin(crc, info, w).0 == Ok ==> InitWin(crc, info, w).1 == Some(Context(Little(info[116..120]), Little(info[120..128]), w))
  {
    hide Value, Little, Genuine, CrcSkip, Validate, SoundTag, HhdmOk, Magic;
    InfoFields(crc, info);
    if InitWin(crc, info, w).0 == Ok {
      var tags := ValidatesChain(crc, w, First(info), Count(info), None);
      ChainValidates(crc, w, First(info), tags, None);
      AgreesAll(crc, w, info, tags);
      assert Holds(crc, info, w, tags);
    }
    if Genuine(crc, info) && w.hhdm <= w.ptrMax && exists tags :: Holds(crc, info, w, tags) {
      var tags :| Holds(crc, info, w, tags);
      ChainValidates(crc, w, First(info), tags, None);
      FirstNonzero(crc, w, First(info), tags);
      AgreesAll(crc, w, info, tags);
    }
  }

  lemma FirstNonzero(crc: Checksum, w: Window, first: nat, tags: seq<nat>)
    requires SoundChain(crc, w, first, tags)
    ensures |tags| == 0 <==> first == 0
  {
    if tags != [] {
      assert LinkAt(crc, w, tags, 0);
      SoundReaches(crc, w, tags[0]);
    }
  }

  lemma AgreesAll(crc: Checksum, w: Window, info: seq<Byte>, tags: seq<nat>)
    requires |info| == 144 && w.hhdm <= w.ptrMax && SoundChain(crc, w, First(info), tags) && |tags| == Count(info)
    requires Validate(crc, w, First(info), Count(info), None).0 == Ok
    ensures var h := Validate(crc, w, First(info), Count(info), None).1;
      && (h.Some? ==> TagAt(w, h.value).Some?)
      && ((h.Some? ==> HhdmOk(w, h.value)) <==> forall i :: 0 <= i < |tags| ==> HasId(w, tags[i], HHDM_ID) ==> Agrees(w, tags[i]))
  {
    hide Value, Little, Validate, SoundTag, HhdmOk, HasId, Agrees;
    var h := Validate(crc, w, First(info), Count(info), None).1;
    ValidateFinds(crc, w, First(info), Count(info), None);
    ChainValidates(crc, w, First(info), tags, None);
    if h.Some? {
      MapAgrees(w, h.value);
    }
  }

  // ---------- looking a tag up ----------

  /** `r` is the first tag of the kind, unless one was found before or there is none. */
  predicate FirstFound(w: Window, tags: seq<nat>, id: nat, found: Option<nat>, r: Option<nat>) {
    if found.Some? || NoneOf(w, tags, id) then r == found
    else exists i :: 0 <= i < |tags| && FirstAt(w, tags, id, i) && r == Some(tags[i])
  }

  predicate FirstAt(w: Window, tags: seq<nat>, id: nat, i: nat)
    requires i < |tags|
  {
    HasId(w, tags[i], id) && NoneOf(w, tags[..i], id)
  }

  /** In a chain of sound tags a search finds the first of the kind. */
  lemma {:induction false} FindsFirst(crc: Checksum, w: Window, cur: nat, tags: seq<nat>, id: nat, found: Option<nat>)
    requires SoundChain(crc, w, cur, tags)
    ensures FirstFound(w, tags, id, found, FindFrom(crc, w, cur, |tags|, id, found))
    decreases |tags|
  {
    hide SoundTag, HasId, SoundChain, FindFrom, FirstFound;
    if tags == [] {
      NoneFound(crc, w, cur, tags, id, found);
    } else {
      ChainTail(crc, w, cur, tags);
      var rest, next := tags[1..], Little(Part(w, cur + 16, 8));
      var now := if found.None? && HasId(w, cur, id) then Some(cur) else found;
      FindTurn(crc, w, cur, |tags|, id, found);
      FindsFirst(crc, w, next, rest, id, now);
      FoundEarlier(w, tags, id, found, FindFrom(crc, w, next, |rest|, id, now));
    }
  }

  /** What is found is in such a chain, whatever has become of the memory since it was accepted. */
  lemma {:induction false} FoundInChain(crc: Checksum, w: Window, cur: nat, left: nat, id: nat, found: Option<nat>) returns (tags: seq<nat>)
    requires FindFrom(crc, w, cur, left, id, found).Some?
    ensures |tags| == left && SoundChain(crc, w, cur, tags)
    decreases left
  {
    hide SoundTag, CrcOk, Value, Little;
    if left == 0 {
      tags := [];
    } else {
      TagPasses(crc, w, cur);
      SoundReaches(crc, w, cur);
      FindTurn(crc, w, cur, left, id, found);
      var next := Little(Part(w, cur + 16, 8));
      var rest := FoundInChain(crc, w, next, left - 1, id, if found.None? && HasId(w, cur, id) then Some(cur) else found);
      tags := [cur] + rest;
      ChainHead(crc, w, cur, rest);
    }
  }

  lemma ChainHead(crc: Checksum, w: Window, cur: nat, rest: seq<nat>)
    requires SoundTag(crc, w, cur) && SoundChain(crc, w, Little(Part(w, cur + 16, 8)), rest)
    ensures SoundChain(crc, w, cur, [cur] + rest)
  {
    hide SoundTag, Little;
    SoundReaches(crc, w, cur);
    var tags := [cur] + rest;
    forall i | 0 <= i < |tags|
      ensures LinkAt(crc, w, tags, i)
    {
      if i > 0 {
        assert LinkAt(crc, w, rest, i - 1);
      }
    }
  }

  /** A search answers with an address exactly if the memory holds a chain of as many sound tags as
      were accepted and one of them is of the kind, and then with the first such. */
  lemma SearchAnswers(crc: Checksum, c: Context, id: nat)
    ensures FindTag(crc, c, id).Some?
       <==> c.count <= 1024 && exists tags :: |tags| == c.count && SoundChain(crc, c.w, c.first, tags) && !NoneOf(c.w, tags, id)
    ensures forall tags :: c.count <= 1024 && |tags| == c.count && SoundChain(crc, c.w, c.first, tags) ==>
      FirstFound(c.w, tags, id, None, FindTag(crc, c, id))
  {
    hide SoundChain, FindFrom, NoneOf, FirstAt;
    forall tags | c.count <= 1024 && |tags| == c.count && SoundChain(crc, c.w, c.first, tags)
      ensures FirstFound(c.w, tags, id, None, FindTag(crc, c, id))
    {
      FirstNonzero(crc, c.w, c.first, tags);
      FindsFirst(crc, c.w, c.first, tags, id, None);
    }
    if FindTag(crc, c, id).Some? {
      var tags := FoundInChain(crc, c.w, c.first, c.count, id, None);
      FindsFirst(crc, c.w, c.first, tags, id, None);
    }
  }

  lemma NoneFound(crc: Checksum, w: Window, cur: nat, tags: seq<nat>, id: nat, found: Option<nat>)
    requires SoundChain(crc, w, cur, tags) && tags == []
    ensures FirstFound(w, tags, id, found, FindFrom(crc, w, cur, 0, id, found))
  {
  }

  lemma FoundEarlier(w: Window, tags: seq<nat>, id: nat, found: Option<nat>, r: Option<nat>)
    requires tags != []
    requires FirstFound(w, tags[1..], id, if found.None? && HasId(w, tags[0], id) then Some(tags[0]) else found, r)
    ensures FirstFound(w, tags, id, found, r)
  {
    hide HasId, NoneOf;
    var rest := tags[1..];
    FirstOfAll(w, tags, id);
    if found.None? && !NoneOf(w, tags, id) {
      if HasId(w, tags[0], id) {
        NoneInNone(w, tags[..0], id);
        assert FirstAt(w, tags, id, 0);
      } else {
        var i :| 0 <= i < |rest| && FirstAt(w, rest, id, i) && r == Some(rest[i]);
        FirstOfAll(w, tags[..i + 1], id);
        assert tags[..i + 1][1..] == rest[..i] && tags[i + 1] == rest[i];
        assert FirstAt(w, tags, id, i + 1);
      }
    }
  }

  lemma NoneInNone(w: Window, tags: seq<nat>, id: nat)
    requires tags == []
    ensures NoneOf(w, tags, id)
  {
  }

  lemma FindTurn(crc: Checksum, w: Window, cur: nat, left: nat, id: nat, found: Option<nat>)
    requires left > 0 && SoundTag(crc, w, cur)
    ensures FindFrom(crc, w, cur, left, id, found)
         == FindFrom(crc, w, Little(Part(w, cur + 16, 8)), left - 1, id, if found.None? && HasId(w, cur, id) then Some(cur) else found)
  {
    hide CrcOk, Value, Little, SoundTag;
    SoundReaches(crc, w, cur);
    TagPasses(crc, w, cur);
    ReadIs(w, cur, 8);
    ReadIs(w, cur + 16, 8);
  }
}
