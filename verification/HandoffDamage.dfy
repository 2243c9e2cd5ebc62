/** The handoff sealed with the CRC that is really used: a damaged structure is turned away. */
module HandoffDamage {
  import opened Options
  import opened HandoffBuild
  import opened HandoffParse
  import Crc64

  // ---------- numbers and bits ----------

  function Bits(n: nat, v: nat): (b: seq<bool>)
    ensures |b| == n
  {
    if n == 0 then [] else [v % 2 == 1] + Bits(n - 1, v / 2)
  }

  function Number(b: seq<bool>): nat {
    if b == [] then 0 else (if b[0] then 1 else 0) + 2 * Number(b[1..])
  }

  function Pow2(n: nat): nat {
    if n == 0 then 1 else 2 * Pow2(n - 1)
  }

  lemma {:induction false} NumberBound(b: seq<bool>)
    ensures Number(b) < Pow2(|b|)
  {
    if b != [] {
      NumberBound(b[1..]);
    }
  }

  lemma {:induction false} NumberInjective(a: seq<bool>, b: seq<bool>)
    requires |a| == |b| && Number(a) == Number(b)
    ensures a == b
  {
    if a != [] {
      NumberInjective(a[1..], b[1..]);
    }
  }

  lemma {:induction false} NumberOfBits(n: nat, v: nat)
    requires v < Pow2(n)
    ensures Number(Bits(n, v)) == v
  {
    if n > 0 {
      NumberOfBits(n - 1, v / 2);
      assert Bits(n, v)[1..] == Bits(n - 1, v / 2);
    }
  }

  lemma {:induction false} Pow2Adds(m: nat, n: nat)
    ensures Pow2(m + n) == Pow2(m) * Pow2(n)
  {
    if m > 0 {
      calc {
        Pow2(m + n);
        2 * Pow2((m - 1) + n);
        { Pow2Adds(m - 1, n); }
        2 * (Pow2(m - 1) * Pow2(n));
        { Associates(2, Pow2(m - 1), Pow2(n)); }
        Pow2(m) * Pow2(n);
      }
    }
  }

  lemma Associates(a: nat, b: nat, c: nat)
    ensures a * (b * c) == (a * b) * c
  {
  }

  lemma WordRange()
    ensures Pow2(8) == 256 && Pow2(64) == MAX64 + 1
  {
    assert Pow2(8) == 2 * Pow2(7) && Pow2(7) == 2 * Pow2(6) && Pow2(6) == 2 * Pow2(5) && Pow2(5) == 2 * Pow2(4);
    assert Pow2(4) == 2 * Pow2(3) && Pow2(3) == 2 * Pow2(2) && Pow2(2) == 2 * Pow2(1);
    Pow2Adds(8, 8);
    Pow2Adds(16, 16);
    Pow2Adds(32, 32);
  }

  function ByteBits(b: Byte): Crc64.Byte {
    Bits(8, b)
  }

  function AllBits(s: seq<Byte>): (r: seq<Crc64.Byte>)
    ensures |r| == |s|
  {
    seq(|s|, i requires 0 <= i < |s| => ByteBits(s[i]))
  }

  lemma AllBitsInjective(a: seq<Byte>, b: seq<Byte>)
    requires AllBits(a) == AllBits(b)
    ensures a == b
  {
    WordRange();
    forall i | 0 <= i < |a|
      ensures a[i] == b[i]
    {
      assert AllBits(a)[i] == AllBits(b)[i];
      NumberOfBits(8, a[i]);
      NumberOfBits(8, b[i]);
    }
  }

  /** `bbp_crc64` as a number. */
  function Sum(s: seq<Byte>): Word64 {
    NumberBound(Crc64.Crc(AllBits(s)));
    WordRange();
    Number(Crc64.Crc(AllBits(s)))
  }

  // ---------- one structure ----------

  /** `a` and `b` differ at most between `lo` and `hi`. */
  ghost predicate Within(a: seq<Byte>, b: seq<Byte>, lo: nat, hi: nat) {
    |a| == |b| && lo <= hi <= |a| && a[..lo] == b[..lo] && a[hi..] == b[hi..]
  }

  lemma SumSeparates(a: seq<Byte>, b: seq<Byte>, lo: nat, hi: nat)
    requires Within(a, b, lo, hi) && hi - lo <= 8
    ensures Sum(a) == Sum(b) <==> a == b
  {
    if Sum(a) == Sum(b) {
      var x, y := AllBits(a), AllBits(b);
      BitsWithin(a, b, lo, hi);
      hide AllBits, Crc64.Crc;
      NumberInjective(Crc64.Crc(x), Crc64.Crc(y));
      Crc64.BurstDetected(x, y, lo, hi);
      AllBitsInjective(a, b);
    }
  }

  lemma BitsWithin(a: seq<Byte>, b: seq<Byte>, lo: nat, hi: nat)
    requires Within(a, b, lo, hi)
    ensures AllBits(a)[..lo] == AllBits(b)[..lo] && AllBits(a)[hi..] == AllBits(b)[hi..]
  {
    SameOutside(a, b, lo, hi);
  }

  /** Damage of at most eight bytes in a row, all of it inside the checksum field or all outside. */
  ghost predicate Burst(a: seq<Byte>, b: seq<Byte>, off: nat, lo: nat, hi: nat) {
    Within(a, b, lo, hi) && hi - lo <= 8 && (hi <= off || off + 8 <= lo || (off <= lo && hi <= off + 8))
  }

  lemma {:induction false} ValueInjective(a: seq<Byte>, b: seq<Byte>)
    requires |a| == |b| && Value(a) == Value(b)
    ensures a == b
  {
    if a != [] {
      ValueInjective(a[1..], b[1..]);
    }
  }

  function Cleared(a: seq<Byte>, off: nat): (c: seq<Byte>)
    requires off + 8 <= |a|
    ensures |c| == |a|
    ensures forall k :: 0 <= k < |a| ==> c[k] == if off <= k < off + 8 then 0 else a[k]
  {
    a[..off] + Zeros(8) + a[off + 8..]
  }

  lemma SealIs(a: seq<Byte>, off: nat)
    requires off + 8 <= |a|
    ensures Sealed(Sum, a, off) <==> Value(a[off..off + 8]) == Sum(Cleared(a, off))
  {
    hide Sum, Value;
  }

  lemma FieldDamaged(a: seq<Byte>, b: seq<Byte>, off: nat, lo: nat, hi: nat)
    requires Within(a, b, lo, hi) && off <= lo && hi <= off + 8 <= |a|
    ensures Cleared(a, off) == Cleared(b, off)
    ensures a[off..off + 8] == b[off..off + 8] ==> a == b
  {
    SameOutside(a, b, lo, hi);
    if a[off..off + 8] == b[off..off + 8] {
      forall k | 0 <= k < |a|
        ensures a[k] == b[k]
      {
        if off <= k < off + 8 {
          assert a[off..off + 8][k - off] == b[off..off + 8][k - off];
        }
      }
    }
  }

  lemma RestDamaged(a: seq<Byte>, b: seq<Byte>, off: nat, lo: nat, hi: nat)
    requires Within(a, b, lo, hi) && off + 8 <= |a| && (hi <= off || off + 8 <= lo)
    ensures a[off..off + 8] == b[off..off + 8] && Within(Cleared(a, off), Cleared(b, off), lo, hi)
    ensures Cleared(a, off) == Cleared(b, off) ==> a == b
  {
    SameOutside(a, b, lo, hi);
    var x, y := Cleared(a, off), Cleared(b, off);
    forall k | 0 <= k < |a|
      ensures !(lo <= k < hi) ==> x[k] == y[k]
      ensures x[k] == y[k] ==> a[k] == b[k]
    {
    }
    assert x[..lo] == y[..lo] && x[hi..] == y[hi..];
  }

  /** A sealed structure that was damaged in such a way is no longer sealed. */
  lemma DamageShows(a: seq<Byte>, b: seq<Byte>, off: nat, lo: nat, hi: nat)
    requires Sealed(Sum, a, off) && Burst(a, b, off, lo, hi)
    ensures Sealed(Sum, b, off) <==> b == a
  {
    hide Sum, Value, Cleared, Within, Sealed;
    LongEnough(a, b, off, lo, hi);
    SealIs(a, off);
    SealIs(b, off);
    if off <= lo && hi <= off + 8 {
      FieldDamaged(a, b, off, lo, hi);
      if Sealed(Sum, b, off) {
        ValueInjective(a[off..off + 8], b[off..off + 8]);
      }
    } else {
      RestDamaged(a, b, off, lo, hi);
      SumSeparates(Cleared(a, off), Cleared(b, off), lo, hi);
    }
  }

  lemma LongEnough(a: seq<Byte>, b: seq<Byte>, off: nat, lo: nat, hi: nat)
    requires Sealed(Sum, a, off) && Within(a, b, lo, hi)
    ensures off + 8 <= |a| == |b|
  {
  }

  lemma SameOutside(a: seq<Byte>, b: seq<Byte>, lo: nat, hi: nat)
    requires Within(a, b, lo, hi)
    ensures forall k :: 0 <= k < |a| && !(lo <= k < hi) ==> a[k] == b[k]
  {
    forall k | 0 <= k < |a| && !(lo <= k < hi)
      ensures a[k] == b[k]
    {
      if k < lo {
        assert a[..lo][k] == b[..lo][k];
      } else {
        assert a[hi..][k - hi] == b[hi..][k - hi];
      }
    }
  }

  // ---------- any damage at all ----------

  /** The checksum field as bits. */
  function FieldBits(a: seq<Byte>, off: nat): (w: Crc64.Word)
    requires off + 8 <= |a|
  {
    Crc64.Concat(AllBits(a[off..off + 8]))
  }

  lemma {:induction false} NumberAppend(p: seq<bool>, q: seq<bool>)
    ensures Number(p + q) == Number(p) + Pow2(|p|) * Number(q)
  {
    if p == [] {
      assert p + q == q;
    } else {
      assert (p + q)[1..] == p[1..] + q;
      NumberAppend(p[1..], q);
      Associates(2, Pow2(|p| - 1), Number(q));
    }
  }

  lemma {:induction false} ValueIsNumber(s: seq<Byte>)
    ensures Value(s) == Number(Crc64.Concat(AllBits(s)))
  {
    WordRange();
    if s != [] {
      assert AllBits(s)[1..] == AllBits(s[1..]);
      NumberAppend(ByteBits(s[0]), Crc64.Concat(AllBits(s[1..])));
      NumberOfBits(8, s[0]);
      ValueIsNumber(s[1..]);
    }
  }

  lemma SealedBits(a: seq<Byte>, off: nat)
    requires off + 8 <= |a|
    ensures Sealed(Sum, a, off) <==> FieldBits(a, off) == Crc64.Crc(AllBits(Cleared(a, off)))
  {
    hide Sealed, Value, AllBits, Cleared, Number, Crc64.Crc, Crc64.Concat;
    SealIs(a, off);
    ValueIsNumber(a[off..off + 8]);
    var x, y := FieldBits(a, off), Crc64.Crc(AllBits(Cleared(a, off)));
    if Number(x) == Number(y) {
      NumberInjective(x, y);
    }
  }

  /** What changed outside the checksum field, as bits. */
  function RestChange(a: seq<Byte>, b: seq<Byte>, off: nat): seq<Crc64.Byte>
    requires off + 8 <= |a| == |b|
  {
    Crc64.XorAll(AllBits(Cleared(a, off)), AllBits(Cleared(b, off)))
  }

  /** Whatever the damage, it goes unseen exactly when the field changed by what the rest of the
      change alone leaves in the register.  What the structure said plays no part. */
  lemma DamageDecides(a: seq<Byte>, b: seq<Byte>, off: nat)
    requires Sealed(Sum, a, off) && off + 8 <= |a| == |b|
    ensures Sealed(Sum, b, off) <==>
      Crc64.Xor(FieldBits(a, off), FieldBits(b, off)) == Crc64.Remainder(RestChange(a, b, off))
  {
    hide Sealed, Cleared, AllBits, FieldBits, Crc64.Crc, Crc64.Xor, Crc64.Remainder, Crc64.XorAll;
    SealedBits(a, off);
    SealedBits(b, off);
    var x, y := AllBits(Cleared(a, off)), AllBits(Cleared(b, off));
    Crc64.CrcMixes(x, y);
    if Crc64.Xor(FieldBits(a, off), FieldBits(b, off)) == Crc64.Xor(Crc64.Crc(x), Crc64.Crc(y)) {
      Crc64.XorCancels(FieldBits(a, off), FieldBits(b, off), Crc64.Crc(y));
    }
  }

  // ---------- the whole handoff ----------

  /** An info structure damaged on the way is not accepted, whatever the tags say. */
  lemma DamagedInfoRefused(info: seq<Byte>, other: seq<Byte>, w: Window, v: Window, lo: nat, hi: nat)
    requires |info| == INFO && InitWin(Sum, info, w).0 == Ok && Burst(info, other, INFO_SEAL_AT, lo, hi) && other != info
    ensures InitWin(Sum, other, v).0 != Ok
  {
    assert Sealed(Sum, info, INFO_SEAL_AT);
    DamageShows(info, other, INFO_SEAL_AT, lo, hi);
    assert Slice(other, INFO_SEAL_AT, 8) == other[INFO_SEAL_AT..INFO_SEAL_AT + 8];
  }

  /** The walk comes to the tag at `at`, and no tag before it has a byte between `lo` and `hi`. */
  ghost predicate Comes(w: Window, cur: nat, left: nat, at: nat, lo: nat, hi: nat)
    decreases left
  {
    left > 0 && TagAt(w, cur).Some?
    && (cur == at || ((hi <= cur || cur + TagAt(w, cur).value <= lo)
                      && Comes(w, Value(Read(w, cur + 16, 8)), left - 1, at, lo, hi)))
  }

  /** The same window of memory but for the bytes between `lo` and `hi`. */
  ghost predicate Altered(w: Window, v: Window, lo: nat, hi: nat) {
    && v == w.(bytes := v.bytes) && |v.bytes| == |w.bytes| && w.lo <= lo <= hi
    && forall k :: 0 <= k < |w.bytes| && !(lo <= w.lo + k < hi) ==> v.bytes[k] == w.bytes[k]
  }

  lemma ReadSame(w: Window, v: Window, lo: nat, hi: nat, at: nat, n: nat)
    requires Altered(w, v, lo, hi) && w.lo <= at && at + n <= w.lo + |w.bytes| && (hi <= at || at + n <= lo)
    ensures Read(v, at, n) == Read(w, at, n)
  {
  }

  lemma SameTag(w: Window, v: Window, lo: nat, hi: nat, cur: nat)
    requires Altered(w, v, lo, hi) && TagAt(w, cur).Some? && (hi <= cur + 8 || cur + 12 <= lo)
    ensures TagAt(v, cur) == TagAt(w, cur)
  {
    ReadSame(w, v, lo, hi, cur + 8, 4);
    hide Value;
  }

  /** A tag whose bytes are damaged, its size aside, stops the walk. */
  lemma DamagedTagStops(w: Window, v: Window, at: nat, lo: nat, hi: nat)
    requires Altered(w, v, lo, hi) && TagAt(w, at).Some? && CrcOk(Sum, w, at, TagAt(w, at).value)
    requires at <= lo <= hi <= at + TagAt(w, at).value && (hi <= at + 8 || at + 12 <= lo)
    requires var size := TagAt(w, at).value; var a, b := Read(w, at, size), Read(v, at, size);
      Burst(a, b, SEAL_AT, lo - at, hi - at) && a != b
    ensures TagAt(v, at) == TagAt(w, at) && !CrcOk(Sum, v, at, TagAt(v, at).value)
  {
    hide Value;
    SameTag(w, v, lo, hi, at);
    var size := TagAt(w, at).value;
    SealRead(w, at, size);
    SealRead(v, at, size);
    DamageShows(Read(w, at, size), Read(v, at, size), SEAL_AT, lo - at, hi - at);
  }

  lemma SealRead(w: Window, at: nat, size: nat)
    requires HEADER <= size && w.lo <= at && at + size <= w.lo + |w.bytes|
    ensures CrcOk(Sum, w, at, size) <==> Sealed(Sum, Read(w, at, size), SEAL_AT)
  {
    hide Value;
    assert Read(w, at, size)[SEAL_AT..SEAL_AT + 8] == Read(w, at + SEAL_AT, 8);
  }

  /** So a chain that was sound and had one tag damaged does not validate. */
  lemma {:induction false} DamagedChainRefused(w: Window, v: Window, cur: nat, left: nat, hhdm: Option<nat>, at: nat,
                                               lo: nat, hi: nat)
    requires Validate(Sum, w, cur, left, hhdm).0 == Ok && Altered(w, v, lo, hi) && Comes(w, cur, left, at, lo, hi)
    requires TagAt(w, at).Some? && at <= lo <= hi <= at + TagAt(w, at).value && (hi <= at + 8 || at + 12 <= lo)
    requires var size := TagAt(w, at).value; var a, b := Read(w, at, size), Read(v, at, size);
      Burst(a, b, SEAL_AT, lo - at, hi - at) && a != b
    ensures Validate(Sum, v, cur, left, hhdm).0 != Ok
    decreases left
  {
    hide Value, Burst, Sum, RegionOk, Altered, Read;
    if cur == at {
      DamagedTagStops(w, v, at, lo, hi);
    } else {
      SameTag(w, v, lo, hi, cur);
      var size := TagAt(w, cur).value;
      SameFields(w, v, lo, hi, cur, size);
      var next := Value(Read(w, cur + 16, 8));
      if Value(Read(w, cur, 8)) == HHDM {
        DamagedChainRefused(w, v, next, left - 1, Some(cur), at, lo, hi);
      } else {
        DamagedChainRefused(w, v, next, left - 1, hhdm, at, lo, hi);
      }
    }
  }

  lemma SameFields(w: Window, v: Window, lo: nat, hi: nat, cur: nat, size: nat)
    requires Altered(w, v, lo, hi) && TagAt(w, cur) == Some(size) && (hi <= cur || cur + size <= lo)
    ensures Read(v, cur, 8) == Read(w, cur, 8) && Read(v, cur + 12, 2) == Read(w, cur + 12, 2)
    ensures Read(v, cur + 16, 8) == Read(w, cur + 16, 8) && Read(v, cur, size) == Read(w, cur, size)
    ensures CrcOk(Sum, v, cur, size) == CrcOk(Sum, w, cur, size)
  {
    hide Value, Sum;
    ReadSame(w, v, lo, hi, cur, 8);
    ReadSame(w, v, lo, hi, cur + 12, 2);
    ReadSame(w, v, lo, hi, cur + 16, 8);
    ReadSame(w, v, lo, hi, cur, size);
    ReadSame(w, v, lo, hi, cur + SEAL_AT, 8);
  }
}
