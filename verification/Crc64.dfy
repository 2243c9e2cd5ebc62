/** CRC-64/XZ as computed bit by bit in bbp/include/bbp/bbp_crc64.h, and the
    field-skipping form shared by bbp/bbp_kernel.c and bbp/bbp_build.c.
    A machine word is the sequence of its bits, least significant first, so the
    C operators on it are pointwise. */
module Crc64 {
  import opened Folds

  type Word = w: seq<bool> | |w| == 64 witness seq(64, i => false)
  type Byte = b: seq<bool> | |b| == 8 witness seq(8, i => false)

  /** 0xC96C5795D7870F42, low byte first. */
  const POLY: seq<bool> :=
      [false, true, false, false, false, false, true, false]  // 0x42
    + [true, true, true, true, false, false, false, false]  // 0x0F
    + [true, true, true, false, false, false, false, true]  // 0x87
    + [true, true, true, false, true, false, true, true]  // 0xD7
    + [true, false, true, false, true, false, false, true]  // 0x95
    + [true, true, true, false, true, false, true, false]  // 0x57
    + [false, false, true, true, false, true, true, false]  // 0x6C
    + [true, false, false, true, false, false, true, true]  // 0xC9

  // ---------- word operators ----------

  function Fill(bit: bool): Word { seq(64, i => bit) }

  function Xor(a: Word, b: Word): Word { seq(64, i requires 0 <= i < 64 => a[i] != b[i]) }

  function And(a: Word, b: Word): Word { seq(64, i requires 0 <= i < 64 => a[i] && b[i]) }

  /** A logical shift right by one. */
  function Down(a: Word): Word { a[1..] + [false] }

  function Widen(b: Byte): Word { b + seq(56, i => false) }

  // ---------- specification ----------

  /** One bit of the reflected division. */
  function Step(c: Word): Word {
    if c[0] then Xor(Down(c), POLY) else Down(c)
  }

  /** One byte: into the low end of the register, then eight bit steps. */
  function Absorb(c: Word, b: Byte): Word {
    Iterate(Step, Xor(c, Widen(b)), 8)
  }

  function Crc(data: seq<Byte>): Word {
    Xor(FoldLeft(Absorb, Fill(true), data), Fill(true))
  }

  const ZERO_BYTE: Byte := [false, false, false, false, false, false, false, false]
  const ZERO_FIELD: seq<Byte> := [
    ZERO_BYTE, ZERO_BYTE, ZERO_BYTE, ZERO_BYTE, ZERO_BYTE, ZERO_BYTE, ZERO_BYTE, ZERO_BYTE
  ]

  /** `data` with the eight bytes at `off` replaced by zeros. */
  function ZeroField(data: seq<Byte>, off: nat): seq<Byte>
    requires off + 8 <= |data|
  {
    data[..off] + ZERO_FIELD + data[off + 8..]
  }

  // ---------- the code ----------

  method Update(crc: Word, data: seq<Byte>) returns (r: Word)
    ensures r == FoldLeft(Absorb, crc, data)
  {
    r := crc;
    for i := 0 to |data|
      invariant r == FoldLeft(Absorb, crc, data[..i])
    {
      assert data[..i + 1][..i] == data[..i];
      r := UpdateByte(r, data[i]);
    }
    assert data[..|data|] == data;
  }

  /** The body of the update loop, with its eight conditional reductions. */
  method UpdateByte(crc: Word, b: Byte) returns (r: Word)
    ensures r == Absorb(crc, b)
  {
    r := Rounds(Xor(crc, Widen(b)), 8);
  }

  method Rounds(crc: Word, n: nat) returns (r: Word)
    ensures r == Iterate(Step, crc, n)
  {
    r := crc;
    for k := 0 to n
      invariant Iterate(Step, crc, n) == Iterate(Step, r, n - k)
    {
      r := Round(r);
    }
  }

  /** The reduction is selected by a mask of all ones or all zeros. */
  method Round(crc: Word) returns (r: Word)
    ensures r == Step(crc)
  {
    var mask := Fill(crc[0]);
    r := Xor(Down(crc), And(POLY, mask));
  }

  method OneShot(data: seq<Byte>) returns (r: Word)
    ensures r == Crc(data)
  {
    r := Update(Fill(true), data);
    r := Xor(r, Fill(true));
  }

  /** The checksum of a structure whose own checksum field sits at `off`. */
  method CrcSkip(data: seq<Byte>, off: nat) returns (r: Word)
    ensures |data| < off + 8 ==> r == Fill(true)
    ensures |data| >= off + 8 ==> r == Crc(ZeroField(data, off))
  {
    if |data| < off + 8 {
      return Fill(true);
    }
    var zeros := ZERO_FIELD;
    var c := Update(Fill(true), data[..off]);
    c := Update(c, zeros);
    c := Update(c, data[off + 8..]);
    r := Xor(c, Fill(true));
    FoldThree(Absorb, Fill(true), data[..off], zeros, data[off + 8..]);
  }

  // ---------- the bit step is a bijection ----------

  /** The inverse: the polynomial's top bit records the bit that was shifted out. */
  function Unstep(c: Word): Word {
    [c[63]] + seq(63, i requires 0 <= i < 63 => c[i] != (c[63] && POLY[i]))
  }

  lemma StepBijective(c: Word)
    ensures Unstep(Step(c)) == c
    ensures Step(Unstep(c)) == c
  {
    assert POLY[63];
  }

  lemma StepInjective()
    ensures Injective(Step)
  {
    forall a, b | Step(a) == Step(b)
      ensures a == b
    {
      StepBijective(a);
      StepBijective(b);
    }
  }

  lemma XorTwice(a: Word, k: Word)
    ensures Xor(Xor(a, k), k) == a
  {
  }

  /** Whatever the byte, absorbing it never merges two registers. */
  lemma AbsorbInjective()
    ensures ActsInjectively(Absorb)
  {
    forall a, b, x | Absorb(a, x) == Absorb(b, x)
      ensures a == b
    {
      StepInjective();
      IterateInjective(Step, Xor(a, Widen(x)), Xor(b, Widen(x)), 8);
      XorTwice(a, Widen(x));
      XorTwice(b, Widen(x));
    }
  }

  // ---------- burst detection ----------

  predicate Low(a: Word) { a[0] }

  lemma StepSlides()
    ensures Slides(Step, Xor, Down, Low)
  {
    forall x, y | !Low(y)
      ensures Step(Xor(x, y)) == Xor(Step(x), Down(y))
    {
    }
  }

  /** Bits at the low end of an otherwise clear word. */
  function Padded(q: seq<bool>): Word
    requires |q| <= 64
  {
    q + seq(64 - |q|, i => false)
  }

  function Concat(w: seq<Byte>): (r: seq<bool>)
    ensures |r| == 8 * |w|
  {
    if w == [] then [] else w[0] + Concat(w[1..])
  }

  lemma {:induction false} ConcatInjective(v: seq<Byte>, w: seq<Byte>)
    requires |v| == |w| && Concat(v) == Concat(w)
    ensures v == w
  {
    if v != [] {
      assert v[0] == Concat(v)[..8] && Concat(v[1..]) == Concat(v)[8..];
      assert w[0] == Concat(w)[..8] && Concat(w[1..]) == Concat(w)[8..];
      ConcatInjective(v[1..], w[1..]);
    }
  }

  /** As many moves down as there are low zeros give the rest of the bits back. */
  lemma {:induction false} ZerosFallOut(q: seq<bool>, n: nat)
    requires |q| + n <= 64
    ensures ClearFor(Down, Low, Padded(seq(n, i => false) + q), n)
    ensures Iterate(Down, Padded(seq(n, i => false) + q), n) == Padded(q)
  {
    if n == 0 {
      assert seq(n, i => false) + q == q;
    } else {
      assert Down(Padded(seq(n, i => false) + q)) == Padded(seq(n - 1, i => false) + q);
      ZerosFallOut(q, n - 1);
    }
  }

  function ByteUp(rest: seq<bool>): Word
    requires |rest| <= 56
  {
    Padded(seq(8, i => false) + rest)
  }

  lemma ByteUpSlides(x: Word, rest: seq<bool>)
    requires |rest| <= 56
    ensures Iterate(Step, Xor(x, ByteUp(rest)), 8) == Xor(Iterate(Step, x, 8), Padded(rest))
  {
    StepSlides();
    ZerosFallOut(rest, 8);
    IterateSlides(Step, Xor, Down, Low, x, ByteUp(rest), 8);
  }

  lemma XorByteUp(s: Word, b: Byte, rest: seq<bool>)
    requires |rest| <= 56
    ensures Xor(Xor(s, Widen(b)), ByteUp(rest)) == Xor(s, Padded(b + rest))
  {
  }

  /** Mixing in bits one byte up before absorbing a byte is mixing them in after it. */
  lemma LaterBits(s: Word, b: Byte, rest: seq<bool>, n: nat)
    requires |rest| <= 56
    ensures Iterate(Step, Xor(s, Padded(b + rest)), 8 + n) == Iterate(Step, Xor(Absorb(s, b), Padded(rest)), n)
  {
    XorByteUp(s, b, rest);
    ByteUpSlides(Xor(s, Widen(b)), rest);
    IterateSplit(Step, Xor(s, Padded(b + rest)), 8, n);
  }

  /** Up to eight bytes act together as one word mixed in at the start. */
  lemma {:induction false} WindowAsWord(s: Word, w: seq<Byte>)
    requires |w| <= 8
    ensures FoldLeft(Absorb, s, w) == Iterate(Step, Xor(s, Padded(Concat(w))), 8 * |w|)
    decreases |w|
  {
    if w == [] {
      assert Xor(s, Padded([])) == s;
    } else {
      FoldFirst(Absorb, s, w);
      WindowAsWord(Absorb(s, w[0]), w[1..]);
      LaterBits(s, w[0], Concat(w[1..]), 8 * |w[1..]|);
    }
  }

  lemma WindowInjective(s: Word, v: seq<Byte>, w: seq<Byte>)
    requires |v| == |w| <= 8
    requires FoldLeft(Absorb, s, v) == FoldLeft(Absorb, s, w)
    ensures v == w
  {
    WindowAsWord(s, v);
    WindowAsWord(s, w);
    var x, y := Padded(Concat(v)), Padded(Concat(w));
    StepInjective();
    IterateInjective(Step, Xor(s, x), Xor(s, y), 8 * |v|);
    XorCancels(s, x, y);
    assert Concat(v) == x[..8 * |v|] && Concat(w) == y[..8 * |w|];
    ConcatInjective(v, w);
  }

  lemma XorCancels(s: Word, x: Word, y: Word)
    requires Xor(s, x) == Xor(s, y)
    ensures x == y
  {
    forall i | 0 <= i < 64
      ensures x[i] == y[i]
    {
      assert Xor(s, x)[i] == Xor(s, y)[i];
    }
  }

  lemma FinalInjective(m: seq<Byte>, n: seq<Byte>)
    requires Crc(m) == Crc(n)
    ensures FoldLeft(Absorb, Fill(true), m) == FoldLeft(Absorb, Fill(true), n)
  {
    XorTwice(FoldLeft(Absorb, Fill(true), m), Fill(true));
    XorTwice(FoldLeft(Absorb, Fill(true), n), Fill(true));
  }

  /** Two messages that differ only within eight consecutive bytes never share a checksum. */
  lemma BurstDetected(m: seq<Byte>, n: seq<Byte>, lo: nat, hi: nat)
    requires |m| == |n| && lo <= hi <= |m| && hi - lo <= 8
    requires m[..lo] == n[..lo] && m[hi..] == n[hi..]
    ensures Crc(m) == Crc(n) <==> m == n
  {
    if Crc(m) == Crc(n) {
      var before := FoldLeft(Absorb, Fill(true), m[..lo]);
      assert m == m[..lo] + m[lo..hi] + m[hi..];
      assert n == n[..lo] + n[lo..hi] + n[hi..];
      FinalInjective(m, n);
      FoldThree(Absorb, Fill(true), m[..lo], m[lo..hi], m[hi..]);
      FoldThree(Absorb, Fill(true), n[..lo], n[lo..hi], n[hi..]);
      AbsorbInjective();
      FoldInjective(Absorb, FoldLeft(Absorb, before, m[lo..hi]), FoldLeft(Absorb, before, n[lo..hi]), m[hi..]);
      WindowInjective(before, m[lo..hi], n[lo..hi]);
    }
  }

  // ---------- what a change does ----------

  function XorByte(a: Byte, b: Byte): Byte { seq(8, i requires 0 <= i < 8 => a[i] != b[i]) }

  /** Where two messages differ. */
  function XorAll(m: seq<Byte>, n: seq<Byte>): (r: seq<Byte>)
    requires |m| == |n|
    ensures |r| == |m|
  {
    seq(|m|, i requires 0 <= i < |m| => XorByte(m[i], n[i]))
  }

  /** The register after `d`, started clear. */
  function Remainder(d: seq<Byte>): Word { FoldLeft(Absorb, Fill(false), d) }

  lemma StepMixes(a: Word, b: Word)
    ensures Step(Xor(a, b)) == Xor(Step(a), Step(b))
  {
  }

  lemma {:induction false} RoundsMix(a: Word, b: Word, n: nat)
    ensures Iterate(Step, Xor(a, b), n) == Xor(Iterate(Step, a, n), Iterate(Step, b, n))
    decreases n
  {
    hide Step;
    if n > 0 {
      StepMixes(a, b);
      RoundsMix(Step(a), Step(b), n - 1);
    }
  }

  lemma AbsorbMixes(a: Word, b: Word, x: Byte, y: Byte)
    ensures Absorb(Xor(a, b), XorByte(x, y)) == Xor(Absorb(a, x), Absorb(b, y))
  {
    assert Xor(Xor(a, b), Widen(XorByte(x, y))) == Xor(Xor(a, Widen(x)), Xor(b, Widen(y)));
    RoundsMix(Xor(a, Widen(x)), Xor(b, Widen(y)), 8);
  }

  lemma {:induction false} FoldMixes(a: Word, b: Word, m: seq<Byte>, n: seq<Byte>)
    requires |m| == |n|
    ensures FoldLeft(Absorb, Xor(a, b), XorAll(m, n)) == Xor(FoldLeft(Absorb, a, m), FoldLeft(Absorb, b, n))
    decreases |m|
  {
    hide Absorb, Xor, XorByte;
    if m != [] {
      var k := |m| - 1;
      assert XorAll(m, n)[..k] == XorAll(m[..k], n[..k]);
      FoldMixes(a, b, m[..k], n[..k]);
      AbsorbMixes(FoldLeft(Absorb, a, m[..k]), FoldLeft(Absorb, b, n[..k]), m[k], n[k]);
    }
  }

  /** Two checksums differ by what the difference alone leaves in the register. */
  lemma CrcMixes(m: seq<Byte>, n: seq<Byte>)
    requires |m| == |n|
    ensures Xor(Crc(m), Crc(n)) == Remainder(XorAll(m, n))
  {
    var x, y, ones := FoldLeft(Absorb, Fill(true), m), FoldLeft(Absorb, Fill(true), n), Fill(true);
    FoldMixes(ones, ones, m, n);
    assert Xor(ones, ones) == Fill(false);
    assert Xor(Xor(x, ones), Xor(y, ones)) == Xor(x, y);
  }

  /** Feeding a message in two pieces gives the one-shot checksum. */
  lemma StreamingAgrees(a: seq<Byte>, b: seq<Byte>)
    ensures Xor(FoldLeft(Absorb, FoldLeft(Absorb, Fill(true), a), b), Fill(true)) == Crc(a + b)
  {
    FoldSplit(Absorb, Fill(true), a, b);
  }
}
