/** The check value of CRC-64/XZ: the checksum of the digits 1 to 9.  It is worked out on 64-bit
    vectors, which are proved to move as the bit lists of `Crc64` do. */
module CrcCheck {
  import opened Folds
  import opened Crc64
  import HandoffBuild
  import HandoffDamage

  // ---------- bit vectors as words ----------

  function Left(m: bv64): bv64 { m << 1 }

  function Right(m: bv64): bv64 { m >> 1 }

  function RightByte(m: bv64): bv64 {
    Right(Right(Right(Right(Right(Right(Right(Right(m))))))))
  }

  function Either(x: bv64, y: bv64): bv64 { x ^ y }

  /** The vector with just bit `i`. */
  function Mask(i: nat): bv64 {
    if i == 0 then 1 else Left(Mask(i - 1))
  }

  predicate Meets(x: bv64, m: bv64) { x & m != 0 }

  predicate Bit(x: bv64, i: nat) { Meets(x, Mask(i)) }

  function WordOf(x: bv64): Word {
    seq(64, i requires 0 <= i < 64 => Bit(x, i))
  }

  /** The lowest eight bits. */
  function ByteOf(x: bv64): Byte {
    seq(8, i requires 0 <= i < 8 => Bit(x, i))
  }

  // ---------- the masks ----------

  lemma LowMasks()
    ensures Mask(0) == 1 && Mask(1) == 2 && Mask(2) == 4 && Mask(3) == 8
    ensures Mask(4) == 16 && Mask(5) == 32 && Mask(6) == 64 && Mask(7) == 128
  {
    assert Mask(1) == Left(Mask(0)) && Mask(2) == Left(Mask(1)) && Mask(3) == Left(Mask(2));
    assert Mask(4) == Left(Mask(3)) && Mask(5) == Left(Mask(4)) && Mask(6) == Left(Mask(5)) && Mask(7) == Left(Mask(6));
  }

  lemma MaskNext(i: nat)
    ensures Mask(i + 1) == Left(Mask(i))
  {
  }

  lemma EightMasks(i: nat)
    ensures Mask(i + 8) == Left(Left(Left(Left(Left(Left(Left(Left(Mask(i)))))))))
  {
    hide Left;
    MaskNext(i);
    MaskNext(i + 1);
    MaskNext(i + 2);
    MaskNext(i + 3);
    MaskNext(i + 4);
    MaskNext(i + 5);
    MaskNext(i + 6);
    MaskNext(i + 7);
  }

  lemma TopMask()
    ensures Mask(63) == 0x8000_0000_0000_0000
  {
    LowMasks();
    hide Mask;
    EightMasks(7);
    assert Mask(15) == 0x8000;
    EightMasks(15);
    assert Mask(23) == 0x80_0000;
    EightMasks(23);
    assert Mask(31) == 0x8000_0000;
    EightMasks(31);
    assert Mask(39) == 0x80_0000_0000;
    EightMasks(39);
    assert Mask(47) == 0x8000_0000_0000;
    EightMasks(47);
    assert Mask(55) == 0x80_0000_0000_0000;
    EightMasks(55);
  }

  predicate OneAtMost(m: bv64) { m & (m - 1) == 0 }

  lemma {:induction false} OneBit(i: nat)
    ensures OneAtMost(Mask(i))
  {
    hide OneAtMost, Left;
    if i > 0 {
      OneBit(i - 1);
      StillOneBit(Mask(i - 1));
    } else {
      OneIsOne();
    }
  }

  lemma OneIsOne()
    ensures OneAtMost(1)
  {
  }

  lemma StillOneBit(m: bv64)
    requires OneAtMost(m)
    ensures OneAtMost(Left(m))
  {
  }

  // ---------- how the operators move bits ----------

  lemma MeetsEither(x: bv64, y: bv64, m: bv64)
    requires OneAtMost(m)
    ensures Meets(Either(x, y), m) == (Meets(x, m) != Meets(y, m))
  {
    XorAtOneBit(x, y, m);
  }

  lemma XorAtOneBit(x: bv64, y: bv64, m: bv64)
    requires m & (m - 1) == 0
    ensures ((x ^ y) & m != 0) == ((x & m != 0) != (y & m != 0))
  {
  }

  lemma MeetsRight(x: bv64, m: bv64)
    ensures Meets(Right(x), m) == Meets(x, Left(m))
  {
  }

  lemma TopFalls(x: bv64)
    ensures !Meets(Right(x), 0x8000_0000_0000_0000)
  {
  }

  lemma XorLink(x: bv64, y: bv64)
    ensures WordOf(Either(x, y)) == Xor(WordOf(x), WordOf(y))
  {
    hide Mask, Meets, Either;
    var a, b := WordOf(Either(x, y)), Xor(WordOf(x), WordOf(y));
    forall i | 0 <= i < 64
      ensures a[i] == b[i]
    {
      OneBit(i);
      MeetsEither(x, y, Mask(i));
    }
  }

  lemma DownLink(x: bv64)
    ensures WordOf(Right(x)) == Down(WordOf(x))
  {
    hide Mask, Meets, Right;
    var a, b := WordOf(Right(x)), Down(WordOf(x));
    forall i | 0 <= i < 64
      ensures a[i] == b[i]
    {
      BitRight(x, i);
    }
  }

  lemma BitRight(x: bv64, i: nat)
    requires i < 64
    ensures Bit(Right(x), i) == (i < 63 && Bit(x, i + 1))
  {
    hide Mask, Meets, Right, Left;
    if i < 63 {
      MeetsRight(x, Mask(i));
      MaskNext(i);
    } else {
      TopMask();
      TopFalls(x);
    }
  }

  // ---------- a word byte by byte ----------

  function BytesOf(x: bv64, n: nat): (s: seq<Byte>)
    ensures |s| == n
    decreases n
  {
    if n == 0 then [] else [ByteOf(x)] + BytesOf(RightByte(x), n - 1)
  }

  lemma {:induction false} ByteBit(x: bv64, n: nat, i: nat)
    requires i < 8 * n <= 64
    ensures Bit(x, i) == Concat(BytesOf(x, n))[i]
    decreases n
  {
    hide Bit, RightByte;
    if i >= 8 {
      BitRightByte(x, i - 8);
      ByteBit(RightByte(x), n - 1, i - 8);
    }
  }

  lemma BitRightByte(x: bv64, i: nat)
    requires i + 8 < 64
    ensures Bit(x, i + 8) == Bit(RightByte(x), i)
  {
    hide Bit, Right;
    var a := Right(x);
    var b := Right(a);
    var c := Right(b);
    var d := Right(c);
    var e := Right(d);
    var f := Right(e);
    var g := Right(f);
    BitRight(x, i + 7);
    BitRight(a, i + 6);
    BitRight(b, i + 5);
    BitRight(c, i + 4);
    BitRight(d, i + 3);
    BitRight(e, i + 2);
    BitRight(f, i + 1);
    BitRight(g, i);
  }

  lemma WordIsBytes(x: bv64)
    ensures WordOf(x) == Concat(BytesOf(x, 8))
  {
    hide Bit, BytesOf, Concat;
    var a, b := WordOf(x), Concat(BytesOf(x, 8));
    forall i | 0 <= i < 64
      ensures a[i] == b[i]
    {
      ByteBit(x, 8, i);
    }
  }

  lemma LowBits(x: bv64)
    ensures ByteOf(x) == [
      Meets(x, 1), Meets(x, 2), Meets(x, 4), Meets(x, 8), Meets(x, 16), Meets(x, 32), Meets(x, 64), Meets(x, 128)]
  {
    hide Mask, Meets;
    LowMasks();
  }

  // ---------- the steps of the checksum ----------

  const BV_POLY: bv64 := 0xC96C_5795_D787_0F42

  function BvStep(x: bv64): bv64 {
    if x & 1 != 0 then Either(Right(x), BV_POLY) else Right(x)
  }

  function BvRounds(x: bv64, n: nat): bv64
    decreases n
  {
    if n == 0 then x else BvRounds(BvStep(x), n - 1)
  }

  lemma ManyBytes(x: bv64, n: nat)
    requires n > 0
    ensures BytesOf(x, n) == [ByteOf(x)] + BytesOf(RightByte(x), n - 1) && BytesOf(x, 0) == []
  {
  }

  /** The bytes of a word given as eight numbers, lowest first. */
  lemma BytesAre(x: bv64, a: bv64, b: bv64, c: bv64, d: bv64, e: bv64, f: bv64, g: bv64)
    requires a == RightByte(x) && b == RightByte(a) && c == RightByte(b) && d == RightByte(c)
    requires e == RightByte(d) && f == RightByte(e) && g == RightByte(f)
    ensures BytesOf(x, 8) == [ByteOf(x), ByteOf(a), ByteOf(b), ByteOf(c), ByteOf(d), ByteOf(e), ByteOf(f), ByteOf(g)]
  {
    hide BytesOf, ByteOf, RightByte;
    ManyBytes(x, 8);
    ManyBytes(a, 7);
    ManyBytes(b, 6);
    ManyBytes(c, 5);
    ManyBytes(d, 4);
    ManyBytes(e, 3);
    ManyBytes(f, 2);
    ManyBytes(g, 1);
  }

  lemma PolyShifts()
    ensures RightByte(0xC96C5795D7870F42) == 0xC96C5795D7870F && RightByte(0xC96C5795D7870F) == 0xC96C5795D787 && RightByte(0xC96C5795D787) == 0xC96C5795D7 && RightByte(0xC96C5795D7) == 0xC96C5795 && RightByte(0xC96C5795) == 0xC96C57 && RightByte(0xC96C57) == 0xC96C && RightByte(0xC96C) == 0xC9
  {
  }

  lemma StepLink(x: bv64)
    requires WordOf(BV_POLY) == POLY
    ensures WordOf(BvStep(x)) == Step(WordOf(x))
  {
    LowMasks();
    DownLink(x);
    XorLink(Right(x), BV_POLY);
    hide Mask, Right, Either, Down, Xor;
  }

  lemma MoreConcat(s: seq<Byte>)
    requires s != []
    ensures Concat(s) == s[0] + Concat(s[1..])
  {
  }

  lemma ConcatEight(a: Byte, b: Byte, c: Byte, d: Byte, e: Byte, f: Byte, g: Byte, h: Byte)
    ensures Concat([a, b, c, d, e, f, g, h]) == a + b + c + d + e + f + g + h
  {
    hide Concat;
    MoreConcat([a, b, c, d, e, f, g, h]);
    MoreConcat([b, c, d, e, f, g, h]);
    MoreConcat([c, d, e, f, g, h]);
    MoreConcat([d, e, f, g, h]);
    MoreConcat([e, f, g, h]);
    MoreConcat([f, g, h]);
    MoreConcat([g, h]);
    MoreConcat([h]);
    assert [a, b, c, d, e, f, g, h][1..] == [b, c, d, e, f, g, h];
    assert [b, c, d, e, f, g, h][1..] == [c, d, e, f, g, h];
    assert [c, d, e, f, g, h][1..] == [d, e, f, g, h];
    assert [d, e, f, g, h][1..] == [e, f, g, h];
    assert [e, f, g, h][1..] == [f, g, h];
    assert [f, g, h][1..] == [g, h];
    assert [g, h][1..] == [h];
    NoConcat();
  }

  lemma NoConcat()
    ensures forall s: seq<Byte> :: s == [] ==> Concat(s) == []
  {
  }

  /** The bit list of `Crc64` is the number that the header has. */
  lemma PolyLink()
    ensures WordOf(BV_POLY) == POLY
  {
    PolyShifts();
    WordIsBytes(BV_POLY);
    BytesAre(0xC96C5795D7870F42, 0xC96C5795D7870F, 0xC96C5795D787, 0xC96C5795D7, 0xC96C5795, 0xC96C57, 0xC96C, 0xC9);
    PolyBytes();
    hide ByteOf, BytesOf, WordOf, RightByte, Concat;
    ConcatEight(
      [false, true, false, false, false, false, true, false],
      [true, true, true, true, false, false, false, false],
      [true, true, true, false, false, false, false, true],
      [true, true, true, false, true, false, true, true],
      [true, false, true, false, true, false, false, true],
      [true, true, true, false, true, false, true, false],
      [false, false, true, true, false, true, true, false],
      [true, false, false, true, false, false, true, true]);
  }

  lemma PolyBytes()
    ensures ByteOf(0xC96C5795D7870F42) == [false, true, false, false, false, false, true, false]
    ensures ByteOf(0xC96C5795D7870F) == [true, true, true, true, false, false, false, false]
    ensures ByteOf(0xC96C5795D787) == [true, true, true, false, false, false, false, true]
    ensures ByteOf(0xC96C5795D7) == [true, true, true, false, true, false, true, true]
    ensures ByteOf(0xC96C5795) == [true, false, true, false, true, false, false, true]
    ensures ByteOf(0xC96C57) == [true, true, true, false, true, false, true, false]
    ensures ByteOf(0xC96C) == [false, false, true, true, false, true, true, false]
    ensures ByteOf(0xC9) == [true, false, false, true, false, false, true, true]
  {
    forall x
      ensures ByteOf(x) == [
        Meets(x, 1), Meets(x, 2), Meets(x, 4), Meets(x, 8), Meets(x, 16), Meets(x, 32), Meets(x, 64), Meets(x, 128)]
    {
      LowBits(x);
    }
    hide ByteOf;
  }

  lemma {:induction false} RoundsLink(x: bv64, n: nat)
    requires WordOf(BV_POLY) == POLY
    ensures WordOf(BvRounds(x, n)) == Iterate(Step, WordOf(x), n)
    decreases n
  {
    hide Step, WordOf, BvStep;
    if n > 0 {
      StepLink(x);
      RoundsLink(BvStep(x), n - 1);
    }
  }

  // ---------- bytes absorbed ----------

  lemma NoHighBits(y: bv64, i: nat)
    requires y < 256 && 8 <= i < 64
    ensures !Bit(y, i)
  {
    BitRightByte(y, i - 8);
    ByteIsShort(y);
    hide Mask;
    assert !Meets(0, Mask(i - 8));
  }

  lemma ByteIsShort(y: bv64)
    requires y < 256
    ensures RightByte(y) == 0
  {
  }

  lemma WidenLink(y: bv64)
    requires y < 256
    ensures Widen(ByteOf(y)) == WordOf(y)
  {
    hide Bit;
    var a, b := Widen(ByteOf(y)), WordOf(y);
    forall i | 0 <= i < 64
      ensures a[i] == b[i]
    {
      if i >= 8 {
        NoHighBits(y, i);
      }
    }
  }

  lemma AbsorbLink(x: bv64, y: bv64)
    requires y < 256
    ensures Absorb(WordOf(x), ByteOf(y)) == WordOf(BvRounds(Either(x, y), 8))
  {
    hide ByteOf, WordOf, BvRounds, Either, Xor, Widen, Step;
    PolyLink();
    WidenLink(y);
    XorLink(x, y);
    RoundsLink(Either(x, y), 8);
  }

  /** The register once `s` has gone in. */
  function Register(s: seq<HandoffBuild.Byte>): Word {
    FoldLeft(Absorb, Fill(true), HandoffDamage.AllBits(s))
  }

  lemma OneMore(s: seq<HandoffBuild.Byte>, v: HandoffBuild.Byte, x: bv64, y: bv64)
    requires Register(s) == WordOf(x) && HandoffDamage.ByteBits(v) == ByteOf(y) && y < 256
    ensures Register(s + [v]) == WordOf(BvRounds(Either(x, y), 8))
  {
    var a := HandoffDamage.AllBits(s + [v]);
    assert a[..|s|] == HandoffDamage.AllBits(s) && a[|s|] == HandoffDamage.ByteBits(v);
    hide Absorb, ByteOf, WordOf, BvRounds, HandoffDamage.ByteBits;
    AbsorbLink(x, y);
  }

  // ---------- the digits ----------

  const ONES: bv64 := 0xFFFF_FFFF_FFFF_FFFF

  lemma OnesShifts()
    ensures RightByte(0xFFFFFFFFFFFFFFFF) == 0xFFFFFFFFFFFFFF && RightByte(0xFFFFFFFFFFFFFF) == 0xFFFFFFFFFFFF && RightByte(0xFFFFFFFFFFFF) == 0xFFFFFFFFFF && RightByte(0xFFFFFFFFFF) == 0xFFFFFFFF && RightByte(0xFFFFFFFF) == 0xFFFFFF && RightByte(0xFFFFFF) == 0xFFFF && RightByte(0xFFFF) == 0xFF
  {
  }

  lemma OnesBytes()
    ensures ByteOf(0xFFFFFFFFFFFFFFFF) == [true, true, true, true, true, true, true, true]
    ensures ByteOf(0xFFFFFFFFFFFFFF) == [true, true, true, true, true, true, true, true]
    ensures ByteOf(0xFFFFFFFFFFFF) == [true, true, true, true, true, true, true, true]
    ensures ByteOf(0xFFFFFFFFFF) == [true, true, true, true, true, true, true, true]
    ensures ByteOf(0xFFFFFFFF) == [true, true, true, true, true, true, true, true]
    ensures ByteOf(0xFFFFFF) == [true, true, true, true, true, true, true, true]
    ensures ByteOf(0xFFFF) == [true, true, true, true, true, true, true, true]
    ensures ByteOf(0xFF) == [true, true, true, true, true, true, true, true]
  {
    forall x
      ensures ByteOf(x) == [
        Meets(x, 1), Meets(x, 2), Meets(x, 4), Meets(x, 8), Meets(x, 16), Meets(x, 32), Meets(x, 64), Meets(x, 128)]
    {
      LowBits(x);
    }
    hide ByteOf;
  }

  lemma OnesLink()
    ensures WordOf(ONES) == Fill(true)
  {
    OnesShifts();
    WordIsBytes(ONES);
    BytesAre(0xFFFFFFFFFFFFFFFF, 0xFFFFFFFFFFFFFF, 0xFFFFFFFFFFFF, 0xFFFFFFFFFF, 0xFFFFFFFF, 0xFFFFFF, 0xFFFF, 0xFF);
    OnesBytes();
    hide ByteOf, BytesOf, WordOf, RightByte, Concat;
    var t := [true, true, true, true, true, true, true, true];
    ConcatEight(t, t, t, t, t, t, t, t);
    assert t + t + t + t + t + t + t + t == Fill(true);
  }

  lemma DigitBytes()
    ensures ByteOf(49) == [true, false, false, false, true, true, false, false]
    ensures ByteOf(50) == [false, true, false, false, true, true, false, false]
    ensures ByteOf(51) == [true, true, false, false, true, true, false, false]
    ensures ByteOf(52) == [false, false, true, false, true, true, false, false]
    ensures ByteOf(53) == [true, false, true, false, true, true, false, false]
    ensures ByteOf(54) == [false, true, true, false, true, true, false, false]
    ensures ByteOf(55) == [true, true, true, false, true, true, false, false]
    ensures ByteOf(56) == [false, false, false, true, true, true, false, false]
    ensures ByteOf(57) == [true, false, false, true, true, true, false, false]
  {
    forall x
      ensures ByteOf(x) == [
        Meets(x, 1), Meets(x, 2), Meets(x, 4), Meets(x, 8), Meets(x, 16), Meets(x, 32), Meets(x, 64), Meets(x, 128)]
    {
      LowBits(x);
    }
    hide ByteOf;
  }

  lemma BitsMore(n: nat, v: nat)
    requires n > 0
    ensures HandoffDamage.Bits(n, v) == [v % 2 == 1] + HandoffDamage.Bits(n - 1, v / 2) && HandoffDamage.Bits(0, v) == []
  {
  }

  lemma BitsFour(n: nat, a: nat, b: nat, c: nat, d: nat, e: nat)
    requires b == a / 2 && c == b / 2 && d == c / 2 && e == d / 2
    ensures HandoffDamage.Bits(n + 4, a) == [a % 2 == 1, b % 2 == 1, c % 2 == 1, d % 2 == 1] + HandoffDamage.Bits(n, e)
  {
    hide HandoffDamage.Bits;
    BitsMore(n + 4, a);
    BitsMore(n + 3, b);
    BitsMore(n + 2, c);
    BitsMore(n + 1, d);
  }

  lemma BitsEight(a: nat, b: nat, c: nat, d: nat, e: nat, f: nat, g: nat, h: nat)
    requires b == a / 2 && c == b / 2 && d == c / 2 && e == d / 2 && f == e / 2 && g == f / 2 && h == g / 2
    ensures HandoffDamage.Bits(8, a)
         == [a % 2 == 1, b % 2 == 1, c % 2 == 1, d % 2 == 1, e % 2 == 1, f % 2 == 1, g % 2 == 1, h % 2 == 1]
  {
    hide HandoffDamage.Bits;
    BitsFour(4, a, b, c, d, e);
    BitsFour(0, e, f, g, h, h / 2);
    BitsMore(1, h);
  }

  lemma DigitBits()
    ensures HandoffDamage.ByteBits(49) == [true, false, false, false, true, true, false, false]
    ensures HandoffDamage.ByteBits(50) == [false, true, false, false, true, true, false, false]
    ensures HandoffDamage.ByteBits(51) == [true, true, false, false, true, true, false, false]
    ensures HandoffDamage.ByteBits(52) == [false, false, true, false, true, true, false, false]
    ensures HandoffDamage.ByteBits(53) == [true, false, true, false, true, true, false, false]
    ensures HandoffDamage.ByteBits(54) == [false, true, true, false, true, true, false, false]
    ensures HandoffDamage.ByteBits(55) == [true, true, true, false, true, true, false, false]
    ensures HandoffDamage.ByteBits(56) == [false, false, false, true, true, true, false, false]
    ensures HandoffDamage.ByteBits(57) == [true, false, false, true, true, true, false, false]
  {
    hide HandoffDamage.Bits;
    BitsEight(49, 24, 12, 6, 3, 1, 0, 0);
    BitsEight(50, 25, 12, 6, 3, 1, 0, 0);
    BitsEight(51, 25, 12, 6, 3, 1, 0, 0);
    BitsEight(52, 26, 13, 6, 3, 1, 0, 0);
    BitsEight(53, 26, 13, 6, 3, 1, 0, 0);
    BitsEight(54, 27, 13, 6, 3, 1, 0, 0);
    BitsEight(55, 27, 13, 6, 3, 1, 0, 0);
    BitsEight(56, 28, 14, 7, 3, 1, 0, 0);
    BitsEight(57, 28, 14, 7, 3, 1, 0, 0);
  }

  lemma Digit1()
    ensures BvRounds(Either(0xFFFFFFFFFFFFFFFF, 49), 8) == 0xD5D0F17A6B6A3512
  {
  }

  lemma Digit2()
    ensures BvRounds(Either(0xD5D0F17A6B6A3512, 50), 8) == 0xFBE29281D80DA6A7
  {
  }

  lemma Digit3()
    ensures BvRounds(Either(0xFBE29281D80DA6A7, 51), 8) == 0xCFDCD7BBF8E33A9E
  {
  }

  lemma Digit4()
    ensures BvRounds(Either(0xCFDCD7BBF8E33A9E, 52), 8) == 0x31B1786C99473CD7
  {
  }

  lemma Digit5()
    ensures BvRounds(Either(0x31B1786C99473CD7, 53), 8) == 0xA258B9005AFBA316
  {
  }

  lemma Digit6()
    ensures BvRounds(Either(0xA258B9005AFBA316, 54), 8) == 0xFB951AC9A23C3731
  {
  }

  lemma Digit7()
    ensures BvRounds(Either(0xFB951AC9A23C3731, 55), 8) == 0x8FAF60C99E6DC25F
  {
  }

  lemma Digit8()
    ensures BvRounds(Either(0x8FAF60C99E6DC25F, 56), 8) == 0xA3747FB7D45387F6
  {
  }

  lemma Digit9()
    ensures BvRounds(Either(0xA3747FB7D45387F6, 57), 8) == 0x66A2364420E6C605
  {
  }

  lemma AllDigits()
    ensures Register([49, 50, 51, 52, 53, 54, 55, 56, 57]) == WordOf(0x66A2364420E6C605)
  {
    OnesLink();
    DigitBytes();
    DigitBits();
    hide ByteOf, WordOf, BvRounds, Either, HandoffDamage.ByteBits, Register;
    EmptyRegister();
    Digit1();
    OneMore([], 49, 0xFFFFFFFFFFFFFFFF, 49);
    assert [] + [49] == [49];
    Digit2();
    OneMore([49], 50, 0xD5D0F17A6B6A3512, 50);
    assert [49] + [50] == [49, 50];
    Digit3();
    OneMore([49, 50], 51, 0xFBE29281D80DA6A7, 51);
    assert [49, 50] + [51] == [49, 50, 51];
    Digit4();
    OneMore([49, 50, 51], 52, 0xCFDCD7BBF8E33A9E, 52);
    assert [49, 50, 51] + [52] == [49, 50, 51, 52];
    Digit5();
    OneMore([49, 50, 51, 52], 53, 0x31B1786C99473CD7, 53);
    assert [49, 50, 51, 52] + [53] == [49, 50, 51, 52, 53];
    Digit6();
    OneMore([49, 50, 51, 52, 53], 54, 0xA258B9005AFBA316, 54);
    assert [49, 50, 51, 52, 53] + [54] == [49, 50, 51, 52, 53, 54];
    Digit7();
    OneMore([49, 50, 51, 52, 53, 54], 55, 0xFB951AC9A23C3731, 55);
    assert [49, 50, 51, 52, 53, 54] + [55] == [49, 50, 51, 52, 53, 54, 55];
    Digit8();
    OneMore([49, 50, 51, 52, 53, 54, 55], 56, 0x8FAF60C99E6DC25F, 56);
    assert [49, 50, 51, 52, 53, 54, 55] + [56] == [49, 50, 51, 52, 53, 54, 55, 56];
    Digit9();
    OneMore([49, 50, 51, 52, 53, 54, 55, 56], 57, 0xA3747FB7D45387F6, 57);
    assert [49, 50, 51, 52, 53, 54, 55, 56] + [57] == [49, 50, 51, 52, 53, 54, 55, 56, 57];
  }

  lemma EmptyRegister()
    ensures Register([]) == Fill(true)
  {
  }

  // ---------- the result as a number ----------

  lemma ResultShifts()
    ensures RightByte(0x995DC9BBDF1939FA) == 0x995DC9BBDF1939 && RightByte(0x995DC9BBDF1939) == 0x995DC9BBDF19 && RightByte(0x995DC9BBDF19) == 0x995DC9BBDF && RightByte(0x995DC9BBDF) == 0x995DC9BB && RightByte(0x995DC9BB) == 0x995DC9 && RightByte(0x995DC9) == 0x995D && RightByte(0x995D) == 0x99
  {
  }

  lemma ResultBytes()
    ensures ByteOf(0x995DC9BBDF1939FA) == [false, true, false, true, true, true, true, true]
    ensures ByteOf(0x995DC9BBDF1939) == [true, false, false, true, true, true, false, false]
    ensures ByteOf(0x995DC9BBDF19) == [true, false, false, true, true, false, false, false]
    ensures ByteOf(0x995DC9BBDF) == [true, true, true, true, true, false, true, true]
    ensures ByteOf(0x995DC9BB) == [true, true, false, true, true, true, false, true]
    ensures ByteOf(0x995DC9) == [true, false, false, true, false, false, true, true]
    ensures ByteOf(0x995D) == [true, false, true, true, true, false, true, false]
    ensures ByteOf(0x99) == [true, false, false, true, true, false, false, true]
  {
    forall x
      ensures ByteOf(x) == [
        Meets(x, 1), Meets(x, 2), Meets(x, 4), Meets(x, 8), Meets(x, 16), Meets(x, 32), Meets(x, 64), Meets(x, 128)]
    {
      LowBits(x);
    }
    hide ByteOf;
  }

  lemma LowResultBits()
    ensures HandoffDamage.ByteBits(250) == [false, true, false, true, true, true, true, true]
    ensures HandoffDamage.ByteBits(57) == [true, false, false, true, true, true, false, false]
    ensures HandoffDamage.ByteBits(25) == [true, false, false, true, true, false, false, false]
    ensures HandoffDamage.ByteBits(223) == [true, true, true, true, true, false, true, true]
  {
    hide HandoffDamage.Bits;
    BitsEight(250, 125, 62, 31, 15, 7, 3, 1);
    BitsEight(57, 28, 14, 7, 3, 1, 0, 0);
    BitsEight(25, 12, 6, 3, 1, 0, 0, 0);
    BitsEight(223, 111, 55, 27, 13, 6, 3, 1);
  }

  lemma HighResultBits()
    ensures HandoffDamage.ByteBits(187) == [true, true, false, true, true, true, false, true]
    ensures HandoffDamage.ByteBits(201) == [true, false, false, true, false, false, true, true]
    ensures HandoffDamage.ByteBits(93) == [true, false, true, true, true, false, true, false]
    ensures HandoffDamage.ByteBits(153) == [true, false, false, true, true, false, false, true]
  {
    hide HandoffDamage.Bits;
    BitsEight(187, 93, 46, 23, 11, 5, 2, 1);
    BitsEight(201, 100, 50, 25, 12, 6, 3, 1);
    BitsEight(93, 46, 23, 11, 5, 2, 1, 0);
    BitsEight(153, 76, 38, 19, 9, 4, 2, 1);
  }

  lemma ResultNumber()
    ensures HandoffDamage.Number(WordOf(0x995DC9BBDF1939FA)) == 0x995DC9BBDF1939FA
  {
    ResultShifts();
    WordIsBytes(0x995DC9BBDF1939FA);
    BytesAre(0x995DC9BBDF1939FA, 0x995DC9BBDF1939, 0x995DC9BBDF19, 0x995DC9BBDF, 0x995DC9BB, 0x995DC9, 0x995D, 0x99);
    ResultBytes();
    LowResultBits();
    HighResultBits();
    hide ByteOf, BytesOf, WordOf, RightByte, Concat, HandoffDamage.Number, HandoffDamage.ByteBits;
    var s: seq<HandoffBuild.Byte> := [250, 57, 25, 223, 187, 201, 93, 153];
    var a := HandoffDamage.AllBits(s);
    assert a == BytesOf(0x995DC9BBDF1939FA, 8);
    HandoffDamage.ValueIsNumber(s);
    ResultValue();
  }

  lemma ResultValue()
    ensures HandoffBuild.Value([250, 57, 25, 223, 187, 201, 93, 153]) == 0x995DC9BBDF1939FA
  {
  }

  /** The checksum of the digits 1 to 9, as the code's own header gives it. */
  lemma CheckValue()
    ensures HandoffDamage.Sum([49, 50, 51, 52, 53, 54, 55, 56, 57]) == 0x995DC9BBDF1939FA
  {
    AllDigits();
    OnesLink();
    XorLink(0x66A2364420E6C605, ONES);
    ResultNumber();
    LastXor();
    SumIs([49, 50, 51, 52, 53, 54, 55, 56, 57]);
    hide WordOf, Register, HandoffDamage.Number, HandoffDamage.Sum, Either;
  }

  lemma SumIs(s: seq<HandoffBuild.Byte>)
    ensures HandoffDamage.Sum(s) == HandoffDamage.Number(Xor(Register(s), Fill(true)))
  {
  }

  lemma LastXor()
    ensures Either(0x66A2364420E6C605, ONES) == 0x995DC9BBDF1939FA
  {
  }
}
