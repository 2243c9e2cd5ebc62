/** Where the promise of `HandoffDamage` ends: damage across the end of the checksum field that
    no checksum shows. */
module HandoffEscape {
  import opened Folds
  import opened HandoffBuild
  import opened HandoffDamage
  import Crc64

  // ---------- one byte absorbed into a clear register ----------

  /** The bits of 0x64. */
  const ESCAPE: Crc64.Byte := [false, false, true, false, false, true, true, false]

  /** Round `r` of the rounds before `k`, if it reduces, as seen in bit `i` after them. */
  predicate Reduced(i: nat, k: nat, r: nat) {
    r < k && i + (k - 1 - r) < 64 && Crc64.POLY[i + (k - 1 - r)]
  }

  /** Bit `i` after `k` rounds on that byte: rounds 2, 4, 5 and 7 reduce. */
  predicate Trace(i: nat, k: nat) {
    ((((i + k < 8 && ESCAPE[i + k]) != Reduced(i, k, 2)) != Reduced(i, k, 4)) != Reduced(i, k, 5)) != Reduced(i, k, 7)
  }

  /** What the eight rounds leave. */
  function Escape(): Crc64.Word {
    seq(64, i requires 0 <= i < 64 => Trace(i, 8))
  }

  lemma StepIs(a: Crc64.Word)
    ensures forall i :: 0 <= i < 64 ==> Crc64.Step(a)[i] == ((i < 63 && a[i + 1]) != (a[0] && Crc64.POLY[i]))
  {
  }

  /** The low bits of the polynomial. */
  lemma PolyBits()
    ensures !Crc64.POLY[0] && Crc64.POLY[1] && !Crc64.POLY[2] && !Crc64.POLY[3] && !Crc64.POLY[4] && !Crc64.POLY[5] && Crc64.POLY[6] && !Crc64.POLY[7]
    ensures Crc64.POLY[8] && Crc64.POLY[9] && Crc64.POLY[10] && Crc64.POLY[11] && !Crc64.POLY[12]
  {
  }

  lemma Heads(k: nat)
    requires k < 8
    ensures Trace(0, k) <==> k == 2 || k == 4 || k == 5 || k == 7
  {
    PolyBits();
    assert !ESCAPE[0] && !ESCAPE[1] && ESCAPE[2] && !ESCAPE[3] && !ESCAPE[4] && ESCAPE[5] && ESCAPE[6] && !ESCAPE[7];
  }

  lemma NextReduced(i: nat, k: nat, r: nat)
    requires i < 64
    ensures Reduced(i, k + 1, r) == ((i < 63 && Reduced(i + 1, k, r)) != (r == k && Crc64.POLY[i]))
  {
    assert i + (k - r) == (i + 1) + (k - 1 - r);
  }

  lemma NextTrace(i: nat, k: nat)
    requires i < 64 && k < 8
    ensures Trace(i, k + 1) == ((i < 63 && Trace(i + 1, k)) != ((k == 2 || k == 4 || k == 5 || k == 7) && Crc64.POLY[i]))
  {
    hide Reduced;
    NextReduced(i, k, 2);
    NextReduced(i, k, 4);
    NextReduced(i, k, 5);
    NextReduced(i, k, 7);
    assert i + (k + 1) == (i + 1) + k;
  }

  lemma StepTraced(w: Crc64.Word, k: nat)
    requires k < 8 && forall i :: 0 <= i < 64 ==> w[i] == Trace(i, k)
    ensures forall i :: 0 <= i < 64 ==> Crc64.Step(w)[i] == Trace(i, k + 1)
  {
    hide Crc64.Step, Trace;
    Heads(k);
    StepIs(w);
    forall i | 0 <= i < 64
      ensures Crc64.Step(w)[i] == Trace(i, k + 1)
    {
      NextTrace(i, k);
    }
  }

  lemma {:induction false} Traced(w: Crc64.Word, k: nat, n: nat)
    requires k + n <= 8 && forall i :: 0 <= i < 64 ==> w[i] == Trace(i, k)
    ensures forall i :: 0 <= i < 64 ==> Iterate(Crc64.Step, w, n)[i] == Trace(i, k + n)
    decreases n
  {
    hide Crc64.Step, Trace;
    if n > 0 {
      StepTraced(w, k);
      Traced(Crc64.Step(w), k + 1, n - 1);
    }
  }

  lemma ByteIs(b: Crc64.Byte)
    ensures forall i :: 0 <= i < 64 ==> Crc64.Xor(Crc64.Fill(false), Crc64.Widen(b))[i] == (i < 8 && b[i])
  {
  }

  lemma EscapeRounds()
    ensures Crc64.Absorb(Crc64.Fill(false), ESCAPE) == Escape()
  {
    hide Crc64.Step, Trace, Crc64.Xor, Crc64.Widen;
    ByteIs(ESCAPE);
    var w := Crc64.Xor(Crc64.Fill(false), Crc64.Widen(ESCAPE));
    forall i | 0 <= i < 64
      ensures w[i] == Trace(i, 0)
    {
      TraceStart(i);
    }
    Traced(w, 0, 8);
  }

  lemma TraceStart(i: nat)
    requires i < 64
    ensures Trace(i, 0) == (i < 8 && ESCAPE[i])
  {
  }

  /** The first byte of the field stays as it was. */
  lemma LowByteClear()
    ensures Escape()[..8] == Crc64.ZERO_BYTE
  {
    PolyBits();
    var e := Escape();
    assert !e[0] && !e[1] && !e[2] && !e[3] && !e[4] && !e[5] && !e[6] && !e[7];
  }

  // ---------- the damaged structure ----------

  /** What is flipped in byte `j` counted from the start of the field. */
  function Pattern(j: nat): Crc64.Byte {
    if j < 8 then Escape()[8 * j..8 * j + 8] else ESCAPE
  }

  lemma {:induction false} BitsOfNumber(b: seq<bool>)
    ensures Bits(|b|, Number(b)) == b
  {
    if b != [] {
      BitsOfNumber(b[1..]);
    }
  }

  function Flip(x: Byte, p: Crc64.Byte): (r: Byte)
    ensures ByteBits(r) == Crc64.XorByte(ByteBits(x), p)
  {
    var b := Crc64.XorByte(ByteBits(x), p);
    NumberBound(b);
    WordRange();
    BitsOfNumber(b);
    Number(b)
  }

  lemma FlipNothing(x: Byte)
    ensures Flip(x, Crc64.ZERO_BYTE) == x
  {
    assert Crc64.XorByte(ByteBits(x), Crc64.ZERO_BYTE) == ByteBits(x);
    WordRange();
    NumberOfBits(8, x);
    NumberOfBits(8, Flip(x, Crc64.ZERO_BYTE));
  }

  lemma FlipTwice(x: Byte, p: Crc64.Byte)
    ensures Crc64.XorByte(ByteBits(x), ByteBits(Flip(x, p))) == p
  {
  }

  function Escaped(a: seq<Byte>, off: nat): (b: seq<Byte>)
    ensures |b| == |a|
  {
    seq(|a|, k requires 0 <= k < |a| => if k < off then a[k] else Flip(a[k], Pattern(k - off)))
  }

  lemma {:induction false} ConcatAt(w: seq<Crc64.Byte>, i: nat)
    requires i < 8 * |w|
    ensures Crc64.Concat(w)[i] == w[i / 8][i % 8]
  {
    if i >= 8 {
      ConcatAt(w[1..], i - 8);
    }
  }

  lemma PatternAt(j: nat, t: nat)
    requires j < 8 && t < 8
    ensures Pattern(j)[t] == Escape()[8 * j + t]
  {
    hide Escape;
  }

  lemma FieldBit(a: seq<Byte>, off: nat, i: nat)
    requires |a| == off + 9 && i < 64
    ensures (FieldBits(a, off)[i] != FieldBits(Escaped(a, off), off)[i]) == Escape()[i]
  {
    hide Escape, Pattern, Flip, ByteBits;
    var b, j, t := Escaped(a, off), i / 8, i % 8;
    var x, y := AllBits(a[off..off + 8]), AllBits(b[off..off + 8]);
    ConcatAt(x, i);
    ConcatAt(y, i);
    assert x[j] == ByteBits(a[off + j]);
    assert y[j] == ByteBits(b[off + j]) == ByteBits(Flip(a[off + j], Pattern(j)));
    FlipTwice(a[off + j], Pattern(j));
    assert Crc64.XorByte(x[j], y[j])[t] == (x[j][t] != y[j][t]);
    PatternAt(j, t);
  }

  lemma FieldEscapes(a: seq<Byte>, off: nat)
    requires |a| == off + 9
    ensures Crc64.Xor(FieldBits(a, off), FieldBits(Escaped(a, off), off)) == Escape()
  {
    hide Escape, FieldBits, Escaped;
    forall i | 0 <= i < 64
      ensures (FieldBits(a, off)[i] != FieldBits(Escaped(a, off), off)[i]) == Escape()[i]
    {
      FieldBit(a, off, i);
    }
  }

  function NoChange(n: nat): seq<Crc64.Byte> {
    seq(n, i => Crc64.ZERO_BYTE)
  }

  lemma {:induction false} NothingRemains(n: nat)
    ensures Crc64.Remainder(NoChange(n)) == Crc64.Fill(false)
  {
    if n > 0 {
      NothingRemains(n - 1);
      assert NoChange(n)[..n - 1] == NoChange(n - 1);
      ClearStays();
    }
  }

  lemma ClearStays()
    ensures Crc64.Absorb(Crc64.Fill(false), Crc64.ZERO_BYTE) == Crc64.Fill(false)
  {
    var c := Crc64.Fill(false);
    assert Crc64.Xor(c, Crc64.Widen(Crc64.ZERO_BYTE)) == c;
    ClearRounds(8);
  }

  lemma {:induction false} ClearRounds(n: nat)
    ensures Iterate(Crc64.Step, Crc64.Fill(false), n) == Crc64.Fill(false)
  {
    if n > 0 {
      assert Crc64.Step(Crc64.Fill(false)) == Crc64.Fill(false);
      ClearRounds(n - 1);
    }
  }

  lemma SameByte(x: Byte)
    ensures Crc64.XorByte(ByteBits(x), ByteBits(x)) == Crc64.ZERO_BYTE
  {
  }

  lemma RestByte(a: seq<Byte>, off: nat, k: nat)
    requires |a| == off + 9 && k < |a|
    ensures Crc64.XorByte(ByteBits(Cleared(a, off)[k]), ByteBits(Cleared(Escaped(a, off), off)[k]))
         == if k < off + 8 then Crc64.ZERO_BYTE else ESCAPE
  {
    hide Flip, ByteBits;
    if k < off + 8 {
      SameByte(Cleared(a, off)[k]);
    } else {
      FlipTwice(a[k], ESCAPE);
    }
  }

  lemma RestEscapes(a: seq<Byte>, off: nat)
    requires |a| == off + 9
    ensures RestChange(a, Escaped(a, off), off) == NoChange(off + 8) + [ESCAPE]
  {
    hide Escaped, Cleared, ByteBits, Crc64.XorByte;
    forall k | 0 <= k < |a|
      ensures RestChange(a, Escaped(a, off), off)[k] == (NoChange(off + 8) + [ESCAPE])[k]
    {
      RestByte(a, off, k);
    }
  }

  lemma EscapeRemains(n: nat)
    ensures Crc64.Remainder(NoChange(n) + [ESCAPE]) == Escape()
  {
    hide Escape, Crc64.Absorb;
    NothingRemains(n);
    EscapeRounds();
    var rest := NoChange(n) + [ESCAPE];
    assert rest[..n] == NoChange(n);
  }

  /** The change starts in the second byte of the field, and it is one. */
  lemma EscapedWithin(a: seq<Byte>, off: nat)
    requires |a| == off + 9
    ensures var b := Escaped(a, off); b != a && Within(a, b, off + 1, off + 9)
  {
    hide Flip, Escape, ByteBits;
    var b := Escaped(a, off);
    LowByteClear();
    FlipNothing(a[off]);
    assert a[..off + 1] == b[..off + 1];
    FlipTwice(a[off + 8], ESCAPE);
    SameByte(a[off + 8]);
    assert ESCAPE[2] && !Crc64.ZERO_BYTE[2];
    assert b[off + 8] != a[off + 8];
  }

  /** Eight bytes in a row changed, from the second byte of the field to the byte behind it, and
      the structure is still sealed, whatever it says: a tag with a body of one byte is one. */
  lemma StraddlingEscapes(a: seq<Byte>, off: nat)
    requires Sealed(Sum, a, off) && |a| == off + 9
    ensures var b := Escaped(a, off);
      Sealed(Sum, b, off) && b != a && Within(a, b, off + 1, off + 9)
  {
    hide Sealed, Sum, FieldBits, RestChange, Escaped, Escape, Within, Crc64.Remainder, Crc64.Xor;
    FieldEscapes(a, off);
    RestEscapes(a, off);
    EscapeRemains(off + 8);
    DamageDecides(a, Escaped(a, off), off);
    EscapedWithin(a, off);
  }
}
