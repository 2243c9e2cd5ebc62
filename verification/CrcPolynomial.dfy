/** The checksum as polynomial division.  A polynomial over the two-element field is the set of
    its exponents, so addition is symmetric difference. */
module CrcPolynomial {
  import opened Folds
  import opened Crc64

  type Poly = set<int>

  /** x^64 and the exponents of 0x42F0E1EBA9EA3693. */
  function Generator(): Poly {
    {64, 62, 57, 55, 54, 53, 52, 47, 46, 45, 40, 39, 38, 37, 35, 33, 32,
     31, 29, 27, 24, 23, 22, 21, 19, 17, 13, 12, 10, 9, 7, 4, 1, 0}
  }

  function Add(a: Poly, b: Poly): Poly {
    (a - b) + (b - a)
  }

  /** `a` times x^n. */
  function Times(a: Poly, n: nat): Poly {
    set k | k in a :: k + n
  }

  lemma TimesHas(a: Poly, n: nat, k: int)
    ensures k in Times(a, n) <==> k - n in a
  {
    if k - n in a {
      assert (k - n) + n in Times(a, n);
    }
  }

  /** The generator times the polynomial with the exponents `q`. */
  function Multiple(q: seq<nat>): Poly {
    if q == [] then {} else Add(Times(Generator(), q[0]), Multiple(q[1..]))
  }

  /** `a` and `b` leave the same remainder. */
  ghost predicate Congruent(a: Poly, b: Poly) {
    exists q: seq<nat> :: Add(a, b) == Multiple(q)
  }

  // ---------- congruence ----------

  lemma AddIsFair(a: Poly, b: Poly, c: Poly)
    ensures Add(a, b) == Add(b, a) && Add(a, {}) == a && Add(a, a) == {}
    ensures Add(Add(a, b), c) == Add(a, Add(b, c))
  {
  }

  lemma {:induction false} MultiplesAdd(p: seq<nat>, q: seq<nat>)
    ensures Multiple(p + q) == Add(Multiple(p), Multiple(q))
  {
    if p == [] {
      assert p + q == q;
    } else {
      assert (p + q)[1..] == p[1..] + q;
      MultiplesAdd(p[1..], q);
    }
  }

  lemma TimesAdds(a: Poly, b: Poly, n: nat)
    ensures Times(Add(a, b), n) == Add(Times(a, n), Times(b, n))
  {
    forall k
      ensures k in Times(Add(a, b), n) <==> k in Add(Times(a, n), Times(b, n))
    {
      TimesHas(Add(a, b), n, k);
      TimesHas(a, n, k);
      TimesHas(b, n, k);
    }
  }

  lemma TimesTwice(a: Poly, m: nat, n: nat)
    ensures Times(Times(a, m), n) == Times(a, m + n) && Times(a, 0) == a
  {
    forall k
      ensures k in Times(Times(a, m), n) <==> k in Times(a, m + n)
      ensures k in Times(a, 0) <==> k in a
    {
      TimesHas(Times(a, m), n, k);
      TimesHas(a, m, k - n);
      TimesHas(a, m + n, k);
      TimesHas(a, 0, k);
    }
  }

  function Raised(q: seq<nat>, n: nat): seq<nat> {
    seq(|q|, i requires 0 <= i < |q| => q[i] + n)
  }

  lemma {:induction false} MultiplesRise(q: seq<nat>, n: nat)
    ensures Times(Multiple(q), n) == Multiple(Raised(q, n))
  {
    hide Add, Generator;
    if q == [] {
      assert Times({}, n) == {};
    } else {
      assert Raised(q, n)[1..] == Raised(q[1..], n);
      MultiplesRise(q[1..], n);
      TimesAdds(Times(Generator(), q[0]), Multiple(q[1..]), n);
      TimesTwice(Generator(), q[0], n);
    }
  }

  lemma CongruentSelf(a: Poly)
    ensures Congruent(a, a)
  {
    assert Add(a, a) == Multiple([]);
  }

  lemma CongruentThen(a: Poly, b: Poly, c: Poly)
    requires Congruent(a, b) && Congruent(b, c)
    ensures Congruent(a, c)
  {
    var p: seq<nat> :| Add(a, b) == Multiple(p);
    var q: seq<nat> :| Add(b, c) == Multiple(q);
    MultiplesAdd(p, q);
    assert Add(Add(a, b), Add(b, c)) == Add(a, c);
    assert Add(a, c) == Multiple(p + q);
  }

  lemma CongruentSum(a: Poly, b: Poly, c: Poly, d: Poly)
    requires Congruent(a, b) && Congruent(c, d)
    ensures Congruent(Add(a, c), Add(b, d))
  {
    hide Multiple;
    var p: seq<nat> :| Add(a, b) == Multiple(p);
    var q: seq<nat> :| Add(c, d) == Multiple(q);
    MultiplesAdd(p, q);
    Crossed(a, b, c, d);
    assert Add(Add(a, c), Add(b, d)) == Multiple(p + q);
  }

  lemma Crossed(a: Poly, b: Poly, c: Poly, d: Poly)
    ensures Add(Add(a, c), Add(b, d)) == Add(Add(a, b), Add(c, d))
  {
  }

  lemma CongruentTimes(a: Poly, b: Poly, n: nat)
    requires Congruent(a, b)
    ensures Congruent(Times(a, n), Times(b, n))
  {
    var q: seq<nat> :| Add(a, b) == Multiple(q);
    MultiplesRise(q, n);
    TimesAdds(a, b, n);
    assert Add(Times(a, n), Times(b, n)) == Multiple(Raised(q, n));
  }

  // ---------- the register ----------

  /** The register holds its polynomial with the highest power in the lowest bit. */
  predicate HasPower(w: Word, k: int) {
    0 <= k < 64 && w[63 - k]
  }

  function Of(w: Word): (p: Poly)
    ensures forall k :: k in p <==> 0 <= k < 64 && w[63 - k]
  {
    set k | 0 <= k < 64 && HasPower(w, k)
  }

  lemma OfXor(a: Word, b: Word)
    ensures Of(Xor(a, b)) == Add(Of(a), Of(b))
  {
  }

  /** The constant of the code is the generator without its highest power, bits reversed. */
  lemma PolyIsGenerator()
    ensures Of(POLY) == Generator() - {64}
  {
    var a, b := Of(POLY), Generator() - {64};
    forall k
      ensures k in a <==> k in b
    {
      if 0 <= k < 64 {
        PolyBit(63 - k);
      }
    }
  }

  lemma PolyBit(i: nat)
    requires i < 64
    ensures POLY[i] <==> 63 - i in Generator()
  {
    if i < 8 {
    } else if i < 16 {
    } else if i < 24 {
    } else if i < 32 {
    } else if i < 40 {
    } else if i < 48 {
    } else if i < 56 {
    } else {
    }
  }

  /** One step of the register is multiplication by x, less the generator if x^64 comes up. */
  lemma StepIs(c: Word)
    ensures Of(Step(c)) == Add(Times(Of(c), 1), if c[0] then Generator() else {})
  {
    hide Of, Generator, Step;
    var a, t, g := Of(Step(c)), Times(Of(c), 1), if c[0] then Generator() else {};
    forall k
      ensures k in a <==> k in Add(t, g)
    {
      TimesHas(Of(c), 1, k);
      StepBit(c, k);
    }
  }

  lemma StepBit(c: Word, k: int)
    ensures k in Of(Step(c)) <==> (k - 1 in Of(c)) != (c[0] && k in Generator())
  {
    hide Step, Generator;
    Highest(k);
    if 0 <= k < 64 {
      StepAt(c, 63 - k);
      PolyBit(63 - k);
    }
  }

  lemma StepAt(c: Word, i: nat)
    requires i < 64
    ensures Step(c)[i] == ((i < 63 && c[i + 1]) != (c[0] && POLY[i]))
  {
  }

  lemma Highest(k: int)
    ensures k in Generator() ==> 0 <= k <= 64
    ensures 64 in Generator() && 0 in Generator()
  {
  }

  lemma StepCongruent(c: Word)
    ensures Congruent(Of(Step(c)), Times(Of(c), 1))
  {
    hide Of, Step, Generator, Add, Times;
    StepIs(c);
    var t, g := Times(Of(c), 1), if c[0] then Generator() else {};
    AddCancels(t, g);
    AddIsFair(Generator(), {}, {});
    TimesTwice(Generator(), 0, 0);
    assert Multiple([0]) == Add(Times(Generator(), 0), Multiple([]));
    assert Add(Of(Step(c)), t) == if c[0] then Multiple([0]) else Multiple([]);
  }

  lemma AddCancels(t: Poly, g: Poly)
    ensures Add(Add(t, g), t) == g
  {
  }

  lemma {:induction false} RoundsCongruent(c: Word, n: nat)
    ensures Congruent(Of(Iterate(Step, c, n)), Times(Of(c), n))
    decreases n
  {
    hide Of, Step, Congruent;
    TimesTwice(Of(c), 1, if n > 0 then n - 1 else 0);
    if n == 0 {
      CongruentSelf(Of(c));
    } else {
      StepCongruent(c);
      RoundsCongruent(Step(c), n - 1);
      CongruentTimes(Of(Step(c)), Times(Of(c), 1), n - 1);
      CongruentThen(Of(Iterate(Step, c, n)), Times(Of(Step(c)), n - 1), Times(Of(c), n));
    }
  }

  // ---------- bytes and messages ----------

  /** A byte goes out lowest bit first, so that is its highest power. */
  predicate ByteHasPower(b: Byte, k: int) {
    0 <= k < 8 && b[7 - k]
  }

  function OfByte(b: Byte): (p: Poly)
    ensures forall k :: k in p <==> 0 <= k < 8 && b[7 - k]
  {
    set k | 0 <= k < 8 && ByteHasPower(b, k)
  }

  lemma WidenIs(b: Byte)
    ensures Of(Widen(b)) == Times(OfByte(b), 56)
  {
    var a, t := Of(Widen(b)), Times(OfByte(b), 56);
    forall k
      ensures k in a <==> k in t
    {
      TimesHas(OfByte(b), 56, k);
    }
  }

  lemma AbsorbCongruent(c: Word, b: Byte)
    ensures Congruent(Of(Absorb(c, b)), Add(Times(Of(c), 8), Times(OfByte(b), 64)))
  {
    hide Of, OfByte, Step, Congruent, Xor, Widen;
    RoundsCongruent(Xor(c, Widen(b)), 8);
    OfXor(c, Widen(b));
    WidenIs(b);
    TimesAdds(Of(c), Times(OfByte(b), 56), 8);
    TimesTwice(OfByte(b), 56, 8);
  }

  /** The message as one polynomial, the first byte with the highest powers. */
  function Message(data: seq<Byte>): (p: Poly)
    ensures forall k :: k in p <==> 0 <= k < 8 * |data| && data[|data| - 1 - k / 8][7 - k % 8]
  {
    set k | 0 <= k < 8 * |data| && data[|data| - 1 - k / 8][7 - k % 8]
  }

  lemma MessageMore(data: seq<Byte>)
    requires data != []
    ensures var n := |data| - 1; Message(data) == Add(Times(Message(data[..n]), 8), OfByte(data[n]))
  {
    var n := |data| - 1;
    forall k
      ensures k in Message(data) <==> k in Add(Times(Message(data[..n]), 8), OfByte(data[n]))
    {
      TimesHas(Message(data[..n]), 8, k);
      if 8 <= k < 8 * |data| {
        assert (k - 8) / 8 == k / 8 - 1 && (k - 8) % 8 == k % 8;
        assert data[..n][n - 1 - (k - 8) / 8] == data[|data| - 1 - k / 8];
      }
    }
  }

  lemma {:induction false} FoldCongruent(c: Word, data: seq<Byte>)
    ensures Congruent(Of(FoldLeft(Absorb, c, data)), Add(Times(Of(c), 8 * |data|), Times(Message(data), 64)))
    decreases |data|
  {
    hide Of, OfByte, Congruent, Absorb;
    if data == [] {
      TimesTwice(Of(c), 0, 0);
      assert Times(Message([]), 64) == {};
      AddIsFair(Of(c), {}, {});
      CongruentSelf(Of(c));
    } else {
      var n := |data| - 1;
      var d := FoldLeft(Absorb, c, data[..n]);
      FoldCongruent(c, data[..n]);
      AbsorbCongruent(d, data[n]);
      MessageMore(data);
      FoldOneMore(Of(d), Of(c), Message(data[..n]), OfByte(data[n]), Of(FoldLeft(Absorb, c, data)), n);
    }
  }

  lemma FoldOneMore(d: Poly, c: Poly, m: Poly, b: Poly, r: Poly, n: nat)
    requires Congruent(d, Add(Times(c, 8 * n), Times(m, 64))) && Congruent(r, Add(Times(d, 8), Times(b, 64)))
    ensures Congruent(r, Add(Times(c, 8 * (n + 1)), Times(Add(Times(m, 8), b), 64)))
  {
    hide Congruent;
    var s := Add(Times(c, 8 * n), Times(m, 64));
    CongruentTimes(d, s, 8);
    CongruentSelf(Times(b, 64));
    CongruentSum(Times(d, 8), Times(s, 8), Times(b, 64), Times(b, 64));
    CongruentThen(r, Add(Times(d, 8), Times(b, 64)), Add(Times(s, 8), Times(b, 64)));
    TimesAdds(Times(c, 8 * n), Times(m, 64), 8);
    TimesTwice(c, 8 * n, 8);
    TimesTwice(m, 64, 8);
    TimesTwice(m, 8, 64);
    TimesAdds(Times(m, 8), b, 64);
    AddIsFair(Times(c, 8 * (n + 1)), Times(m, 72), Times(b, 64));
  }

  // ---------- the remainder ----------

  ghost predicate IsRemainder(r: Poly, p: Poly) {
    (forall k :: k in r ==> 0 <= k < 64) && Congruent(r, p)
  }

  /** How often `m` is in `q` is odd. */
  function Odd(q: seq<nat>, m: nat): bool {
    q != [] && (q[0] == m) != Odd(q[1..], m)
  }

  function Others(q: seq<nat>, m: nat): (o: seq<nat>)
    ensures forall e :: e in o ==> e in q && e != m
  {
    if q == [] then [] else (if q[0] == m then [] else [q[0]]) + Others(q[1..], m)
  }

  /** With no exponent above `m` the coefficient of x^(64 + m) says whether `m` is there. */
  lemma {:induction false} TopTerm(q: seq<nat>, m: nat)
    requires forall e :: e in q ==> e <= m
    ensures 64 + m in Multiple(q) <==> Odd(q, m)
  {
    if q != [] {
      assert q[0] in q && forall e :: e in q[1..] ==> e in q;
      TopTerm(q[1..], m);
      TimesHas(Generator(), q[0], 64 + m);
      Highest(64 + m - q[0]);
    }
  }

  lemma {:induction false} PairsCancel(q: seq<nat>, m: nat)
    ensures Multiple(q) == if Odd(q, m) then Add(Times(Generator(), m), Multiple(Others(q, m))) else Multiple(Others(q, m))
  {
    hide Add, Times, Generator;
    if q != [] {
      PairsCancel(q[1..], m);
      var g, h, o := Times(Generator(), m), Times(Generator(), q[0]), Multiple(Others(q[1..], m));
      AddIsFair(g, g, o);
      AddIsFair(g, h, o);
      AddIsFair(h, g, o);
      AddIsFair(o, {}, g);
      if q[0] != m {
        assert Others(q, m)[1..] == Others(q[1..], m);
      } else {
        assert Others(q, m) == Others(q[1..], m);
      }
    }
  }

  /** A multiple of the generator that has no power from 64 on is zero. */
  lemma {:induction false} ShortIsZero(q: seq<nat>, m: nat)
    requires forall e :: e in q ==> e < m
    requires forall k :: k in Multiple(q) ==> k < 64
    ensures Multiple(q) == {}
    decreases m
  {
    hide Add, Times, Generator;
    if q != [] {
      assert q[0] in q;
      TopTerm(q, m - 1);
      PairsCancel(q, m - 1);
      ShortIsZero(Others(q, m - 1), m - 1);
    }
  }

  function Above(q: seq<nat>): (m: nat)
    ensures forall e :: e in q ==> e < m
  {
    if q == [] then 0
    else
      var m := Above(q[1..]);
      assert forall e :: e in q ==> e == q[0] || e in q[1..];
      if q[0] < m then m else q[0] + 1
  }

  lemma OnlyRemainder(r: Poly, s: Poly, p: Poly)
    requires IsRemainder(r, p) && IsRemainder(s, p)
    ensures r == s
  {
    CongruentBack(s, p);
    CongruentThen(r, p, s);
    var q: seq<nat> :| Add(r, s) == Multiple(q);
    ShortIsZero(q, Above(q));
    assert Add(Add(r, s), s) == r && Add({}, s) == s;
  }

  lemma CongruentBack(a: Poly, b: Poly)
    requires Congruent(a, b)
    ensures Congruent(b, a)
  {
    AddIsFair(a, b, a);
  }

  /** All powers below x^64: the register's start, and what the result is complemented with. */
  function Ones(): (p: Poly)
    ensures forall k :: k in p <==> 0 <= k < 64
  {
    Of(Fill(true))
  }

  /** The checksum, complemented, is the remainder on division by the generator of the message
      times x^64 with its first 64 bits complemented. */
  lemma CrcIsRemainder(data: seq<Byte>)
    ensures var p := Add(Times(Ones(), 8 * |data|), Times(Message(data), 64));
      && IsRemainder(Add(Of(Crc(data)), Ones()), p)
      && forall r :: IsRemainder(r, p) ==> r == Add(Of(Crc(data)), Ones())
  {
    hide Congruent, Absorb, Message, Generator;
    var p := Add(Times(Ones(), 8 * |data|), Times(Message(data), 64));
    FoldCongruent(Fill(true), data);
    assert Of(Fill(true)) == Ones();
    var f := FoldLeft(Absorb, Fill(true), data);
    OfXor(f, Fill(true));
    AddIsFair(Of(f), Ones(), Ones());
    AddIsFair(Ones(), Ones(), Ones());
    assert Add(Of(Crc(data)), Ones()) == Of(f);
    forall r | IsRemainder(r, p)
      ensures r == Of(f)
    {
      OnlyRemainder(r, Of(f), p);
    }
  }
}
