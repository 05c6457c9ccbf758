/** The CRC is the remainder of the message modulo x^16 + x^12 + x^5 + 1 over GF(2). A polynomial
    is the finite set of its exponents. */
module CrcRemainder {
  import opened Crc16
  import opened CrcAlgebra

  type Poly = set<nat>

  /** Sum: exponents of exactly one of the two. */
  ghost function Add(p: Poly, q: Poly): (r: Poly)
    ensures forall i: nat :: i in r <==> (i in p) != (i in q)
  {
    (p - q) + (q - p)
  }

  /** Product with x^k. */
  ghost function Times(p: Poly, k: nat): Poly {
    set i: nat | i in p :: Moved(i, k)
  }

  function Moved(i: nat, k: nat): nat {
    i + k
  }

  predicate Shifted(p: Poly, k: nat, i: nat) {
    i >= k && i - k in p
  }

  lemma TimesAt(p: Poly, k: nat, i: nat)
    ensures i in Times(p, k) <==> Shifted(p, k, i)
  {
    if Shifted(p, k, i) {
      assert Moved(i - k, k) == i;
    }
  }

  lemma TimesIs(p: Poly, k: nat)
    ensures forall i: nat :: i in Times(p, k) <==> Shifted(p, k, i)
  {
    forall i: nat
      ensures i in Times(p, k) <==> Shifted(p, k, i)
    {
      hide Times;
      TimesAt(p, k, i);
    }
  }

  /** Product with the generator. */
  ghost function Multiple(q: Poly): Poly {
    Add(Add(Times(q, 16), Times(q, 12)), Add(Times(q, 5), q))
  }

  /** p and r differ by a multiple of the generator. */
  ghost predicate Congruent(p: Poly, r: Poly) {
    exists q: Poly :: p == Add(r, Multiple(q))
  }

  ghost predicate Degree(p: Poly, n: nat) {
    forall i :: i in p ==> i < n
  }

  // ----- congruence ----------------------------------------------------------------

  lemma MultipleAt(q: Poly, i: nat)
    ensures i in Multiple(q) <==>
      ((Shifted(q, 16, i) != Shifted(q, 12, i)) != (Shifted(q, 5, i) != (i in q)))
  {
    hide Times, Shifted;
    TimesAt(q, 16, i);
    TimesAt(q, 12, i);
    TimesAt(q, 5, i);
  }

  lemma ShiftedAdd(p: Poly, q: Poly, k: nat, i: nat)
    ensures Shifted(Add(p, q), k, i) <==> (Shifted(p, k, i) != Shifted(q, k, i))
  {
  }

  lemma TimesAdd(p: Poly, q: Poly, k: nat)
    ensures Times(Add(p, q), k) == Add(Times(p, k), Times(q, k))
  {
    hide Times;
    TimesIs(p, k);
    TimesIs(q, k);
    TimesIs(Add(p, q), k);
  }

  lemma TimesTimes(p: Poly, j: nat, k: nat)
    ensures Times(Times(p, j), k) == Times(p, j + k)
  {
    hide Times;
    TimesIs(p, j);
    TimesIs(Times(p, j), k);
    TimesIs(p, j + k);
  }

  lemma MultipleAdd(p: Poly, q: Poly)
    ensures Multiple(Add(p, q)) == Add(Multiple(p), Multiple(q))
  {
    forall i: nat
      ensures i in Multiple(Add(p, q)) <==> i in Add(Multiple(p), Multiple(q))
    {
      hide Multiple, Shifted;
      MultipleAt(p, i);
      MultipleAt(q, i);
      MultipleAt(Add(p, q), i);
      ShiftedAdd(p, q, 16, i);
      ShiftedAdd(p, q, 12, i);
      ShiftedAdd(p, q, 5, i);
    }
  }

  lemma MultipleTimes(q: Poly, k: nat)
    ensures Multiple(Times(q, k)) == Times(Multiple(q), k)
  {
    hide Times;
    TimesAdd(Add(Times(q, 16), Times(q, 12)), Add(Times(q, 5), q), k);
    TimesAdd(Times(q, 16), Times(q, 12), k);
    TimesAdd(Times(q, 5), q, k);
    TimesTimes(q, 16, k);
    TimesTimes(q, 12, k);
    TimesTimes(q, 5, k);
    TimesTimes(q, k, 16);
    TimesTimes(q, k, 12);
    TimesTimes(q, k, 5);
  }

  lemma CongruentBy(p: Poly, r: Poly, q: Poly)
    requires p == Add(r, Multiple(q))
    ensures Congruent(p, r)
  {
  }

  lemma AddZero(p: Poly)
    ensures p == Add(p, {}) && Multiple({}) == {}
  {
    MultipleAdd({}, {});
    assert Add({}, {}) == {};
  }

  lemma SameCongruent(p: Poly)
    ensures Congruent(p, p)
  {
    AddZero(p);
    CongruentBy(p, p, {});
  }

  lemma AddAssociative(p: Poly, q: Poly, r: Poly)
    ensures Add(Add(p, q), r) == Add(p, Add(q, r))
  {
  }

  lemma CongruentTransitive(p: Poly, r: Poly, t: Poly)
    requires Congruent(p, r) && Congruent(r, t)
    ensures Congruent(p, t)
  {
    hide Multiple;
    var q1: Poly :| p == Add(r, Multiple(q1));
    var q2: Poly :| r == Add(t, Multiple(q2));
    MultipleAdd(q2, q1);
    AddAssociative(t, Multiple(q2), Multiple(q1));
    CongruentBy(p, t, Add(q2, q1));
  }

  lemma CongruentTimes(p: Poly, r: Poly, k: nat)
    requires Congruent(p, r)
    ensures Congruent(Times(p, k), Times(r, k))
  {
    hide Multiple, Times;
    var q: Poly :| p == Add(r, Multiple(q));
    MultipleTimes(q, k);
    TimesAdd(r, Multiple(q), k);
    CongruentBy(Times(p, k), Times(r, k), Times(q, k));
  }

  lemma CongruentAdd(p: Poly, r: Poly, t: Poly)
    requires Congruent(p, r)
    ensures Congruent(Add(p, t), Add(r, t))
  {
    hide Multiple;
    var q: Poly :| p == Add(r, Multiple(q));
    assert Add(p, t) == Add(Add(r, t), Multiple(q));
    CongruentBy(Add(p, t), Add(r, t), q);
  }

  /** A multiple of the generator with degree below 16 is zero. */
  lemma {:induction false} SmallMultiple(q: Poly, d: nat)
    requires Degree(Multiple(q), 16) && Degree(q, d)
    ensures q == {}
  {
    hide Multiple;
    if d > 0 {
      MultipleAt(q, d - 1 + 16);
      SmallMultiple(q, d - 1);
    }
  }

  lemma {:induction false} HasDegree(p: Poly) returns (d: nat)
    ensures Degree(p, d)
    decreases p
  {
    if p == {} {
      d := 0;
    } else {
      var i :| i in p;
      var e := HasDegree(p - {i});
      d := if i < e then e else i + 1;
      assert forall j :: j in p ==> j == i || j in p - {i};
    }
  }

  /** Remainders are unique. */
  lemma RemainderUnique(p: Poly, r: Poly)
    requires Congruent(p, r) && Degree(p, 16) && Degree(r, 16)
    ensures p == r
  {
    hide Multiple;
    var q: Poly :| p == Add(r, Multiple(q));
    assert Multiple(q) == Add(p, r);
    var d := HasDegree(q);
    SmallMultiple(q, d);
    AddZero(r);
  }

  // ----- registers as polynomials ------------------------------------------------------

  predicate LowBit(c: bv32) {
    c & 1 != 0
  }

  function Half(c: bv32): bv32 {
    c >> 1
  }

  /** The polynomial of the low n bits. */
  ghost function Of(c: bv32, n: nat): Poly
    decreases n
  {
    if n == 0 then {} else (if LowBit(c) then {0} else {}) + Times(Of(Half(c), n - 1), 1)
  }

  lemma {:induction false} OfDegree(c: bv32, n: nat)
    ensures Degree(Of(c, n), n)
    decreases n
  {
    hide LowBit, Half, Times;
    if n > 0 {
      TimesIs(Of(Half(c), n - 1), 1);
      OfDegree(Half(c), n - 1);
    }
  }

  lemma SumBits(a: bv32, b: bv32)
    ensures LowBit(Sum(a, b)) == (LowBit(a) != LowBit(b)) && Half(Sum(a, b)) == Sum(Half(a), Half(b))
  {
  }

  lemma {:induction false} OfSum(a: bv32, b: bv32, n: nat)
    ensures Of(Sum(a, b), n) == Add(Of(a, n), Of(b, n))
    decreases n
  {
    hide LowBit, Half, Sum, Times;
    if n > 0 {
      TimesAdd(Of(Half(a), n - 1), Of(Half(b), n - 1), 1);
      TimesIs(Of(Half(a), n - 1), 1);
      TimesIs(Of(Half(b), n - 1), 1);
      SumBits(a, b);
      OfSum(Half(a), Half(b), n - 1);
    }
  }

  /** No bit is lost by a shift up. */
  predicate Room(c: bv32) {
    c & 0x8000_0000 == 0
  }

  lemma UpBits(c: bv32)
    requires Room(c)
    ensures !LowBit(Up(c)) && Half(Up(c)) == c
  {
  }

  lemma OfUp(c: bv32, n: nat)
    requires Room(c)
    ensures Of(Up(c), n + 1) == Times(Of(c, n), 1)
  {
    hide Room, LowBit, Half, Up;
    UpBits(c);
  }

  /** Bits n and up are zero. */
  predicate Short(c: bv32, n: nat)
    decreases n
  {
    if n == 0 then c == 0 else Short(Half(c), n - 1)
  }

  lemma ZeroBits()
    ensures !LowBit(0) && Half(0) == 0
  {
  }

  lemma {:induction false} OfShort(c: bv32, n: nat)
    requires Short(c, n)
    ensures Of(c, n + 1) == Of(c, n)
    decreases n
  {
    hide LowBit, Half;
    if n == 0 {
      ZeroBits();
      assert Of(0, 1) == {};
    } else {
      OfShort(Half(c), n - 1);
    }
  }

  function And(x: bv32, m: bv32): bv32 {
    x & m
  }

  lemma HalfMask(x: bv32, m: bv32)
    ensures Half(And(x, m)) == And(Half(x), Half(m))
  {
  }

  lemma ZeroMask(x: bv32)
    ensures And(x, 0) == 0
  {
  }

  lemma {:induction false} ShortMask(x: bv32, m: bv32, n: nat)
    requires Short(m, n)
    ensures Short(And(x, m), n)
    decreases n
  {
    hide Half, And;
    if n == 0 {
      ZeroMask(x);
    } else {
      HalfMask(x, m);
      ShortMask(Half(x), Half(m), n - 1);
    }
  }

  lemma OnesAreShort()
    ensures Short(0xFFFF, 16)
  {
    assert Short(0x0, 0);
    assert Short(0x1, 1);
    assert Short(0x3, 2);
    assert Short(0x7, 3);
    assert Short(0xF, 4);
    assert Short(0x1F, 5);
    assert Short(0x3F, 6);
    assert Short(0x7F, 7);
    assert Short(0xFF, 8);
    assert Short(0x1FF, 9);
    assert Short(0x3FF, 10);
    assert Short(0x7FF, 11);
    assert Short(0xFFF, 12);
    assert Short(0x1FFF, 13);
    assert Short(0x3FFF, 14);
    assert Short(0x7FFF, 15);
  }

  lemma FitsMask(c: bv32)
    requires Fits(c)
    ensures And(c, 0xFFFF) == c && Room(c)
  {
  }

  /** A 16-bit register has degree below 16, counted with 16 bits or more. */
  lemma FitsShort(c: bv32)
    requires Fits(c)
    ensures Of(c, 17) == Of(c, 16)
  {
    hide Half, And, LowBit, Fits;
    OnesAreShort();
    ShortMask(c, 0xFFFF, 16);
    FitsMask(c);
    OfShort(c, 16);
  }

  // ----- powers of x -----------------------------------------------------------------

  function Ups(c: bv32, k: nat): bv32
    decreases k
  {
    if k == 0 then c else Ups(Up(c), k - 1)
  }

  predicate RoomFor(c: bv32, k: nat)
    decreases k
  {
    k == 0 || (Room(c) && RoomFor(Up(c), k - 1))
  }

  lemma {:induction false} OfUps(c: bv32, k: nat, n: nat)
    requires RoomFor(c, k)
    ensures Of(Ups(c, k), n + k) == Times(Of(c, n), k)
    decreases k
  {
    hide Room, Up, Of, Times;
    if k == 0 {
      TimesNothing(Of(c, n));
    } else {
      OfUps(Up(c), k - 1, n + 1);
      OfUp(c, n);
      TimesTimes(Of(c, n), 1, k - 1);
    }
  }

  lemma TimesNothing(p: Poly)
    ensures Times(p, 0) == p
  {
    hide Times;
    TimesIs(p, 0);
  }

  lemma UpMask(x: bv32, m: bv32)
    ensures Up(And(x, m)) == And(Up(x), Up(m))
  {
  }

  lemma RoomMask(x: bv32, m: bv32)
    requires Room(m)
    ensures Room(And(x, m))
  {
  }

  lemma {:induction false} RoomForMask(x: bv32, m: bv32, k: nat)
    requires RoomFor(m, k)
    ensures RoomFor(And(x, m), k)
    decreases k
  {
    hide Room, Up, And;
    if k > 0 {
      RoomMask(x, m);
      UpMask(x, m);
      RoomForMask(Up(x), Up(m), k - 1);
    }
  }

  lemma RoomForByte(x: bv32)
    ensures RoomFor(And(x, 0xFF), 8)
  {
    assert RoomFor(0x7F80, 1);
    assert RoomFor(0x3FC0, 2);
    assert RoomFor(0x1FE0, 3);
    assert RoomFor(0x0FF0, 4);
    assert RoomFor(0x07F8, 5);
    assert RoomFor(0x03FC, 6);
    assert RoomFor(0x01FE, 7);
    assert RoomFor(0xFF, 8);
    hide And, Room, Up;
    RoomForMask(x, 0xFF, 8);
  }

  lemma EightUps(c: bv32)
    ensures Ups(c, 8) == c << 8
  {
    assert Ups(c, 8) == Up(Up(Up(Up(Up(Up(Up(Up(c)))))))) by {
      hide Up;
      assert Ups(c, 8) == Ups(Up(Up(c)), 6);
      assert Ups(Up(Up(c)), 6) == Ups(Up(Up(Up(Up(c)))), 4);
      assert Ups(Up(Up(Up(Up(c)))), 4) == Ups(Up(Up(Up(Up(Up(Up(c)))))), 2);
    }
  }

  /** One power of x. */
  lemma {:induction false} OfPower(c: bv32, k: nat, n: nat)
    requires RoomFor(1, k) && c == Ups(1, k) && k < n
    ensures Of(c, n) == {k}
  {
    OneIsOne(n - k);
    hide Of, Times, Room, Up;
    OfUps(1, k, n - k);
    TimesIs({0}, k);
    assert Times({0}, k) == {k};
  }

  lemma {:induction false} OneIsOne(n: nat)
    requires n > 0
    ensures Of(1, n) == {0}
    decreases n
  {
    assert LowBit(1) && Half(1) == 0;
    ZeroIsZero(n - 1);
    TimesIs({}, 1);
  }

  lemma {:induction false} ZeroIsZero(n: nat)
    ensures Of(0, n) == {}
    decreases n
  {
    ZeroBits();
    hide LowBit, Half, Times;
    if n > 0 {
      ZeroIsZero(n - 1);
      TimesIs({}, 1);
    }
  }

  lemma PowersOfOne()
    ensures RoomFor(1, 16)
    ensures Ups(1, 0) == 1 && Ups(1, 5) == 0x20 && Ups(1, 12) == 0x1000 && Ups(1, 16) == 0x1_0000
    ensures RoomFor(1, 0) && RoomFor(1, 5) && RoomFor(1, 12)
  {
    assert Ups(0x20, 0) == 0x20 && Ups(0x10, 1) == 0x20 && Ups(0x8, 2) == 0x20 && Ups(0x4, 3) == 0x20 && Ups(0x2, 4) == 0x20;
    assert Ups(0x1000, 0) == 0x1000 && Ups(0x800, 1) == 0x1000 && Ups(0x400, 2) == 0x1000 && Ups(0x200, 3) == 0x1000;
    assert Ups(0x100, 4) == 0x1000 && Ups(0x80, 5) == 0x1000 && Ups(0x40, 6) == 0x1000 && Ups(0x20, 7) == 0x1000;
    assert Ups(0x10, 8) == 0x1000 && Ups(0x8, 9) == 0x1000 && Ups(0x4, 10) == 0x1000 && Ups(0x2, 11) == 0x1000;
    assert Ups(0x1000, 4) == 0x1_0000 && Ups(0x400, 6) == 0x1_0000 && Ups(0x100, 8) == 0x1_0000;
    assert Ups(0x40, 10) == 0x1_0000 && Ups(0x10, 12) == 0x1_0000 && Ups(0x4, 14) == 0x1_0000;
    assert RoomFor(0x8000, 1) && RoomFor(0x2000, 3) && RoomFor(0x800, 5) && RoomFor(0x200, 7);
    assert RoomFor(0x80, 9) && RoomFor(0x20, 11) && RoomFor(0x8, 13) && RoomFor(0x2, 15);
    assert RoomFor(0x800, 1) && RoomFor(0x200, 3) && RoomFor(0x80, 5) && RoomFor(0x20, 7) && RoomFor(0x8, 9) && RoomFor(0x2, 11);
    assert RoomFor(0x10, 1) && RoomFor(0x4, 3);
  }

  lemma TimesOne(k: nat)
    ensures Times({0}, k) == {k}
  {
    hide Times;
    TimesIs({0}, k);
  }

  lemma MultipleOne()
    ensures Multiple({0}) == Add(Add({16}, {12}), Add({5}, {0}))
  {
    hide Times;
    TimesOne(16);
    TimesOne(12);
    TimesOne(5);
  }

  lemma GeneratorSum()
    ensures 0x1_1021 == Sum(Sum(0x1_0000, 0x1000), Sum(0x20, 1))
  {
  }

  lemma GeneratorBits()
    ensures Of(0x1_1021, 17) == Add(Add({16}, {12}), Add({5}, {0}))
  {
    hide *;
    PowersOfOne();
    GeneratorSum();
    OfPower(0x1_0000, 16, 17);
    OfPower(0x1000, 12, 17);
    OfPower(0x20, 5, 17);
    OfPower(1, 0, 17);
    OfSum(0x1_0000, 0x1000, 17);
    OfSum(0x20, 1, 17);
    OfSum(Sum(0x1_0000, 0x1000), Sum(0x20, 1), 17);
  }

  lemma ReduceIsSum(c: bv32)
    ensures Reduce(c) == Sum(c, 0x1_1021)
  {
  }

  // ----- the loop --------------------------------------------------------------------

  /** The constant of the loop is the generator: subtracting it is adding the generator. */
  lemma OfReduce(c: bv32)
    ensures Of(Reduce(c), 17) == Add(Of(c, 17), Multiple({0}))
  {
    hide *;
    ReduceIsSum(c);
    OfSum(c, 0x1_1021, 17);
    GeneratorBits();
    MultipleOne();
  }

  lemma FitsUp(c: bv32)
    requires Fits(c)
    ensures !Carries(c) ==> Fits(Up(c))
    ensures Carries(c) ==> Fits(Reduce(Up(c)))
  {
  }

  /** One shift of the register multiplies by x, modulo the generator. */
  lemma ShiftIsTimesX(c: bv32)
    requires Fits(c)
    ensures Congruent(Of(ShiftBit(c), 16), Times(Of(c, 16), 1))
  {
    hide *;
    ShiftBitIs(c);
    FitsUp(c);
    FitsMask(c);
    OfUp(c, 16);
    FitsShort(ShiftBit(c));
    ShiftBitFits(c);
    if Carries(c) {
      OfReduce(Up(c));
      CongruentBy(Of(ShiftBit(c), 16), Times(Of(c, 16), 1), {0});
    } else {
      SameCongruent(Of(ShiftBit(c), 16));
    }
  }

  lemma {:induction false} ShiftsAreTimes(c: bv32, n: nat)
    requires Fits(c)
    ensures Congruent(Of(ShiftBits(c, n), 16), Times(Of(c, 16), n))
  {
    hide Fits, ShiftBit, Of, Times, Congruent;
    if n == 0 {
      TimesNothing(Of(c, 16));
      SameCongruent(Of(c, 16));
    } else {
      var before := ShiftBits(c, n - 1);
      ShiftsAreTimes(c, n - 1);
      ShiftBitsFits(c, n - 1);
      ShiftIsTimesX(before);
      CongruentTimes(Of(before, 16), Times(Of(c, 16), n - 1), 1);
      TimesTimes(Of(c, 16), n - 1, 1);
      CongruentTransitive(Of(ShiftBit(before), 16), Times(Of(before, 16), 1), Times(Of(c, 16), n));
    }
  }

  ghost function OfByte(b: bv8): Poly {
    Of(b as bv32, 8)
  }

  lemma ByteMask(b: bv8)
    ensures And(b as bv32, 0xFF) == b as bv32
  {
  }

  lemma MixIsSum(c: bv32, b: bv8)
    ensures Mix(c, b) == Sum(c, Ups(b as bv32, 8))
  {
    hide Ups;
    EightUps(b as bv32);
  }

  /** Mixing a byte in adds it at x^8. */
  lemma OfMix(c: bv32, b: bv8)
    ensures Of(Mix(c, b), 16) == Add(Of(c, 16), Times(OfByte(b), 8))
  {
    hide Mix, Sum, Ups, Of, Times, And, RoomFor;
    MixIsSum(c, b);
    OfSum(c, Ups(b as bv32, 8), 16);
    ByteMask(b);
    RoomForByte(b as bv32);
    OfUps(b as bv32, 8, 8);
  }

  lemma AddByteIsTimes(c: bv32, b: bv8)
    requires Fits(c)
    ensures Congruent(Of(AddByte(c, b), 16), Add(Times(Of(c, 16), 8), Times(OfByte(b), 16)))
  {
    hide *;
    AddByteIs(c, b);
    MixFits(c, b);
    ShiftsAreTimes(Mix(c, b), 8);
    OfMix(c, b);
    TimesAdd(Of(c, 16), Times(OfByte(b), 8), 8);
    TimesTimes(OfByte(b), 8, 8);
  }

  /** The message as a polynomial, first byte highest. */
  ghost function Message(m: seq<bv8>): Poly {
    if m == [] then {} else Add(Times(Message(m[..|m| - 1]), 8), OfByte(m[|m| - 1]))
  }

  lemma {:induction false} RegisterIsMessage(m: seq<bv8>)
    ensures Congruent(Of(Register(0, m), 16), Times(Message(m), 16))
    decreases |m|
  {
    ZeroFits();
    hide Fits, AddByte, Of, Times, Congruent, OfByte;
    if m == [] {
      ZeroIsZero(16);
      TimesIs({}, 16);
      assert Times({}, 16) == {};
      SameCongruent({});
    } else {
      var before, b := m[..|m| - 1], m[|m| - 1];
      var c := Register(0, before);
      RegisterIsMessage(before);
      RegisterFits(0, before);
      AddByteIsTimes(c, b);
      var high := Times(OfByte(b), 16);
      CongruentTimes(Of(c, 16), Times(Message(before), 16), 8);
      CongruentAdd(Times(Of(c, 16), 8), Times(Times(Message(before), 16), 8), high);
      TimesTimes(Message(before), 16, 8);
      TimesTimes(Message(before), 8, 16);
      TimesAdd(Times(Message(before), 8), OfByte(b), 16);
      CongruentTransitive(Of(AddByte(c, b), 16), Add(Times(Of(c, 16), 8), high), Times(Message(m), 16));
    }
  }

  lemma CongruentSymmetric(p: Poly, r: Poly)
    requires Congruent(p, r)
    ensures Congruent(r, p)
  {
    hide Multiple;
    var q: Poly :| p == Add(r, Multiple(q));
    assert r == Add(p, Multiple(q));
  }

  lemma CrcRegister(m: seq<bv8>)
    ensures Crc(m) as bv32 == Register(0, m)
  {
    ZeroFits();
    CrcIs(m);
    hide Register, Crc, Fits;
    RegisterFits(0, m);
    LowHalf(Register(0, m));
  }

  lemma LowHalf(c: bv32)
    requires Fits(c)
    ensures ToCrc(c) as bv32 == c
  {
  }

  /** For a message of any length, the CRC is the one polynomial of degree below 16 that the
      message times x^16 leaves modulo the generator. */
  lemma CrcIsRemainder(m: seq<bv8>, r: Poly)
    ensures Degree(Of(Crc(m) as bv32, 16), 16)
    ensures Degree(r, 16) ==> (Congruent(Times(Message(m), 16), r) <==> r == Of(Crc(m) as bv32, 16))
  {
    hide Register, Crc, Of, Times, Congruent, Message;
    var crc := Of(Crc(m) as bv32, 16);
    CrcRegister(m);
    RegisterIsMessage(m);
    OfDegree(Crc(m) as bv32, 16);
    CongruentSymmetric(crc, Times(Message(m), 16));
    if Degree(r, 16) && Congruent(Times(Message(m), 16), r) {
      CongruentTransitive(crc, Times(Message(m), 16), r);
      RemainderUnique(crc, r);
    }
  }
}
