/**
 The CPU's arithmetic on A and F, stated by what it means; the CPU's methods, which compute the
 flags from bit patterns, are proved against these functions. Then chains of them over
 multi-byte numbers.
 */
module Alu {
  import opened Bytes

  const FLAG_ZERO := 0x80
  const FLAG_SUB := 0x40
  const FLAG_HCARRY := 0x20
  const FLAG_CARRY := 0x10

  datatype AF = AF(a: byte, f: byte)

  function Carry(f: byte): nat { if Has(f, FLAG_CARRY) then 1 else 0 }

  /** F with the four flags replaced; the low nibble is kept. */
  function Flags(f: byte, zero: bool, sub: bool, half: bool, carry: bool): byte {
    f % 16 + (if zero then FLAG_ZERO else 0) + (if sub then FLAG_SUB else 0)
    + (if half then FLAG_HCARRY else 0) + (if carry then FLAG_CARRY else 0)
  }

  /** A + v + carry in: the flags say what the sum and the sum of the low nibbles do. */
  function Adc(a: byte, f: byte, v: byte): AF {
    var sum := a + v + Carry(f);
    AF(Byte(sum), Flags(f, Byte(sum) == 0, false, a % 16 + v % 16 + Carry(f) >= 16, sum >= 0x100))
  }

  /** A - v - borrow in. */
  function Sbc(a: byte, f: byte, v: byte): AF {
    var diff := a - v - Carry(f);
    AF(Byte(diff), Flags(f, Byte(diff) == 0, true, a % 16 < v % 16 + Carry(f), diff < 0))
  }

  /** DAA: the textbook correction after an addition; the code's own after a subtraction. */
  function Daa(a: byte, f: byte): AF {
    var half, carry := Has(f, FLAG_HCARRY), Has(f, FLAG_CARRY);
    if Has(f, FLAG_SUB) then
      var r := if carry then Byte((if half then Byte(a - 6) else a) - 60) else if half then Byte(a - 6) else a;
      AF(r, Flags(f, r == 0, true, false, carry))
    else
      var up := carry || a > 0x99;
      var r := Byte(a + LowCorrection(a, half) + if up then 0x60 else 0);
      AF(r, Flags(f, r == 0, false, false, up))
  }

  // ---------- bit patterns ----------

  /** `(x ^ y ^ z) & mask` is non-zero. */
  predicate XorHas(x: nat, y: nat, z: nat, mask: nat)
    requires mask > 0
  {
    Has(x, mask) != (Has(y, mask) != Has(z, mask))
  }

  lemma XorSwaps(x: nat, y: nat, z: nat, mask: nat)
    requires mask > 0
    ensures XorHas(x, y, z, mask) == XorHas(y, x, z, mask)
  {
  }

  lemma HalfCarryOfSum(a: byte, v: byte, c: nat)
    requires c <= 1
    ensures XorHas(v, a, a + v + c, 0x10) <==> a % 16 + v % 16 + c >= 16
  {
  }

  lemma HalfCarryOfDifference(a: byte, v: byte, c: nat)
    requires c <= 1
    ensures XorHas(v, a, Word(a - (v + c)), 0x10) <==> a % 16 < v % 16 + c
    ensures Word(a - (v + c)) / 0x100 != 0 <==> a < v + c
  {
    var w := Word(a - (v + c));
    var k := if a % 16 < v % 16 + c then 1 else 0;
    assert w == if a < v + c then 0x1_0000 + a - (v + c) else a - (v + c);
    assert w / 16 == a / 16 - v / 16 - k + if a < v + c then 0x1000 else 0;
  }

  predicate Zero(f: byte) { Has(f, FLAG_ZERO) }
  predicate Subtract(f: byte) { Has(f, FLAG_SUB) }
  predicate Half(f: byte) { Has(f, FLAG_HCARRY) }
  predicate CarrySet(f: byte) { Has(f, FLAG_CARRY) }

  lemma FlagsSplit(f: byte)
    ensures f == Flags(f, Zero(f), Subtract(f), Half(f), CarrySet(f))
  {
  }

  lemma ClearHalf(f: byte)
    ensures Clear(f, FLAG_HCARRY) == Flags(f, Zero(f), Subtract(f), false, CarrySet(f))
  {
    FlagsSplit(f);
  }

  lemma WithCarry(f: byte)
    ensures With(f, FLAG_CARRY) == Flags(f, Zero(f), Subtract(f), Half(f), true)
  {
    FlagsSplit(f);
  }

  lemma ZeroFlag(f: byte)
    ensures With(f, FLAG_ZERO) == Flags(f, true, Subtract(f), Half(f), CarrySet(f))
    ensures Clear(f, FLAG_ZERO) == Flags(f, false, Subtract(f), Half(f), CarrySet(f))
  {
    FlagsSplit(f);
  }

  /** The flags after DAA's updates: half carry cleared, carry only ever set, zero by the result. */
  lemma DaaFlagUpdates(f: byte, carry: bool, zero: bool)
    ensures var f1 := Clear(f, FLAG_HCARRY);
            var f2 := if carry then With(f1, FLAG_CARRY) else f1;
            (if zero then With(f2, FLAG_ZERO) else Clear(f2, FLAG_ZERO))
              == Flags(f, zero, Subtract(f), false, carry || CarrySet(f))
  {
    ClearHalf(f);
    var f1 := Clear(f, FLAG_HCARRY);
    FlagsRead(f, Zero(f), Subtract(f), false, CarrySet(f));
    WithCarry(f1);
    var f2 := if carry then With(f1, FLAG_CARRY) else f1;
    FlagsRead(f, Zero(f), Subtract(f), false, carry || CarrySet(f));
    ZeroFlag(f2);
  }

  function LowCorrection(a: byte, half: bool): nat { if half || a % 16 > 9 then 6 else 0 }

  /** The code tests for the upper correction after it has made the lower one. */
  lemma UpperTest(a: byte, half: bool)
    ensures a + LowCorrection(a, half) > 0x9f <==> a > 0x99
  {
  }

  /** The subtractions in 16 bits, cut to a byte. */
  lemma LowerBytes(x: byte)
    ensures Word(x - 6) % 0x100 == Byte(x - 6) && Word(x - 60) % 0x100 == Byte(x - 60)
    ensures !Has(x, 0x100) && x % 0x100 == x
  {
  }

  /** When the corrected sum overflows a byte. */
  lemma UpperCarry(a: byte, half: bool, carry: bool)
    ensures var up := carry || a > 0x99;
            Has(a + LowCorrection(a, half) + if up then 0x60 else 0, 0x100) || carry <==> up
  {
    UpperTest(a, half);
  }

  // ---------- multi-byte numbers, least significant byte first ----------

  function Power256(n: nat): nat { if n == 0 then 1 else 256 * Power256(n - 1) }

  function Value(xs: seq<byte>): nat { if xs == [] then 0 else xs[0] + 256 * Value(xs[1..]) }

  /** The carry flag as a digit of weight `weight`. */
  function CarryDigit(f: byte, weight: nat): nat { if Has(f, FLAG_CARRY) then weight else 0 }

  datatype Chain = Chain(bytes: seq<byte>, f: byte)

  /** ADC over two numbers byte by byte, the flags threaded through. */
  function AdcChain(xs: seq<byte>, ys: seq<byte>, f: byte): Chain
    requires |xs| == |ys|
  {
    if xs == [] then Chain([], f)
    else
      var af := Adc(xs[0], f, ys[0]);
      var rest := AdcChain(xs[1..], ys[1..], af.f);
      Chain([af.a] + rest.bytes, rest.f)
  }

  function SbcChain(xs: seq<byte>, ys: seq<byte>, f: byte): Chain
    requires |xs| == |ys|
  {
    if xs == [] then Chain([], f)
    else
      var af := Sbc(xs[0], f, ys[0]);
      var rest := SbcChain(xs[1..], ys[1..], af.f);
      Chain([af.a] + rest.bytes, rest.f)
  }

  lemma FlagsRead(f: byte, zero: bool, sub: bool, half: bool, carry: bool)
    ensures var g := Flags(f, zero, sub, half, carry);
            && Has(g, FLAG_CARRY) == carry && Has(g, FLAG_HCARRY) == half
            && Has(g, FLAG_SUB) == sub && Has(g, FLAG_ZERO) == zero && g % 16 == f % 16
  {
  }

  /** F bit by bit after ADC: zero, no subtraction, the carries out of the low nibble and of the byte. */
  lemma AdcFlags(a: byte, f: byte, v: byte)
    ensures var c, r := f / 16 % 2, Adc(a, f, v);
            && r.a == (a + v + c) % 0x100
            && (r.f / 128 % 2 == 1 <==> r.a == 0) && r.f / 64 % 2 == 0
            && (r.f / 32 % 2 == 1 <==> a % 16 + v % 16 + c > 15) && (r.f / 16 % 2 == 1 <==> a + v + c > 255)
  {
    var sum := a + v + Carry(f);
    FlagsRead(f, Byte(sum) == 0, false, a % 16 + v % 16 + Carry(f) >= 16, sum >= 0x100);
  }

  /** The same after SBC, with borrows. */
  lemma SbcFlags(a: byte, f: byte, v: byte)
    ensures var c, r := f / 16 % 2, Sbc(a, f, v);
            && r.a == (a - v - c) % 0x100
            && (r.f / 128 % 2 == 1 <==> r.a == 0) && r.f / 64 % 2 == 1
            && (r.f / 32 % 2 == 1 <==> a % 16 < v % 16 + c) && (r.f / 16 % 2 == 1 <==> a < v + c)
  {
    var diff := a - v - Carry(f);
    FlagsRead(f, Byte(diff) == 0, true, a % 16 < v % 16 + Carry(f), diff < 0);
  }

  /** After DAA: zero says whether A is 0, the half carry is clear, subtraction stays, carry is never lost. */
  lemma DaaFlags(a: byte, f: byte)
    ensures var r := Daa(a, f);
            && (r.f / 128 % 2 == 1 <==> r.a == 0) && r.f / 64 % 2 == f / 64 % 2 && r.f / 32 % 2 == 0
            && (r.f / 16 % 2 == 1 <==> f / 16 % 2 == 1 || (f / 64 % 2 == 0 && a > 0x99))
  {
    var r, sub := Daa(a, f).a, Has(f, FLAG_SUB);
    FlagsRead(f, r == 0, sub, false, Has(f, FLAG_CARRY) || (!sub && a > 0x99));
  }

  lemma AdcByte(a: byte, f: byte, v: byte)
    ensures Adc(a, f, v).a + CarryDigit(Adc(a, f, v).f, 256) == a + v + Carry(f)
    ensures Adc(a, f, v).f % 16 == f % 16
  {
    var sum := a + v + Carry(f);
    FlagsRead(f, Byte(sum) == 0, false, a % 16 + v % 16 + Carry(f) >= 16, sum >= 0x100);
  }

  lemma SbcByte(a: byte, f: byte, v: byte)
    ensures Sbc(a, f, v).a - CarryDigit(Sbc(a, f, v).f, 256) == a - v - Carry(f)
    ensures Sbc(a, f, v).f % 16 == f % 16
  {
    var diff := a - v - Carry(f);
    FlagsRead(f, Byte(diff) == 0, true, a % 16 < v % 16 + Carry(f), diff < 0);
  }

  /** A number of n bytes is below 256^n, so that with the digit that does not fit it is determined. */
  lemma {:induction false} ValueBelow(xs: seq<byte>)
    ensures Value(xs) < Power256(|xs|)
  {
    if xs != [] {
      ValueBelow(xs[1..]);
    }
  }

  /** Numbers of any length: the sum, with the carry flag as the digit that does not fit. */
  lemma {:induction false} AdcChainAdds(xs: seq<byte>, ys: seq<byte>, f: byte)
    requires |xs| == |ys|
    ensures var r := AdcChain(xs, ys, f);
            && |r.bytes| == |xs|
            && Value(r.bytes) < Power256(|xs|)
            && Value(r.bytes) + CarryDigit(r.f, Power256(|xs|)) == Value(xs) + Value(ys) + Carry(f)
  {
    ValueBelow(AdcChain(xs, ys, f).bytes);
    if xs != [] {
      var af := Adc(xs[0], f, ys[0]);
      AdcByte(xs[0], f, ys[0]);
      AdcChainAdds(xs[1..], ys[1..], af.f);
      var r := AdcChain(xs, ys, f);
      assert r.bytes[1..] == AdcChain(xs[1..], ys[1..], af.f).bytes;
    }
  }

  /** Numbers of any length: the difference, with the carry flag as the borrow. */
  lemma {:induction false} SbcChainSubtracts(xs: seq<byte>, ys: seq<byte>, f: byte)
    requires |xs| == |ys|
    ensures var r := SbcChain(xs, ys, f);
            && |r.bytes| == |xs|
            && Value(r.bytes) < Power256(|xs|)
            && Value(r.bytes) - CarryDigit(r.f, Power256(|xs|)) == Value(xs) - Value(ys) - Carry(f)
  {
    ValueBelow(SbcChain(xs, ys, f).bytes);
    if xs != [] {
      var af := Sbc(xs[0], f, ys[0]);
      SbcByte(xs[0], f, ys[0]);
      SbcChainSubtracts(xs[1..], ys[1..], af.f);
      var r := SbcChain(xs, ys, f);
      assert r.bytes[1..] == SbcChain(xs[1..], ys[1..], af.f).bytes;
    }
  }

  /** Subtracting what was added, with the carry in as the borrow in, restores number and carry. */
  lemma {:induction false} SbcUndoesAdc(xs: seq<byte>, ys: seq<byte>, f: byte, g: byte)
    requires |xs| == |ys| && Carry(f) == Carry(g)
    ensures |AdcChain(xs, ys, f).bytes| == |ys|
    ensures SbcChain(AdcChain(xs, ys, f).bytes, ys, g).bytes == xs
    ensures Carry(SbcChain(AdcChain(xs, ys, f).bytes, ys, g).f) == Carry(AdcChain(xs, ys, f).f)
  {
    if xs != [] {
      var af := Adc(xs[0], f, ys[0]);
      var back := Sbc(af.a, g, ys[0]);
      AdcByte(xs[0], f, ys[0]);
      SbcByte(af.a, g, ys[0]);
      assert back.a == xs[0] && Carry(back.f) == Carry(af.f);
      SbcUndoesAdc(xs[1..], ys[1..], af.f, back.f);
      assert AdcChain(xs, ys, f).bytes[1..] == AdcChain(xs[1..], ys[1..], af.f).bytes;
    }
  }

  // ---------- packed BCD ----------

  predicate IsBcd(x: byte) { x % 16 <= 9 && x / 16 <= 9 }

  function Decimal(x: byte): nat { x / 16 * 10 + x % 16 }

  function Power100(n: nat): nat { if n == 0 then 1 else 100 * Power100(n - 1) }

  function BcdValue(xs: seq<byte>): nat { if xs == [] then 0 else Decimal(xs[0]) + 100 * BcdValue(xs[1..]) }

  predicate AllBcd(xs: seq<byte>) { forall i | 0 <= i < |xs| :: IsBcd(xs[i]) }

  function AddBcd(x: byte, f: byte, y: byte): AF {
    var af := Adc(x, f, y);
    Daa(af.a, af.f)
  }

  function SubBcd(x: byte, f: byte, y: byte): AF {
    var af := Sbc(x, f, y);
    Daa(af.a, af.f)
  }

  lemma AddBcdByte(x: byte, f: byte, y: byte)
    requires IsBcd(x) && IsBcd(y)
    ensures IsBcd(AddBcd(x, f, y).a)
    ensures Decimal(AddBcd(x, f, y).a) + CarryDigit(AddBcd(x, f, y).f, 100) == Decimal(x) + Decimal(y) + Carry(f)
  {
    var c := Carry(f);
    var sum := x + y + c;
    var half := x % 16 + y % 16 + c >= 16;
    FlagsRead(f, Byte(sum) == 0, false, half, sum >= 0x100);
    var af := Adc(x, f, y);
    var up := sum >= 0x100 || af.a > 0x99;
    var r := Byte(af.a + (if half || af.a % 16 > 9 then 6 else 0) + (if up then 0x60 else 0));
    FlagsRead(af.f, r == 0, false, false, up);
    assert AddBcd(x, f, y).a == r;
    var lo, hi := x % 16 + y % 16 + c, x / 16 + y / 16;
    assert sum == 16 * hi + lo;
    BcdDigits(lo, hi, r);
  }

  /** The two tests of the correction, on the digit sums lo and hi of the two places. */
  lemma BcdTests(lo: nat, hi: nat)
    requires lo <= 19 && hi <= 18
    ensures var sum := 16 * hi + lo;
            && (lo >= 16 || Byte(sum) % 16 > 9 <==> lo >= 10)
            && (sum >= 0x100 || Byte(sum) > 0x99 <==> if lo >= 10 then hi >= 9 else hi >= 10)
  {
    var sum := 16 * hi + lo;
    BcdWrapped(lo, hi);
    assert Byte(sum) % 16 == lo % 16 == if lo >= 16 then lo - 16 else lo;
  }

  lemma BcdWrapped(lo: nat, hi: nat)
    requires lo <= 19 && hi <= 18
    ensures var sum := 16 * hi + lo;
            Byte(sum) == (if sum >= 0x100 then sum - 0x100 else sum) && Byte(sum) % 16 == lo % 16
  {
  }

  lemma BcdDigits(lo: nat, hi: nat, r: byte)
    requires lo <= 19 && hi <= 18
    requires var sum := 16 * hi + lo;
             var up := sum >= 0x100 || Byte(sum) > 0x99;
             r == Byte(Byte(sum) + (if lo >= 16 || Byte(sum) % 16 > 9 then 6 else 0) + (if up then 0x60 else 0))
    ensures var sum := 16 * hi + lo;
            && IsBcd(r)
            && Decimal(r) + (if sum >= 0x100 || Byte(sum) > 0x99 then 100 else 0) == 10 * hi + lo
  {
    BcdTests(lo, hi);
    var h, l := hi, lo;
    if lo >= 10 {
      h, l := hi + 1, lo - 10;
    }
    WrapOnce(16 * hi + lo, (if lo >= 10 then 6 else 0) + (if h >= 10 then 0x60 else 0));
    BcdBytes(h, l, 16 * hi + lo + if lo >= 10 then 6 else 0, r);
  }

  lemma WrapOnce(sum: nat, more: nat)
    ensures Byte(Byte(sum) + more) == Byte(sum + more)
  {
  }

  lemma BcdBytes(h: nat, l: nat, total: nat, r: byte)
    requires l <= 9 && h <= 19 && total == 16 * h + l
    requires r == Byte(total + if h >= 10 then 0x60 else 0)
    ensures IsBcd(r) && Decimal(r) + (if h >= 10 then 100 else 0) == 10 * h + l
  {
    var d := if h >= 10 then h - 10 else h;
    assert r == 16 * d + l;
  }

  function AddBcdChain(xs: seq<byte>, ys: seq<byte>, f: byte): Chain
    requires |xs| == |ys|
  {
    if xs == [] then Chain([], f)
    else
      var af := AddBcd(xs[0], f, ys[0]);
      var rest := AddBcdChain(xs[1..], ys[1..], af.f);
      Chain([af.a] + rest.bytes, rest.f)
  }

  function SubBcdChain(xs: seq<byte>, ys: seq<byte>, f: byte): Chain
    requires |xs| == |ys|
  {
    if xs == [] then Chain([], f)
    else
      var af := SubBcd(xs[0], f, ys[0]);
      var rest := SubBcdChain(xs[1..], ys[1..], af.f);
      Chain([af.a] + rest.bytes, rest.f)
  }

  lemma {:induction false} BcdBelow(xs: seq<byte>)
    requires AllBcd(xs)
    ensures BcdValue(xs) < Power100(|xs|)
  {
    if xs != [] {
      BcdBelow(xs[1..]);
    }
  }

  /**
   ADC then DAA over packed-BCD numbers of any length gives packed-BCD digits of the decimal sum,
   the carry flag threaded from each DAA into the next ADC being the digit that does not fit.
   */
  lemma {:induction false} AddBcdChainAdds(xs: seq<byte>, ys: seq<byte>, f: byte)
    requires |xs| == |ys| && AllBcd(xs) && AllBcd(ys)
    ensures var r := AddBcdChain(xs, ys, f);
            && |r.bytes| == |xs| && AllBcd(r.bytes)
            && BcdValue(r.bytes) < Power100(|xs|)
            && BcdValue(r.bytes) + CarryDigit(r.f, Power100(|xs|)) == BcdValue(xs) + BcdValue(ys) + Carry(f)
  {
    if xs != [] {
      var af := AddBcd(xs[0], f, ys[0]);
      AddBcdByte(xs[0], f, ys[0]);
      AddBcdChainAdds(xs[1..], ys[1..], af.f);
      var r, rest := AddBcdChain(xs, ys, f), AddBcdChain(xs[1..], ys[1..], af.f);
      assert r.bytes[1..] == rest.bytes;
      assert AllBcd(r.bytes);
    }
    BcdBelow(AddBcdChain(xs, ys, f).bytes);
  }

  /** SBC then DAA on one byte is right without a borrow, and never right with one. */
  lemma SubBcdByte(x: byte, f: byte, y: byte)
    requires IsBcd(x) && IsBcd(y)
    ensures var r, d := SubBcd(x, f, y), Decimal(x) - Decimal(y) - Carry(f);
            if d >= 0 then IsBcd(r.a) && Decimal(r.a) == d && !Has(r.f, FLAG_CARRY)
            else Has(r.f, FLAG_CARRY) && !(IsBcd(r.a) && Decimal(r.a) == d + 100)
  {
    var c := Carry(f);
    var diff, half := x - y - c, x % 16 < y % 16 + c;
    FlagsRead(f, Byte(diff) == 0, true, half, diff < 0);
    var af := Sbc(x, f, y);
    var r := SubBcd(x, f, y);
    var up := diff < 0;
    var fixed := if half then Byte(af.a - 6) else af.a;
    assert r.a == if up then Byte(fixed - 60) else fixed;
    FlagsRead(af.f, r.a == 0, true, false, up);
    BcdBorrow(x % 16 - y % 16 - c, x / 16 - y / 16, r.a);
  }

  /** lo and hi are the digit differences of the two places. */
  lemma BcdBorrow(lo: int, hi: int, r: byte)
    requires -10 <= lo <= 9 && -9 <= hi <= 9
    requires var diff := 16 * hi + lo;
             var fixed := if lo < 0 then Byte(Byte(diff) - 6) else Byte(diff);
             r == if diff < 0 then Byte(fixed - 60) else fixed
    ensures 16 * hi + lo >= 0 <==> 10 * hi + lo >= 0
    ensures 10 * hi + lo >= 0 ==> IsBcd(r) && Decimal(r) == 10 * hi + lo
    ensures 10 * hi + lo < 0 ==> !(IsBcd(r) && Decimal(r) == 10 * hi + lo + 100)
  {
    var h, l := hi, lo;
    if lo < 0 {
      h, l := hi - 1, lo + 10;
    }
    var diff := 16 * hi + lo;
    var fixed := if lo < 0 then Byte(Byte(diff) - 6) else Byte(diff);
    assert fixed == Byte(16 * h + l);
    assert diff < 0 <==> h < 0;
    BorrowBytes(h, l, r);
  }

  lemma BorrowBytes(h: int, l: nat, r: byte)
    requires l <= 9 && -10 <= h <= 9
    requires r == if h < 0 then Byte(Byte(16 * h + l) - 60) else Byte(16 * h + l)
    ensures h >= 0 ==> IsBcd(r) && Decimal(r) == 10 * h + l
    ensures h < 0 ==> !(IsBcd(r) && Decimal(r) == 10 * (h + 10) + l)
  {
    if h >= 0 {
      assert r == 16 * h + l;
    } else {
      assert r == 16 * (h + 10) + l + 36;
    }
  }

  /** No byte of the subtraction borrows. */
  predicate NoByteBorrows(xs: seq<byte>, ys: seq<byte>, f: byte)
    requires |xs| == |ys|
  {
    forall i | 0 <= i < |xs| :: Decimal(xs[i]) >= Decimal(ys[i]) + if i == 0 then Carry(f) else 0
  }

  ghost predicate SubtractsBcd(r: Chain, xs: seq<byte>, ys: seq<byte>, f: byte) {
    && |r.bytes| == |xs| && AllBcd(r.bytes)
    && BcdValue(r.bytes) - CarryDigit(r.f, Power100(|xs|)) == BcdValue(xs) - BcdValue(ys) - Carry(f)
  }

  /**
   SBC then DAA over packed-BCD numbers of any length is the decimal subtraction exactly when no
   byte borrows, since the code takes decimal 60 off where 0x60 is meant.
   */
  lemma {:induction false} SubBcdExact(xs: seq<byte>, ys: seq<byte>, f: byte)
    requires |xs| == |ys| && AllBcd(xs) && AllBcd(ys)
    ensures SubtractsBcd(SubBcdChain(xs, ys, f), xs, ys, f) <==> NoByteBorrows(xs, ys, f)
    ensures |SubBcdChain(xs, ys, f).bytes| == |xs|
  {
    if xs != [] {
      var x, y, xs', ys' := xs[0], ys[0], xs[1..], ys[1..];
      var af := SubBcd(x, f, y);
      SubBcdByte(x, f, y);
      SubBcdExact(xs', ys', af.f);
      var r, rest := SubBcdChain(xs, ys, f), SubBcdChain(xs', ys', af.f);
      assert r.bytes[0] == af.a && r.bytes[1..] == rest.bytes;
      if Decimal(x) >= Decimal(y) + Carry(f) {
        AllBcdFrom(r.bytes);
        NoByteBorrowsFrom(xs, ys, f, af.f);
      }
    }
  }

  lemma AllBcdFrom(xs: seq<byte>)
    requires xs != []
    ensures AllBcd(xs) <==> IsBcd(xs[0]) && AllBcd(xs[1..])
  {
    assert forall i | 0 <= i < |xs[1..]| :: xs[1..][i] == xs[i + 1];
    assert AllBcd(xs[1..]) ==> forall i | 1 <= i < |xs| :: xs[i] == xs[1..][i - 1];
  }

  lemma NoByteBorrowsFrom(xs: seq<byte>, ys: seq<byte>, f: byte, g: byte)
    requires |xs| == |ys| > 0 && Decimal(xs[0]) >= Decimal(ys[0]) + Carry(f) && Carry(g) == 0
    ensures NoByteBorrows(xs, ys, f) <==> NoByteBorrows(xs[1..], ys[1..], g)
  {
    var xs', ys' := xs[1..], ys[1..];
    assert forall i | 0 <= i < |xs'| :: xs'[i] == xs[i + 1] && ys'[i] == ys[i + 1];
    assert NoByteBorrows(xs', ys', g) ==> forall i | 1 <= i < |xs| :: xs[i] == xs'[i - 1] && ys[i] == ys'[i - 1];
  }

  lemma SubBcdFails()
    ensures SubBcd(0x00, 0, 0x01).a == 0xbd
  {
    assert Sbc(0x00, 0, 0x01) == AF(0xff, FLAG_SUB + FLAG_HCARRY + FLAG_CARRY);
    FlagsRead(0, false, true, true, true);
    assert Byte(0xff - 6) == 0xf9 && Byte(0xf9 - 60) == 0xbd;
  }
}
