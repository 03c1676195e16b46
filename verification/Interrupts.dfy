/** Which interrupt handle_intrs serves, on values, and what every run keeps. */
module Interrupts {
  import opened Bytes

  datatype Irq = Irq(ifReg: byte, ieReg: byte, ime: bool, halted: bool)

  const NONE: nat := 8

  /** The mask of the next request, or 0 once the byte has been shifted out. */
  lemma NextMask(n: nat)
    requires n < 8
    ensures Byte(2 * Power2(n)) == MaskFrom(n + 1)
  {
  }

  function MaskFrom(n: nat): nat
    requires n <= 8
  {
    if n < 8 then Power2(n) else 0
  }

  predicate Pending(ifReg: byte, ieReg: byte, n: nat)
    requires n < 8
  {
    Has(ifReg, Power2(n)) && Has(ieReg, Power2(n))
  }

  /** The lowest bit from n up that is pending, or NONE. */
  function LowestFrom(ifReg: byte, ieReg: byte, n: nat): (k: nat)
    requires n <= 8
    ensures n <= k <= NONE
    ensures k < NONE ==> Pending(ifReg, ieReg, k)
    ensures forall i | n <= i < k :: !Pending(ifReg, ieReg, i)
    decreases 8 - n
  {
    if n == 8 then NONE else if Pending(ifReg, ieReg, n) then n else LowestFrom(ifReg, ieReg, n + 1)
  }

  function Lowest(i: Irq): nat { LowestFrom(i.ifReg, i.ieReg, 0) }

  function Vector(n: nat): word
    requires n < 8
  {
    0x40 + 8 * n
  }

  datatype Outcome = Outcome(irq: Irq, served: nat)

  /** handle_intrs: the lowest pending interrupt is served if IME was set; any of them wakes the CPU. */
  function Arbitrate(i: Irq): Outcome {
    var n := Lowest(i);
    if n == NONE || (!i.ime && !i.halted) then Outcome(i, NONE)
    else if !i.ime then Outcome(i.(halted := false), NONE)
    else Outcome(Irq(Clear(i.ifReg, Power2(n)), i.ieReg, false, false), n)
  }

  /** With IF below 0x20 an interrupt that is served has one of the five vectors. */
  lemma ServedHasVector(i: Irq)
    requires i.ifReg <= 0x1f
    ensures Arbitrate(i).served != NONE ==> Arbitrate(i).served < 5
    ensures Arbitrate(i).irq.ifReg <= i.ifReg
  {
    assert Has(i.ifReg, 32) == Has(i.ifReg, 64) == Has(i.ifReg, 128) == false;
  }

  /**
   What arbitration promises: only with IME set is anything served, and then it is the lowest
   pending bit, whose request alone is cleared; a CPU that is still halted or interruptible
   afterwards has nothing pending.
   */
  lemma ArbitrationMeaning(i: Irq)
    ensures var o := Arbitrate(i);
            && (o.served != NONE ==>
                  && o.served < 8 && i.ime && !o.irq.ime && Pending(i.ifReg, i.ieReg, o.served)
                  && (forall n | 0 <= n < o.served :: !Pending(i.ifReg, i.ieReg, n))
                  && forall n | 0 <= n < 8 ::
                       Has(o.irq.ifReg, Power2(n)) <==> Has(i.ifReg, Power2(n)) && n != o.served)
            && (o.served == NONE ==> o.irq.ifReg == i.ifReg && o.irq.ime == i.ime)
            && (o.irq.halted || o.irq.ime ==> forall n | 0 <= n < 8 :: !Pending(o.irq.ifReg, o.irq.ieReg, n))
  {
    var o := Arbitrate(i);
    if o.served != NONE {
      forall n | 0 <= n < 8
        ensures Has(o.irq.ifReg, Power2(n)) <==> Has(i.ifReg, Power2(n)) && n != o.served
      {
        ClearedBit(i.ifReg, o.served, n);
      }
    }
  }

  /** The outcome clears the request served, and leaves IE alone. */
  lemma OutcomeClears(i: Irq)
    ensures var o := Arbitrate(i);
            && o.irq.ieReg == i.ieReg
            && o.irq.ifReg == (if o.served < 8 then Clear(i.ifReg, Power2(o.served)) else i.ifReg)
            && (o.served < 8 ==> !o.irq.ime && !o.irq.halted)
            && (o.served >= 8 ==> o.served == NONE)
  {
  }

  /** The CPU stays halted, or interruptible, exactly when nothing is pending. */
  lemma WakesExactly(i: Irq)
    ensures Arbitrate(i).irq.halted <==> i.halted && Lowest(i) == NONE
    ensures Arbitrate(i).irq.ime <==> i.ime && Lowest(i) == NONE
  {
  }

  // ---------- bits ----------

  /** s lists the bits of x, lowest first. */
  ghost predicate IsBits(x: int, s: seq<int>) {
    && |s| == 8 && (forall i | 0 <= i < 8 :: 0 <= s[i] <= 1)
    && x == s[0] + 2 * s[1] + 4 * s[2] + 8 * s[3] + 16 * s[4] + 32 * s[5] + 64 * s[6] + 128 * s[7]
  }

  lemma BitsOf(x: byte) returns (s: seq<int>)
    ensures IsBits(x, s)
  {
    var low, high := x % 16, x / 16;
    var l1, h1 := low / 2, high / 2;
    var l2, h2 := l1 / 2, h1 / 2;
    s := [low % 2, l1 % 2, l2 % 2, l2 / 2, high % 2, h1 % 2, h2 % 2, h2 / 2];
    assert low == s[0] + 2 * s[1] + 4 * s[2] + 8 * s[3];
    assert high == s[4] + 2 * s[5] + 4 * s[6] + 8 * s[7];
  }

  lemma BitOf(x: byte, s: seq<int>, n: nat)
    requires IsBits(x, s) && n < 8
    ensures Has(x, Power2(n)) <==> s[n] == 1
  {
    if n == 0 {
    } else if n == 1 {
      assert x / 2 == s[1] + 2 * (s[2] + 2 * (s[3] + 2 * (s[4] + 2 * (s[5] + 2 * (s[6] + 2 * s[7])))));
    } else if n == 2 {
      assert x / 4 == s[2] + 2 * (s[3] + 2 * (s[4] + 2 * (s[5] + 2 * (s[6] + 2 * s[7]))));
    } else if n == 3 {
      assert x / 8 == s[3] + 2 * (s[4] + 2 * (s[5] + 2 * (s[6] + 2 * s[7])));
    } else if n == 4 {
      assert x / 16 == s[4] + 2 * (s[5] + 2 * (s[6] + 2 * s[7]));
    } else if n == 5 {
      assert x / 32 == s[5] + 2 * (s[6] + 2 * s[7]);
    } else if n == 6 {
      assert x / 64 == s[6] + 2 * s[7];
    } else {
      assert x / 128 == s[7];
    }
  }

  lemma ClearedBit(x: byte, k: nat, n: nat)
    requires k < 8 && n < 8
    ensures Clear(x, Power2(k)) <= x
    ensures Has(Clear(x, Power2(k)), Power2(n)) <==> Has(x, Power2(n)) && n != k
  {
    var s := BitsOf(x);
    BitOf(x, s, k);
    BitOf(x, s, n);
    var y := Clear(x, Power2(k));
    assert IsBits(y, s[k := 0]);
    BitOf(y, s[k := 0], n);
  }
}
