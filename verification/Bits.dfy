/** Bitwise operations of C on unsigned words, by halving. */
module Bits {
  predicate Bit(w: nat, b: nat) {
    if b == 0 then w % 2 == 1 else Bit(w / 2, b - 1)
  }

  /** a | b */
  function Or(a: nat, b: nat): nat {
    if a == 0 && b == 0 then 0
    else 2 * Or(a / 2, b / 2) + if a % 2 == 1 || b % 2 == 1 then 1 else 0
  }

  /** a & ~b */
  function AndNot(a: nat, b: nat): nat {
    if a == 0 then 0
    else 2 * AndNot(a / 2, b / 2) + if a % 2 == 1 && b % 2 == 0 then 1 else 0
  }

  /** 1 << b */
  function OneShifted(b: nat): (r: nat)
    ensures r > 0
  {
    if b == 0 then 1 else 2 * OneShifted(b - 1)
  }

  /** w >> b */
  function ShiftRight(w: nat, b: nat): nat {
    if b == 0 then w else ShiftRight(w / 2, b - 1)
  }

  /** Shifting brings bit b to the bottom, one place at a time. */
  lemma {:induction false} ShiftBit(w: nat, b: nat)
    ensures Bit(w, b) <==> ShiftRight(w, b) % 2 == 1
    ensures ShiftRight(w, b + 1) == ShiftRight(w, b) / 2
  {
    if b > 0 { ShiftBit(w / 2, b - 1); }
  }

  /** A word that is not zero has a bit set. */
  lemma {:induction false} SomeBit(w: nat, n: nat) returns (c: nat)
    requires 0 < w < OneShifted(n)
    ensures c < n && Bit(w, c)
  {
    if w % 2 == 1 {
      c := 0;
    } else {
      c := SomeBit(w / 2, n - 1);
      c := c + 1;
    }
  }

  lemma {:induction false} OrBit(a: nat, b: nat, c: nat)
    ensures Bit(Or(a, b), c) <==> Bit(a, c) || Bit(b, c)
  {
    if a == 0 && b == 0 {
    } else {
      var low := if a % 2 == 1 || b % 2 == 1 then 1 else 0;
      assert (2 * Or(a / 2, b / 2) + low) / 2 == Or(a / 2, b / 2);
      if c > 0 { OrBit(a / 2, b / 2, c - 1); }
    }
  }

  lemma {:induction false} AndNotBit(a: nat, b: nat, c: nat)
    ensures Bit(AndNot(a, b), c) <==> Bit(a, c) && !Bit(b, c)
  {
    if a == 0 {
      ZeroBit(c);
    } else {
      var low := if a % 2 == 1 && b % 2 == 0 then 1 else 0;
      assert (2 * AndNot(a / 2, b / 2) + low) / 2 == AndNot(a / 2, b / 2);
      if c > 0 { AndNotBit(a / 2, b / 2, c - 1); }
    }
  }

  lemma {:induction false} ZeroBit(c: nat)
    ensures !Bit(0, c)
  {
    if c > 0 { ZeroBit(c - 1); }
  }

  lemma {:induction false} OneShiftedBit(b: nat, c: nat)
    ensures Bit(OneShifted(b), c) <==> b == c
  {
    if b == 0 {
      if c > 0 { ZeroBit(c - 1); }
    } else if c > 0 {
      assert 2 * OneShifted(b - 1) / 2 == OneShifted(b - 1);
      OneShiftedBit(b - 1, c - 1);
    }
  }

  /** Operations on words that fit in n bits give words that fit. */
  lemma {:induction false} OrFits(a: nat, b: nat, n: nat)
    requires a < OneShifted(n) && b < OneShifted(n)
    ensures Or(a, b) < OneShifted(n)
  {
    if n > 0 { OrFits(a / 2, b / 2, n - 1); }
  }

  lemma {:induction false} AndNotFits(a: nat, b: nat)
    ensures AndNot(a, b) <= a
  {
    if a > 0 { AndNotFits(a / 2, b / 2); }
  }

  lemma {:induction false} OneShiftedGrows(b: nat, n: nat)
    requires b < n
    ensures OneShifted(b) < OneShifted(n)
  {
    if b + 1 < n { OneShiftedGrows(b, n - 1); }
  }
}
