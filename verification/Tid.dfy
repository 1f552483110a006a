/** Transaction ids of the journal: 32-bit numbers that wrap, compared by the
    sign of their difference.  A transaction also has a serial number, which
    never wraps; its tid is the serial taken round the 2^32 circle. */
module Tid {
  const WRAP: int := 0x1_0000_0000
  const HALF: int := 0x8000_0000

  type TidNum = t: int | 0 <= t < WRAP

  function Of(serial: nat): (t: TidNum) {
    if serial < WRAP then serial else Of(serial - WRAP)
  }

  lemma {:induction false} OfIsRemainder(serial: nat)
    ensures Of(serial) == serial % WRAP
  {
    if serial >= WRAP {
      OfIsRemainder(serial - WRAP);
    }
  }

  /** x - y in 32-bit unsigned arithmetic. */
  function Minus(x: TidNum, y: TidNum): TidNum {
    if x >= y then x - y else x - y + WRAP
  }

  /** tid_gt: the difference, read as a signed 32-bit number, is positive. */
  predicate Gt(x: TidNum, y: TidNum) {
    0 < Minus(x, y) < HALF
  }

  /** tid_geq: the difference, read as a signed 32-bit number, is not negative. */
  predicate Geq(x: TidNum, y: TidNum) {
    Minus(x, y) < HALF
  }

  lemma {:induction false} Compare(a: nat, b: nat)
    requires -HALF <= a - b < HALF
    ensures Gt(Of(a), Of(b)) <==> a > b
    ensures Geq(Of(a), Of(b)) <==> a >= b
    ensures Of(a) == Of(b) <==> a == b
  {
    if a >= WRAP && b >= WRAP {
      Compare(a - WRAP, b - WRAP);
    }
  }

  lemma {:induction false} MinusOf(a: nat, b: nat)
    requires a >= b
    ensures Minus(Of(a), Of(b)) == Of(a - b)
  {
    if b >= WRAP {
      MinusOf(a - WRAP, b - WRAP);
      assert Of(a) == Of(a - WRAP) && Of(b) == Of(b - WRAP);
    } else if a >= WRAP {
      MinusOfSmall(a, b);
    }
  }

  lemma {:induction false} MinusOfSmall(a: nat, b: nat)
    requires b < WRAP && a >= b
    ensures Minus(Of(a), b) == Of(a - b)
  {
    if a >= 2 * WRAP {
      MinusOfSmall(a - WRAP, b);
    }
  }

  /** What tid_gt says at any distance of two transactions: it is right while the newer
      one is less than 2^31 ahead, and again for every whole 2^32 more. */
  lemma GtIff(a: nat, b: nat)
    ensures a >= b ==> (Gt(Of(a), Of(b)) <==> 0 < Of(a - b) < HALF)
    ensures a < b ==> (Gt(Of(a), Of(b)) <==> HALF < Of(b - a))
  {
    if a >= b {
      MinusOf(a, b);
    } else {
      MinusOf(b, a);
    }
  }
}
