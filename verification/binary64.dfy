/** IEEE 754 binary64 rounding, the arithmetic of Python's `float`: a real
    is rounded to the nearest value with a 53-bit significand, ties to even.
    The exponent is unbounded here (no overflow, no subnormals); the values
    the lease tables hold are far from either end of the range. */
module Binary64 {
  import opened Rounding

  function Abs(x: real): real {
    if x < 0.0 then -x else x
  }

  /** The binary64 value nearest to `x`, ties to the even significand; it
      is within `|x| / 2^53` of `x`. */
  function Nearest(x: real): (d: real)
    ensures -Abs(x) / 9007199254740992.0 <= d - x <= Abs(x) / 9007199254740992.0
  {
    if x == 0.0 then 0.0
    else if x >= 4503599627370496.0 then NearestLarge(x)
    else if x > 0.0 then NearestSmall(x)
    else if -x >= 4503599627370496.0 then -NearestLarge(-x)
    else -NearestSmall(-x)
  }

  /** Rounding `x >= 2^52`: halved into [2^52, 2^53), where the doubles are
      the whole numbers, rounded there, and doubled back; halving and
      doubling are exact. */
  function NearestLarge(x: real): (d: real)
    requires x >= 4503599627370496.0
    ensures -x / 9007199254740992.0 <= d - x <= x / 9007199254740992.0
    decreases x.Floor
  {
    if x >= 9007199254740992.0 then
      assert (x / 2.0).Floor < x.Floor by {
        assert x / 2.0 <= x - 1.0;
      }
      2.0 * NearestLarge(x / 2.0)
    else RoundHalfEven(x) as real
  }

  /** Rounding `0 < x < 2^52`: doubled into [2^52, 2^53), rounded there, and
      halved back. */
  function NearestSmall(x: real): (d: real)
    requires 0.0 < x < 4503599627370496.0
    ensures -x / 9007199254740992.0 <= d - x <= x / 9007199254740992.0
    decreases (4503599627370496.0 / x).Floor
  {
    if 2.0 * x >= 4503599627370496.0 then NearestLarge(2.0 * x) / 2.0
    else
      assert (4503599627370496.0 / (2.0 * x)).Floor < (4503599627370496.0 / x).Floor by {
        var y := 4503599627370496.0 / x;
        assert y > 2.0;
        assert 4503599627370496.0 / (2.0 * x) == y / 2.0;
        assert y / 2.0 <= y - 1.0;
      }
      NearestSmall(2.0 * x) / 2.0
  }

  /** `x` doubled `k` times, and `y` halved `k` times. */
  function Doubled(x: real, k: nat): real
    decreases k
  {
    if k == 0 then x else Doubled(2.0 * x, k - 1)
  }

  function Halved(y: real, k: nat): real {
    if k == 0 then y else Halved(y, k - 1) / 2.0
  }

  /** Below 2^52, rounding is done `k` doublings up, where `x` lands in
      [2^52, 2^53): the whole number nearest `x * 2^k`, times 2^-k. */
  lemma {:induction false} NearestSmallScaled(x: real, k: nat)
    requires 0.0 < x < 4503599627370496.0
    requires 4503599627370496.0 <= Doubled(x, k) < 9007199254740992.0
    ensures NearestSmall(x) == Halved(RoundHalfEven(Doubled(x, k)) as real, k)
    decreases k
  {
    if k == 0 {
      assert false;
    } else if 2.0 * x >= 4503599627370496.0 {
      if k > 1 {
        DoubledGrows(2.0 * x, k - 1);
        assert false;
      }
    } else {
      NearestSmallScaled(2.0 * x, k - 1);
    }
  }

  /** Doubling at least once from 2^52 leaves [2^52, 2^53). */
  lemma {:induction false} DoubledGrows(x: real, k: nat)
    requires x >= 4503599627370496.0 && k >= 1
    ensures Doubled(x, k) >= 9007199254740992.0
    decreases k
  {
    if k > 1 {
      DoubledGrows(2.0 * x, k - 1);
    }
  }

  /** 2 to the power `k`. */
  function Pow2Nat(k: nat): (r: real)
    ensures r >= 1.0
  {
    if k == 0 then 1.0 else 2.0 * Pow2Nat(k - 1)
  }

  /** Exponents add when powers multiply. */
  lemma {:induction false} Pow2NatAdd(a: nat, b: nat)
    ensures Pow2Nat(a + b) == Pow2Nat(a) * Pow2Nat(b)
    decreases b
  {
    if b > 0 {
      Pow2NatAdd(a, b - 1);
      var x, y := Pow2Nat(a), Pow2Nat(b - 1);
      assert Pow2Nat(a + b) == 2.0 * (x * y);
      assert Pow2Nat(b) == 2.0 * y;
    }
  }

  /** The two scales the residual of 58% needs. */
  lemma Pow2Values()
    ensures Pow2Nat(47) == 140737488355328.0 && Pow2Nat(53) == 9007199254740992.0
  {
    Pow2Of32();
    Pow2NatAdd(32, 8);
    Pow2NatAdd(40, 7);
    Pow2NatAdd(47, 6);
  }

  lemma Pow2Of32()
    ensures Pow2Nat(32) == 4294967296.0
  {
    Pow2NatAdd(8, 8);
    Pow2NatAdd(16, 16);
  }

  /** Doubling `k` times multiplies by 2^k; halving `k` times divides by it. */
  lemma {:induction false} DoubledIsProduct(x: real, k: nat)
    ensures Doubled(x, k) == x * Pow2Nat(k)
    decreases k
  {
    if k > 0 {
      DoubledIsProduct(2.0 * x, k - 1);
      var p := Pow2Nat(k - 1);
      assert (2.0 * x) * p == x * (2.0 * p);
    }
  }

  lemma {:induction false} HalvedIsQuotient(y: real, k: nat)
    ensures Halved(y, k) == y / Pow2Nat(k)
    decreases k
  {
    if k > 0 {
      HalvedIsQuotient(y, k - 1);
      var p := Pow2Nat(k - 1);
      assert (y / p) / 2.0 == y / (2.0 * p);
    }
  }

  /** Away from zero, `Nearest` is the rounding section 4.3.1 of IEEE 754
      defines: the magnitude is scaled by 2^k into [2^52, 2^53), where the
      doubles are the whole numbers, rounded there half to even, and scaled
      back; the sign is kept. This is the case of magnitudes doubled up. */
  lemma NearestScaledUp(x: real, k: nat)
    requires x != 0.0
    requires 4503599627370496.0 <= Doubled(Abs(x), k) < 9007199254740992.0
    ensures var m := Halved(RoundHalfEven(Doubled(Abs(x), k)) as real, k);
            Nearest(x) == if x > 0.0 then m else -m
  {
    var a := Abs(x);
    if k > 0 {
      if a >= 4503599627370496.0 {
        DoubledGrows(a, k);
        assert false;
      }
      NearestSmallScaled(a, k);
    }
  }

  /** The case of magnitudes halved down. */
  lemma NearestScaledDown(x: real, k: nat)
    requires 4503599627370496.0 <= Halved(Abs(x), k) < 9007199254740992.0
    ensures var m := Doubled(RoundHalfEven(Halved(Abs(x), k)) as real, k);
            Nearest(x) == if x > 0.0 then m else -m
  {
    NearestLargeScaled(Abs(x), k);
  }

  lemma {:induction false} NearestLargeScaled(x: real, k: nat)
    requires 4503599627370496.0 <= Halved(x, k) < 9007199254740992.0
    ensures x >= 4503599627370496.0
    ensures NearestLarge(x) == Doubled(RoundHalfEven(Halved(x, k)) as real, k)
    decreases k
  {
    if k > 0 {
      HalvedFirst(x, k);
      NearestLargeScaled(x / 2.0, k - 1);
      DoubledLast(RoundHalfEven(Halved(x, k)) as real, k - 1);
    }
  }

  /** Halving `k` times is halving once, then `k - 1` times. */
  lemma {:induction false} HalvedFirst(y: real, k: nat)
    requires k > 0
    ensures Halved(y, k) == Halved(y / 2.0, k - 1)
    decreases k
  {
    if k > 1 {
      HalvedFirst(y, k - 1);
    }
  }

  /** Doubling `k + 1` times is doubling `k` times, then once. */
  lemma {:induction false} DoubledLast(y: real, k: nat)
    ensures Doubled(y, k + 1) == 2.0 * Doubled(y, k)
    decreases k
  {
    if k > 0 {
      DoubledLast(2.0 * y, k - 1);
    }
  }

  /** Every non-zero magnitude scales into [2^52, 2^53) by doubling or by
      halving, so the two lemmas above cover every non-zero real. */
  lemma ScalingExists(x: real)
    requires x != 0.0
    ensures (exists k: nat :: 4503599627370496.0 <= Doubled(Abs(x), k) < 9007199254740992.0) ||
            (exists k: nat :: 4503599627370496.0 <= Halved(Abs(x), k) < 9007199254740992.0)
  {
    if Abs(x) < 4503599627370496.0 {
      DoublingReaches(Abs(x));
    } else {
      HalvingReaches(Abs(x));
    }
  }

  lemma {:induction false} DoublingReaches(x: real)
    requires 0.0 < x < 4503599627370496.0
    ensures exists k: nat :: 4503599627370496.0 <= Doubled(x, k) < 9007199254740992.0
    decreases (4503599627370496.0 / x).Floor
  {
    if 2.0 * x >= 4503599627370496.0 {
      assert Doubled(x, 1) == 2.0 * x;
    } else {
      assert (4503599627370496.0 / (2.0 * x)).Floor < (4503599627370496.0 / x).Floor by {
        var y := 4503599627370496.0 / x;
        assert y > 2.0;
        assert 4503599627370496.0 / (2.0 * x) == y / 2.0;
        assert y / 2.0 <= y - 1.0;
      }
      DoublingReaches(2.0 * x);
      var k: nat :| 4503599627370496.0 <= Doubled(2.0 * x, k) < 9007199254740992.0;
      assert Doubled(x, k + 1) == Doubled(2.0 * x, k);
    }
  }

  lemma {:induction false} HalvingReaches(x: real)
    requires x >= 4503599627370496.0
    ensures exists k: nat :: 4503599627370496.0 <= Halved(x, k) < 9007199254740992.0
    decreases x.Floor
  {
    if x < 9007199254740992.0 {
      assert Halved(x, 0) == x;
    } else {
      assert (x / 2.0).Floor < x.Floor by {
        assert x / 2.0 <= x - 1.0;
      }
      HalvingReaches(x / 2.0);
      var k: nat :| 4503599627370496.0 <= Halved(x / 2.0, k) < 9007199254740992.0;
      HalvedFirst(x, k + 1);
    }
  }
}
