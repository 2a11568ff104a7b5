/**
 utils/src/fee.rs and the threshold of forester/src/rollover/operations.rs: every insertion into
 a tree pays a fee towards the rent of the tree that replaces it when it is full enough.
 */
module RolloverFees {
  import opened Wrappers
  import opened Bits

  datatype FeeError = InvalidRolloverThreshold | Overflow

  /** `x.div_ceil(d)` */
  function DivCeil(x: nat, d: nat): nat
    requires d > 0
  {
    if x % d == 0 then x / d else x / d + 1
  }

  function ComputeRolloverFee(rolloverThreshold: nat, treeHeight: nat, rent: nat): Result<nat, FeeError> {
    if treeHeight >= 64 then Failure(Overflow)
    else if rolloverThreshold > 100 then Failure(InvalidRolloverThreshold)
    else if rolloverThreshold == 0 then Success(rent)
    else if rent * 100 >= TWO_TO_THE_64 || Pow2(treeHeight) * rolloverThreshold >= TWO_TO_THE_64 then Failure(Overflow)
    else
      MulAtLeast(rolloverThreshold, Pow2(treeHeight));
      Success(DivCeil(rent * 100, Pow2(treeHeight) * rolloverThreshold))
  }

  /** The ceiling is the least number of steps of size `d` that reach `x`. */
  lemma DivCeilIsLeast(x: nat, d: nat, f: nat)
    requires d > 0
    ensures f * d >= x <==> f >= DivCeil(x, d)
  {
    var q, r := x / d, x % d;
    assert x == q * d + r;
    if f <= q {
      assert (q - f) * d == q * d - f * d;
      if f < q { MulAtLeast(q - f, d); }
    } else {
      assert (f - q) * d == f * d - q * d;
      MulAtLeast(f - q, d);
    }
  }

  /** Hundredths of a leaf that have to be used before a tree is rolled over. */
  function UsedLeaves(threshold: nat, height: nat): nat {
    Pow2(height) * threshold
  }

  /**
   When there is a fee: nothing overflows 64 bits, and the threshold is a percentage. For a
   threshold of 0 it is the rent.
   */
  lemma FeeIsComputed(threshold: nat, height: nat, rent: nat)
    ensures var r := ComputeRolloverFee(threshold, height, rent);
            && (r.Success? <==>
                  && height < 64 && threshold <= 100
                  && (threshold == 0 || (rent * 100 < TWO_TO_THE_64 && Pow2(height) * threshold < TWO_TO_THE_64)))
            && (r == Failure(InvalidRolloverThreshold) <==> height < 64 && threshold > 100)
            && (height < 64 && threshold == 0 ==> r == Success(rent))
  {
  }

  lemma FeeReaches(threshold: nat, height: nat, rent: nat, f: nat)
    requires 1 <= threshold && ComputeRolloverFee(threshold, height, rent).Success?
    ensures f * UsedLeaves(threshold, height) >= 100 * rent <==> f >= ComputeRolloverFee(threshold, height, rent).value
  {
    MulAtLeast(threshold, Pow2(height));
    DivCeilIsLeast(rent * 100, UsedLeaves(threshold, height), f);
  }

  /** The fee is the least one that, paid for the given share of all leaves, amounts to the rent. */
  lemma FeeIsLeast(threshold: nat, height: nat, rent: nat, f: nat)
    requires 1 <= threshold && ComputeRolloverFee(threshold, height, rent).Success?
    ensures f * (Pow2(height) * threshold) >= 100 * rent <==> f >= ComputeRolloverFee(threshold, height, rent).value
  {
    FeeReaches(threshold, height, rent, f);
  }

  /** `is_tree_ready_for_rollover` */
  predicate IsReady(threshold: nat, height: nat, nextIndex: nat) {
    nextIndex >= UsedLeaves(threshold, height) / 100
  }

  /** A tree is ready when one more leaf would exceed the share of leaves, counted in hundredths. */
  lemma ReadyIs(threshold: nat, height: nat, nextIndex: nat)
    ensures IsReady(threshold, height, nextIndex) <==> 100 * (nextIndex + 1) > Pow2(height) * threshold
  {
  }

  lemma ProductAtLeast(f: nat, a: nat, b: nat)
    requires a <= b
    ensures f * a <= f * b
  {
    assert f * b == f * a + f * (b - a);
  }

  /** Once a tree is ready for rollover, the fees of its leaves and of one more leaf pay the rent. */
  lemma FeesPayRent(threshold: nat, height: nat, rent: nat, nextIndex: nat)
    requires ComputeRolloverFee(threshold, height, rent).Success? && IsReady(threshold, height, nextIndex)
    ensures ComputeRolloverFee(threshold, height, rent).value * (nextIndex + 1) >= rent
  {
    var fee := ComputeRolloverFee(threshold, height, rent).value;
    if threshold == 0 {
      MulAtLeast(nextIndex + 1, fee);
    } else {
      FeeReaches(threshold, height, rent, fee);
      assert UsedLeaves(threshold, height) <= 100 * (nextIndex + 1);
      ProductAtLeast(fee, UsedLeaves(threshold, height), 100 * (nextIndex + 1));
      assert fee * (100 * (nextIndex + 1)) == 100 * (fee * (nextIndex + 1));
    }
  }

  /** The fees of the leaves a ready tree must have pay the rent, whatever the rent is. */
  ghost predicate PaysAlone(threshold: nat, height: nat) {
    forall rent: nat :: ComputeRolloverFee(threshold, height, rent).Success? ==> CoversAlone(threshold, height, rent)
  }

  ghost predicate CoversAlone(threshold: nat, height: nat, rent: nat)
    requires ComputeRolloverFee(threshold, height, rent).Success?
  {
    ComputeRolloverFee(threshold, height, rent).value * (UsedLeaves(threshold, height) / 100) >= rent
  }

  /** The least rent that the fees of the leaves alone do not pay, if rounding down loses anything. */
  function FirstUnpaid(used: nat): nat
    requires used % 100 != 0
  {
    DivCeil(100, used % 100) * (used / 100) + 1
  }

  /**
   The one more leaf is needed because the readiness test rounds down: without it the fees
   suffice for every rent that can be computed with exactly if there is nothing to round, or the
   least rent that is not paid is too large to compute with.
   */
  lemma OneMoreLeafIsNeeded(threshold: nat, height: nat)
    requires 1 <= threshold <= 100
    ensures var used := UsedLeaves(threshold, height);
            PaysAlone(threshold, height) <==>
              height >= 64 || used >= TWO_TO_THE_64 || used % 100 == 0 || FirstUnpaid(used) * 100 >= TWO_TO_THE_64
  {
    hide ComputeRolloverFee, CoversAlone, UsedLeaves, FirstUnpaid;
    var used := UsedLeaves(threshold, height);
    if height >= 64 || used >= TWO_TO_THE_64 || used % 100 == 0 || FirstUnpaid(used) * 100 >= TWO_TO_THE_64 {
      forall rent: nat | ComputeRolloverFee(threshold, height, rent).Success?
        ensures CoversAlone(threshold, height, rent)
      {
        NothingOverflows(threshold, height, rent);
        SmallRentIsPaid(threshold, height, rent);
      }
    } else {
      FirstUnpaidIsUnpaid(threshold, height);
    }
  }

  lemma NothingOverflows(threshold: nat, height: nat, rent: nat)
    requires 1 <= threshold && ComputeRolloverFee(threshold, height, rent).Success?
    ensures height < 64 && UsedLeaves(threshold, height) < TWO_TO_THE_64 && rent * 100 < TWO_TO_THE_64
  {
  }

  lemma SmallRentIsPaid(threshold: nat, height: nat, rent: nat)
    requires 1 <= threshold && ComputeRolloverFee(threshold, height, rent).Success?
    requires var used := UsedLeaves(threshold, height); used % 100 != 0 ==> rent < FirstUnpaid(used)
    ensures CoversAlone(threshold, height, rent)
  {
    var used, fee := UsedLeaves(threshold, height), ComputeRolloverFee(threshold, height, rent).value;
    FeeReaches(threshold, height, rent, fee);
    var q, rem := used / 100, used % 100;
    FeeSplits(fee, used);
    if fee * q < rent {
      assert fee * rem >= 100;
      DivCeilIsLeast(100, rem, fee);
      ProductAtLeast(q, DivCeil(100, rem), fee);
    }
  }

  lemma FeeSplits(fee: nat, used: nat)
    ensures fee * used == 100 * (fee * (used / 100)) + fee * (used % 100)
    ensures used % 100 == 0 ==> fee * (used % 100) == 0
  {
    var q, rem := used / 100, used % 100;
    assert used == 100 * q + rem;
    assert fee * (100 * q) == 100 * (fee * q);
  }

  /** A fee that just makes up for the rounding reaches the first unpaid rent, but not without what is rounded away. */
  lemma FirstUnpaidFee(used: nat, fee: nat)
    requires used % 100 != 0 && fee <= DivCeil(100, used % 100)
    ensures DivCeil(100, used % 100) * used >= 100 * FirstUnpaid(used)
    ensures fee * (used / 100) < FirstUnpaid(used)
  {
    var q, rem, f := used / 100, used % 100, DivCeil(100, used % 100);
    DivCeilIsLeast(100, rem, f);
    hide DivCeil;
    FeeSplits(f, used);
    ProductAtLeast(q, fee, f);
  }

  /** Rounding down loses enough of the fees for this rent. */
  lemma FirstUnpaidIsUnpaid(threshold: nat, height: nat)
    requires 1 <= threshold <= 100 && height < 64
    requires var used := UsedLeaves(threshold, height);
             used < TWO_TO_THE_64 && used % 100 != 0 && FirstUnpaid(used) * 100 < TWO_TO_THE_64
    ensures var rent := FirstUnpaid(UsedLeaves(threshold, height));
            ComputeRolloverFee(threshold, height, rent).Success? && !CoversAlone(threshold, height, rent)
  {
    var used := UsedLeaves(threshold, height);
    var f, rent := DivCeil(100, used % 100), FirstUnpaid(used);
    FeeIsComputed(threshold, height, rent);
    hide ComputeRolloverFee, UsedLeaves, DivCeil, FirstUnpaid;
    FirstUnpaidFee(used, f);
    FeeReaches(threshold, height, rent, f);
    FirstUnpaidFee(used, ComputeRolloverFee(threshold, height, rent).value);
  }
}
