/**
  The rounding reconciler `AssignRoundingDiff` (main.py lines 198-212). Per row,
  the owed shares that are strictly positive are added up and compared with the
  amount; a residual of one cent (0 < |diff| < 0.02) is subtracted from one of
  those positive columns, chosen by `random.choice`. Here the choice is the
  parameter `pick`, any index into the list of positive columns; every property
  below holds for every such choice.
 */
module Reconciler {
  import opened Money
  import opened Shares

  /** `share_owed_columns`: the indices of the columns with a positive owed share, in order. */
  function PositiveColumns(owed: seq<int>): (cols: seq<nat>)
    ensures WithinRow(cols, |owed|)
    ensures forall i :: 0 <= i < |cols| ==> owed[cols[i]] > 0
    ensures forall k :: 0 <= k < |owed| && owed[k] > 0 ==> k in cols
  {
    if owed == [] then []
    else
      var init := PositiveColumns(owed[..|owed| - 1]);
      if owed[|owed| - 1] > 0 then init + [|owed| - 1] else init
  }

  /** The list comprehension keeps the order of the columns: the indices increase. */
  lemma {:induction false} PositiveColumnsSorted(owed: seq<int>)
    ensures Increasing(PositiveColumns(owed))
  {
    if owed != [] {
      var n := |owed|;
      var init := PositiveColumns(owed[..n - 1]);
      PositiveColumnsSorted(owed[..n - 1]);
      if owed[n - 1] > 0 {
        var cols := init + [n - 1];
        assert PositiveColumns(owed) == cols;
        forall a, b | 0 <= a < b < |cols| ensures cols[a] < cols[b] {
          if b == |cols| - 1 {
            assert cols[a] == init[a] < n - 1;
          } else {
            assert cols[a] == init[a] && cols[b] == init[b];
            assert init[a] < init[b];
          }
        }
      } else {
        assert PositiveColumns(owed) == init;
      }
    }
  }

  /** The column indices strictly increase. */
  predicate Increasing(cols: seq<nat>)
  {
    forall a, b :: 0 <= a < b < |cols| ==> cols[a] < cols[b]
  }

  /** Every listed column exists in a row of n columns. */
  predicate WithinRow(cols: seq<nat>, n: nat)
  {
    forall i :: 0 <= i < |cols| ==> cols[i] < n
  }

  /** `row[cols].sum()`: the sum of the entries at the given columns. */
  function SumAt(owed: seq<int>, cols: seq<nat>): int
    requires WithinRow(cols, |owed|)
  {
    if cols == [] then 0 else SumAt(owed, cols[..|cols| - 1]) + owed[cols[|cols| - 1]]
  }

  /** The sum of the positive owed shares of a row. */
  function PositiveSum(owed: seq<int>): int
  {
    if owed == [] then 0
    else PositiveSum(owed[..|owed| - 1]) + (if owed[|owed| - 1] > 0 then owed[|owed| - 1] else 0)
  }

  /** Summing the columns `share_owed_columns` names is summing the positive shares. */
  lemma {:induction false} SumAtPositiveColumns(owed: seq<int>)
    ensures SumAt(owed, PositiveColumns(owed)) == PositiveSum(owed)
  {
    if owed != [] {
      var init, x := owed[..|owed| - 1], owed[|owed| - 1];
      var prev := PositiveColumns(init);
      assert owed == init + [x];
      SumAtPositiveColumns(init);
      SumAtExtend(init, x, prev);
      assert SumAt(owed, prev) == PositiveSum(init);
      if x > 0 {
        var cols := prev + [|owed| - 1];
        assert PositiveColumns(owed) == cols;
        assert cols[..|cols| - 1] == prev;
        assert SumAt(owed, cols) == SumAt(owed, prev) + x;
      } else {
        assert PositiveColumns(owed) == prev;
      }
    }
  }

  /** Appending an entry to a row does not change sums over columns before it. */
  lemma {:induction false} SumAtExtend(owed: seq<int>, x: int, cols: seq<nat>)
    requires WithinRow(cols, |owed|)
    ensures SumAt(owed + [x], cols) == SumAt(owed, cols)
  {
    if cols != [] {
      SumAtExtend(owed, x, cols[..|cols| - 1]);
    }
  }

  /** Replacing one entry changes the positive sum by the change of its positive part. */
  lemma {:induction false} PositiveSumUpdate(owed: seq<int>, k: nat, v: int)
    requires k < |owed|
    ensures PositiveSum(owed[k := v]) ==
      PositiveSum(owed) - (if owed[k] > 0 then owed[k] else 0) + (if v > 0 then v else 0)
  {
    var t := owed[k := v];
    if k == |owed| - 1 {
      assert t[..|t| - 1] == owed[..|owed| - 1];
    } else {
      assert t[..|t| - 1] == owed[..|owed| - 1][k := v];
      PositiveSumUpdate(owed[..|owed| - 1], k, v);
    }
  }

  /** On a row without negative shares the positive sum is the whole sum. */
  lemma {:induction false} PositiveSumOfNonNegative(owed: seq<int>)
    requires forall k :: 0 <= k < |owed| ==> owed[k] >= 0
    ensures PositiveSum(owed) == Sum(owed)
  {
    if owed != [] {
      PositiveSumOfNonNegative(owed[..|owed| - 1]);
    }
  }

  /** A row without a positive share: nothing to sum and nothing to pick. */
  lemma {:induction false} NoPositiveColumns(owed: seq<int>)
    requires forall k :: 0 <= k < |owed| ==> owed[k] <= 0
    ensures PositiveColumns(owed) == [] && PositiveSum(owed) == 0
  {
    if owed != [] {
      NoPositiveColumns(owed[..|owed| - 1]);
    }
  }

  /** A row of positive shares: every column is a candidate and all of it is summed. */
  lemma {:induction false} AllPositiveColumns(owed: seq<int>)
    requires forall k :: 0 <= k < |owed| ==> owed[k] > 0
    ensures |PositiveColumns(owed)| == |owed|
    ensures forall i :: 0 <= i < |owed| ==> PositiveColumns(owed)[i] == i
    ensures PositiveSum(owed) == Sum(owed)
  {
    PositiveSumOfNonNegative(owed);
    if owed != [] {
      var init := owed[..|owed| - 1];
      AllPositiveColumns(init);
      assert PositiveColumns(owed) == PositiveColumns(init) + [|owed| - 1];
    }
  }

  /** `diff = sum_share_owed - row['Amount']`. */
  function Residual(owed: seq<int>, amount: int): int
  {
    PositiveSum(owed) - amount
  }

  /** `abs(diff) > 0 and abs(diff) < 0.02`, in cents. */
  predicate NeedsCorrection(owed: seq<int>, amount: int)
  {
    0 < Abs(Residual(owed, amount)) < 2
  }

  /** A valid outcome of `random.choice(share_owed_columns)` (any index when the list is empty). */
  predicate ValidPick(owed: seq<int>, pick: nat)
  {
    PositiveColumns(owed) == [] || pick < |PositiveColumns(owed)|
  }

  /** The row after reconciliation, or the IndexError that `random.choice` raises
      on an empty list when a correction is due but no share is positive. */
  datatype Reconciled = Balanced(owed: seq<int>) | NoPositiveShare

  function Reconcile(owed: seq<int>, amount: int, pick: nat): (res: Reconciled)
    requires ValidPick(owed, pick)
    ensures res.NoPositiveShare? <==> NeedsCorrection(owed, amount) && PositiveColumns(owed) == []
    ensures res.Balanced? ==> |res.owed| == |owed|
  {
    if !NeedsCorrection(owed, amount) then Balanced(owed)
    else if PositiveColumns(owed) == [] then NoPositiveShare
    else
      var k := PositiveColumns(owed)[pick];
      // round(diff, 2) is diff itself: it is a whole number of cents
      Balanced(owed[k := owed[k] - Residual(owed, amount)])
  }

  /** The nested `AssignRoundingDiff`, updating the row's owed shares in place;
      `raised` is the IndexError of `random.choice` on an empty list. */
  method AssignRoundingDiff(row: array<int>, amount: int, pick: nat) returns (raised: bool)
    requires ValidPick(row[..], pick)
    modifies row
    ensures Reconcile(old(row[..]), amount, pick) == if raised then NoPositiveShare else Balanced(row[..])
    ensures raised ==> row[..] == old(row[..])
  {
    ghost var before := row[..];
    var cols := PositiveColumns(row[..]);
    var diff := SumAt(row[..], cols) - amount;
    assert diff == Residual(before, amount) by { SumAtPositiveColumns(before); }
    raised := false;
    if 0 < Abs(diff) < 2 {
      if cols == [] {
        raised := true;
        assert Reconcile(before, amount, pick) == NoPositiveShare by { ReconcileSteps(before, amount, pick); }
        return;
      }
      var k := cols[pick];
      row[k] := row[k] + -diff;
      assert Reconcile(before, amount, pick) == Balanced(row[..]) by {
        assert row[..] == before[k := before[k] - diff];
        ReconcileSteps(before, amount, pick);
      }
    } else {
      assert Reconcile(before, amount, pick) == Balanced(row[..]) by { ReconcileSteps(before, amount, pick); }
    }
  }

  /** Reconcile unfolded once, case by case, for the method above. */
  lemma ReconcileSteps(owed: seq<int>, amount: int, pick: nat)
    requires ValidPick(owed, pick)
    ensures !NeedsCorrection(owed, amount) ==> Reconcile(owed, amount, pick) == Balanced(owed)
    ensures NeedsCorrection(owed, amount) && PositiveColumns(owed) == [] ==>
      Reconcile(owed, amount, pick) == NoPositiveShare
    ensures NeedsCorrection(owed, amount) && PositiveColumns(owed) != [] ==>
      var k := PositiveColumns(owed)[pick];
      Reconcile(owed, amount, pick) == Balanced(owed[k := owed[k] - Residual(owed, amount)])
  {
  }

  /** Sum invariant: after reconciliation the positive shares add up to the
      amount, unless the residual was two cents or more, in which case the row
      is returned unchanged. The choice of column does not matter. */
  lemma ReconcileSum(owed: seq<int>, amount: int, pick: nat)
    requires ValidPick(owed, pick)
    ensures Reconcile(owed, amount, pick).Balanced? ==>
      PositiveSum(Reconcile(owed, amount, pick).owed) == amount
      || (Reconcile(owed, amount, pick).owed == owed && Abs(Residual(owed, amount)) >= 2)
  {
    if NeedsCorrection(owed, amount) && PositiveColumns(owed) != [] {
      var k := PositiveColumns(owed)[pick];
      assert k in PositiveColumns(owed);
      PositiveSumUpdate(owed, k, owed[k] - Residual(owed, amount));
    }
  }

  /** Exactly one column changes, it had a positive share, it moves by the
      residual, and it does not become negative; every other column is kept. */
  lemma ReconcileTouchesOne(owed: seq<int>, amount: int, pick: nat)
    requires ValidPick(owed, pick)
    requires NeedsCorrection(owed, amount) && PositiveColumns(owed) != []
    ensures var r := Reconcile(owed, amount, pick);
      r.Balanced? && |r.owed| == |owed| &&
      exists k :: 0 <= k < |owed| && owed[k] > 0 && r.owed[k] == owed[k] - Residual(owed, amount)
        && r.owed[k] >= 0
        && forall i :: 0 <= i < |owed| && i != k ==> r.owed[i] == owed[i]
  {
    var k := PositiveColumns(owed)[pick];
    assert k in PositiveColumns(owed);
  }

  /** No correction due (no residual, or one of two cents or more): nothing changes. */
  lemma ReconcileKeepsRow(owed: seq<int>, amount: int, pick: nat)
    requires ValidPick(owed, pick)
    ensures !NeedsCorrection(owed, amount) <==> Reconcile(owed, amount, pick) == Balanced(owed)
  {
    if NeedsCorrection(owed, amount) && PositiveColumns(owed) != [] {
      var k := PositiveColumns(owed)[pick];
      assert k in PositiveColumns(owed);
      assert Reconcile(owed, amount, pick).owed[k] != owed[k];
    }
  }

  /** The reconciler fails exactly when a one-cent residual has no positive share to go to. */
  lemma ReconcileRaises(owed: seq<int>, amount: int, pick: nat)
    requires ValidPick(owed, pick)
    ensures Reconcile(owed, amount, pick) == NoPositiveShare <==>
      NeedsCorrection(owed, amount) && forall k :: 0 <= k < |owed| ==> owed[k] <= 0
  {
    if NeedsCorrection(owed, amount) && PositiveColumns(owed) != [] {
      assert PositiveColumns(owed)[0] in PositiveColumns(owed);
    }
  }

  /** On a row without negative shares a correction makes the owed shares sum
      exactly to the amount and keeps every share non-negative. */
  lemma ReconcileNonNegative(owed: seq<int>, amount: int, pick: nat)
    requires ValidPick(owed, pick)
    requires forall k :: 0 <= k < |owed| ==> owed[k] >= 0
    requires NeedsCorrection(owed, amount)
    ensures Reconcile(owed, amount, pick).Balanced? ==>
      var r := Reconcile(owed, amount, pick).owed;
      Sum(r) == amount && forall k :: 0 <= k < |r| ==> r[k] >= 0
  {
    if PositiveColumns(owed) != [] {
      ReconcileSum(owed, amount, pick);
      ReconcileTouchesOne(owed, amount, pick);
      PositiveSumOfNonNegative(Reconcile(owed, amount, pick).owed);
    }
  }
}
