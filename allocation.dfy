/**
  One expense row through the whole engine of batch_upload_process: paid and
  owed shares per member column (lines 191-196), then the rounding reconciler
  (line 212). The per-row error is the IndexError of the reconciler.
 */
module Allocation {
  import opened Options
  import opened Money
  import opened Flags
  import opened Shares
  import opened Reconciler

  datatype RowAllocation = RowAllocation(paid: seq<int>, owed: seq<int>)

  function AllocateRow(row: ExpenseRow, names: seq<string>, groupSize: nat, pick: nat): (r: Option<RowAllocation>)
    requires |row.cells| == |names| && groupSize >= 1
    requires ValidPick(OwedRow(row, groupSize), pick)
    ensures r.None? <==> NeedsCorrection(OwedRow(row, groupSize), row.amount)
                         && PositiveColumns(OwedRow(row, groupSize)) == []
    ensures r.Some? ==> r.value.paid == PaidRow(row, names) && |r.value.owed| == |names|
  {
    match Reconcile(OwedRow(row, groupSize), row.amount, pick)
    case NoPositiveShare => None
    case Balanced(owed) => Some(RowAllocation(PaidRow(row, names), owed))
  }

  /** What an allocated row satisfies for every choice of the reconciled column:
      one payer at most, the positive owed shares sum to the amount unless the
      shares computed by policy missed it by two cents or more, and then those
      shares are kept as computed. */
  lemma AllocateRowSound(row: ExpenseRow, names: seq<string>, groupSize: nat, pick: nat)
    requires |row.cells| == |names| && groupSize >= 1
    requires ValidPick(OwedRow(row, groupSize), pick)
    requires Distinct(names)
    ensures AllocateRow(row, names, groupSize, pick).Some? ==>
      var a := AllocateRow(row, names, groupSize, pick).value;
      && |a.paid| == |names| && |a.owed| == |names|
      && NonzeroCount(a.paid) <= 1
      && (PositiveSum(a.owed) == row.amount
          || (a.owed == OwedRow(row, groupSize) && Abs(PositiveSum(a.owed) - row.amount) >= 2))
  {
    SinglePayer(row, names);
    ReconcileSum(OwedRow(row, groupSize), row.amount, pick);
  }

  /** 100.00 split all-equal in a group of three: two members owe 33.33, the
      one the reconciler picks owes 33.34, and the shares sum to 100.00. */
  lemma AllEqualThreeWays(row: ExpenseRow, pick: nat)
    requires row == ExpenseRow(10000, "A", Flag(true), "", [Some(0), Some(0), Some(0)])
    requires pick < 3
    ensures ValidPick(OwedRow(row, 3), pick)
    ensures AllocateRow(row, ["A", "B", "C"], 3, pick)
      == Some(RowAllocation([10000, 0, 0], [3333, 3333, 3333][pick := 3334]))
    ensures Sum([3333, 3333, 3333][pick := 3334]) == 10000
  {
    ThirdsOfOneHundred(row);
    ThirdsReconciled(OwedRow(row, 3), pick);
    var names := ["A", "B", "C"];
    assert PaidRow(row, names) == [10000, 0, 0];
  }

  lemma ThirdsOfOneHundred(row: ExpenseRow)
    requires row == ExpenseRow(10000, "A", Flag(true), "", [Some(0), Some(0), Some(0)])
    ensures OwedRow(row, 3) == [3333, 3333, 3333]
  {
    var owed := OwedRow(row, 3);
    forall j | 0 <= j < 3 ensures owed[j] == 3333 {
      RoundedQuotientUnique(owed[j], 3333, 10000, 3);
    }
  }

  lemma ThirdsReconciled(owed: seq<int>, pick: nat)
    requires owed == [3333, 3333, 3333] && pick < 3
    ensures ValidPick(owed, pick)
    ensures Reconcile(owed, 10000, pick) == Balanced(owed[pick := 3334])
    ensures Sum(owed[pick := 3334]) == 10000
  {
    AllPositiveColumns(owed);
    assert seq(3, i => i) == [0, 1, 2];
    SumOfThirds(owed);
    assert Residual(owed, 10000) == -1;
    assert NeedsCorrection(owed, 10000);
    assert PositiveColumns(owed)[pick] == pick;
    assert owed[pick] - Residual(owed, 10000) == 3334;
    SumUpdate(owed, pick, 3334);
  }

  lemma SumOfThirds(owed: seq<int>)
    requires owed == [3333, 3333, 3333]
    ensures Sum(owed) == 9999
  {
    assert owed[..2] == [3333, 3333] && owed[..2][..1] == [3333] && owed[..2][..1][..0] == [];
    assert Sum(owed[..2][..1]) == 3333;
    assert Sum(owed[..2]) == 6666;
  }

  /** 50.00 split by percentages 60 and 40 owes exactly 30.00 and 20.00. */
  lemma PercentageSplit()
    ensures var row := ExpenseRow(5000, "A", Flag(false), "share", [Some(6000), Some(4000)]);
      OwedRow(row, 5) == [3000, 2000]
  {
    var row := ExpenseRow(5000, "A", Flag(false), "share", [Some(6000), Some(4000)]);
    var owed := OwedRow(row, 5);
    RoundedQuotientUnique(owed[0], 3000, 6000 * 5000, 10000);
    RoundedQuotientUnique(owed[1], 2000, 4000 * 5000, 10000);
  }

  /** An unrecognised split type owes nothing on every column: the row keeps
      zero shares (no error is raised) whenever the amount is two cents or more. */
  lemma UnknownSplitTypeOwesNothing(amount: int, cells: seq<Option<int>>, groupSize: nat, pick: nat)
    requires groupSize >= 1 && amount >= 2
    ensures var row := ExpenseRow(amount, "", Flag(false), "bogus", cells);
      ValidPick(OwedRow(row, groupSize), pick) &&
      Reconcile(OwedRow(row, groupSize), amount, pick) == Balanced(seq(|cells|, _ => 0))
  {
    var row := ExpenseRow(amount, "", Flag(false), "bogus", cells);
    var owed := OwedRow(row, groupSize);
    assert owed == seq(|cells|, _ => 0);
    NoPositiveColumns(owed);
  }

  /** 0.01 split all-equal in a group of three: every share rounds to 0.00, a
      one-cent residual remains and there is no positive share to take it, so
      `random.choice` raises on the empty list. */
  lemma OneCentAllEqualRaises(pick: nat)
    ensures var row := ExpenseRow(1, "A", Flag(true), "", [Some(0), Some(0), Some(0)]);
      ValidPick(OwedRow(row, 3), pick) && AllocateRow(row, ["A", "B", "C"], 3, pick).None?
  {
    var row := ExpenseRow(1, "A", Flag(true), "", [Some(0), Some(0), Some(0)]);
    var owed := OwedRow(row, 3);
    forall j | 0 <= j < 3 ensures owed[j] == 0 {
      RoundedQuotientUnique(owed[j], 0, 1, 3);
    }
    assert owed == [0, 0, 0];
    NoPositiveColumns(owed);
  }
}
