/**
  The share calculator of batch_upload_process (main.py lines 173-196): for each
  expense row and each member column, the share the member paid and the share
  the member owes. Amounts are cents; a member cell is a fixed-point number with
  two decimals, held as an integer count of hundredths (so an `amount` cell is
  in cents and a `share` cell is a percentage times 100).
 */
module Shares {
  import opened Options
  import opened Money
  import opened Flags

  /** One row of the Expenses sheet after the `All equal` column is parsed;
      `cells[j]` is the cell of the j-th member column (None when empty). */
  datatype ExpenseRow = ExpenseRow(
    amount: int,
    paidBy: string,
    allEqual: AllEqual,
    splitType: string,
    cells: seq<Option<int>>)

  /** Number of member columns with a non-empty cell on a row. */
  function PresentCount(cells: seq<Option<int>>): (n: nat)
    ensures n <= |cells|
    ensures n == 0 <==> forall j :: 0 <= j < |cells| ==> cells[j].None?
  {
    if cells == [] then 0
    else PresentCount(cells[..|cells| - 1]) + (if cells[|cells| - 1].Some? then 1 else 0)
  }

  /** The nested `getShareOwed`: what the member of column j owes for the row.
      The rounded policies give the nearest cent, ties to even. */
  function ShareOwed(row: ExpenseRow, j: nat, groupSize: nat): (r: int)
    requires j < |row.cells|
    requires groupSize >= 1
    // an empty cell owes nothing, whatever the flags say
    ensures row.cells[j].None? ==> r == 0
    // all equal: the amount divided by the size of the Splitwise group
    ensures row.cells[j].Some? && IsTrue(row.allEqual) ==>
      IsRoundedQuotient(r, row.amount, groupSize)
    // share: the cell is a percentage of the amount
    ensures row.cells[j].Some? && !IsTrue(row.allEqual) && row.splitType == "share" ==>
      IsRoundedQuotient(r, row.cells[j].value * row.amount, 100 * 100)
    // amount: the cell itself, unrounded
    ensures row.cells[j].Some? && !IsTrue(row.allEqual) && row.splitType == "amount" ==>
      r == row.cells[j].value
    // equal: the amount divided among the members with a cell on this row
    ensures row.cells[j].Some? && !IsTrue(row.allEqual) && row.splitType == "equal" ==>
      PresentCount(row.cells) >= 1 && IsRoundedQuotient(r, row.amount, PresentCount(row.cells))
    // any other split type: nothing owed, no error
    ensures (row.cells[j].Some? && !IsTrue(row.allEqual)
             && row.splitType !in {"share", "amount", "equal"}) ==> r == 0
  {
    match row.cells[j]
    case None => 0
    case Some(cell) =>
      if IsTrue(row.allEqual) then RoundHalfEven(row.amount, groupSize)
      else if row.splitType == "share" then RoundHalfEven(cell * row.amount, 100 * 100)
      else if row.splitType == "amount" then cell
      else if row.splitType == "equal" then
        assert row.cells[j].Some?;
        RoundHalfEven(row.amount, PresentCount(row.cells))
      else 0
  }

  /** `np.where(expenses_df["Paid by"] == name, expenses_df['Amount'], 0)`. */
  function PaidShare(row: ExpenseRow, name: string): (r: int)
    ensures r == 0 || r == row.amount
    ensures r != 0 ==> row.paidBy == name
    ensures row.paidBy != name ==> r == 0
  {
    if row.paidBy == name then row.amount else 0
  }

  /** The paid shares of one row across the member columns. */
  function PaidRow(row: ExpenseRow, names: seq<string>): (paid: seq<int>)
    ensures |paid| == |names|
    ensures forall j :: 0 <= j < |names| ==> paid[j] == PaidShare(row, names[j])
  {
    seq(|names|, j requires 0 <= j < |names| => PaidShare(row, names[j]))
  }

  /** The owed shares of one row across its member columns. */
  function OwedRow(row: ExpenseRow, groupSize: nat): (owed: seq<int>)
    requires groupSize >= 1
    ensures |owed| == |row.cells|
    ensures forall j :: 0 <= j < |row.cells| ==> owed[j] == ShareOwed(row, j, groupSize)
  {
    seq(|row.cells|, j requires 0 <= j < |row.cells| => ShareOwed(row, j, groupSize))
  }

  predicate Distinct(names: seq<string>)
  {
    forall i, j :: 0 <= i < j < |names| ==> names[i] != names[j]
  }

  function NonzeroCount(s: seq<int>): (n: nat)
    ensures n <= |s|
  {
    if s == [] then 0 else NonzeroCount(s[..|s| - 1]) + (if s[|s| - 1] != 0 then 1 else 0)
  }

  /** Single payer: with distinct member names at most one column of a row has
      a nonzero paid share, and exactly one when the payer is a member column
      and the amount is not zero. */
  lemma {:induction false} SinglePayer(row: ExpenseRow, names: seq<string>)
    requires Distinct(names)
    ensures NonzeroCount(PaidRow(row, names)) <= 1
    ensures NonzeroCount(PaidRow(row, names)) == 1 <==> row.amount != 0 && row.paidBy in names
  {
    if names != [] {
      var init := names[..|names| - 1];
      var last := names[|names| - 1];
      assert PaidRow(row, names)[..|names| - 1] == PaidRow(row, init);
      SinglePayer(row, init);
      assert names == init + [last];
      if last == row.paidBy {
        assert row.paidBy !in init;
        NoPayerNoPaid(row, init);
      }
    }
  }

  /** No member column named like the payer: every paid share of the row is zero. */
  lemma {:induction false} NoPayerNoPaid(row: ExpenseRow, names: seq<string>)
    requires row.paidBy !in names
    ensures NonzeroCount(PaidRow(row, names)) == 0
  {
    if names != [] {
      var init := names[..|names| - 1];
      assert PaidRow(row, names)[..|names| - 1] == PaidRow(row, init);
      NoPayerNoPaid(row, init);
    }
  }

  /** The loop of lines 191-196: for every member column, in order, the new
      `<name>_share_paid` and `<name>_share_owed` columns over all rows. */
  method ComputeShareColumns(rows: seq<ExpenseRow>, names: seq<string>, groupSize: nat)
    returns (paidCols: seq<seq<int>>, owedCols: seq<seq<int>>)
    requires groupSize >= 1
    requires forall i :: 0 <= i < |rows| ==> |rows[i].cells| == |names|
    ensures |paidCols| == |names| && |owedCols| == |names|
    ensures forall j :: 0 <= j < |names| ==> |paidCols[j]| == |rows| && |owedCols[j]| == |rows|
    ensures forall j, i :: 0 <= j < |names| && 0 <= i < |rows| ==>
      paidCols[j][i] == PaidRow(rows[i], names)[j] && owedCols[j][i] == OwedRow(rows[i], groupSize)[j]
  {
    paidCols, owedCols := [], [];
    for j := 0 to |names|
      invariant |paidCols| == j && |owedCols| == j
      invariant forall c :: 0 <= c < j ==> |paidCols[c]| == |rows| && |owedCols[c]| == |rows|
      invariant forall c, i :: 0 <= c < j && 0 <= i < |rows| ==>
        paidCols[c][i] == PaidShare(rows[i], names[c]) && owedCols[c][i] == ShareOwed(rows[i], c, groupSize)
    {
      var paid := seq(|rows|, i requires 0 <= i < |rows| => PaidShare(rows[i], names[j]));
      var owed := seq(|rows|, i requires 0 <= i < |rows| => ShareOwed(rows[i], j, groupSize));
      paidCols, owedCols := paidCols + [paid], owedCols + [owed];
    }
  }
}
