# Splitwise batch upload: the expense-allocation engine in Dafny

This project models the allocation engine of the Splitwise batch-upload tool
(`main.py`, `batch_upload_process` and `get_template_by_group_id`). A user
uploads a spreadsheet with an Expenses sheet and a Members sheet. The engine
then does five things:

- It resolves every member column (header `_<name>`) to a Splitwise user ID
  (module `Columns`).
- It parses the `All equal` column (module `Flags`).
- For every expense row and member column, it computes the share paid and the
  share owed under the row's split policy (module `Shares`).
- It moves a one-cent rounding residual onto one member with a positive owed
  share (module `Reconciler`; module `Allocation` runs one row through both
  steps).
- It builds the column headers of the blank upload template, numbering
  repeated display names (module `Template`).

Money is kept exactly, as integer cents. A member cell is a fixed-point number
with two decimals, stored as an integer count of hundredths. So an `amount`
cell is in cents and a `share` cell is a percentage times 100. Python's
`round(x, 2)` rounds half to even. The model states that rule as
`Money.IsRoundedQuotient`: the nearest integer, with ties going to the even
one. The model uses that same rule everywhere. `random.choice` becomes a
parameter `pick`, which may be any valid index. Every property of the
reconciler is proved for every such pick.

The model keeps the code's own behaviour, including these less obvious
cases:

- An empty member cell owes 0 even on an all-equal row, because the emptiness
  test comes first (main.py:177-180).
- An unknown split type owes 0 and raises no error (main.py:188-189).
- The all-equal divisor is the size of the Splitwise group (main.py:180).
- When two Members rows share a name, the member column takes the ID of the
  first one. There is no ambiguity error (main.py:157-161). This holds for
  member columns only; the `Payer ID` merge is different (see "Left out").
- A member column with no Members row makes `values[0]` raise. The model
  returns this as `UnknownMember` instead of a per-row error.
- The reconciler sums only the positive owed shares (main.py:203-204).
- A one-cent residual on a row with no positive share makes `random.choice`
  raise on an empty list. The model returns this as `NoPositiveShare`.
- `All equal` keeps any text other than `y`, `n` and the empty string, and such
  text counts as true at line 179. So `no`, `yes` and an empty cell (which
  `astype(str)` turns into `nan`) all select the all-equal policy.
- Template numbering does not always give distinct names: members named `Ana`,
  `Ana` and `Ana 1` get the labels `Ana 1`, `Ana 2` and `Ana 1`.

## Model

| member | source | states |
|---|---|---|
| Money.RoundHalfEven | main.py:180-187 | `round(x, 2)` on a quotient of cents gives the nearest cent, and a tie goes to the even cent |
| Money.RoundedQuotientUnique | main.py:180-187 | at most one integer meets the round-half-to-even condition, so each rounded share is fully determined |
| Columns.MemberHeaders | main.py:149 | the member columns are exactly the headers that start with `_` |
| Columns.MemberHeadersAppend | main.py:149 | selecting member columns keeps their order in the sheet |
| Columns.StripPrefix | main.py:157-160 | the member name is the header with its leading `_` removed, so `"_" + name` gives the header back |
| Columns.FirstWithName | main.py:157-161 | the chosen Members row has the name, and no earlier row has it; the result is None only when no row has the name |
| Columns.ResolveMemberColumns | main.py:155-163 | one entry per member column, in order, with the ID of the first Members row of that name; when a name is missing, the result names the first such column and every earlier column resolves |
| Flags.CellText | main.py:152 | `astype(str)` of a cell: a filled cell keeps its text, and an empty cell reads as `nan` (its properties are in Flags.EmptyCellIsTrue) |
| Flags.Lower | main.py:152 | `str.lower` keeps the length and lower-cases every character |
| Flags.ParseAllEqual | main.py:152 | the lower-cased cell text `y` gives True, `n` or the empty string gives False, and any other text is kept unchanged |
| Flags.AllEqualTruth | main.py:152 | the parsed flag is true exactly when the lower-cased text is neither `n` nor empty |
| Flags.EmptyCellIsTrue | main.py:152 | an empty `All equal` cell, read as `nan`, selects the all-equal policy |
| Flags.UpperCaseFlags | main.py:152 | `Y` and `N` parse the same as `y` and `n` |
| Flags.IsTrue | main.py:179 | Python truthiness of the parsed value: false exactly for `False` and the empty text (its properties are in Flags.AllEqualTruth) |
| Shares.PresentCount | main.py:186-187 | counts the member columns with a non-empty cell; the count is 0 exactly when every cell is empty |
| Shares.ShareOwed | main.py:174-189 | an empty cell owes 0; an all-equal row owes the rounded amount / group size; `share` owes the rounded cell% of the amount; `amount` owes the cell unrounded; `equal` owes the rounded amount / number of non-empty cells, and that number is at least 1; any other split type owes 0 |
| Shares.PaidShare | main.py:193 | the paid share is the amount or 0, and it is nonzero only when `Paid by` equals the member's name (its properties are in Shares.SinglePayer and Shares.NoPayerNoPaid) |
| Shares.PaidRow | main.py:191-193 | one paid share per member column, in column order; its properties are in Shares.SinglePayer |
| Shares.OwedRow | main.py:195-196 | one owed share per member column, in column order, each as Shares.ShareOwed states |
| Shares.SinglePayer | main.py:193 | with distinct member names, at most one column of a row has a nonzero paid share; exactly one does when the amount is nonzero and `Paid by` names a member column |
| Shares.NoPayerNoPaid | main.py:193 | when `Paid by` matches no member column, every paid share of the row is 0 |
| Shares.ComputeShareColumns | main.py:191-196 | for every member column and row, the new paid column holds the amount when `Paid by` equals the member's name and 0 otherwise, and the new owed column holds that member's owed share |
| Reconciler.PositiveColumns | main.py:203 | lists the columns with a positive owed share: all of them and only them |
| Reconciler.PositiveColumnsSorted | main.py:203 | the listed columns keep the sheet's column order: their indices strictly increase |
| Reconciler.SumAtPositiveColumns | main.py:203-204 | summing the listed columns equals summing the positive owed shares |
| Reconciler.PositiveSumUpdate | main.py:209 | changing one share changes the positive sum by the change in that share's positive part |
| Reconciler.PositiveSumOfNonNegative | main.py:204 | when no share is negative, the positive sum is the whole sum |
| Reconciler.NoPositiveColumns | main.py:203-208 | a row with no positive share has no candidate column and a positive sum of 0 |
| Reconciler.AllPositiveColumns | main.py:203-204 | on a row of positive shares, every column is a candidate and the positive sum is the whole sum |
| Reconciler.Reconcile | main.py:199-210 | the reconciler fails exactly when a correction is due and no share is positive, and otherwise keeps the row's length; its properties are in the Reconcile lemmas below |
| Reconciler.AssignRoundingDiff | main.py:199-210 | in place on the row: when a correction is due, subtracts the residual from the picked positive column; otherwise leaves the row unchanged; raises exactly when a correction is due and no share is positive |
| Reconciler.ReconcileSum | main.py:203-210 | after reconciliation, for every pick, the positive owed shares sum to the amount, unless the residual was 2 cents or more, in which case the row is unchanged |
| Reconciler.ReconcileTouchesOne | main.py:206-209 | a correction changes exactly one column, which had a positive share; it moves by the residual and stays non-negative |
| Reconciler.ReconcileKeepsRow | main.py:206 | the row comes back unchanged exactly when no correction is due (no residual, or a residual of 2 cents or more) |
| Reconciler.ReconcileRaises | main.py:206-208 | the reconciler fails exactly when a correction is due and no owed share is positive |
| Reconciler.ReconcileNonNegative | main.py:203-209 | on a row with no negative shares, a correction makes the owed shares sum exactly to the amount and keeps each share non-negative |
| Allocation.AllocateRow | main.py:191-212 | a row fails exactly when the reconciler raises on its owed shares; otherwise its paid shares are the computed ones, with one owed share per column (its properties are in Allocation.AllocateRowSound) |
| Allocation.AllocateRowSound | main.py:191-212 | an allocated row has at most one payer; its positive owed shares sum to the amount, or its shares are left as computed because they missed the amount by 2 cents or more |
| Allocation.AllEqualThreeWays | main.py:180-212 | 100.00 split all-equal among three: 33.33 each, then the picked member owes 33.34, the total is 100.00, and the payer alone paid 100.00 |
| Allocation.PercentageSplit | main.py:181-182 | 50.00 split by 60% and 40% owes exactly 30.00 and 20.00 |
| Allocation.UnknownSplitTypeOwesNothing | main.py:188-189 | an unrecognised split type owes 0 in every column, and the reconciler leaves that row alone when the amount is at least 2 cents |
| Allocation.OneCentAllEqualRaises | main.py:180-208 | 0.01 split all-equal among three rounds every share to 0, and the reconciler then has no column to pick |
| Template.Strip | main.py:358 | `str.strip()` returns a slice of the input with only whitespace on either side, and the slice neither starts nor ends with whitespace |
| Template.StripPadded | main.py:358 | a blank appended to a string does not survive `str.strip()` |
| Template.FullName | main.py:357-358 | the display name has no whitespace at either end |
| Template.FullNameWithoutLastName | main.py:357-358 | a member with no last name is listed by the stripped first name; a first name without whitespace at either end is listed unchanged |
| Template.DisplayNames | main.py:355-359 | one display name per group member, in the members' order |
| Template.Count | main.py:364 | `list.count` is at most the list's length, and is 0 exactly when the name is absent |
| Template.NatToString | main.py:366 | `str(k)` is a non-empty string of decimal digits with no leading zero |
| Template.NatToStringRoundTrip | main.py:366 | reading the digits of `str(k)` back gives k |
| Template.NatToStringInjective | main.py:366 | different numbers are written as different strings |
| Template.Occurrence | main.py:366 | the occurrence number of a name is between 1 and the name's total count |
| Template.Label | main.py:364-368 | the label starts with the display name, and a name that occurs once is its own label (its shape is in Template.LabelShape) |
| Template.EnumerateNames | main.py:362-368 | the output keeps the input's length and order, and element i is the label of name i |
| Template.LabelShape | main.py:363-368 | a name that occurs once is unchanged; the k-th occurrence of a repeated name becomes `name + " " + str(k)` |
| Template.OccurrenceIncreases | main.py:366 | later occurrences of a name get strictly larger numbers |
| Template.RepeatedLabelsDiffer | main.py:361-368 | two occurrences of the same name always get different labels |
| Template.LabelsCanCollide | main.py:361-368 | the names `Ana`, `Ana`, `Ana 1` give the first and third members the same label `Ana 1` |
| Template.DistinctNamesUnchanged | main.py:364-368 | when all display names are distinct, numbering leaves every name unchanged |
| Template.TemplateHeaders | main.py:351-371 | the template headers are the eight fixed Expenses headers followed by one header per label |
| Template.FixedHeadersAreNotMemberHeaders | main.py:351 | no fixed Expenses header starts with `_`, so none of them is read back as a member column |
| Template.TemplateMemberColumns | main.py:371 | the template's member columns are exactly `"_" + label` for each label, in order, and removing the prefix gives each label back |
| Template.MembersSheet | main.py:391-393 | the Members sheet's rows, label i beside member i's ID; what it guarantees is in Template.TemplateResolvesBack |
| Template.ColumnResolvesBack | main.py:371-393 | with distinct labels, the column written for member j resolves to member j's ID |
| Template.TemplateResolvesBack | main.py:371-393 | when the labels are distinct, reading a filled-in template resolves each member column to the ID of the member it was written for |

## Left out

- The web routes, sessions and OAuth with Splitwise (`login_sw`, `authorize`, `logout`, main.py:60-129) are not modelled. They are HTTP and session plumbing.
- `push_expenses` (main.py:241-300) is not modelled. It is a client of the external Splitwise API.
- Database writes and user registration (main.py:219-225, 303-334, 403-457) are not modelled. They persist through modules that are not shown.
- Reading the workbook (`pd.read_excel`, main.py:143-146) is not modelled. Rows come in as already-parsed values.
- The merge that adds `Payer ID` (main.py:166-171) is not modelled, because it is DataFrame mechanics. The paid share compares `Paid by` with the member name directly, as line 193 does. The merge is a left merge: when `Paid by` matches several Members rows, the expense row is repeated once per match. So "the first Members row wins" holds for member columns (main.py:157-161), not for this merge.
- Writing and styling the template workbook (main.py:373-400) is not modelled. Only the header list and the Members sheet's data are.
- `describe_errors` (main.py:215) is not modelled. services/helpers/expense_utils is not part of this model, so the validation rules cannot be stated from source.
- The `Total Shares` column (main.py:150) is not modelled. Nothing in main.py reads it after line 150. It goes on in the records passed to `describe_errors` and `crud.create_expense` (main.py:215-225), and neither is part of this model.
- The `test_read_main` HTTP test (main.py:464-470) is not modelled.
- Binary floating point is not modelled. Amounts are exact integers of cents, and cells are exact hundredths. So the model has no floating residual below one cent, and round(diff, 2) equals diff. A cell with more than two decimals is outside the model.
- Shares.ShareOwed: requires a group of at least one member. A Splitwise group always contains the uploading user, so line 180's division by zero is not modelled.
- Flags.Lower: lower-cases ASCII letters only. Unicode case folding of `str.lower` is not modelled.
- Template.Strip: removes ASCII whitespace only. Python's non-ASCII whitespace is not modelled.
- An empty `Amount` or `Paid by` cell (NaN) is not modelled.
- `expenses_df.apply(AssignRoundingDiff, axis=1)` (main.py:212) is modelled one row at a time (`Allocation.AllocateRow`). The model does not say that an error on one row aborts the whole upload.
- The randomness of `random.choice` is not modelled. The chosen index is a parameter, and every property holds for every valid index.
