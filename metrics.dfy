/**
  * The headline metrics of the panel, computed from the filtered view:
  * the row count, the share of electronic cases and the deposit total.
  */
module Metrics {
  import opened Wrappers
  import opened Records
  import opened Seqs
  import opened Filters

  function ElectronicFn(): Record -> bool {
    (r: Record) => IsElectronic(r.year)
  }

  /** "Processos Filtrados": `len(df)`. */
  function RowCount(d: Dataset): nat {
    |d.rows|
  }

  /** `(df["ano_base"] > 2014).sum()`, or 0 without an `ano_base` column. */
  function ElectronicCount(d: Dataset): (n: nat)
    ensures n <= RowCount(d)
    ensures Year !in d.columns ==> n == 0
  {
    if Year in d.columns then |Where(d.rows, ElectronicFn())| else 0
  }

  /** The electronic share in percent; 0 on an empty view. */
  function ElectronicPercent(d: Dataset): (p: real)
    ensures 0.0 <= p <= 100.0
    ensures RowCount(d) == 0 ==> p == 0.0
  {
    if RowCount(d) > 0 then
      var e, n := ElectronicCount(d) as real, RowCount(d) as real;
      assert e / n <= 1.0 by {
        assert e <= n;
      }
      e / n * 100.0
    else 0.0
  }

  function DepositFn(): Record -> int {
    (r: Record) => r.deposit.GetOr(0)
  }

  /** "Depósito Original": the column's sum with missing cells skipped, or 0
      without the column. */
  function DepositTotal(d: Dataset): (t: int)
    ensures Deposit !in d.columns ==> t == 0
  {
    if Deposit in d.columns then Sum(d.rows, DepositFn()) else 0
  }

  /** With no negative deposit the shown total is not negative. */
  lemma DepositTotalNonNegative(d: Dataset)
    requires forall i :: 0 <= i < |d.rows| ==> d.rows[i].deposit.GetOr(0) >= 0
    ensures DepositTotal(d) >= 0
  {
    if Deposit in d.columns {
      SumNonNegative(d.rows, DepositFn());
    }
  }

  /** With an `ano_base` column, the count is the number of rows whose year
      is after 2014: it equals the row count iff every row is electronic. */
  lemma ElectronicCountAll(d: Dataset)
    requires Year in d.columns
    ensures ElectronicCount(d) == RowCount(d) <==> forall i :: 0 <= i < |d.rows| ==> IsElectronic(d.rows[i].year)
  {
    WhereKeepsAll(d.rows, ElectronicFn());
  }

  /** "Processos Filtrados" never exceeds the loaded row count, and equals it
      iff every loaded row meets every active criterion. */
  lemma FilteredRowCount(d: Dataset, crit: Criteria)
    ensures RowCount(Filtered(d, crit)) <= RowCount(d)
    ensures RowCount(Filtered(d, crit)) == RowCount(d) <==>
      forall i :: 0 <= i < |d.rows| ==> Admits(d.columns, crit, d.rows[i])
  {
    WhereKeepsAll(d.rows, AdmitsFn(d.columns, crit));
  }

  /** After the electronic-only filter, every row of a non-empty view is
      electronic, so the metric shows 100%. */
  lemma ElectronicOnlyShowsAll(d: Dataset, crit: Criteria)
    requires crit.electronicOnly && Year in d.columns
    requires RowCount(Filtered(d, crit)) > 0
    ensures ElectronicCount(Filtered(d, crit)) == RowCount(Filtered(d, crit))
    ensures ElectronicPercent(Filtered(d, crit)) == 100.0
  {
    var v := Filtered(d, crit);
    forall i | 0 <= i < |v.rows| ensures IsElectronic(v.rows[i].year) {
      FilterKeepsExactly(d, crit);
    }
    ElectronicCountAll(v);
  }

  /** What the filter drops: the rows that fail some criterion. */
  function Rejected(d: Dataset, crit: Criteria): Dataset {
    Dataset(d.columns, Where(d.rows, r => !Admits(d.columns, crit, r)))
  }

  /** The deposit totals of the view and of the dropped rows add up to the
      total of the loaded table; with no negative deposit, the view's total
      lies between 0 and the table's. */
  lemma DepositSplit(d: Dataset, crit: Criteria)
    ensures DepositTotal(Filtered(d, crit)) + DepositTotal(Rejected(d, crit)) == DepositTotal(d)
    ensures (forall i :: 0 <= i < |d.rows| ==> d.rows[i].deposit.GetOr(0) >= 0) ==>
      0 <= DepositTotal(Filtered(d, crit)) <= DepositTotal(d)
  {
    SumPartition(d.rows, DepositFn(), AdmitsFn(d.columns, crit), r => !Admits(d.columns, crit, r));
    if forall i :: 0 <= i < |d.rows| ==> d.rows[i].deposit.GetOr(0) >= 0 {
      SumWhereBound(d.rows, DepositFn(), AdmitsFn(d.columns, crit));
    }
  }

  /** Two cases, from 2015 in court "A" and from 2010 in court "B": selecting
      court "A" leaves one row, all of it electronic. */
  lemma CourtScenario(a: Record, b: Record)
    requires a.court == Some("A") && a.year == Number(2015)
    requires b.court == Some("B") && b.year == Number(2010)
    ensures var v := Filtered(Dataset({Court, Year}, [a, b]), Criteria(["A"], [], false, false, false));
      && RowCount(v) == 1 && ElectronicPercent(v) == 100.0
  {
    var d := Dataset({Court, Year}, [a, b]);
    var crit := Criteria(["A"], [], false, false, false);
    var keep := AdmitsFn(d.columns, crit);
    assert keep(a) && !keep(b);
    assert [a, b][..1] == [a] && [a][..0] == [];
    assert Where([a], keep) == [a];
    var v := Filtered(d, crit);
    assert v.rows == [a];
    assert Where([a], ElectronicFn()) == [a];
    assert ElectronicCount(v) == 1;
  }
}
