/**
  * "Lista de Oportunidades Selecionadas": which columns the table shows, in
  * which order, and the "Tipo" label added in place to the filtered view;
  * then the whole page run from the loaded frame to the table.
  */
module Table {
  import opened Wrappers
  import opened Records
  import opened Seqs
  import opened Frames
  import opened Filters
  import opened Metrics

  /** `cols_apresentacao`, in its order. */
  const PresentationColumns: seq<Column> :=
    [Defendant, Claimant, Court, State, Process, Year, Balance, Deposit, CnjOk, DocOk]

  function PresentFn(cols: set<Column>): Column -> bool {
    c => c in cols
  }

  /** `[c for c in cols_apresentacao if c in df.columns]`. */
  function Presentable(cols: set<Column>): seq<Column> {
    Where(PresentationColumns, PresentFn(cols))
  }

  /** The columns shown: with an `ano_base` column, "Tipo" goes first unless
      it is already listed. */
  function ShownColumns(cols: set<Column>): seq<Column> {
    var p := Presentable(cols);
    if Year in cols && Tipo !in p then [Tipo] + p else p
  }

  /** The table after the "Tipo" step: labelled rows and the new column when
      there is an `ano_base` column, the same table otherwise. */
  function WithTipo(d: Dataset): Dataset {
    if Year in d.columns then Dataset(d.columns + {Tipo}, LabelRows(d.rows)) else d
  }

  /** The "Tipo" cell of a labelled row reads "Eletrônico" exactly when its
      year is a number after 2014, and "Físico/Antigo" otherwise. */
  lemma LabelShown(r: Record)
    ensures Labelled(r).tipo.Some?
    ensures LabelText(Labelled(r).tipo.value) ==
      if r.year.Number? && r.year.n > ElectronicSince then "\U{1F310} Eletr\U{F4}nico" else "\U{1F4C4} F\U{ED}sico/Antigo"
  {
  }

  predicate Distinct(s: seq<Column>) {
    forall i, j :: 0 <= i < j < |s| ==> s[i] != s[j]
  }

  /** A column's place in `cols_apresentacao` ("Tipo" is not there). */
  function Position(c: Column): nat {
    match c
    case Defendant => 0
    case Claimant => 1
    case Court => 2
    case State => 3
    case Process => 4
    case Year => 5
    case Balance => 6
    case Deposit => 7
    case CnjOk => 8
    case DocOk => 9
    case _ => 10
  }

  /** The presentation columns listed are exactly those present. */
  lemma PresentableMembers(cols: set<Column>)
    ensures forall c :: c in Presentable(cols) <==> c in cols && c in PresentationColumns
  {
    forall c ensures c in Presentable(cols) <==> c in cols && c in PresentationColumns {
      WhereMembers(PresentationColumns, PresentFn(cols), c);
    }
  }

  /** The listed columns keep the order of `cols_apresentacao`, hence each
      appears once. */
  lemma PresentableOrder(cols: set<Column>)
    ensures var p := Presentable(cols);
      forall i, j :: 0 <= i < j < |p| ==> Position(p[i]) < Position(p[j])
  {
    var p, ix := Presentable(cols), Kept(PresentationColumns, PresentFn(cols));
    WhereIndices(PresentationColumns, PresentFn(cols));
    assert forall k :: 0 <= k < |PresentationColumns| ==> Position(PresentationColumns[k]) == k;
    forall i, j | 0 <= i < j < |p| ensures Position(p[i]) < Position(p[j]) {
      assert ix[i] < ix[j];
    }
  }

  /** "Tipo" is shown, and first, exactly when there is an `ano_base` column;
      the shown columns are distinct and all exist in the table after the
      "Tipo" step, so `df[cols_df]` selects no missing column. */
  lemma ShownColumnsSpec(d: Dataset)
    ensures var s := ShownColumns(d.columns);
      && (Tipo in s <==> Year in d.columns)
      && (Year in d.columns ==> s[0] == Tipo)
      && Distinct(s)
      && (forall c :: c in s ==> c in WithTipo(d).columns)
  {
    var p := Presentable(d.columns);
    PresentableMembers(d.columns);
    PresentableOrder(d.columns);
    assert Tipo !in PresentationColumns;
    if Year in d.columns {
      var s := [Tipo] + p;
      forall i, j | 0 <= i < j < |s| ensures s[i] != s[j] {
        if i == 0 {
          assert s[j] == p[j - 1];
        } else {
          assert s[i] == p[i - 1] && s[j] == p[j - 1];
        }
      }
    }
  }

  function ElectronicLabelFn(): Record -> bool {
    (r: Record) => r.tipo == Some(Electronic)
  }

  lemma {:induction false} LabelCount(rows: seq<Record>)
    ensures |Where(LabelRows(rows), ElectronicLabelFn())| == |Where(rows, ElectronicFn())|
  {
    if rows != [] {
      var init := rows[..|rows| - 1];
      LabelCount(init);
      assert LabelRows(rows)[..|rows| - 1] == LabelRows(init);
    }
  }

  /** The label and the electronic metric use the same test: with an
      `ano_base` column, the rows of the table labelled "Eletrônico" are as
      many as the metric counts. */
  lemma LabelMatchesMetric(d: Dataset)
    ensures Year in d.columns ==> |Where(WithTipo(d).rows, ElectronicLabelFn())| == ElectronicCount(d)
  {
    LabelCount(d.rows);
  }

  /** After the electronic-only filter, every row of the table is labelled
      "Eletrônico". */
  lemma ElectronicOnlyLabelled(d: Dataset, crit: Criteria)
    requires crit.electronicOnly && Year in d.columns
    ensures var t := WithTipo(Filtered(d, crit));
      Tipo in t.columns && forall i :: 0 <= i < |t.rows| ==> t.rows[i].tipo == Some(Electronic)
  {
    FilterKeepsExactly(d, crit);
  }

  /** The "Tipo" step on the filtered frame: the label column is written in
      place and the list of shown columns is built, "Tipo" inserted first. */
  method PrepareTable(df: Frame) returns (cols: seq<Column>)
    modifies df
    ensures df.Value() == WithTipo(old(df.Value()))
    ensures cols == ShownColumns(old(df.columns))
  {
    cols := Presentable(df.columns);
    if Year in df.columns {
      df.AddTipo();
      if Tipo !in cols {
        cols := [Tipo] + cols;
      }
    }
  }

  /** One run of the page after loading: filter a copy of the loaded frame,
      then prepare the table. The loaded frame is left as it was, so the next
      run filters the same data. */
  method ShowTable(raw: Frame, crit: Criteria) returns (df: Frame, cols: seq<Column>)
    requires |crit.courts| > 0 ==> Court in raw.columns
    requires |crit.states| > 0 ==> State in raw.columns
    ensures raw.Value() == old(raw.Value())
    ensures fresh(df) && df.Value() == WithTipo(Filtered(raw.Value(), crit))
    ensures cols == ShownColumns(raw.columns)
  {
    df := ApplyFilters(raw, crit);
    cols := PrepareTable(df);
  }
}
