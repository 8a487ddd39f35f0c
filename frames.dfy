/**
  * The dataframe as a mutable object: the loader overwrites its columns in
  * place, boolean-mask selection (`df[mask]`) and `copy()` build new frames,
  * and the table step adds the "Tipo" column in place. `Disk` holds the two
  * files the loader looks for.
  */
module Frames {
  import opened Wrappers
  import opened Records
  import opened Seqs
  import opened Normalize

  class Frame {
    var columns: set<Column>
    var rows: seq<Record>

    /** The table the frame currently holds. */
    function Value(): Dataset
      reads this
    {
      Dataset(columns, rows)
    }

    constructor (d: Dataset)
      ensures Value() == d
    {
      columns := d.columns;
      rows := d.rows;
    }

    /** `df.copy()`: a new frame holding the same table. */
    method Copy() returns (f: Frame)
      ensures fresh(f) && f.Value() == Value()
    {
      f := new Frame(Value());
    }

    /** `df[mask]`: a new frame with the rows that satisfy `keep`, in order. */
    method Select(keep: Record -> bool) returns (f: Frame)
      ensures fresh(f) && f.Value() == Dataset(columns, Where(rows, keep))
    {
      f := new Frame(Dataset(columns, Where(rows, keep)));
    }

    /** The loader's loop over `categorical_cols`: each listed column that is
        present is overwritten with its cleaned text. */
    method CleanCategorical()
      modifies this
      ensures columns == old(columns) && |rows| == |old(rows)|
      ensures forall i :: 0 <= i < |rows| ==> rows[i] == CleanText(columns, old(rows)[i])
    {
      for k := 0 to |CategoricalColumns|
        invariant columns == old(columns) && |rows| == |old(rows)|
        invariant forall i :: 0 <= i < |rows| ==> rows[i] == old(rows)[i].(
          court := if 0 < k then CleanField(columns, Court, old(rows)[i].court) else old(rows)[i].court,
          state := if 1 < k then CleanField(columns, State, old(rows)[i].state) else old(rows)[i].state,
          county := if 2 < k then CleanField(columns, County, old(rows)[i].county) else old(rows)[i].county,
          defendant := if 3 < k then CleanField(columns, Defendant, old(rows)[i].defendant) else old(rows)[i].defendant)
      {
        var c := CategoricalColumns[k];
        if c in columns {
          rows := seq(|rows|, i requires 0 <= i < |rows| reads this => WithText(rows[i], c, Some(CleanCell(TextOf(rows[i], c)))));
        }
      }
    }

    /** `df['ano_base'] = pd.to_numeric(df['ano_base'], errors='coerce')`
        when the column is present. */
    method CoerceYearColumn()
      modifies this
      ensures columns == old(columns) && |rows| == |old(rows)|
      ensures forall i :: 0 <= i < |rows| ==> rows[i] == CoerceYear(columns, old(rows)[i])
    {
      if Year in columns {
        rows := seq(|rows|, i requires 0 <= i < |rows| reads this => rows[i].(year := ToNumeric(rows[i].year)));
      }
    }

    /** `df['Tipo'] = df['ano_base'].apply(...)`: every row gets the label of
        its year, and the frame gains the "Tipo" column. */
    method AddTipo()
      modifies this
      ensures columns == old(columns) + {Tipo} && rows == LabelRows(old(rows))
    {
      var labelled: seq<Record> := [];
      for i := 0 to |rows|
        invariant labelled == LabelRows(rows[..i])
      {
        assert rows[..i + 1][..i] == rows[..i];
        labelled := labelled + [Labelled(rows[i])];
      }
      assert rows[..|rows|] == rows;
      rows := labelled;
      columns := columns + {Tipo};
    }
  }

  /** The two files `load_data` looks for: the columnar cache, which loading
      may write, and the source spreadsheet. */
  class Disk {
    var parquet: Option<Dataset>
    const excel: Option<Dataset>

    constructor (cache: Option<Dataset>, source: Option<Dataset>)
      ensures parquet == cache && excel == source
    {
      parquet := cache;
      excel := source;
    }
  }

  /** `load_data`: the cache when it exists, as it is; otherwise the source
      spreadsheet, normalised and then written to the cache; otherwise no
      table (`None`, which halts the page). */
  method LoadData(disk: Disk) returns (df: Frame?)
    modifies disk
    ensures old(disk.parquet).Some? ==>
      df != null && fresh(df) && df.Value() == old(disk.parquet).value && disk.parquet == old(disk.parquet)
    ensures old(disk.parquet).None? && disk.excel.Some? ==>
      df != null && fresh(df) && df.Value() == Normalized(disk.excel.value) && disk.parquet == Some(df.Value())
    ensures old(disk.parquet).None? && disk.excel.None? ==> df == null && disk.parquet == None
  {
    if disk.parquet.Some? {
      df := new Frame(disk.parquet.value);
      return;
    }
    if disk.excel.Some? {
      df := new Frame(disk.excel.value);
      df.CleanCategorical();
      df.CoerceYearColumn();
      assert df.Value() == Normalized(disk.excel.value);
      disk.parquet := Some(df.Value());
      return;
    }
    df := null;
  }

  /** A second load in any later run reads the cache the first one wrote and
      gets the same table, without normalising again. */
  method LoadTwice(disk: Disk) returns (first: Frame?, second: Frame?)
    modifies disk
    ensures first == null <==> second == null
    ensures first != null ==> second.Value() == first.Value() && disk.parquet == Some(first.Value())
  {
    first := LoadData(disk);
    second := LoadData(disk);
  }
}
