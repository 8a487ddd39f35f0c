/**
  * What the loader does to a freshly read spreadsheet (app.py, `load_data`):
  * each listed categorical column that is present becomes
  * `astype(str).str.strip().str.upper()`, and a present `ano_base` is coerced
  * with `pd.to_numeric(errors='coerce')`.
  */
module Normalize {
  import opened Wrappers
  import opened Text
  import opened Numerals
  import opened Records

  /** `categorical_cols`, in the order the loop visits them. */
  const CategoricalColumns: seq<Column> := [Court, State, County, Defendant]

  /** `astype(str)`: a missing cell is rendered as "nan". */
  function AsStr(v: Option<string>): string {
    match v
    case None => "nan"
    case Some(s) => s
  }

  /** The text a cell holds after cleaning. */
  function CleanCell(v: Option<string>): string {
    Upper(Strip(AsStr(v)))
  }

  /** A cleaned cell: no surrounding whitespace, no lower-case letter. */
  predicate IsClean(s: string) {
    Trimmed(s) && NoLower(s)
  }

  /** The cell of column `c` after the loader's pass over column `c`. */
  function CleanField(cols: set<Column>, c: Column, v: Option<string>): Option<string> {
    if c in cols then Some(CleanCell(v)) else v
  }

  /** One row after the text pass of the loader. */
  function CleanText(cols: set<Column>, r: Record): Record {
    r.(court := CleanField(cols, Court, r.court),
       state := CleanField(cols, State, r.state),
       county := CleanField(cols, County, r.county),
       defendant := CleanField(cols, Defendant, r.defendant))
  }

  /** `pd.to_numeric(errors='coerce')` on one cell: numbers stay, numeric
      text is read, anything else becomes missing. */
  function ToNumeric(y: YearCell): (r: YearCell)
    ensures !r.Text?
    ensures y.Number? ==> r == y
    ensures y.Missing? ==> r.Missing?
    ensures y.Text? ==> (r.Missing? <==> ParseInt(y.s).None?)
    ensures y.Text? && ParseInt(y.s).Some? ==> r == Number(ParseInt(y.s).value)
  {
    match y
    case Missing => Missing
    case Number(_) => y
    case Text(s) =>
      match ParseInt(s)
      case Some(n) => Number(n)
      case None => Missing
  }

  /** Text with a character that is neither a digit nor a leading sign is
      not a number, so coercion turns it into a missing year. */
  lemma ToNumericRejects(s: string, i: nat)
    requires i < |s| && !IsDigit(s[i]) && !(i == 0 && (s[0] == '-' || s[0] == '+'))
    ensures ToNumeric(Text(s)) == Missing
  {
    ParseIntRejects(s, i);
  }

  /** One row after the year pass of the loader. */
  function CoerceYear(cols: set<Column>, r: Record): Record {
    if Year in cols then r.(year := ToNumeric(r.year)) else r
  }

  function NormalizeRecord(cols: set<Column>, r: Record): Record {
    CoerceYear(cols, CleanText(cols, r))
  }

  /** The table the loader writes to its cache and returns. */
  function Normalized(d: Dataset): (n: Dataset)
    ensures n.columns == d.columns && |n.rows| == |d.rows|
  {
    Dataset(d.columns, seq(|d.rows|, i requires 0 <= i < |d.rows| => NormalizeRecord(d.columns, d.rows[i])))
  }

  /** The cell of a listed, present column after normalisation. */
  lemma NormalizeRecordText(cols: set<Column>, r: Record, c: Column)
    requires c in CategoricalColumns && c in cols
    ensures TextOf(NormalizeRecord(cols, r), c) == Some(CleanCell(TextOf(r, c)))
  {
    match c
    case Court =>
    case State =>
    case County =>
    case Defendant =>
  }

  /** Every listed column that is present holds clean text in every row (a
      missing cell becomes "NAN"), and a present year is a number or missing. */
  lemma NormalizedIsClean(d: Dataset, i: nat, c: Column)
    requires i < |d.rows| && c in CategoricalColumns && c in d.columns
    ensures var r := Normalized(d).rows[i];
      && TextOf(r, c).Some? && IsClean(TextOf(r, c).value)
      && (TextOf(d.rows[i], c).None? ==> TextOf(r, c) == Some("NAN"))
      && (Year in d.columns ==> !r.year.Text?)
  {
    var r0 := d.rows[i];
    var v := TextOf(r0, c);
    assert Normalized(d).rows[i] == NormalizeRecord(d.columns, r0);
    NormalizeRecordText(d.columns, r0, c);
    CleanIdempotent(AsStr(v));
    ToNumericIdempotent(CleanText(d.columns, r0).year);
    if v.None? {
      MissingCleansToNAN();
    }
  }

  /** Columns that are not listed, or not present, keep their cells; so do
      the amounts, the flags and, without an `ano_base` column, the year. */
  lemma NormalizeLeavesOthers(d: Dataset, i: nat, c: Column)
    requires i < |d.rows| && IsText(c) && (c !in CategoricalColumns || c !in d.columns)
    ensures var r, r0 := Normalized(d).rows[i], d.rows[i];
      && TextOf(r, c) == TextOf(r0, c)
      && r.balance == r0.balance && r.deposit == r0.deposit
      && r.cnjOk == r0.cnjOk && r.docOk == r0.docOk && r.tipo == r0.tipo
      && (Year !in d.columns ==> r.year == r0.year)
  {
  }

  /** A missing cell is cleaned to "NAN". */
  lemma MissingCleansToNAN()
    ensures CleanCell(None) == "NAN"
  {
    assert TrimStart("nan") == "nan";
    assert TrimEnd("nan") == "nan";
    assert Upper("nan") == "NAN";
  }

  /** A cell that is already clean is left as it is. */
  lemma CleanCellFixed(v: Option<string>)
    ensures CleanCell(Some(CleanCell(v))) == CleanCell(v)
  {
    CleanIdempotent(AsStr(v));
  }

  /** Coercion gives a number or missing, and coercing again changes nothing. */
  lemma ToNumericIdempotent(y: YearCell)
    ensures !ToNumeric(y).Text?
    ensures ToNumeric(ToNumeric(y)) == ToNumeric(y)
  {
  }

  /** The year written by Python as text is read back as that number. */
  lemma ToNumericReadsText(n: int)
    ensures ToNumeric(Text(IntText(n))) == Number(n)
  {
    ParseIntText(n);
  }

  /** Normalising a normalised row changes nothing. */
  lemma NormalizeRecordIdempotent(cols: set<Column>, r: Record)
    ensures NormalizeRecord(cols, NormalizeRecord(cols, r)) == NormalizeRecord(cols, r)
  {
    CleanCellFixed(r.court);
    CleanCellFixed(r.state);
    CleanCellFixed(r.county);
    CleanCellFixed(r.defendant);
    ToNumericIdempotent(r.year);
  }

  /** Loading an already-normalised table again would change nothing. */
  lemma NormalizeIdempotent(d: Dataset)
    ensures Normalized(Normalized(d)) == Normalized(d)
  {
    var n := Normalized(d);
    var nn := Normalized(n);
    forall i | 0 <= i < |d.rows| ensures nn.rows[i] == n.rows[i] {
      NormalizeRecordIdempotent(d.columns, d.rows[i]);
    }
  }
}
