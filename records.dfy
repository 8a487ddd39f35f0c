/**
  * The case records of the recovery panel and the table that holds them.
  * A table knows which columns its spreadsheet had; the field of a column
  * the table does not have carries no meaning and is never consulted.
  */
module Records {
  import opened Wrappers

  /** The columns the panel reads, by their source names. */
  datatype Column =
    | Court      // nome_tribunal
    | State      // UF
    | County     // Comarca
    | Defendant  // Nome Reclamado
    | Claimant   // Nome Reclamante
    | Process    // Processo
    | Year       // ano_base
    | Balance    // Saldo int
    | Deposit    // Valor Depósito Original Float
    | CnjOk      // cnj_ok
    | DocOk      // doc_ok
    | Tipo       // Tipo, added for display

  /** The base-year cell: a number, text the spreadsheet held, or missing. */
  datatype YearCell = Missing | Number(n: int) | Text(s: string)

  /** The "Tipo" display label. */
  datatype Label = Electronic | PhysicalOld

  /** One legal case. Text cells and flags may be missing (NaN); amounts are
      integer cents. */
  datatype Record = Record(
    court: Option<string>,
    state: Option<string>,
    county: Option<string>,
    defendant: Option<string>,
    claimant: Option<string>,
    process: Option<string>,
    year: YearCell,
    balance: Option<int>,
    deposit: Option<int>,
    cnjOk: Option<bool>,
    docOk: Option<bool>,
    tipo: Option<Label>)

  /** A table: the columns present and the rows in order. */
  datatype Dataset = Dataset(columns: set<Column>, rows: seq<Record>)

  /** The columns whose cells are text. */
  predicate IsText(c: Column) {
    c.Court? || c.State? || c.County? || c.Defendant? || c.Claimant? || c.Process?
  }

  function TextOf(r: Record, c: Column): Option<string>
    requires IsText(c)
  {
    match c
    case Court => r.court
    case State => r.state
    case County => r.county
    case Defendant => r.defendant
    case Claimant => r.claimant
    case Process => r.process
  }

  /** Writes the text cell of column `c`; every other cell is kept. */
  function WithText(r: Record, c: Column, v: Option<string>): (r': Record)
    requires IsText(c)
    ensures TextOf(r', c) == v
    ensures forall d :: IsText(d) && d != c ==> TextOf(r', d) == TextOf(r, d)
    ensures r'.year == r.year && r'.balance == r.balance && r'.deposit == r.deposit
    ensures r'.cnjOk == r.cnjOk && r'.docOk == r.docOk && r'.tipo == r.tipo
  {
    match c
    case Court => r.(court := v)
    case State => r.(state := v)
    case County => r.(county := v)
    case Defendant => r.(defendant := v)
    case Claimant => r.(claimant := v)
    case Process => r.(process := v)
  }

  const ElectronicSince: int := 2014

  /** `ano_base > 2014`: the one test behind the electronic-only filter, the
      electronic metric and the "Tipo" label. A missing year compares false. */
  predicate IsElectronic(y: YearCell) {
    y.Number? && y.n > ElectronicSince
  }

  function LabelOf(y: YearCell): Label {
    if IsElectronic(y) then Electronic else PhysicalOld
  }

  /** A row with its "Tipo" label set from its year. */
  function Labelled(r: Record): Record {
    r.(tipo := Some(LabelOf(r.year)))
  }

  /** `df['ano_base'].apply(...)` over the rows, in order. */
  function LabelRows(rows: seq<Record>): (r: seq<Record>)
    ensures |r| == |rows|
    ensures forall i :: 0 <= i < |rows| ==> r[i] == Labelled(rows[i])
  {
    if rows == [] then [] else LabelRows(rows[..|rows| - 1]) + [Labelled(rows[|rows| - 1])]
  }

  /** The label as shown in the table. */
  function LabelText(l: Label): string {
    match l
    case Electronic => "\U{1F310} Eletr\U{F4}nico"
    case PhysicalOld => "\U{1F4C4} F\U{ED}sico/Antigo"
  }
}
