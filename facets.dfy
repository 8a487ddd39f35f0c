/**
  * The option lists of the sidebar pickers:
  * `sorted(df_raw[col].dropna().unique().tolist())`.
  */
module Facets {
  import opened Wrappers
  import opened Text
  import opened Records
  import opened Normalize

  /** Strictly ascending in Python's string order (hence no duplicates). */
  predicate Ascending(s: seq<string>) {
    forall i, j :: 0 <= i < j < |s| ==> Less(s[i], s[j])
  }

  /** Adds `x` to an ascending list unless it is already there. */
  function Insert(x: string, s: seq<string>): seq<string> {
    if s == [] then [x]
    else if x == s[0] then s
    else if Less(x, s[0]) then [x] + s
    else [s[0]] + Insert(x, s[1..])
  }

  /** The distinct non-missing values, sorted. */
  function SortedDistinct(vals: seq<Option<string>>): seq<string> {
    if vals == [] then []
    else
      var rest := SortedDistinct(vals[..|vals| - 1]);
      match vals[|vals| - 1]
      case None => rest
      case Some(x) => Insert(x, rest)
  }

  lemma {:induction false} InsertSpec(x: string, s: seq<string>)
    requires Ascending(s)
    ensures Ascending(Insert(x, s))
    ensures forall y :: y in Insert(x, s) <==> y == x || y in s
  {
    if s == [] {
    } else if x == s[0] {
    } else if Less(x, s[0]) {
      var r := [x] + s;
      forall i, j | 0 <= i < j < |r| ensures Less(r[i], r[j]) {
        if i == 0 && j > 1 {
          LessTransitive(x, s[0], s[j - 1]);
        }
      }
    } else {
      LessTotal(x, s[0]);
      InsertSpec(x, s[1..]);
      var t := Insert(x, s[1..]);
      var r := [s[0]] + t;
      forall i, j | 0 <= i < j < |r| ensures Less(r[i], r[j]) {
        if i == 0 {
          assert r[j] in t;
        }
      }
    }
  }

  /** The option list is strictly ascending and holds exactly the values that
      are not missing. */
  lemma {:induction false} SortedDistinctSpec(vals: seq<Option<string>>)
    ensures Ascending(SortedDistinct(vals))
    ensures forall x :: x in SortedDistinct(vals) <==> Some(x) in vals
  {
    if vals != [] {
      var init := vals[..|vals| - 1];
      SortedDistinctSpec(init);
      assert vals == init + [vals[|vals| - 1]];
      match vals[|vals| - 1]
      case None =>
      case Some(x) => InsertSpec(x, SortedDistinct(init));
    }
  }

  /** Strictly ascending lists have no repeated value. */
  lemma AscendingDistinct(s: seq<string>)
    requires Ascending(s)
    ensures forall i, j :: 0 <= i < |s| && 0 <= j < |s| && i != j ==> s[i] != s[j]
  {
    forall i, j | 0 <= i < |s| && 0 <= j < |s| && i != j ensures s[i] != s[j] {
      if i < j {
        LessIrreflexive(s[i]);
      } else {
        LessIrreflexive(s[j]);
      }
    }
  }

  /** The cells of a text column, in row order. */
  function ColumnValues(rows: seq<Record>, c: Column): seq<Option<string>>
    requires IsText(c)
  {
    seq(|rows|, i requires 0 <= i < |rows| => TextOf(rows[i], c))
  }

  /** The picker options for column `c`; `None` when the column is absent
      (indexing the frame raises `KeyError` there). */
  function Options(d: Dataset, c: Column): (r: Option<seq<string>>)
    requires IsText(c)
    ensures r.Some? <==> c in d.columns
    ensures r.Some? ==> Ascending(r.value)
    ensures r.Some? ==> forall x :: x in r.value <==> Some(x) in ColumnValues(d.rows, c)
  {
    if c !in d.columns then None
    else
      var vals := ColumnValues(d.rows, c);
      SortedDistinctSpec(vals);
      Some(SortedDistinct(vals))
  }

  /** After loading from the spreadsheet, every option of a listed column is
      clean text, and a row whose cell was missing contributes the option
      "NAN". */
  lemma NormalizedOptions(d: Dataset, c: Column)
    requires c in CategoricalColumns && c in d.columns
    ensures var o := Options(Normalized(d), c);
      && o.Some?
      && (forall x :: x in o.value ==> IsClean(x))
      && ((exists i :: 0 <= i < |d.rows| && TextOf(d.rows[i], c).None?) ==> "NAN" in o.value)
  {
    var n := Normalized(d);
    var vals := ColumnValues(n.rows, c);
    forall x | x in Options(n, c).value ensures IsClean(x) {
      var i :| 0 <= i < |vals| && vals[i] == Some(x);
      NormalizedIsClean(d, i, c);
    }
    if exists i :: 0 <= i < |d.rows| && TextOf(d.rows[i], c).None? {
      var i :| 0 <= i < |d.rows| && TextOf(d.rows[i], c).None?;
      NormalizedIsClean(d, i, c);
      assert vals[i] == Some("NAN");
    }
  }
}
