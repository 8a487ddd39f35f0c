/**
  * "Concentração por Reclamado": the view grouped by defendant (pandas'
  * `groupby` drops missing keys and sorts the rest), each group's balance
  * summed and its case numbers counted, sorted by the sum from largest down
  * and cut to the first 15. The sort pandas uses is not stable, so nothing
  * here fixes the order of groups with equal sums.
  */
module Ranking {
  import opened Wrappers
  import opened Text
  import opened Records
  import opened Seqs
  import opened Facets

  /** One row of the grouped table: `Nome Reclamado`, summed `Saldo int`,
      and `Qtd Processos`. */
  datatype Group = Group(name: string, total: int, count: nat)

  const TopN: nat := 15

  /** The balance a row adds to a sum (a missing cell adds nothing). */
  function BalanceOf(r: Record): int {
    r.balance.GetOr(0)
  }

  function BalanceFn(): Record -> int {
    r => BalanceOf(r)
  }

  /** The balance of the rows whose defendant is one of `names`. */
  function BalanceIn(names: seq<string>): Record -> int {
    (r: Record) => if r.defendant.Some? && r.defendant.value in names then BalanceOf(r) else 0
  }

  /** The balance of the rows whose defendant is not missing. */
  function NamedBalanceFn(): Record -> int {
    (r: Record) => if r.defendant.Some? then BalanceOf(r) else 0
  }

  /** The rows of defendant `k` that have a case number. */
  function CountedFn(k: string): Record -> bool {
    (r: Record) => r.defendant == Some(k) && r.process.Some?
  }

  /** The group of defendant `k`: `sum` of the balances and `count` of the
      case numbers of its rows. */
  function MakeGroup(rows: seq<Record>, k: string): Group {
    Group(k, Sum(rows, BalanceIn([k])), |Where(rows, CountedFn(k))|)
  }

  /** The groups of the keys `ks`, in the order of `ks`. */
  function GroupsFor(rows: seq<Record>, ks: seq<string>): (gs: seq<Group>)
    ensures |gs| == |ks|
    ensures forall i :: 0 <= i < |ks| ==> gs[i] == MakeGroup(rows, ks[i])
  {
    if ks == [] then [] else GroupsFor(rows, ks[..|ks| - 1]) + [MakeGroup(rows, ks[|ks| - 1])]
  }

  /** The group keys: the distinct non-missing defendants, sorted. */
  function Keys(rows: seq<Record>): seq<string> {
    SortedDistinct(ColumnValues(rows, Defendant))
  }

  /** `df.groupby('Nome Reclamado').agg(...).reset_index()`. */
  function GroupByDefendant(rows: seq<Record>): seq<Group> {
    GroupsFor(rows, Keys(rows))
  }

  predicate NonIncreasing(s: seq<Group>) {
    forall i, j :: 0 <= i < j < |s| ==> s[i].total >= s[j].total
  }

  predicate DistinctNames(s: seq<Group>) {
    forall i, j :: 0 <= i < j < |s| ==> s[i].name != s[j].name
  }

  /** Puts `g` into a list sorted from the largest sum down. */
  function InsertDesc(g: Group, s: seq<Group>): seq<Group> {
    if s == [] || g.total >= s[0].total then [g] + s else [s[0]] + InsertDesc(g, s[1..])
  }

  /** `sort_values(by='Saldo int', ascending=False)`, by insertion. */
  function SortDesc(s: seq<Group>): seq<Group> {
    if s == [] then [] else InsertDesc(s[0], SortDesc(s[1..]))
  }

  /** `.head(n)` of the sorted groups. */
  function Top(groups: seq<Group>, n: nat): seq<Group> {
    var sorted := SortDesc(groups);
    sorted[..if n < |sorted| then n else |sorted|]
  }

  /** What the ranking panel shows: the "adjust the filters" notice on an
      empty view, the `KeyError` pandas raises when a column it aggregates is
      absent, or the ranking. */
  datatype RankResult = NoRows | MissingColumn | Ranked(top: seq<Group>)

  /** `df.empty` on a loaded view: no rows. The model's column set holds only
      the columns it tracks, so an empty set does not mean a column-less frame. */
  predicate IsEmpty(d: Dataset) {
    |d.rows| == 0
  }

  function Rank(d: Dataset): (r: RankResult)
    ensures r.NoRows? <==> IsEmpty(d)
    ensures r.Ranked? <==> !IsEmpty(d) && Defendant in d.columns && Balance in d.columns && Process in d.columns
    ensures r.Ranked? ==> |r.top| <= TopN && NonIncreasing(r.top)
  {
    if IsEmpty(d) then NoRows
    else if Defendant !in d.columns || Balance !in d.columns || Process !in d.columns then MissingColumn
    else
      TopSpec(GroupByDefendant(d.rows), TopN);
      Ranked(Top(GroupByDefendant(d.rows), TopN))
  }

  lemma {:induction false} InsertDescMembers(g: Group, s: seq<Group>)
    ensures forall x :: x in InsertDesc(g, s) <==> x == g || x in s
  {
    if s != [] && g.total < s[0].total {
      InsertDescMembers(g, s[1..]);
      assert s == [s[0]] + s[1..];
    }
  }

  lemma {:induction false} InsertDescPermutes(g: Group, s: seq<Group>)
    ensures multiset(InsertDesc(g, s)) == multiset(s) + multiset{g}
  {
    if s != [] && g.total < s[0].total {
      InsertDescPermutes(g, s[1..]);
      assert s == [s[0]] + s[1..];
    }
  }

  lemma {:induction false} InsertDescSorted(g: Group, s: seq<Group>)
    requires NonIncreasing(s)
    ensures NonIncreasing(InsertDesc(g, s))
  {
    var r := InsertDesc(g, s);
    if s == [] || g.total >= s[0].total {
      forall j | 0 < j < |r| ensures r[0].total >= r[j].total {
        assert r[j] == s[j - 1];
      }
    } else {
      InsertDescSorted(g, s[1..]);
      InsertDescMembers(g, s[1..]);
      forall j | 0 < j < |r| ensures r[0].total >= r[j].total {
        assert r[j] in InsertDesc(g, s[1..]);
        if r[j] != g {
          var k :| 0 <= k < |s[1..]| && s[1..][k] == r[j];
          assert s[k + 1] == r[j];
        }
      }
    }
  }

  lemma {:induction false} InsertDescNames(g: Group, s: seq<Group>)
    requires DistinctNames(s)
    requires forall x :: x in s ==> x.name != g.name
    ensures DistinctNames(InsertDesc(g, s))
  {
    var r := InsertDesc(g, s);
    if s == [] || g.total >= s[0].total {
      forall j | 0 < j < |r| ensures r[0].name != r[j].name {
        assert r[j] == s[j - 1];
      }
    } else {
      InsertDescNames(g, s[1..]);
      InsertDescMembers(g, s[1..]);
      forall j | 0 < j < |r| ensures r[0].name != r[j].name {
        assert r[j] in InsertDesc(g, s[1..]);
        if r[j] != g {
          var k :| 0 <= k < |s[1..]| && s[1..][k] == r[j];
          assert s[k + 1] == r[j];
        }
      }
    }
  }

  /** Sorting yields a permutation. */
  lemma {:induction false} SortDescPermutes(s: seq<Group>)
    ensures multiset(SortDesc(s)) == multiset(s)
  {
    if s != [] {
      SortDescPermutes(s[1..]);
      InsertDescPermutes(s[0], SortDesc(s[1..]));
      assert s == [s[0]] + s[1..];
    }
  }

  /** Sorting puts the largest sum first. */
  lemma {:induction false} SortDescSorted(s: seq<Group>)
    ensures NonIncreasing(SortDesc(s))
  {
    if s != [] {
      SortDescSorted(s[1..]);
      InsertDescSorted(s[0], SortDesc(s[1..]));
    }
  }

  /** Distinct names stay distinct. */
  lemma {:induction false} SortDescNames(s: seq<Group>)
    requires DistinctNames(s)
    ensures DistinctNames(SortDesc(s))
  {
    if s != [] {
      var t := SortDesc(s[1..]);
      SortDescNames(s[1..]);
      SortDescPermutes(s[1..]);
      forall x | x in t ensures x.name != s[0].name {
        assert x in multiset(s[1..]);
        var k :| 0 <= k < |s[1..]| && s[1..][k] == x;
        assert s[k + 1] == x;
      }
      InsertDescNames(s[0], t);
    }
  }

  /** The first `n` groups by sum: at most `n` of them, taken from `groups`,
      from the largest sum down. */
  lemma TopSpec(groups: seq<Group>, n: nat)
    ensures var r := Top(groups, n);
      && |r| == (if n < |groups| then n else |groups|)
      && NonIncreasing(r)
      && multiset(r) <= multiset(groups)
  {
    var sorted := SortDesc(groups);
    SortDescPermutes(groups);
    SortDescSorted(groups);
    var k := if n < |sorted| then n else |sorted|;
    assert |sorted| == |groups| by {
      assert |multiset(sorted)| == |multiset(groups)|;
    }
    assert sorted == sorted[..k] + sorted[k..];
    assert multiset(sorted) == multiset(sorted[..k]) + multiset(sorted[k..]);
  }

  /** Distinct group names stay distinct in the ranking. */
  lemma TopNames(groups: seq<Group>, n: nat)
    requires DistinctNames(groups)
    ensures DistinctNames(Top(groups, n))
  {
    SortDescNames(groups);
  }

  /** A group is left out only when `n` groups are listed, and then its sum
      is no larger than any listed one. */
  lemma TopOmitsSmaller(groups: seq<Group>, n: nat)
    ensures var r := Top(groups, n);
      forall g :: g in groups && g !in r ==> |r| == n && forall e :: e in r ==> g.total <= e.total
  {
    var sorted := SortDesc(groups);
    SortDescPermutes(groups);
    SortDescSorted(groups);
    var k := if n < |sorted| then n else |sorted|;
    var r := sorted[..k];
    forall g, e | g in groups && g !in r && e in r ensures g.total <= e.total {
      assert g in multiset(sorted);
      var j :| 0 <= j < |sorted| && sorted[j] == g;
      var i :| 0 <= i < k && r[i] == e;
    }
    forall g | g in groups && g !in r ensures |r| == n {
      assert g in multiset(sorted);
      var j :| 0 <= j < |sorted| && sorted[j] == g;
    }
  }

  /** Each group of the ranking is the group of a defendant of the rows. */
  lemma TopEntries(rows: seq<Record>, n: nat)
    ensures forall e :: e in Top(GroupByDefendant(rows), n) ==>
      Some(e.name) in ColumnValues(rows, Defendant) && e == MakeGroup(rows, e.name)
  {
    var gs := GroupByDefendant(rows);
    TopSpec(gs, n);
    GroupNames(rows);
    forall e | e in Top(gs, n) ensures Some(e.name) in ColumnValues(rows, Defendant) && e == MakeGroup(rows, e.name) {
      assert e in multiset(gs);
      var i :| 0 <= i < |gs| && gs[i] == e;
      assert e.name == Keys(rows)[i];
    }
  }

  /** The groups follow the sorted keys: strictly ascending names, exactly
      the defendants that are not missing. */
  lemma GroupNames(rows: seq<Record>)
    ensures var gs := GroupByDefendant(rows);
      && (forall i, j :: 0 <= i < j < |gs| ==> Less(gs[i].name, gs[j].name))
      && DistinctNames(gs)
      && (forall k :: (exists i :: 0 <= i < |gs| && gs[i].name == k) <==> Some(k) in ColumnValues(rows, Defendant))
  {
    var ks := Keys(rows);
    SortedDistinctSpec(ColumnValues(rows, Defendant));
    AscendingDistinct(ks);
    forall k | Some(k) in ColumnValues(rows, Defendant) ensures exists i :: 0 <= i < |ks| && GroupByDefendant(rows)[i].name == k {
      var i :| 0 <= i < |ks| && ks[i] == k;
      assert GroupByDefendant(rows)[i].name == k;
    }
  }

  function TotalFn(): Group -> int {
    (g: Group) => g.total
  }

  /** The groups of distinct keys `ks` together hold the balance of the rows
      whose defendant is one of `ks`. */
  lemma {:induction false} GroupsForTotal(rows: seq<Record>, ks: seq<string>)
    requires forall i, j :: 0 <= i < j < |ks| ==> ks[i] != ks[j]
    ensures Sum(GroupsFor(rows, ks), TotalFn()) == Sum(rows, BalanceIn(ks))
  {
    if ks == [] {
      SumExt(rows, BalanceIn(ks), (r: Record) => 0);
      SumZero(rows);
    } else {
      var init, k := ks[..|ks| - 1], ks[|ks| - 1];
      GroupsForTotal(rows, init);
      assert GroupsFor(rows, ks)[..|ks| - 1] == GroupsFor(rows, init);
      forall i | 0 <= i < |rows| ensures BalanceIn(ks)(rows[i]) == BalanceIn(init)(rows[i]) + BalanceIn([k])(rows[i]) {
        assert ks == init + [k];
      }
      SumAdd(rows, BalanceIn(init), BalanceIn([k]), BalanceIn(ks));
    }
  }

  lemma {:induction false} SumZero(rows: seq<Record>)
    ensures Sum(rows, (r: Record) => 0) == 0
  {
    if rows != [] {
      SumZero(rows[..|rows| - 1]);
    }
  }

  /** Grouping loses no balance: the sums of all groups add up to the balance
      of the rows that have a defendant. */
  lemma GroupTotalsSum(rows: seq<Record>)
    ensures Sum(GroupByDefendant(rows), TotalFn()) == Sum(rows, NamedBalanceFn())
  {
    var ks := Keys(rows);
    var vals := ColumnValues(rows, Defendant);
    SortedDistinctSpec(vals);
    AscendingDistinct(ks);
    GroupsForTotal(rows, ks);
    forall i | 0 <= i < |rows| ensures BalanceIn(ks)(rows[i]) == NamedBalanceFn()(rows[i]) {
      if rows[i].defendant.Some? {
        assert vals[i] == rows[i].defendant;
      }
    }
    SumExt(rows, BalanceIn(ks), NamedBalanceFn());
  }

  /** Sorting keeps the sum of the sums. */
  lemma {:induction false} SortDescSum(s: seq<Group>)
    ensures Sum(SortDesc(s), TotalFn()) == Sum(s, TotalFn())
  {
    if s != [] {
      SortDescSum(s[1..]);
      InsertDescSum(s[0], SortDesc(s[1..]));
      SumCons(s[0], s[1..], TotalFn());
      assert s == [s[0]] + s[1..];
    }
  }

  lemma {:induction false} InsertDescSum(g: Group, s: seq<Group>)
    ensures Sum(InsertDesc(g, s), TotalFn()) == g.total + Sum(s, TotalFn())
  {
    if s == [] || g.total >= s[0].total {
      SumCons(g, s, TotalFn());
    } else {
      InsertDescSum(g, s[1..]);
      SumCons(s[0], InsertDesc(g, s[1..]), TotalFn());
      SumCons(s[0], s[1..], TotalFn());
      assert s == [s[0]] + s[1..];
    }
  }

  /** Everything the ranking lists comes from the view: each entry is the
      group of its defendant, with that defendant's summed balance and count
      of case numbers; at most 15 entries, distinct names, from the largest
      sum down, and a group is left out only when 15 are listed, each with a
      sum at least as large. */
  lemma RankSpec(d: Dataset)
    requires Rank(d).Ranked?
    ensures var top, gs := Rank(d).top, GroupByDefendant(d.rows);
      && |top| <= TopN
      && NonIncreasing(top)
      && DistinctNames(top)
      && (forall e :: e in top ==> Some(e.name) in ColumnValues(d.rows, Defendant) && e == MakeGroup(d.rows, e.name))
      && (forall g :: g in gs && g !in top ==> |top| == TopN && forall e :: e in top ==> g.total <= e.total)
  {
    var gs := GroupByDefendant(d.rows);
    assert Rank(d).top == Top(gs, TopN);
    GroupNames(d.rows);
    TopSpec(gs, TopN);
    TopNames(gs, TopN);
    TopOmitsSmaller(gs, TopN);
    TopEntries(d.rows, TopN);
  }

  /** With no negative balance, no group has a negative sum. */
  lemma GroupTotalsNonNegative(rows: seq<Record>)
    requires forall i :: 0 <= i < |rows| ==> BalanceOf(rows[i]) >= 0
    ensures forall g :: g in GroupByDefendant(rows) ==> g.total >= 0
  {
    forall g | g in GroupByDefendant(rows) ensures g.total >= 0 {
      SumNonNegative(rows, BalanceIn([g.name]));
    }
  }

  /** With no negative sum, the listed groups add up to no more than all. */
  lemma TopWithinTotal(groups: seq<Group>, n: nat)
    requires forall g :: g in groups ==> g.total >= 0
    ensures Sum(Top(groups, n), TotalFn()) <= Sum(groups, TotalFn())
  {
    var sorted := SortDesc(groups);
    SortDescPermutes(groups);
    forall i | 0 <= i < |sorted| ensures TotalFn()(sorted[i]) >= 0 {
      assert sorted[i] in multiset(groups);
    }
    SumPrefix(sorted, if n < |sorted| then n else |sorted|, TotalFn());
    SortDescSum(groups);
  }

  /** With no negative balance, the listed sums add up to no more than the
      balance of the whole view. */
  lemma RankWithinTotal(d: Dataset)
    requires Rank(d).Ranked?
    requires forall i :: 0 <= i < |d.rows| ==> BalanceOf(d.rows[i]) >= 0
    ensures Sum(Rank(d).top, TotalFn()) <= Sum(d.rows, BalanceFn())
  {
    var gs := GroupByDefendant(d.rows);
    assert Rank(d).top == Top(gs, TopN);
    GroupTotalsNonNegative(d.rows);
    TopWithinTotal(gs, TopN);
    GroupTotalsSum(d.rows);
    SumMono(d.rows, NamedBalanceFn(), BalanceFn());
  }
}
