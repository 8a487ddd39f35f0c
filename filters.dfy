/**
  * The sidebar filter chain: starting from a copy of the loaded frame, each
  * active criterion narrows the rows with one boolean mask.
  */
module Filters {
  import opened Wrappers
  import opened Records
  import opened Seqs
  import opened Frames

  /** The sidebar state: the selected courts and states (empty means no
      constraint) and the three data-quality toggles. */
  datatype Criteria = Criteria(
    courts: seq<string>,
    states: seq<string>,
    cnjOnly: bool,
    docOnly: bool,
    electronicOnly: bool)

  /** One mask of the chain. */
  datatype Step = CourtIn(courts: seq<string>) | StateIn(states: seq<string>) | CnjValid | DocValid | ElectronicYear

  /** `isin` (a missing cell is in no selection), `== True`, `> 2014`. */
  predicate Holds(st: Step, r: Record) {
    match st
    case CourtIn(sel) => r.court.Some? && r.court.value in sel
    case StateIn(sel) => r.state.Some? && r.state.value in sel
    case CnjValid => r.cnjOk == Some(true)
    case DocValid => r.docOk == Some(true)
    case ElectronicYear => IsElectronic(r.year)
  }

  function HoldsFn(st: Step): Record -> bool {
    r => Holds(st, r)
  }

  /** The masks the chain applies, in the order it applies them: a selection
      only when it is non-empty, a toggle only when it is on and its column
      exists. */
  function ActiveSteps(cols: set<Column>, crit: Criteria): seq<Step> {
    (if |crit.courts| > 0 then [CourtIn(crit.courts)] else [])
    + (if |crit.states| > 0 then [StateIn(crit.states)] else [])
    + (if crit.cnjOnly && CnjOk in cols then [CnjValid] else [])
    + (if crit.docOnly && DocOk in cols then [DocValid] else [])
    + (if crit.electronicOnly && Year in cols then [ElectronicYear] else [])
  }

  /** The criteria a row must meet, stated one by one. */
  predicate Admits(cols: set<Column>, crit: Criteria, r: Record) {
    && (|crit.courts| > 0 ==> r.court.Some? && r.court.value in crit.courts)
    && (|crit.states| > 0 ==> r.state.Some? && r.state.value in crit.states)
    && (crit.cnjOnly && CnjOk in cols ==> r.cnjOk == Some(true))
    && (crit.docOnly && DocOk in cols ==> r.docOk == Some(true))
    && (crit.electronicOnly && Year in cols ==> IsElectronic(r.year))
  }

  function AdmitsFn(cols: set<Column>, crit: Criteria): Record -> bool {
    r => Admits(cols, crit, r)
  }

  /** The filtered view: the rows that meet every criterion, in order, with
      the same columns. */
  function Filtered(d: Dataset, crit: Criteria): Dataset {
    Dataset(d.columns, Where(d.rows, AdmitsFn(d.columns, crit)))
  }

  /** Applying masks one after another, in the given order. */
  function Chain(rows: seq<Record>, steps: seq<Step>): seq<Record>
    decreases |steps|
  {
    if steps == [] then rows else Chain(Where(rows, HoldsFn(steps[0])), steps[1..])
  }

  predicate AllHold(steps: seq<Step>, r: Record) {
    forall st :: st in steps ==> Holds(st, r)
  }

  function AllHoldFn(steps: seq<Step>): Record -> bool {
    r => AllHold(steps, r)
  }

  /** A chain of masks selects the rows that pass every mask in it. */
  lemma {:induction false} ChainSpec(rows: seq<Record>, steps: seq<Step>)
    ensures Chain(rows, steps) == Where(rows, AllHoldFn(steps))
    decreases |steps|
  {
    if steps == [] {
      WhereIdentity(rows, AllHoldFn(steps));
    } else {
      var w := Where(rows, HoldsFn(steps[0]));
      ChainSpec(w, steps[1..]);
      assert forall r :: AllHold(steps, r) == (Holds(steps[0], r) && AllHold(steps[1..], r)) by {
        assert forall st :: st in steps <==> st == steps[0] || st in steps[1..] by {
          assert steps == [steps[0]] + steps[1..];
        }
      }
      WhereWhere(rows, HoldsFn(steps[0]), AllHoldFn(steps[1..]), AllHoldFn(steps));
    }
  }

  /** The order of the masks does not matter: chains of the same masks, in
      any order, select the same rows. */
  lemma ChainAnyOrder(rows: seq<Record>, s1: seq<Step>, s2: seq<Step>)
    requires forall st :: st in s1 <==> st in s2
    ensures Chain(rows, s1) == Chain(rows, s2)
  {
    ChainSpec(rows, s1);
    ChainSpec(rows, s2);
    WhereExt(rows, AllHoldFn(s1), AllHoldFn(s2));
  }

  /** The active masks together admit exactly the rows that meet the
      criteria. */
  lemma ActiveStepsAdmit(cols: set<Column>, crit: Criteria, r: Record)
    ensures AllHold(ActiveSteps(cols, crit), r) <==> Admits(cols, crit, r)
  {
    var steps := ActiveSteps(cols, crit);
    if |crit.courts| > 0 {
      assert CourtIn(crit.courts) in steps;
    }
    if |crit.states| > 0 {
      assert StateIn(crit.states) in steps;
    }
    if crit.cnjOnly && CnjOk in cols {
      assert CnjValid in steps;
    }
    if crit.docOnly && DocOk in cols {
      assert DocValid in steps;
    }
    if crit.electronicOnly && Year in cols {
      assert ElectronicYear in steps;
    }
  }

  /** The chain of active masks gives the filtered view. */
  lemma FilteredIsChain(d: Dataset, crit: Criteria)
    ensures Filtered(d, crit).rows == Chain(d.rows, ActiveSteps(d.columns, crit))
  {
    var steps := ActiveSteps(d.columns, crit);
    ChainSpec(d.rows, steps);
    forall i | 0 <= i < |d.rows| ensures AdmitsFn(d.columns, crit)(d.rows[i]) == AllHoldFn(steps)(d.rows[i]) {
      ActiveStepsAdmit(d.columns, crit, d.rows[i]);
    }
    WhereExt(d.rows, AdmitsFn(d.columns, crit), AllHoldFn(steps));
  }

  lemma {:induction false} ChainSnoc(rows: seq<Record>, steps: seq<Step>, st: Step)
    ensures Chain(rows, steps + [st]) == Where(Chain(rows, steps), HoldsFn(st))
    decreases |steps|
  {
    if steps != [] {
      assert (steps + [st])[1..] == steps[1..] + [st];
      ChainSnoc(Where(rows, HoldsFn(steps[0])), steps[1..], st);
    }
  }

  /** One `if ...: df = df[mask]` of the chain. */
  lemma ChainStep(rows: seq<Record>, steps: seq<Step>, on: bool, st: Step)
    ensures Chain(rows, steps + (if on then [st] else [])) ==
      if on then Where(Chain(rows, steps), HoldsFn(st)) else Chain(rows, steps)
  {
    if on {
      ChainSnoc(rows, steps, st);
    } else {
      assert steps + [] == steps;
    }
  }

  /** The filter chain (app.py): `df = df_raw.copy()`, then one mask per
      active criterion. The loaded frame is left as it was. */
  method ApplyFilters(raw: Frame, crit: Criteria) returns (df: Frame)
    requires |crit.courts| > 0 ==> Court in raw.columns
    requires |crit.states| > 0 ==> State in raw.columns
    ensures fresh(df) && df.Value() == Filtered(raw.Value(), crit)
    ensures raw.Value() == old(raw.Value())
  {
    df := raw.Copy();
    // The masks applied so far; at the end, the active ones in order.
    ghost var done: seq<Step> := if |crit.courts| > 0 then [CourtIn(crit.courts)] else [];
    ChainStep(raw.rows, [], |crit.courts| > 0, CourtIn(crit.courts));
    assert [] + done == done;
    if |crit.courts| > 0 {
      df := df.Select(HoldsFn(CourtIn(crit.courts)));
    }
    assert fresh(df) && df.columns == raw.columns && df.rows == Chain(raw.rows, done);
    ChainStep(raw.rows, done, |crit.states| > 0, StateIn(crit.states));
    if |crit.states| > 0 {
      df := df.Select(HoldsFn(StateIn(crit.states)));
    }
    done := done + (if |crit.states| > 0 then [StateIn(crit.states)] else []);
    assert fresh(df) && df.columns == raw.columns && df.rows == Chain(raw.rows, done);
    ChainStep(raw.rows, done, crit.cnjOnly && CnjOk in raw.columns, CnjValid);
    if crit.cnjOnly && CnjOk in df.columns {
      df := df.Select(HoldsFn(CnjValid));
    }
    done := done + (if crit.cnjOnly && CnjOk in raw.columns then [CnjValid] else []);
    assert fresh(df) && df.columns == raw.columns && df.rows == Chain(raw.rows, done);
    ChainStep(raw.rows, done, crit.docOnly && DocOk in raw.columns, DocValid);
    if crit.docOnly && DocOk in df.columns {
      df := df.Select(HoldsFn(DocValid));
    }
    done := done + (if crit.docOnly && DocOk in raw.columns then [DocValid] else []);
    assert fresh(df) && df.columns == raw.columns && df.rows == Chain(raw.rows, done);
    ChainStep(raw.rows, done, crit.electronicOnly && Year in raw.columns, ElectronicYear);
    if crit.electronicOnly && Year in df.columns {
      df := df.Select(HoldsFn(ElectronicYear));
    }
    done := done + (if crit.electronicOnly && Year in raw.columns then [ElectronicYear] else []);
    assert done == ActiveSteps(raw.columns, crit);
    FilteredIsChain(raw.Value(), crit);
  }

  /** The view is an order-preserving subsequence of the loaded rows, and a
      loaded row is kept iff it meets every active criterion. */
  lemma FilterKeepsExactly(d: Dataset, crit: Criteria)
    ensures var v, ix := Filtered(d, crit).rows, Kept(d.rows, AdmitsFn(d.columns, crit));
      && |ix| == |v|
      && StrictlyIncreasing(ix)
      && (forall k :: 0 <= k < |ix| ==> ix[k] < |d.rows| && v[k] == d.rows[ix[k]])
      && (forall i :: 0 <= i < |d.rows| ==> (i in ix <==> Admits(d.columns, crit, d.rows[i])))
  {
    WhereIndices(d.rows, AdmitsFn(d.columns, crit));
  }

  /** With nothing selected and no toggle that applies, the view is the
      loaded table. */
  lemma FilterIdentity(d: Dataset, crit: Criteria)
    requires |crit.courts| == 0 && |crit.states| == 0
    requires !crit.cnjOnly || CnjOk !in d.columns
    requires !crit.docOnly || DocOk !in d.columns
    requires !crit.electronicOnly || Year !in d.columns
    ensures Filtered(d, crit) == d
  {
    WhereIdentity(d.rows, AdmitsFn(d.columns, crit));
  }

  /** Filtering the view again with the same criteria changes nothing. */
  lemma FilterIdempotent(d: Dataset, crit: Criteria)
    ensures Filtered(Filtered(d, crit), crit) == Filtered(d, crit)
  {
    WhereIdempotent(d.rows, AdmitsFn(d.columns, crit));
  }

  /** Filtering with one set of criteria and then another is the same in
      either order. */
  lemma FilterCommutes(d: Dataset, a: Criteria, b: Criteria)
    ensures Filtered(Filtered(d, a), b) == Filtered(Filtered(d, b), a)
  {
    WhereCommutes(d.rows, AdmitsFn(d.columns, a), AdmitsFn(d.columns, b));
  }
}
