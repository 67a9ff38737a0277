/** Cleaning of the loaded table: dropping rows that lack a required value,
    then filling every remaining missing cell with 0. */
module Cleaning {
  import opened Seqs
  import opened Records

  /** `dropna(subset=[total_vaccinations, people_vaccinated,
      people_fully_vaccinated])`: keeps exactly the rows that have all three
      required values, in their original order. */
  function DropIncomplete(t: Table): (r: Table)
    ensures forall i :: 0 <= i < |r| ==> Complete(r[i])
    ensures forall x :: x in r <==> x in t && Complete(x)
    ensures IsSubsequence(r, t)
    ensures forall x :: multiset(r)[x] == if Complete(x) then multiset(t)[x] else 0
  {
    FilterSubsequence(Complete, t);
    FilterMultiset(Complete, t);
    Filter(Complete, t)
  }

  function FillNum(v: Option<int>): Option<int>
  {
    if v.Some? then v else Some(0)
  }

  function FillCell(v: Option<Cell>): Option<Cell>
  {
    if v.Some? then v else Some(Num(0))
  }

  /** One row of `fillna(0)`. */
  function FillRow(r: Record): (f: Record)
    ensures f.country == r.country && f.date == r.date && Width(f) == Width(r)
    ensures forall j :: 0 <= j < Width(r) ==> CellAt(f, j) == FillCell(CellAt(r, j))
  {
    r.(totalVaccinations := FillNum(r.totalVaccinations),
       peopleVaccinated := FillNum(r.peopleVaccinated),
       peopleFullyVaccinated := FillNum(r.peopleFullyVaccinated),
       others := seq(|r.others|, k requires 0 <= k < |r.others| => FillCell(r.others[k])))
  }

  /** The table `fillna(0)` produces: same rows in the same order, no missing
      cell left, every present cell unchanged and every missing cell 0. */
  function Filled(t: Table): (r: Table)
    ensures |r| == |t|
    ensures NullFree(r)
    ensures forall i :: 0 <= i < |t| ==>
      r[i].country == t[i].country && r[i].date == t[i].date && Width(r[i]) == Width(t[i])
    ensures forall i, j :: 0 <= i < |t| && 0 <= j < Width(t[i]) && CellAt(t[i], j).Some? ==>
      CellAt(r[i], j) == CellAt(t[i], j)
    ensures forall i, j :: 0 <= i < |t| && 0 <= j < Width(t[i]) && CellAt(t[i], j).None? ==>
      CellAt(r[i], j) == Some(Num(0))
  {
    seq(|t|, i requires 0 <= i < |t| => FillRow(t[i]))
  }

  /** A data frame whose rows `fillna(0, inplace=True)` overwrites. */
  class DataFrame {
    var rows: Table

    constructor (t: Table)
      ensures rows == t
    {
      rows := t;
    }

    method FillNa()
      modifies this
      ensures rows == Filled(old(rows))
    {
      var i := 0;
      while i < |rows|
        invariant 0 <= i <= |rows| == |old(rows)|
        invariant forall k :: 0 <= k < i ==> rows[k] == FillRow(old(rows)[k])
        invariant forall k :: i <= k < |rows| ==> rows[k] == old(rows)[k]
      {
        rows := rows[i := FillRow(rows[i])];
        i := i + 1;
      }
    }
  }

  /** Lines 36 and 39 together: drop first, then fill. */
  function Clean(t: Table): (r: Table)
    ensures NullFree(r)
    ensures |r| == |DropIncomplete(t)| <= |t|
  {
    Filled(DropIncomplete(t))
  }

  lemma FillRowOfNoMissing(r: Record)
    requires NoMissing(r)
    ensures FillRow(r) == r
  {
    NoMissingFields(r);
    assert FillRow(r).others == r.others;
  }

  /** Filling a table that has no missing value leaves it unchanged. */
  lemma FilledOfNullFree(t: Table)
    requires NullFree(t)
    ensures Filled(t) == t
  {
    forall i | 0 <= i < |t| ensures Filled(t)[i] == t[i] {
      FillRowOfNoMissing(t[i]);
    }
  }

  /** The cleaned table has no missing value in any column, and its rows are
      the complete input rows, filled, in their original order. */
  lemma CleanProperties(t: Table)
    ensures NullFree(Clean(t))
    ensures |Clean(t)| == |DropIncomplete(t)|
    ensures forall i :: 0 <= i < |Clean(t)| ==>
      exists k :: 0 <= k < |t| && Complete(t[k]) && Clean(t)[i] == FillRow(t[k])
  {
    var d := DropIncomplete(t);
    forall i | 0 <= i < |Clean(t)|
      ensures exists k :: 0 <= k < |t| && Complete(t[k]) && Clean(t)[i] == FillRow(t[k])
    {
      assert d[i] in d;
      var k :| 0 <= k < |t| && t[k] == d[i];
      assert Clean(t)[i] == FillRow(t[k]);
    }
  }

  /** Cleaning an already cleaned table returns it unchanged. */
  lemma CleanIdempotent(t: Table)
    ensures Clean(Clean(t)) == Clean(t)
  {
    var c := Clean(t);
    forall x | x in c ensures Complete(x) {
      var i :| 0 <= i < |c| && c[i] == x;
      NoMissingFields(c[i]);
    }
    FilterAll(Complete, c);
    assert DropIncomplete(c) == c;
    FilledOfNullFree(c);
  }

  /** Why the drop runs first: once the table is filled, no row lacks a
      required value, so a drop after the fill would keep every row. */
  lemma FillFirstDropsNothing(t: Table)
    ensures DropIncomplete(Filled(t)) == Filled(t)
    ensures |DropIncomplete(Filled(t))| == |t|
  {
    var f := Filled(t);
    forall x | x in f ensures Complete(x) {
      var i :| 0 <= i < |f| && f[i] == x;
      NoMissingFields(f[i]);
    }
    FilterAll(Complete, f);
  }
}
