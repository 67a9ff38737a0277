/** `groupby('country').last().reset_index()`: one row per distinct country,
    the groups ordered by country name (pandas sorts group keys by default),
    each column holding the group's last non-missing value in row order.
    "Latest" therefore means last by position in the file, not latest date. */
module Aggregation {
  import opened Seqs
  import opened Records

  /** Python's ordering of `str` values: code point by code point, a proper
      prefix before the longer string. */
  predicate LexLess(a: string, b: string)
    ensures LexLess(a, b) ==> a != b
    ensures a < b ==> LexLess(a, b)
    decreases |b|
  {
    |b| > 0 && (|a| == 0 || a[0] < b[0] || (a[0] == b[0] && LexLess(a[1..], b[1..])))
  }

  lemma {:induction false} LexIrreflexive(a: string)
    ensures !LexLess(a, a)
  {
    if |a| > 0 {
      LexIrreflexive(a[1..]);
    }
  }

  lemma {:induction false} LexTransitive(a: string, b: string, c: string)
    requires LexLess(a, b) && LexLess(b, c)
    ensures LexLess(a, c)
  {
    if |a| > 0 && a[0] == b[0] && b[0] == c[0] {
      LexTransitive(a[1..], b[1..], c[1..]);
    }
  }

  lemma {:induction false} LexTotal(a: string, b: string)
    requires a != b
    ensures LexLess(a, b) || LexLess(b, a)
  {
    if |a| > 0 && |b| > 0 && a[0] == b[0] {
      assert a == [a[0]] + a[1..] && b == [b[0]] + b[1..];
      LexTotal(a[1..], b[1..]);
    }
  }

  predicate StrictlyAscending(ks: seq<string>)
  {
    forall i, j :: 0 <= i < j < |ks| ==> LexLess(ks[i], ks[j])
  }

  /** Adds key `k` to an ascending list of distinct keys. */
  function InsertKey(k: string, ks: seq<string>): (r: seq<string>)
    requires StrictlyAscending(ks)
    ensures StrictlyAscending(r)
    ensures forall x :: x in r <==> x == k || x in ks
  {
    if ks == [] then [k]
    else if k == ks[0] then ks
    else if LexLess(k, ks[0]) then
      assert StrictlyAscending([k] + ks) by {
        forall j | 0 <= j < |ks| ensures LexLess(k, ks[j]) {
          if j > 0 { LexTransitive(k, ks[0], ks[j]); }
        }
      }
      [k] + ks
    else
      LexTotal(k, ks[0]);
      var rest := InsertKey(k, ks[1..]);
      assert StrictlyAscending([ks[0]] + rest) by {
        forall j | 0 <= j < |rest| ensures LexLess(ks[0], rest[j]) {
          assert rest[j] in rest;
          if rest[j] != k {
            var m :| 0 <= m < |ks[1..]| && ks[1..][m] == rest[j];
            assert ks[m + 1] == rest[j];
          }
        }
      }
      [ks[0]] + rest
  }

  /** The group keys: every distinct country once, in ascending order. */
  function SortedCountries(t: Table): (ks: seq<string>)
    ensures StrictlyAscending(ks)
    ensures forall c :: c in ks <==> c in Countries(t)
  {
    if t == [] then []
    else
      var rest := SortedCountries(t[1..]);
      assert forall c :: c in Countries(t) <==> c == t[0].country || c in Countries(t[1..]) by {
        assert t == [t[0]] + t[1..];
      }
      InsertKey(t[0].country, rest)
  }

  lemma AscendingIsDistinct(ks: seq<string>)
    requires StrictlyAscending(ks)
    ensures Distinct(ks)
  {
    forall i, j | 0 <= i < j < |ks| ensures ks[i] != ks[j] {
      LexIrreflexive(ks[i]);
    }
  }

  lemma SortedCountriesCount(t: Table)
    ensures |SortedCountries(t)| == |Countries(t)|
  {
    var ks := SortedCountries(t);
    AscendingIsDistinct(ks);
    DistinctCardinality(ks);
    assert Elements(ks) == Countries(t);
  }

  function LatestNum(older: Option<int>, newer: Option<int>): Option<int>
  {
    if newer.Some? then newer else older
  }

  /** Folds one more row into a group's running `last()`: each present value
      of the newer row replaces the value seen so far. */
  function Overlay(older: Record, newer: Record): (r: Record)
    ensures r.country == newer.country && r.date == newer.date && Width(r) == Width(newer)
    ensures forall j :: 0 <= j < Width(newer) ==>
      CellAt(r, j) == if CellAt(newer, j).Some? then CellAt(newer, j)
                      else if j < Width(older) then CellAt(older, j) else None
  {
    Record(newer.country, newer.date,
      LatestNum(older.totalVaccinations, newer.totalVaccinations),
      LatestNum(older.peopleVaccinated, newer.peopleVaccinated),
      LatestNum(older.peopleFullyVaccinated, newer.peopleFullyVaccinated),
      seq(|newer.others|, k requires 0 <= k < |newer.others| =>
        if newer.others[k].Some? then newer.others[k]
        else if k < |older.others| then older.others[k] else None))
  }

  /** `last()` of one group, scanning its rows in order. */
  function GroupLast(g: Table): (r: Record)
    requires |g| > 0
    ensures r.country == g[|g| - 1].country && r.date == g[|g| - 1].date
    ensures Width(r) == Width(g[|g| - 1])
  {
    if |g| == 1 then g[0] else Overlay(GroupLast(g[..|g| - 1]), g[|g| - 1])
  }

  /** Pandas' per-column rule: the last value present in the column, or
      missing when the whole column is missing. */
  function LastPresent(col: seq<Option<Cell>>): (v: Option<Cell>)
    ensures v.None? <==> forall i :: 0 <= i < |col| ==> col[i].None?
    ensures v.Some? ==> exists i :: 0 <= i < |col| && col[i] == v &&
                                    (forall m :: i < m < |col| ==> col[m].None?)
  {
    if col == [] then None
    else if col[|col| - 1].Some? then col[|col| - 1]
    else
      var v := LastPresent(col[..|col| - 1]);
      assert v.Some? ==> exists i :: 0 <= i < |col| - 1 && col[i] == v &&
                                     (forall m :: i < m < |col| ==> col[m].None?);
      v
  }

  /** All rows have the same columns, as every row of a data frame does. */
  predicate Rectangular(g: Table)
  {
    forall i, j :: 0 <= i < |g| && 0 <= j < |g| ==> |g[i].others| == |g[j].others|
  }

  function ColumnOf(g: Table, j: nat): (col: seq<Option<Cell>>)
    requires forall i :: 0 <= i < |g| ==> j < Width(g[i])
    ensures |col| == |g|
  {
    seq(|g|, i requires 0 <= i < |g| => CellAt(g[i], j))
  }

  /** The row-by-row fold agrees with the per-column definition of `last()`. */
  lemma {:induction false} GroupLastColumns(g: Table, j: nat)
    requires |g| > 0 && Rectangular(g) && j < Width(g[0])
    ensures j < Width(GroupLast(g))
    ensures CellAt(GroupLast(g), j) == LastPresent(ColumnOf(g, j))
  {
    var n := |g|;
    var col := ColumnOf(g, j);
    if n == 1 {
      assert col[..0] == [];
    } else {
      var front := g[..n - 1];
      assert Rectangular(front);
      GroupLastColumns(front, j);
      assert ColumnOf(front, j) == col[..n - 1];
    }
  }

  /** A group whose last row has no missing value yields exactly that row. */
  lemma GroupLastOfNullFreeRow(g: Table)
    requires |g| > 0 && NoMissing(g[|g| - 1])
    ensures GroupLast(g) == g[|g| - 1]
  {
    var last := g[|g| - 1];
    NoMissingFields(last);
    if |g| > 1 {
      assert Overlay(GroupLast(g[..|g| - 1]), last).others == last.others;
    }
  }

  /** The aggregated row of country `c`. */
  function LatestRow(t: Table, c: string): (r: Record)
    requires c in Countries(t)
    ensures r.country == c
    ensures r.date == t[LastRowIndex(t, c)].date && Width(r) == Width(t[LastRowIndex(t, c)])
  {
    CountryRowsLast(t, c);
    GroupLast(CountryRows(t, c))
  }

  /** The group keys and the table's countries are the same values, one key
      per country. */
  lemma SortedCountriesFacts(t: Table)
    ensures |SortedCountries(t)| == |Countries(t)|
    ensures forall i :: 0 <= i < |SortedCountries(t)| ==> SortedCountries(t)[i] in Countries(t)
    ensures forall c :: c in Countries(t) ==>
      exists i :: 0 <= i < |SortedCountries(t)| && SortedCountries(t)[i] == c
  {
    var ks := SortedCountries(t);
    SortedCountriesCount(t);
    forall i | 0 <= i < |ks| ensures ks[i] in Countries(t) {
      assert ks[i] in ks;
    }
  }

  /** One aggregated row per key of `ks`, in the order of `ks`. */
  function GroupsFor(t: Table, ks: seq<string>): (r: Table)
    requires forall i :: 0 <= i < |ks| ==> ks[i] in Countries(t)
    ensures |r| == |ks|
    ensures forall i :: 0 <= i < |r| ==> r[i].country == ks[i]
  {
    seq(|ks|, i requires 0 <= i < |ks| => LatestRow(t, ks[i]))
  }

  /** `df.groupby('country').last().reset_index()`. */
  function LatestByCountry(t: Table): (r: Table)
    ensures |r| == |Countries(t)|
    ensures forall i :: 0 <= i < |r| ==> r[i].country in Countries(t)
    ensures forall c :: c in Countries(t) ==> exists i :: 0 <= i < |r| && r[i].country == c
    ensures forall i, j :: 0 <= i < j < |r| ==> LexLess(r[i].country, r[j].country)
  {
    SortedCountriesFacts(t);
    GroupsFor(t, SortedCountries(t))
  }

  /** Row `i` of the aggregate is the `last()` of the group with the `i`-th key. */
  lemma LatestByCountryAt(t: Table, i: nat)
    requires i < |SortedCountries(t)|
    ensures |LatestByCountry(t)| == |SortedCountries(t)|
    ensures SortedCountries(t)[i] in Countries(t)
    ensures LatestByCountry(t)[i] == LatestRow(t, SortedCountries(t)[i])
  {
    SortedCountriesFacts(t);
  }

  /** The position of the last row of country `c`. */
  function LastRowIndex(t: Table, c: string): (k: nat)
    requires c in Countries(t)
    ensures k < |t| && t[k].country == c
    ensures forall m :: k < m < |t| ==> t[m].country != c
  {
    var n := |t| - 1;
    if t[n].country == c then n
    else
      assert c in Countries(t[..n]) by {
        var x :| x in t && x.country == c;
        var i :| 0 <= i < |t| && t[i] == x;
        assert t[..n][i] == x;
      }
      LastRowIndex(t[..n], c)
  }

  /** The last row of a country's slice is the country's last row in the table. */
  lemma CountryRowsLast(t: Table, c: string)
    requires c in Countries(t)
    ensures CountryRows(t, c) != []
    ensures CountryRows(t, c)[|CountryRows(t, c)| - 1] == t[LastRowIndex(t, c)]
  {
    var k := LastRowIndex(t, c);
    assert InCountry(c)(t[k]);
    assert forall m :: k < m < |t| ==> !InCountry(c)(t[m]);
    FilterLast(InCountry(c), t, k);
  }

  /** On a null-free table the aggregated row of a country is its last row. */
  lemma LatestRowIsLastRow(t: Table, c: string)
    requires NullFree(t) && c in Countries(t)
    ensures LatestRow(t, c) == t[LastRowIndex(t, c)]
  {
    CountryRowsLast(t, c);
    var k := LastRowIndex(t, c);
    assert NoMissing(t[k]);
    GroupLastOfNullFreeRow(CountryRows(t, c));
  }

  /** Column `j` of the `i`-th aggregated row is the last value present in
      that column of the `i`-th group. */
  lemma LatestColumns(t: Table, i: nat, j: nat)
    requires Rectangular(t) && i < |SortedCountries(t)|
    requires forall x :: x in t ==> j < Width(x)
    ensures |LatestByCountry(t)| == |SortedCountries(t)|
    ensures j < Width(LatestByCountry(t)[i])
    ensures CellAt(LatestByCountry(t)[i], j) == LastPresent(ColumnOf(CountryRows(t, SortedCountries(t)[i]), j))
  {
    LatestByCountryAt(t, i);
    var c := SortedCountries(t)[i];
    var g := CountryRows(t, c);
    assert forall a :: 0 <= a < |g| ==> g[a] in t by {
      forall a | 0 <= a < |g| ensures g[a] in t { assert g[a] in g; }
    }
    assert Rectangular(g) by {
      forall a, b | 0 <= a < |g| && 0 <= b < |g| ensures |g[a].others| == |g[b].others| {
        var p :| 0 <= p < |t| && t[p] == g[a];
        var q :| 0 <= q < |t| && t[q] == g[b];
      }
    }
    GroupLastColumns(g, j);
  }

  /** On a cleaned (null-free) table every aggregated row is the last row of
      its country: per-column "last present" coincides with "last row". */
  lemma LatestIsLastRow(t: Table)
    requires NullFree(t)
    ensures NullFree(LatestByCountry(t))
    ensures forall i :: 0 <= i < |LatestByCountry(t)| ==>
      LatestByCountry(t)[i] == t[LastRowIndex(t, LatestByCountry(t)[i].country)]
  {
    var r := LatestByCountry(t);
    forall i | 0 <= i < |r|
      ensures r[i] == t[LastRowIndex(t, r[i].country)] && NoMissing(r[i])
    {
      SortedCountriesFacts(t);
      LatestByCountryAt(t, i);
      LatestRowIsLastRow(t, SortedCountries(t)[i]);
    }
  }
}
