/** Rows and tables of the vaccination dataset `country_vaccinations.csv`. */
module Records {
  import opened Seqs

  datatype Option<T> = None | Some(value: T)

  /** A cell of one of the columns other than the named ones. Integers stand
      for the floating-point numbers the loader infers; some columns hold text. */
  datatype Cell = Num(n: int) | Text(s: string)

  /** One observation of one country on one date. `None` is a missing value. */
  datatype Record = Record(
    country: string,
    date: string,
    totalVaccinations: Option<int>,
    peopleVaccinated: Option<int>,
    peopleFullyVaccinated: Option<int>,
    others: seq<Option<Cell>>)

  /** A table: its rows in file order. */
  type Table = seq<Record>

  function Lift(v: Option<int>): (c: Option<Cell>)
  {
    match v
    case None => None
    case Some(n) => Some(Num(n))
  }

  /** The number of nullable columns of a row: the three required ones first,
      then the others. */
  function Width(r: Record): nat
  {
    3 + |r.others|
  }

  /** The value in nullable column `j` of a row. */
  function CellAt(r: Record, j: nat): Option<Cell>
    requires j < Width(r)
  {
    if j == 0 then Lift(r.totalVaccinations)
    else if j == 1 then Lift(r.peopleVaccinated)
    else if j == 2 then Lift(r.peopleFullyVaccinated)
    else r.others[j - 3]
  }

  /** The row has a value in each of the three required columns. */
  predicate Complete(r: Record)
  {
    r.totalVaccinations.Some? && r.peopleVaccinated.Some? && r.peopleFullyVaccinated.Some?
  }

  /** The row has a value in every column. */
  predicate NoMissing(r: Record)
  {
    forall j :: 0 <= j < Width(r) ==> CellAt(r, j).Some?
  }

  predicate NullFree(t: Table)
  {
    forall i :: 0 <= i < |t| ==> NoMissing(t[i])
  }

  lemma NoMissingFields(r: Record)
    requires NoMissing(r)
    ensures Complete(r)
    ensures forall k :: 0 <= k < |r.others| ==> r.others[k].Some?
  {
    assert CellAt(r, 0).Some? && CellAt(r, 1).Some? && CellAt(r, 2).Some?;
    forall k | 0 <= k < |r.others| ensures r.others[k].Some? {
      assert CellAt(r, k + 3) == r.others[k];
    }
  }

  /** The distinct values of the `country` column. */
  function Countries(t: Table): set<string>
  {
    set r | r in t :: r.country
  }

  /** The boolean mask `country == c`. */
  function InCountry(c: string): Record -> bool
  {
    (r: Record) => r.country == c
  }

  /** The rows whose country is `c`, in their original order. */
  function CountryRows(t: Table, c: string): (rows: Table)
    ensures forall x :: x in rows <==> x in t && x.country == c
    ensures forall i :: 0 <= i < |rows| ==> rows[i].country == c
    ensures rows == [] <==> c !in Countries(t)
  {
    var rows := Filter(InCountry(c), t);
    assert rows != [] ==> rows[0] in rows;
    rows
  }

  /** The slice keeps the table's order, and each row of country `c` as often
      as the table has it. */
  lemma CountryRowsOrder(t: Table, c: string)
    ensures IsSubsequence(CountryRows(t, c), t)
    ensures forall x :: multiset(CountryRows(t, c))[x] == if x.country == c then multiset(t)[x] else 0
  {
    FilterSubsequence(InCountry(c), t);
    FilterMultiset(InCountry(c), t);
  }
}
