/** The analysis script: clean the loaded table, take each country's latest
    row, rank the ten countries with the most vaccinations, and take the
    time series of one chosen country. Plotting is not modelled; the tables
    the two charts draw are the method's results. */
module Analysis {
  import opened Seqs
  import opened Records
  import opened Cleaning
  import opened Aggregation
  import opened Ranking

  /** The bar chart shows this many countries. */
  const TopCount: int := 10

  /** The country whose progress over time is plotted. */
  const FocusCountry: string := "India"

  /** Lines 36 to 60 of the script, on the table the loader returned. */
  method Analyse(df: Table) returns (cleaned: Table, latest: Table, top: Table, focus: Table)
    ensures cleaned == Clean(df) && NullFree(cleaned)
    ensures latest == LatestByCountry(cleaned)
    ensures top == NLargest(latest, TopCount)
    ensures |top| == Min(TopCount, |Countries(cleaned)|)
    ensures focus == CountryRows(cleaned, FocusCountry)
  {
    var frame := new DataFrame(DropIncomplete(df));
    frame.FillNa();
    cleaned := frame.rows;
    latest := LatestByCountry(cleaned);
    top := NLargest(latest, TopCount);
    focus := CountryRows(cleaned, FocusCountry);
  }

  /** The ranked rows belong to pairwise different countries. */
  lemma TopCountriesDistinct(t: Table, n: int)
    ensures forall a, b :: 0 <= a < b < |NLargest(LatestByCountry(t), n)| ==>
      NLargest(LatestByCountry(t), n)[a].country != NLargest(LatestByCountry(t), n)[b].country
  {
    var latest := LatestByCountry(t);
    var idx := TopIndices(latest, n);
    var top := NLargest(latest, n);
    forall a, b | 0 <= a < b < |top| ensures top[a].country != top[b].country {
      var i, j := idx[a], idx[b];
      assert Outranks(latest, i, j);
      assert i != j;
      if i < j {
        assert LexLess(latest[i].country, latest[j].country);
        LexIrreflexive(latest[i].country);
      } else {
        assert LexLess(latest[j].country, latest[i].country);
        LexIrreflexive(latest[j].country);
      }
    }
  }

  /** On a cleaned table every ranked row is the last cleaned row of its
      country and has no missing value. */
  lemma TopRowsAreLastRows(t: Table, n: int)
    requires NullFree(t)
    ensures NullFree(NLargest(LatestByCountry(t), n))
    ensures forall a :: 0 <= a < |NLargest(LatestByCountry(t), n)| ==>
      NLargest(LatestByCountry(t), n)[a] == t[LastRowIndex(t, NLargest(LatestByCountry(t), n)[a].country)]
  {
    var latest := LatestByCountry(t);
    LatestIsLastRow(t);
    var idx := TopIndices(latest, n);
    var top := NLargest(latest, n);
    forall a | 0 <= a < |top|
      ensures NoMissing(top[a]) && top[a] == t[LastRowIndex(t, top[a].country)]
    {
      assert top[a] == latest[idx[a]];
    }
  }

  function Row(country: string, date: string, total: Option<int>, people: int, fully: int): Record
  {
    Record(country, date, total, Some(people), Some(fully), [])
  }

  /** A row missing `total_vaccinations` is dropped; the others stay in order. */
  lemma DropScenario()
    ensures Clean([Row("US", "2021-01-01", Some(100), 90, 80),
                   Row("US", "2021-01-02", None, 95, 85),
                   Row("FR", "2021-01-01", Some(50), 40, 30)])
         == [Row("US", "2021-01-01", Some(100), 90, 80),
             Row("FR", "2021-01-01", Some(50), 40, 30)]
  {
    var us1 := Row("US", "2021-01-01", Some(100), 90, 80);
    var fr1 := Row("FR", "2021-01-01", Some(50), 40, 30);
    var us2 := Row("US", "2021-01-02", None, 95, 85);
    var t := [us1, us2, fr1];
    assert t[1..] == [us2, fr1] && t[1..][1..] == [fr1] && [fr1][1..] == [];
    assert Filter(Complete, [fr1]) == [fr1];
    assert Filter(Complete, [us2, fr1]) == [fr1];
    assert DropIncomplete(t) == [us1, fr1];
    FilledOfNullFree([us1, fr1]);
  }

  /** The table of the example: two rows for "US", then one for "FR". */
  function ExampleTable(): Table
  {
    [Row("US", "d1", Some(100), 1, 1), Row("US", "d2", Some(200), 1, 1), Row("FR", "d1", Some(50), 1, 1)]
  }

  lemma ExampleKeys()
    ensures SortedCountries(ExampleTable()) == ["FR", "US"]
  {
    var t := ExampleTable();
    assert t[1..] == [t[1], t[2]] && t[1..][1..] == [t[2]] && [t[2]][1..] == [];
    assert SortedCountries([t[2]]) == ["FR"];
    assert !LexLess("US", "FR") by { assert "FR"[0] == 'F' && "US"[0] == 'U'; }
    assert "US" != "FR" by { assert "FR"[0] != "US"[0]; }
    assert InsertKey("US", ["FR"]) == ["FR", "US"] by { assert ["FR"][1..] == []; }
    assert SortedCountries([t[1], t[2]]) == ["FR", "US"];
    assert InsertKey("US", ["FR", "US"]) == ["FR", "US"] by { assert ["FR", "US"][1..] == ["US"]; }
  }

  lemma ExampleGroups()
    ensures CountryRows(ExampleTable(), "FR") == [ExampleTable()[2]]
    ensures CountryRows(ExampleTable(), "US") == [ExampleTable()[0], ExampleTable()[1]]
  {
    var t := ExampleTable();
    assert t[1..] == [t[1], t[2]] && t[1..][1..] == [t[2]] && [t[2]][1..] == [];
    assert "US" != "FR" by { assert "FR"[0] != "US"[0]; }
    assert Filter(InCountry("FR"), [t[2]]) == [t[2]];
    assert Filter(InCountry("FR"), [t[1], t[2]]) == [t[2]];
    assert Filter(InCountry("US"), [t[2]]) == [];
    assert Filter(InCountry("US"), [t[1], t[2]]) == [t[1]];
  }

  lemma ExampleFirstGroup()
    ensures |LatestByCountry(ExampleTable())| == 2
    ensures LatestByCountry(ExampleTable())[0] == ExampleTable()[2]
  {
    ExampleKeys();
    ExampleGroups();
    LatestByCountryAt(ExampleTable(), 0);
  }

  lemma ExampleSecondGroup()
    ensures |LatestByCountry(ExampleTable())| == 2
    ensures LatestByCountry(ExampleTable())[1] == ExampleTable()[1]
  {
    var t := ExampleTable();
    ExampleKeys();
    ExampleGroups();
    assert NoMissing(t[1]) by {
      forall j | 0 <= j < Width(t[1]) ensures CellAt(t[1], j).Some? { }
    }
    GroupLastOfNullFreeRow([t[0], t[1]]);
    LatestByCountryAt(t, 1);
  }

  /** Each country keeps its last row by position; groups come in name order. */
  lemma LatestScenario()
    ensures LatestByCountry(ExampleTable())
         == [Row("FR", "d1", Some(50), 1, 1), Row("US", "d2", Some(200), 1, 1)]
  {
    ExampleFirstGroup();
    ExampleSecondGroup();
  }

  /** The two largest of three. */
  lemma TopScenario()
    ensures NLargest([Row("US", "d", Some(200), 1, 1), Row("FR", "d", Some(50), 1, 1),
                      Row("DE", "d", Some(150), 1, 1)], 2)
         == [Row("US", "d", Some(200), 1, 1), Row("DE", "d", Some(150), 1, 1)]
  {
    var l := [Row("US", "d", Some(200), 1, 1), Row("FR", "d", Some(50), 1, 1), Row("DE", "d", Some(150), 1, 1)];
    assert SortedIndices(l, 1) == [0];
    assert SortedIndices(l, 2) == [0, 1];
    assert SortedIndices(l, 3) == [0, 2, 1];
    assert TopIndices(l, 2) == [0, 2];
  }
}
