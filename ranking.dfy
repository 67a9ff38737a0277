/** `nlargest(n, 'total_vaccinations')` with pandas' default `keep='first'`:
    the n rows with the largest values, largest first, equal values in row
    order, and rows without a value after all rows that have one. */
module Ranking {
  import opened Seqs
  import opened Records

  function Min(a: int, b: int): int
  {
    if a <= b then a else b
  }

  predicate HasRank(r: Record)
  {
    r.totalVaccinations.Some?
  }

  function Rank(r: Record): int
  {
    match r.totalVaccinations
    case Some(v) => v
    case None => 0
  }

  /** Row `i` of `L` precedes row `j` in the order `nlargest` reports rows. */
  predicate Outranks(L: Table, i: nat, j: nat)
    ensures Outranks(L, i, j) ==> i != j && i < |L| && j < |L|
  {
    i < |L| && j < |L| &&
    if HasRank(L[i]) != HasRank(L[j]) then HasRank(L[i])
    else if HasRank(L[i]) && Rank(L[i]) != Rank(L[j]) then Rank(L[i]) > Rank(L[j])
    else i < j
  }

  /** `Outranks` is a strict total order on the positions of `L`, so it
      determines one order of the rows. */
  lemma OutranksStrictOrder(L: Table)
    ensures forall i, j :: Outranks(L, i, j) ==> !Outranks(L, j, i)
    ensures forall i: nat, j: nat :: i < |L| && j < |L| && i != j ==> Outranks(L, i, j) || Outranks(L, j, i)
    ensures forall i, j, k :: Outranks(L, i, j) && Outranks(L, j, k) ==> Outranks(L, i, k)
  {
  }

  predicate RankedOrder(L: Table, s: seq<nat>)
  {
    forall a, b :: 0 <= a < b < |s| ==> Outranks(L, s[a], s[b])
  }

  /** Adds row index `x` to a list of indices kept in `Outranks` order. */
  function InsertIndex(L: Table, x: nat, s: seq<nat>): (r: seq<nat>)
    requires x < |L| && x !in s
    requires forall a :: 0 <= a < |s| ==> s[a] < |L|
    requires RankedOrder(L, s)
    ensures RankedOrder(L, r)
    ensures forall a :: 0 <= a < |r| ==> r[a] < |L|
    ensures forall i :: i in r <==> i == x || i in s
    ensures |r| == |s| + 1
  {
    if s == [] then [x]
    else if Outranks(L, x, s[0]) then [x] + s
    else
      var rest := InsertIndex(L, x, s[1..]);
      assert RankedOrder(L, [s[0]] + rest) by {
        forall b | 0 <= b < |rest| ensures Outranks(L, s[0], rest[b]) {
          assert rest[b] in rest;
          if rest[b] != x {
            var m :| 0 <= m < |s[1..]| && s[1..][m] == rest[b];
            assert s[m + 1] == rest[b];
          }
        }
      }
      [s[0]] + rest
  }

  /** The indices `0 .. k-1` sorted into `Outranks` order. */
  function SortedIndices(L: Table, k: nat): (r: seq<nat>)
    requires k <= |L|
    ensures RankedOrder(L, r)
    ensures forall a :: 0 <= a < |r| ==> r[a] < k
    ensures forall i: nat :: i in r <==> i < k
    ensures |r| == k
  {
    if k == 0 then []
    else
      var r := InsertIndex(L, k - 1, SortedIndices(L, k - 1));
      assert forall a :: 0 <= a < |r| ==> r[a] in r;
      r
  }

  /** The positions in `L` of the rows `nlargest(n, ...)` returns, in the
      order it returns them. A non-positive `n` selects nothing. */
  function TopIndices(L: Table, n: int): (r: seq<nat>)
    ensures |r| == if n <= 0 then 0 else Min(n, |L|)
    ensures forall a :: 0 <= a < |r| ==> r[a] < |L|
    ensures RankedOrder(L, r)
    ensures forall i, j :: i in r && 0 <= j < |L| && j !in r ==> Outranks(L, i, j)
  {
    var s := SortedIndices(L, |L|);
    var m := if n <= 0 then 0 else Min(n, |s|);
    var r := s[..m];
    assert forall i, j :: i in r && 0 <= j < |L| && j !in r ==> Outranks(L, i, j) by {
      forall i, j | i in r && 0 <= j < |L| && j !in r ensures Outranks(L, i, j) {
        var a :| 0 <= a < |r| && r[a] == i;
        assert j in s;
        var b :| 0 <= b < |s| && s[b] == j;
        assert forall c :: 0 <= c < m ==> r[c] == s[c] && r[c] in r;
        assert b >= m;
        assert s[a] == i;
      }
    }
    r
  }

  /** `L.nlargest(n, 'total_vaccinations')`. */
  function NLargest(L: Table, n: int): (r: Table)
    ensures |r| == if n <= 0 then 0 else Min(n, |L|)
    ensures forall a :: 0 <= a < |r| ==> r[a] == L[TopIndices(L, n)[a]]
    ensures forall a :: 0 <= a < |r| ==> r[a] in L
  {
    var idx := TopIndices(L, n);
    seq(|idx|, a requires 0 <= a < |idx| => L[idx[a]])
  }

  /** The selected rows come largest first, rows without a value last, and no
      row left out has a larger value than any row selected. */
  lemma NLargestOrder(L: Table, n: int)
    ensures forall a, b :: 0 <= a < b < |NLargest(L, n)| && HasRank(NLargest(L, n)[b]) ==>
      HasRank(NLargest(L, n)[a]) && Rank(NLargest(L, n)[a]) >= Rank(NLargest(L, n)[b])
    ensures forall x, a :: x in L && x !in NLargest(L, n) && HasRank(x) && 0 <= a < |NLargest(L, n)| ==>
      HasRank(NLargest(L, n)[a]) && Rank(NLargest(L, n)[a]) >= Rank(x)
  {
    var idx := TopIndices(L, n);
    var r := NLargest(L, n);
    forall a, b | 0 <= a < b < |r| && HasRank(r[b])
      ensures HasRank(r[a]) && Rank(r[a]) >= Rank(r[b])
    {
      assert Outranks(L, idx[a], idx[b]);
    }
    forall x, a | x in L && x !in r && HasRank(x) && 0 <= a < |r|
      ensures HasRank(r[a]) && Rank(r[a]) >= Rank(x)
    {
      var j :| 0 <= j < |L| && L[j] == x;
      assert j !in idx by {
        forall b | 0 <= b < |idx| ensures idx[b] != j {
          assert r[b] in r;
        }
      }
      assert idx[a] in idx;
      assert Outranks(L, idx[a], j);
    }
  }
}
