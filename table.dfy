/**
  The printed table's order: `tabularData.sort(cmp).reverse()` on the
  "EPSS Score (%)" column.
 */
module Table {
  import opened Numbers
  import opened Decision

  /**
    The comparator: 1 when `x`'s percent is greater, -1 when `y`'s is,
    0 otherwise, so also whenever a NaN is involved.
   */
  function Compare(x: Row, y: Row): int
  {
    if Greater(x.percent, y.percent) then 1
    else if Greater(y.percent, x.percent) then -1
    else 0
  }

  /** Swapping the arguments negates the comparison, for every pair of rows. */
  lemma CompareAntisymmetric(x: Row, y: Row)
    ensures Compare(x, y) == -Compare(y, x)
    ensures Compare(x, y) in {-1, 0, 1}
  {
  }

  /** A NaN percent compares equal to everything. */
  lemma CompareNaN(x: Row, y: Row)
    requires x.percent.NaN? || y.percent.NaN?
    ensures Compare(x, y) == 0
  {
  }

  /** Every percent is a number. */
  predicate AllNumeric(s: seq<Row>)
  {
    forall k :: 0 <= k < |s| ==> s[k].percent.Dec?
  }

  /** Between numbers the comparator orders by value, transitively. */
  lemma CompareTransitive(x: Row, y: Row, z: Row)
    requires x.percent.Dec? && y.percent.Dec? && z.percent.Dec?
    requires Compare(x, y) <= 0 && Compare(y, z) <= 0
    ensures Compare(x, z) <= 0
  {
  }

  /** Neighbours in `s[lo..hi]` are in ascending order by the comparator. */
  predicate SortedRange(s: seq<Row>, lo: int, hi: int)
    requires 0 <= lo <= hi <= |s|
  {
    forall k :: lo < k < hi ==> Compare(s[k - 1], s[k]) <= 0
  }

  predicate Sorted(s: seq<Row>)
  {
    SortedRange(s, 0, |s|)
  }

  /** Neighbours are in descending order by the comparator. */
  predicate SortedDown(s: seq<Row>)
  {
    forall k :: 0 < k < |s| ==> Compare(s[k - 1], s[k]) >= 0
  }

  /** Every pair, not just neighbours, is in ascending order of value. */
  predicate Ascending(s: seq<Row>)
    requires AllNumeric(s)
  {
    forall p, q :: 0 <= p < q < |s| ==> Val(s[p].percent) <= Val(s[q].percent)
  }

  predicate Descending(s: seq<Row>)
    requires AllNumeric(s)
  {
    forall p, q :: 0 <= p < q < |s| ==> Val(s[p].percent) >= Val(s[q].percent)
  }

  /**
    `Array.prototype.sort` with the comparator: an insertion sort by adjacent
    swaps leaves every pair of neighbours in order and keeps the rows.
   */
  method SortAscending(a: array<Row>)
    modifies a
    ensures multiset(a[..]) == multiset(old(a[..]))
    ensures Sorted(a[..])
  {
    for i := 0 to a.Length
      invariant multiset(a[..]) == multiset(old(a[..]))
      invariant SortedRange(a[..], 0, i)
    {
      Insert(a, i);
    }
  }

  /** Moves `a[i]` left past every larger neighbour, extending the ordered prefix by one. */
  method Insert(a: array<Row>, i: nat)
    requires i < a.Length && SortedRange(a[..], 0, i)
    modifies a
    ensures multiset(a[..]) == multiset(old(a[..]))
    ensures SortedRange(a[..], 0, i + 1)
  {
    var j := i;
    while j > 0 && Compare(a[j - 1], a[j]) > 0
      invariant 0 <= j <= i
      invariant multiset(a[..]) == multiset(old(a[..]))
      invariant Straddles(a[..], j, i)
    {
      ghost var before := a[..];
      SwapStep(before, j, i);
      SwapKeepsRows(before, j - 1, j);
      a[j - 1], a[j] := a[j], a[j - 1];
      assert a[..] == before[j - 1 := before[j]][j := before[j - 1]];
      j := j - 1;
    }
    JoinRuns(a[..], j, i);
  }

  /**
    During the insertion of `s[j]`: the rows before `j` and those from `j`
    to `i` are each ordered, and the row before the gap fits after it.
   */
  predicate Straddles(s: seq<Row>, j: nat, i: nat)
    requires j <= i < |s|
  {
    SortedRange(s, 0, j) && SortedRange(s, j, i + 1) && (0 < j < i ==> Compare(s[j - 1], s[j + 1]) <= 0)
  }

  lemma SwapStep(s: seq<Row>, j: nat, i: nat)
    requires 0 < j <= i < |s| && Straddles(s, j, i) && Compare(s[j - 1], s[j]) > 0
    ensures Straddles(s[j - 1 := s[j]][j := s[j - 1]], j - 1, i)
  {
    var t := s[j - 1 := s[j]][j := s[j - 1]];
    CompareAntisymmetric(s[j - 1], s[j]);
    assert SortedRange(t, 0, j - 1) by {
      forall k | 0 < k < j - 1 ensures Compare(t[k - 1], t[k]) <= 0 {
        assert t[k - 1] == s[k - 1] && t[k] == s[k];
      }
    }
    assert SortedRange(t, j - 1, i + 1) by {
      forall k | j - 1 < k < i + 1 ensures Compare(t[k - 1], t[k]) <= 0 {
        if k > j + 1 {
          assert t[k - 1] == s[k - 1] && t[k] == s[k];
        }
      }
    }
  }

  lemma SwapKeepsRows(s: seq<Row>, p: nat, q: nat)
    requires p < q < |s|
    ensures multiset(s[p := s[q]][q := s[p]]) == multiset(s)
  {
  }

  lemma JoinRuns(s: seq<Row>, j: nat, i: nat)
    requires j <= i < |s| && Straddles(s, j, i) && (j == 0 || Compare(s[j - 1], s[j]) <= 0)
    ensures SortedRange(s, 0, i + 1)
  {
  }

  /** Between numbers, ordered neighbours mean an ordered sequence. */
  lemma {:induction false} SortedAscending(s: seq<Row>)
    requires AllNumeric(s) && Sorted(s)
    ensures Ascending(s)
  {
    if |s| > 1 {
      var init := s[..|s| - 1];
      assert Sorted(init);
      SortedAscending(init);
      forall p | 0 <= p < |s| - 1
        ensures Val(s[p].percent) <= Val(s[|s| - 1].percent)
      {
        assert Val(s[p].percent) <= Val(s[|s| - 2].percent) by {
          if p < |s| - 2 {
            assert init[p] == s[p] && init[|s| - 2] == s[|s| - 2];
          }
        }
      }
    }
  }

  /** With a NaN in the middle, ordered neighbours do not order the sequence. */
  lemma NaNBreaksOrder()
    ensures var s := [Row("a", "high", "c1", "9.8", Dec(2, 0)), Row("b", "high", "c2", "9.8", NaN),
                      Row("c", "high", "c3", "9.8", Dec(1, 0))];
      Sorted(s) && Compare(s[0], s[2]) > 0
  {
    var s := [Row("a", "high", "c1", "9.8", Dec(2, 0)), Row("b", "high", "c2", "9.8", NaN),
              Row("c", "high", "c3", "9.8", Dec(1, 0))];
    assert Val(s[0].percent) == 2.0 && Val(s[2].percent) == 1.0;
  }

  /** `Array.prototype.reverse` */
  function Reverse<T>(s: seq<T>): (r: seq<T>)
    ensures |r| == |s| && forall k :: 0 <= k < |s| ==> r[k] == s[|s| - 1 - k]
  {
    if s == [] then [] else [s[|s| - 1]] + Reverse(s[..|s| - 1])
  }

  lemma {:induction false} ReverseKeepsRows<T>(s: seq<T>)
    ensures multiset(Reverse(s)) == multiset(s)
  {
    if s != [] {
      var init := s[..|s| - 1];
      ReverseKeepsRows(init);
      assert s == init + [s[|s| - 1]];
    }
  }

  /** Reversing an ascending table gives a descending one. */
  lemma ReverseTurnsOrder(s: seq<Row>)
    requires Sorted(s)
    ensures SortedDown(Reverse(s))
  {
    var r := Reverse(s);
    forall k | 0 < k < |r|
      ensures Compare(r[k - 1], r[k]) >= 0
    {
      CompareAntisymmetric(s[|s| - k - 1], s[|s| - k]);
    }
  }

  method ReverseInPlace<T>(a: array<T>)
    modifies a
    ensures a[..] == Reverse(old(a[..]))
  {
    var lo, hi := 0, a.Length - 1;
    while lo < hi
      invariant 0 <= lo <= a.Length && hi == a.Length - 1 - lo
      invariant forall k :: 0 <= k < lo || hi < k < a.Length ==> a[k] == old(a[a.Length - 1 - k])
      invariant forall k :: lo <= k <= hi ==> a[k] == old(a[k])
    {
      a[lo], a[hi] := a[hi], a[lo];
      lo, hi := lo + 1, hi - 1;
    }
  }

  /**
    The printed order of `rows`: the same rows, each neighbour at least as
    large as the next by the comparator.
   */
  predicate PrintedOrder(rows: seq<Row>, table: seq<Row>)
  {
    multiset(table) == multiset(rows) && SortedDown(table)
  }

  /** Sorting then reversing prints the table in descending order. */
  method SortDescending(rows: seq<Row>) returns (table: seq<Row>)
    ensures PrintedOrder(rows, table)
  {
    var a := new Row[|rows|](k requires 0 <= k < |rows| => rows[k]);
    assert a[..] == rows;
    SortAscending(a);
    ghost var sorted := a[..];
    ReverseInPlace(a);
    ReverseTurnsOrder(sorted);
    ReverseKeepsRows(sorted);
    table := a[..];
  }

  /** When every percent is a number the printed table is descending by value. */
  lemma PrintedDescending(rows: seq<Row>, table: seq<Row>)
    requires AllNumeric(rows) && PrintedOrder(rows, table)
    ensures AllNumeric(table) && Descending(table)
  {
    forall k | 0 <= k < |table| ensures table[k].percent.Dec? {
      assert table[k] in multiset(rows);
    }
    var r := Reverse(table);
    assert Sorted(r) by {
      forall k | 0 < k < |r| ensures Compare(r[k - 1], r[k]) <= 0 {
        CompareAntisymmetric(table[|r| - k], table[|r| - k - 1]);
      }
    }
    SortedAscending(r);
    forall p, q | 0 <= p < q < |table| ensures Val(table[p].percent) >= Val(table[q].percent) {
      assert r[|r| - 1 - q] == table[q] && r[|r| - 1 - p] == table[p];
    }
  }
}
