/** The insert position in a sorted duplicate table (src/blob.cc __get_sorted_position). */
module DupeOrder {
  import opened Collections
  /** The order of the duplicate compare function, as ranks. */
  ghost predicate SortedRanks(s: seq<real>) { forall x, y :: 0 <= x < y < |s| ==> s[x] <= s[y] }

  /** Everything in front of `m` is at most the record, everything behind at least. */
  ghost predicate Fits(items: seq<real>, record: real, m: nat) {
    && m <= |items|
    && (forall i :: 0 <= i < m ==> items[i] <= record)
    && (forall i :: m <= i < |items| ==> record <= items[i])
  }

  /** The case the sequential-insert start gets wrong. */
  predicate BeyondLast(items: seq<real>, record: real, sequential: bool) {
    sequential && |items| >= 2 && items[|items| - 1] < record
  }

  /** The binary search. It starts at the last entry if records are expected in order; then a record
      larger than all of two or more entries is put in front of the last one, and only then is the
      position wrong. An equal record goes right behind an equal one. */
  method SortedPosition(items: seq<real>, record: real, sequential: bool) returns (m: nat)
    requires |items| > 0 && SortedRanks(items)
    ensures Fits(items, record, m) <==> !BeyondLast(items, record, sequential)
    ensures BeyondLast(items, record, sequential) ==> m == |items| - 1
    ensures sequential && |items| >= 2 && items[|items| - 1] < record ==> m == |items| - 1
    ensures !sequential || |items| < 2 || record <= items[|items| - 1] ==> Fits(items, record, m)
    ensures record in items ==> m > 0 && items[m - 1] == record
  {
    var l, r := 0, |items| - 1;
    m := if sequential then r else (l + r) / 2;
    while l <= r
      invariant 0 <= l <= r + 1 <= |items| && m < |items| && (l <= r ==> l <= m <= r)
      invariant l < r && m == r ==> sequential && l == 0 && r == |items| - 1
      invariant l > r ==> BeyondLast(items, record, sequential) && m == |items| - 1
      invariant l <= r && BeyondLast(items, record, sequential) ==> l == 0 && m == r == |items| - 1
      invariant forall i :: 0 <= i < l ==> items[i] < record
      invariant forall i :: r < i < |items| ==> record < items[i]
      decreases r - l
    {
      var cmp := if record < items[m] then -1 else if record > items[m] then 1 else 0;
      if m == l && cmp < 0 {
        break;
      }
      if l == r {
        if cmp >= 0 {
          m := m + 1;
        }
        break;
      } else if cmp == 0 {
        m := m + 1;
        break;
      } else if cmp < 0 {
        if m == 0 {
          break;
        }
        r := m - 1;
      } else {
        m := m + 1;
        l := m;
      }
      m := (l + r) / 2;
    }
  }

  /** Inserting there keeps the table sorted and adds exactly one entry. */
  lemma InsertKeepsSorted(items: seq<real>, record: real, m: nat)
    requires SortedRanks(items) && Fits(items, record, m)
    ensures SortedRanks(InsertAt(items, m, record))
    ensures multiset(InsertAt(items, m, record)) == multiset(items) + multiset{record}
  {
    InsertedSorted(items, record, m);
    assert items == items[..m] + items[m..];
  }

  /** The table is sorted after an insert at the position that is searched, exactly if that was right. */
  lemma SortedExactly(items: seq<real>, record: real, sequential: bool, m: nat)
    requires SortedRanks(items) && m <= |items|
    requires Fits(items, record, m) <==> !BeyondLast(items, record, sequential)
    requires BeyondLast(items, record, sequential) ==> m == |items| - 1
    ensures SortedRanks(InsertAt(items, m, record)) <==> !BeyondLast(items, record, sequential)
  {
    if BeyondLast(items, record, sequential) {
      var r := InsertAt(items, m, record);
      assert r[m] > r[m + 1];
    } else {
      InsertKeepsSorted(items, record, m);
    }
  }

  lemma InsertedSorted(items: seq<real>, record: real, m: nat)
    requires SortedRanks(items) && Fits(items, record, m)
    ensures SortedRanks(InsertAt(items, m, record))
  {
    var r := InsertAt(items, m, record);
    forall x, y | 0 <= x < y < |r| ensures r[x] <= r[y] {
      if y < m { assert items[x] <= items[y]; }
      if x > m { assert items[x - 1] <= items[y - 1]; }
      if x < m < y { assert items[x] <= record <= items[y - 1]; }
    }
  }
}
