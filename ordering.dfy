/**
  `sorted(rows, key=lambda x: x[DATE])`: a stable sort of the rows by date.
  It is written as an insertion sort; the lemmas show that its result is
  ordered by date, is a permutation of its input, keeps rows of equal date
  in their original order, and is the only sequence with these properties.
 */
module Ordering {
  import opened Calendar
  import opened Commits

  predicate SortedByDate(rows: seq<Row>) {
    forall i, j :: 0 <= i < j < |rows| ==> NotAfter(rows[i].date, rows[j].date)
  }

  /** The rows dated `d`, in the order they appear. */
  function WithDate(rows: seq<Row>, d: Date): seq<Row> {
    if rows == [] then []
    else (if rows[0].date == d then [rows[0]] else []) + WithDate(rows[1..], d)
  }

  /** Puts `x` in front of the first row that is not earlier than it. */
  function Insert(x: Row, sorted: seq<Row>): seq<Row> {
    if sorted == [] || NotAfter(x.date, sorted[0].date) then [x] + sorted
    else [sorted[0]] + Insert(x, sorted[1..])
  }

  function SortByDate(rows: seq<Row>): seq<Row> {
    if rows == [] then [] else Insert(rows[0], SortByDate(rows[1..]))
  }

  /** No row of `s` is dated before `lo`. */
  predicate NoneBefore(lo: Date, s: seq<Row>) {
    forall k :: 0 <= k < |s| ==> NotAfter(lo, s[k].date)
  }

  lemma {:induction false} InsertNoneBefore(lo: Date, x: Row, s: seq<Row>)
    requires NotAfter(lo, x.date) && NoneBefore(lo, s)
    ensures NoneBefore(lo, Insert(x, s))
  {
    if s != [] && !NotAfter(x.date, s[0].date) {
      InsertNoneBefore(lo, x, s[1..]);
    }
  }

  lemma {:induction false} InsertSorted(x: Row, s: seq<Row>)
    requires SortedByDate(s)
    ensures SortedByDate(Insert(x, s))
    ensures multiset(Insert(x, s)) == multiset(s) + multiset{x}
  {
    if s != [] && !NotAfter(x.date, s[0].date) {
      InsertSorted(x, s[1..]);
      InsertNoneBefore(s[0].date, x, s[1..]);
      assert s == [s[0]] + s[1..];
    }
  }

  lemma {:induction false} InsertWithDate(x: Row, s: seq<Row>, d: Date)
    ensures WithDate(Insert(x, s), d) == (if x.date == d then [x] else []) + WithDate(s, d)
  {
    if s == [] || NotAfter(x.date, s[0].date) {
      assert ([x] + s)[1..] == s;
    } else {
      InsertWithDate(x, s[1..], d);
      var t := [s[0]] + Insert(x, s[1..]);
      assert t[1..] == Insert(x, s[1..]);
      assert s[0].date != x.date;
    }
  }

  /** The sorted rows are ordered by date and are a rearrangement of the input. */
  lemma {:induction false} SortIsOrderedPermutation(rows: seq<Row>)
    ensures SortedByDate(SortByDate(rows))
    ensures multiset(SortByDate(rows)) == multiset(rows)
  {
    if rows != [] {
      SortIsOrderedPermutation(rows[1..]);
      InsertSorted(rows[0], SortByDate(rows[1..]));
      assert rows == [rows[0]] + rows[1..];
    }
  }

  /** Stability: for every date, the rows of that date keep their order. */
  lemma {:induction false} SortIsStable(rows: seq<Row>, d: Date)
    ensures WithDate(SortByDate(rows), d) == WithDate(rows, d)
  {
    if rows != [] {
      SortIsStable(rows[1..], d);
      InsertWithDate(rows[0], SortByDate(rows[1..]), d);
    }
  }

  lemma {:induction false} WithDateMember(rows: seq<Row>, d: Date, r: Row)
    requires r in WithDate(rows, d)
    ensures r in rows && r.date == d
  {
    if rows != [] && !(rows[0].date == d && r == rows[0]) {
      WithDateMember(rows[1..], d, r);
    }
  }

  lemma WithDateOfHead(rows: seq<Row>)
    requires rows != []
    ensures WithDate(rows, rows[0].date) != []
  {
  }

  /** Two date-ordered sequences that agree on the rows of every date are equal:
      a stable sort has only one possible result. */
  lemma {:induction false} StableSortIsUnique(a: seq<Row>, b: seq<Row>)
    requires SortedByDate(a) && SortedByDate(b)
    requires forall d :: WithDate(a, d) == WithDate(b, d)
    ensures a == b
    decreases |a|
  {
    if a == [] || b == [] {
      // the date of a head row would have rows in one sequence and none in the other
      if a != [] {
        WithDateOfHead(a);
        assert false;
      } else if b != [] {
        WithDateOfHead(b);
        assert false;
      }
    } else {
      var da, db := a[0].date, b[0].date;
      assert da == db by {
        assert WithDate(b, da)[0] in WithDate(b, da);
        WithDateMember(b, da, WithDate(b, da)[0]);
        assert WithDate(a, db)[0] in WithDate(a, db);
        WithDateMember(a, db, WithDate(a, db)[0]);
      }
      assert a[0] == b[0] by {
        assert WithDate(a, da)[0] == a[0];
        assert WithDate(b, da)[0] == b[0];
      }
      forall d ensures WithDate(a[1..], d) == WithDate(b[1..], d) {
        var head := if a[0].date == d then [a[0]] else [];
        assert WithDate(a, d) == head + WithDate(a[1..], d);
        assert WithDate(b, d) == head + WithDate(b[1..], d);
        assert WithDate(a[1..], d) == WithDate(a, d)[|head|..];
        assert WithDate(b[1..], d) == WithDate(b, d)[|head|..];
      }
      StableSortIsUnique(a[1..], b[1..]);
      assert a == [a[0]] + a[1..] && b == [b[0]] + b[1..];
    }
  }

  /** Hence the sort is characterised by ordering and stability alone. */
  lemma SortIsTheStableSort(rows: seq<Row>, t: seq<Row>)
    requires SortedByDate(t)
    requires forall d :: WithDate(t, d) == WithDate(rows, d)
    ensures t == SortByDate(rows)
  {
    SortIsOrderedPermutation(rows);
    forall d ensures WithDate(t, d) == WithDate(SortByDate(rows), d) {
      SortIsStable(rows, d);
    }
    StableSortIsUnique(t, SortByDate(rows));
  }
}
