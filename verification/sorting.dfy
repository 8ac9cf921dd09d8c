/** `ORDER BY ... LIMIT k` over query rows. Every row carries its sort key
    as a sequence of integers compared lexicographically (a descending
    column is negated; a string column is its code points). The sort is a
    stable insertion sort, so rows with equal keys keep catalog order, one
    of the orders Cypher allows for ties. */
module Sorting {
  import opened Seqs

  datatype Keyed<T> = Keyed(key: seq<int>, item: T)

  /** Lexicographic order on keys; a proper prefix sorts first. */
  predicate LexLe(a: seq<int>, b: seq<int>)
    decreases |a|
  {
    |a| == 0 || (|b| > 0 && (a[0] < b[0] || (a[0] == b[0] && LexLe(a[1..], b[1..]))))
  }

  lemma {:induction false} LexLeTotal(a: seq<int>, b: seq<int>)
    ensures LexLe(a, b) || LexLe(b, a)
    decreases |a|
  {
    if |a| > 0 && |b| > 0 && a[0] == b[0] {
      LexLeTotal(a[1..], b[1..]);
    }
  }

  lemma {:induction false} LexLeTransitive(a: seq<int>, b: seq<int>, c: seq<int>)
    requires LexLe(a, b) && LexLe(b, c)
    ensures LexLe(a, c)
    decreases |a|
  {
    if |a| > 0 && a[0] == b[0] && b[0] == c[0] {
      LexLeTransitive(a[1..], b[1..], c[1..]);
    }
  }

  /** On one-column keys the order is the order of the column. */
  lemma LexLeSingle(x: int, y: int)
    ensures LexLe([x], [y]) <==> x <= y
  {
    assert [x][1..] == [];
  }

  /** On two-column keys the second column breaks ties of the first. */
  lemma LexLePair(x1: int, x2: int, y1: int, y2: int)
    ensures LexLe([x1, x2], [y1, y2]) <==> x1 < y1 || (x1 == y1 && x2 <= y2)
  {
    assert [x1, x2][1..] == [x2];
    assert [y1, y2][1..] == [y2];
    LexLeSingle(x2, y2);
  }

  ghost predicate SortedByKey<T>(s: seq<Keyed<T>>) {
    forall i, j :: 0 <= i < j < |s| ==> LexLe(s[i].key, s[j].key)
  }

  /** A sorted sequence with a row in front that sorts no later than any of
      its rows is sorted. */
  lemma Cons<T>(y: Keyed<T>, s: seq<Keyed<T>>)
    requires SortedByKey(s)
    requires forall z :: z in s ==> LexLe(y.key, z.key)
    ensures SortedByKey([y] + s)
  {
    var r := [y] + s;
    forall i, j | 0 <= i < j < |r| ensures LexLe(r[i].key, r[j].key) {
      assert r[j] == s[j - 1];
      if i > 0 {
        assert r[i] == s[i - 1];
      }
    }
  }

  /** A row that sorts no later than the first row of a sorted sequence
      sorts no later than any of its rows. */
  lemma BelowHead<T>(x: Keyed<T>, s: seq<Keyed<T>>)
    requires SortedByKey(s) && |s| > 0 && LexLe(x.key, s[0].key)
    ensures forall z :: z in s ==> LexLe(x.key, z.key)
  {
    forall z | z in s ensures LexLe(x.key, z.key) {
      var j :| 0 <= j < |s| && s[j] == z;
      if j > 0 { LexLeTransitive(x.key, s[0].key, s[j].key); }
    }
  }

  /** The head of a sorted sequence sorts no later than any row of a
      sequence holding the tail's rows and one row not below the head. */
  lemma HeadBelowRest<T>(s: seq<Keyed<T>>, x: Keyed<T>, rest: seq<Keyed<T>>)
    requires SortedByKey(s) && |s| > 0 && LexLe(s[0].key, x.key)
    requires multiset(rest) == multiset(s[1..]) + multiset{x}
    ensures forall y :: y in rest ==> LexLe(s[0].key, y.key)
  {
    forall y | y in rest ensures LexLe(s[0].key, y.key) {
      assert y in multiset(rest);
      if y != x {
        assert y in multiset(s[1..]);
        var j :| 0 <= j < |s[1..]| && s[1..][j] == y;
        assert s[j + 1] == y;
      }
    }
  }

  /** Places `x` before the first row whose key is not smaller. */
  function Insert<T>(x: Keyed<T>, s: seq<Keyed<T>>): (r: seq<Keyed<T>>)
    requires SortedByKey(s)
    ensures SortedByKey(r)
    ensures multiset(r) == multiset(s) + multiset{x}
  {
    if |s| == 0 then [x]
    else if LexLe(x.key, s[0].key) then
      BelowHead(x, s);
      Cons(x, s);
      [x] + s
    else
      LexLeTotal(x.key, s[0].key);
      assert SortedByKey(s[1..]) by {
        forall i, j | 0 <= i < j < |s[1..]| ensures LexLe(s[1..][i].key, s[1..][j].key) {
          assert s[1..][i] == s[i + 1] && s[1..][j] == s[j + 1];
        }
      }
      var rest := Insert(x, s[1..]);
      HeadBelowRest(s, x, rest);
      Cons(s[0], rest);
      assert s == [s[0]] + s[1..];
      [s[0]] + rest
  }

  /** A stable sort of `s` by key. */
  function Sort<T>(s: seq<Keyed<T>>): (r: seq<Keyed<T>>)
    ensures SortedByKey(r)
    ensures multiset(r) == multiset(s)
    ensures |r| == |s|
  {
    if |s| == 0 then []
    else
      assert s == [s[0]] + s[1..];
      var r := Insert(s[0], Sort(s[1..]));
      assert |r| == |multiset(r)|;
      r
  }

  /** Removing repetitions keeps a sorted sequence sorted. */
  lemma {:induction false} DedupFromKeepsSorted<T(!new)>(s: seq<Keyed<T>>, seen: set<Keyed<T>>)
    requires SortedByKey(s)
    ensures SortedByKey(DedupFrom(s, seen))
    decreases |s|
  {
    if |s| > 0 {
      assert SortedByKey(s[1..]) by {
        forall i, j | 0 <= i < j < |s[1..]| ensures LexLe(s[1..][i].key, s[1..][j].key) {
          assert s[1..][i] == s[i + 1] && s[1..][j] == s[j + 1];
        }
      }
      if s[0] in seen {
        DedupFromKeepsSorted(s[1..], seen);
      } else {
        var rest := DedupFrom(s[1..], seen + {s[0]});
        DedupFromKeepsSorted(s[1..], seen + {s[0]});
        var r := [s[0]] + rest;
        assert r == DedupFrom(s, seen);
        forall i, j | 0 <= i < j < |r| ensures LexLe(r[i].key, r[j].key) {
          if i == 0 {
            assert r[j] in rest;
            assert r[j] in s[1..];
            var k :| 0 <= k < |s[1..]| && s[1..][k] == r[j];
            assert s[k + 1] == r[j];
          } else {
            assert r[i] == rest[i - 1] && r[j] == rest[j - 1];
          }
        }
      }
    }
  }

  /** Sorting keeps the same rows. */
  lemma SortKeepsRows<T>(rows: seq<Keyed<T>>)
    ensures forall x :: x in rows <==> x in Sort(rows)
  {
    var sorted := Sort(rows);
    forall x ensures x in rows <==> x in sorted {
      assert x in rows <==> x in multiset(rows);
      assert x in sorted <==> x in multiset(sorted);
    }
  }

  /** Sorting a sequence without repetitions gives one without repetitions. */
  lemma SortKeepsDistinct<T>(rows: seq<Keyed<T>>)
    ensures NoDup(rows) ==> NoDup(Sort(rows))
  {
    NoDupMultiset(rows);
    NoDupMultiset(Sort(rows));
  }

  /** Cutting a sorted sequence leaves out only rows that sort no earlier
      than every row kept. */
  lemma TakeKeepsSmallest<T>(sorted: seq<Keyed<T>>, k: nat)
    requires SortedByKey(sorted)
    ensures SortedByKey(Take(sorted, k))
    ensures forall x, y :: x in sorted && x !in Take(sorted, k) && y in Take(sorted, k) ==> LexLe(y.key, x.key)
  {
    var kept := Take(sorted, k);
    forall x, y | x in sorted && x !in kept && y in kept ensures LexLe(y.key, x.key) {
      var i :| 0 <= i < |kept| && kept[i] == y;
      var j :| 0 <= j < |sorted| && sorted[j] == x;
      assert sorted[i] == y;
      assert j >= |kept|;
    }
  }

  /** `ORDER BY key LIMIT k` followed by the grouping that merges equal rows:
      the result is sorted, holds at most `k` distinct rows of `rows`, every
      row left out sorts no earlier than every row kept, and nothing is left
      out when there were at most `k` rows. Rows without repetitions fill
      the limit, and a positive limit over some rows keeps at least one. */
  function TopK<T(==,!new)>(rows: seq<Keyed<T>>, k: nat): (r: seq<Keyed<T>>)
    ensures SortedByKey(r)
    ensures NoDup(r)
    ensures |r| <= k
    ensures forall x :: x in r ==> x in rows
    ensures forall x, y :: x in rows && x !in r && y in r ==> LexLe(y.key, x.key)
    ensures |rows| <= k ==> forall x :: x in rows ==> x in r
    ensures NoDup(rows) ==> |r| == if |rows| < k then |rows| else k
    ensures k > 0 && |rows| > 0 ==> |r| > 0
  {
    var sorted := Sort(rows);
    SortKeepsRows(rows);
    SortKeepsDistinct(rows);
    TakeKeepsSmallest(sorted, k);
    var kept := Take(sorted, k);
    DedupFromKeepsSorted(kept, {});
    Dedup(kept)
  }

  /** A row of the input that `TopK` leaves out sorts no earlier than any
      row it keeps. */
  lemma TopKBelow<T(!new)>(rows: seq<Keyed<T>>, k: nat, x: Keyed<T>)
    requires x in rows && x !in TopK(rows, k)
    ensures forall i :: 0 <= i < |TopK(rows, k)| ==> LexLe(TopK(rows, k)[i].key, x.key)
  {
    var r := TopK(rows, k);
    forall i | 0 <= i < |r| ensures LexLe(r[i].key, x.key) {
      assert r[i] in r;
    }
  }

  /** When the input fits, `TopK` keeps each of its rows at some position. */
  lemma TopKKeeps<T(!new)>(rows: seq<Keyed<T>>, k: nat, x: Keyed<T>)
    requires x in rows && |rows| <= k
    ensures exists i :: 0 <= i < |TopK(rows, k)| && TopK(rows, k)[i] == x
  {
    var r := TopK(rows, k);
    assert x in r;
  }

  /** A row of the input whose item no kept row carries sorts no earlier
      than any row kept. */
  lemma OmittedBelow<T(!new)>(rows: seq<Keyed<T>>, k: nat, x: Keyed<T>)
    requires x in rows && forall i :: 0 <= i < |TopK(rows, k)| ==> TopK(rows, k)[i].item != x.item
    ensures forall i :: 0 <= i < |TopK(rows, k)| ==> LexLe(TopK(rows, k)[i].key, x.key)
  {
    var r := TopK(rows, k);
    assert x !in r by {
      forall i | 0 <= i < |r| ensures r[i] != x {
        assert r[i].item != x.item;
      }
    }
    TopKBelow(rows, k, x);
  }
}
