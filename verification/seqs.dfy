/** Sequence helpers: bounded take (Cypher `LIMIT` and list slicing `[0..n]`),
    order-preserving de-duplication (`COLLECT(DISTINCT ...)` and row grouping)
    and repetition (the row multiplication of a `MATCH`). */
module Seqs {

  ghost predicate NoDup<T>(s: seq<T>) {
    forall i, j :: 0 <= i < j < |s| ==> s[i] != s[j]
  }

  /** The first `n` elements of `s`, or all of them when there are fewer. */
  function Take<T>(s: seq<T>, n: nat): (r: seq<T>)
    ensures |r| <= n && |r| <= |s|
    ensures |s| <= n ==> r == s
    ensures n <= |s| ==> |r| == n
    ensures forall i :: 0 <= i < |r| ==> r[i] == s[i]
    ensures NoDup(s) ==> NoDup(r)
  {
    if n < |s| then s[..n] else s
  }

  /** Keeps the first occurrence of each element of `s` that is not in `seen`. */
  function DedupFrom<T(==,!new)>(s: seq<T>, seen: set<T>): (r: seq<T>)
    ensures forall x :: x in r <==> x in s && x !in seen
    ensures NoDup(r)
    ensures |r| <= |s|
    decreases |s|
  {
    if |s| == 0 then []
    else if s[0] in seen then DedupFrom(s[1..], seen)
    else
      var rest := DedupFrom(s[1..], seen + {s[0]});
      assert s[0] !in rest;
      [s[0]] + rest
  }

  /** `s` with every repeated element dropped after its first occurrence:
      nothing is dropped from a sequence without repetitions, and something
      is kept of a non-empty one. */
  function Dedup<T(==,!new)>(s: seq<T>): (r: seq<T>)
    ensures forall x :: x in r <==> x in s
    ensures NoDup(r)
    ensures |r| <= |s|
    ensures NoDup(s) ==> r == s
    ensures |s| > 0 ==> |r| > 0
  {
    DedupOfDistinct(s);
    assert |s| > 0 ==> s[0] in s;
    DedupFrom(s, {})
  }

  lemma DedupOfDistinct<T(!new)>(s: seq<T>)
    ensures NoDup(s) ==> DedupFrom(s, {}) == s
  {
    if NoDup(s) {
      DedupFromDistinct(s, {});
    }
  }

  /** A sequence without repetitions is its own de-duplication. */
  lemma {:induction false} DedupFromDistinct<T(!new)>(s: seq<T>, seen: set<T>)
    requires NoDup(s)
    requires forall x :: x in s ==> x !in seen
    ensures DedupFrom(s, seen) == s
    decreases |s|
  {
    if |s| > 0 {
      assert s[0] !in s[1..] by {
        forall k | 0 <= k < |s[1..]| ensures s[1..][k] != s[0] {
          assert s[1..][k] == s[k + 1];
        }
      }
      assert NoDup(s[1..]) by {
        forall i, j | 0 <= i < j < |s[1..]| ensures s[1..][i] != s[1..][j] {
          assert s[1..][i] == s[i + 1] && s[1..][j] == s[j + 1];
        }
      }
      DedupFromDistinct(s[1..], seen + {s[0]});
    }
  }

  /** A sequence has no repetitions exactly when no element occurs twice
      in its multiset. */
  lemma {:induction false} NoDupMultiset<T>(s: seq<T>)
    ensures NoDup(s) <==> forall x :: multiset(s)[x] <= 1
    decreases |s|
  {
    if |s| > 0 {
      var t := s[1..];
      assert s == [s[0]] + t;
      assert multiset(s) == multiset{s[0]} + multiset(t);
      NoDupMultiset(t);
      if NoDup(s) {
        assert NoDup(t) by {
          forall i, j | 0 <= i < j < |t| ensures t[i] != t[j] {
            assert t[i] == s[i + 1] && t[j] == s[j + 1];
          }
        }
        assert s[0] !in t by {
          forall k | 0 <= k < |t| ensures t[k] != s[0] {
            assert t[k] == s[k + 1];
          }
        }
      }
      if forall x :: multiset(s)[x] <= 1 {
        assert forall x :: multiset(t)[x] <= 1 by {
          forall x ensures multiset(t)[x] <= 1 {
            assert multiset(t)[x] <= multiset(s)[x];
          }
        }
        assert multiset(s)[s[0]] == multiset(t)[s[0]] + 1;
        assert multiset(s)[s[0]] <= 1;
        forall i, j | 0 <= i < j < |s| ensures s[i] != s[j] {
          assert s[j] == t[j - 1];
          assert s[j] in multiset(t);
          if i > 0 {
            assert s[i] == t[i - 1];
          }
        }
      }
    }
  }

  /** `n` copies of `x`. */
  function Repeat<T(!new)>(x: T, n: nat): (r: seq<T>)
    ensures |r| == n
    ensures forall y :: y in r <==> n > 0 && y == x
  {
    var r := seq(n, _ => x);
    assert n > 0 ==> r[0] == x;
    r
  }
}
