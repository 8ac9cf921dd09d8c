/** Text operations of the queries: Cypher `toLower`, `CONTAINS`, and the
    code-point order `ORDER BY` uses on strings. Only ASCII letters are case
    mapped. */
module Text {

  function LowerChar(c: char): (r: char)
    ensures !('A' <= r <= 'Z')
    ensures !('A' <= c <= 'Z') ==> r == c
    ensures 'A' <= c <= 'Z' ==> r as int == c as int + 32
  {
    if 'A' <= c <= 'Z' then (c as int + 32) as char else c
  }

  /** Cypher `toLower`: same length, no upper-case letter left, every other
      character kept. */
  function Lower(s: string): (r: string)
    ensures |r| == |s|
    ensures forall i :: 0 <= i < |r| ==> r[i] == LowerChar(s[i])
  {
    seq(|s|, i requires 0 <= i < |s| => LowerChar(s[i]))
  }

  predicate StartsWith(s: string, p: string) {
    |p| <= |s| && s[..|p|] == p
  }

  /** `s CONTAINS p`, checked position by position from the left. */
  predicate Contains(s: string, p: string)
    decreases |s|
  {
    StartsWith(s, p) || (|s| > 0 && Contains(s[1..], p))
  }

  /** The case-insensitive test the queries run:
      `toLower(s) CONTAINS toLower(q)`. */
  predicate ContainsCI(s: string, q: string) {
    Contains(Lower(s), Lower(q))
  }

  /** The string as its sequence of code points, the key `ORDER BY` compares. */
  function Ords(s: string): (r: seq<int>)
    ensures |r| == |s|
    ensures forall i :: 0 <= i < |s| ==> r[i] == s[i] as int
  {
    seq(|s|, i requires 0 <= i < |s| => s[i] as int)
  }

  /** `p` occurs in `s` starting at position `i`. */
  predicate OccursAt(s: string, p: string, i: int) {
    0 <= i <= |s| - |p| && s[i..i + |p|] == p
  }

  /** An occurrence at any position is found by the left-to-right scan. */
  lemma {:induction false} OccursImpliesContains(s: string, p: string, i: int)
    requires OccursAt(s, p, i)
    ensures Contains(s, p)
    decreases i
  {
    if i > 0 {
      assert s[1..][i - 1..i - 1 + |p|] == s[i..i + |p|];
      OccursImpliesContains(s[1..], p, i - 1);
    } else {
      assert StartsWith(s, p);
    }
  }

  /** `Contains` agrees with the textbook definition: `p` occurs at some
      position of `s`. */
  lemma {:induction false} ContainsIffOccurs(s: string, p: string)
    ensures Contains(s, p) <==> exists i :: OccursAt(s, p, i)
    decreases |s|
  {
    if Contains(s, p) {
      if StartsWith(s, p) {
        assert OccursAt(s, p, 0);
      } else {
        ContainsIffOccurs(s[1..], p);
        var i :| OccursAt(s[1..], p, i);
        assert s[i + 1..i + 1 + |p|] == s[1..][i..i + |p|];
        assert OccursAt(s, p, i + 1);
      }
    }
    forall i | OccursAt(s, p, i) ensures Contains(s, p) {
      OccursImpliesContains(s, p, i);
    }
  }

  /** Lower-casing twice is lower-casing once. */
  lemma LowerIdempotent(s: string)
    ensures Lower(Lower(s)) == Lower(s)
  {
  }

  /** The test ignores case on both sides: upper-casing letters in the
      title or the keyword does not change the answer. */
  lemma {:induction false} ContainsCIIgnoresCase(s: string, q: string)
    ensures ContainsCI(s, q) <==> ContainsCI(Lower(s), Lower(q))
  {
    LowerIdempotent(s);
    LowerIdempotent(q);
  }

  /** The empty keyword is contained in every string. */
  lemma EmptyKeywordMatches(s: string)
    ensures ContainsCI(s, "")
  {
    assert StartsWith(Lower(s), Lower(""));
  }
}
