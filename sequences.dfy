/**
 * Sequence facts for the two array idioms the quote store uses:
 * `[...new Set(xs)]` (distinct elements in first-occurrence order) and
 * `Array.prototype.filter` (an order-preserving subsequence).
 */
module Sequences {

  /** No element occurs twice. */
  ghost predicate Distinct<T>(s: seq<T>)
  {
    forall i, j :: 0 <= i < j < |s| ==> s[i] != s[j]
  }

  /** Position of the first occurrence of `x` in `s`. */
  function FirstIndex<T(==)>(s: seq<T>, x: T): (k: nat)
    requires x in s
    ensures k < |s| && s[k] == x
    ensures forall j :: 0 <= j < k ==> s[j] != x
  {
    if s[0] == x then 0 else 1 + FirstIndex(s[1..], x)
  }

  /** Every element precedes the next one in the order of first occurrence in `s`. */
  ghost predicate InFirstOccurrenceOrder<T>(r: seq<T>, s: seq<T>)
    requires forall x :: x in r ==> x in s
  {
    forall i, j :: 0 <= i < j < |r| ==> FirstIndex(s, r[i]) < FirstIndex(s, r[j])
  }

  /**
   * `[...new Set(s)]`: a Set iterates in insertion order, and inserting an
   * element already present does nothing, so each value is kept where it
   * first occurs.
   */
  function Dedup<T(==,!new)>(s: seq<T>): (r: seq<T>)
    ensures forall x :: x in r <==> x in s
    ensures Distinct(r)
    ensures |r| <= |s|
  {
    if s == [] then []
    else
      var d := Dedup(s[..|s| - 1]);
      if s[|s| - 1] in d then d else d + [s[|s| - 1]]
  }

  lemma FirstIndexOfPrefix<T>(s: seq<T>, x: T)
    requires s != [] && x in s[..|s| - 1]
    ensures FirstIndex(s, x) == FirstIndex(s[..|s| - 1], x)
  {
    var p := s[..|s| - 1];
    var k, k' := FirstIndex(s, x), FirstIndex(p, x);
    assert s[k'] == x;
    assert k <= k';
    assert p[k] == x;
  }

  lemma FirstIndexOfLast<T>(s: seq<T>)
    requires s != [] && s[|s| - 1] !in s[..|s| - 1]
    ensures FirstIndex(s, s[|s| - 1]) == |s| - 1
  {
  }

  /** The deduplicated sequence lists its values in the order they first occur in `s`. */
  lemma {:induction false} DedupFirstOccurrence<T(!new)>(s: seq<T>)
    ensures InFirstOccurrenceOrder(Dedup(s), s)
  {
    if s != [] {
      var p := s[..|s| - 1];
      var x := s[|s| - 1];
      var d := Dedup(p);
      DedupFirstOccurrence(p);
      forall y | y in d ensures FirstIndex(s, y) == FirstIndex(p, y) {
        FirstIndexOfPrefix(s, y);
      }
      if x !in d {
        FirstIndexOfLast(s);
        var r := d + [x];
        assert forall y :: y in r ==> y in s;
        forall i, j | 0 <= i < j < |r| ensures FirstIndex(s, r[i]) < FirstIndex(s, r[j]) {
          if j < |d| {
            assert r[i] == d[i] && r[j] == d[j];
          } else {
            assert r[i] == d[i];
          }
        }
      }
    }
  }

  /**
   * A non-empty sequence holds its first element. Called where that case is
   * impossible: indexing `r[0]` there directly would be checked under
   * contradictory assumptions.
   */
  lemma HeadIsElement<T>(r: seq<T>)
    ensures r == [] || r[0] in r
  {
  }

  /** First-occurrence order with respect to `s` carries over to its prefix without the last element. */
  lemma OrderOnPrefix<T>(r: seq<T>, s: seq<T>)
    requires s != [] && forall y :: y in r ==> y in s[..|s| - 1]
    requires InFirstOccurrenceOrder(r, s)
    ensures InFirstOccurrenceOrder(r, s[..|s| - 1])
  {
    forall y | y in r ensures FirstIndex(s, y) == FirstIndex(s[..|s| - 1], y) {
      FirstIndexOfPrefix(s, y);
    }
  }

  /** A value whose first occurrence is the very end of `s` comes last in any first-occurrence ordering. */
  lemma LastOccurrenceComesLast<T>(r: seq<T>, s: seq<T>, x: T)
    requires forall y :: y in r ==> y in s
    requires InFirstOccurrenceOrder(r, s)
    requires x in r && FirstIndex(s, x) == |s| - 1
    ensures r[|r| - 1] == x
  {
    var k :| 0 <= k < |r| && r[k] == x;
  }

  /**
   * When the last element of `s` occurs nowhere before, an ordering `r` of
   * the values of `s` ends with it, and the rest of `r` orders the values of
   * the prefix.
   */
  lemma DropNewLast<T>(p: seq<T>, x: T, r: seq<T>) returns (q: seq<T>)
    requires x !in p
    requires forall y :: y in r <==> y in p + [x]
    requires Distinct(r)
    requires InFirstOccurrenceOrder(r, p + [x])
    ensures r == q + [x]
    ensures forall y :: y in q <==> y in p
    ensures Distinct(q)
    ensures InFirstOccurrenceOrder(q, p)
  {
    var s := p + [x];
    assert s[..|s| - 1] == p;
    FirstIndexOfLast(s);
    LastOccurrenceComesLast(r, s, x);
    q := r[..|r| - 1];
    assert r == q + [x];
    DistinctInit(r);
    SnocMembers(q, p, x);
    OrderOnInit(r, s);
    OrderOnPrefix(q, s);
  }

  lemma DistinctInit<T>(r: seq<T>)
    requires r != [] && Distinct(r)
    ensures Distinct(r[..|r| - 1]) && r[|r| - 1] !in r[..|r| - 1]
  {
  }

  lemma SnocMembers<T>(q: seq<T>, p: seq<T>, x: T)
    requires x !in q && x !in p
    requires forall y :: y in q + [x] <==> y in p + [x]
    ensures forall y :: y in q <==> y in p
  {
    forall y ensures y in q <==> y in p {
      assert y in q + [x] <==> y in q || y == x;
      assert y in p + [x] <==> y in p || y == x;
    }
  }

  lemma OrderOnInit<T>(r: seq<T>, s: seq<T>)
    requires r != [] && forall y :: y in r ==> y in s
    requires InFirstOccurrenceOrder(r, s)
    ensures forall y :: y in r[..|r| - 1] ==> y in s
    ensures InFirstOccurrenceOrder(r[..|r| - 1], s)
  {
    var q := r[..|r| - 1];
    forall i, j | 0 <= i < j < |q| ensures FirstIndex(s, q[i]) < FirstIndex(s, q[j]) {
      assert q[i] == r[i] && q[j] == r[j];
    }
  }

  /**
   * The three properties above pin the result down: any sequence holding
   * exactly the values of `s`, each once, in first-occurrence order, is `Dedup(s)`.
   */
  lemma {:induction false} DedupUnique<T(!new)>(s: seq<T>, r: seq<T>)
    requires forall x :: x in r <==> x in s
    requires Distinct(r)
    requires InFirstOccurrenceOrder(r, s)
    ensures r == Dedup(s)
  {
    if s == [] {
      HeadIsElement(r);
    } else {
      var p := s[..|s| - 1];
      var x := s[|s| - 1];
      if x in p {
        assert s == p + [x];
        OrderOnPrefix(r, s);
        DedupUnique(p, r);
      } else {
        assert s == p + [x];
        var q := DropNewLast(p, x, r);
        DedupUnique(p, q);
      }
    }
  }

  /**
   * `r` is the subsequence of `s` at the strictly increasing positions `idx`.
   */
  ghost predicate SubsequenceAt<T>(r: seq<T>, s: seq<T>, idx: seq<nat>)
  {
    && |idx| == |r|
    && (forall k :: 0 <= k < |idx| ==> idx[k] < |s| && s[idx[k]] == r[k])
    && (forall k, l :: 0 <= k < l < |idx| ==> idx[k] < idx[l])
  }

  /** Extending the sequence at the end keeps a subsequence, with or without the new element. */
  lemma SubsequenceSnoc<T>(r: seq<T>, s: seq<T>, idx: seq<nat>, x: T)
    requires SubsequenceAt(r, s, idx)
    ensures SubsequenceAt(r, s + [x], idx)
    ensures SubsequenceAt(r + [x], s + [x], idx + [|s|])
  {
    var r', s', idx' := r + [x], s + [x], idx + [|s|];
    forall k | 0 <= k < |idx'| ensures idx'[k] < |s'| && s'[idx'[k]] == r'[k] {
      if k < |idx| {
        assert idx'[k] == idx[k] && r'[k] == r[k];
      }
    }
  }
}
