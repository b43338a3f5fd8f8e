/**
 * The mathematical reference the sparse matrix operations are proved against.
 * A matrix's stored entries are a finite map from (row, col) to an integer;
 * a position that is not stored reads as 0, whether or not it lies inside the
 * matrix's declared dimensions.
 */
module Algebra {

  /** A position (row, col). */
  type Key = (int, int)

  /**
   * One summand of a product entry: a stored position p = (i, j) of the left
   * operand paired with a stored position q = (j, k) of the right operand.
   */
  type Term = (Key, Key)

  /** The value at k: the stored value, or 0 when k is not stored. */
  function Get(m: map<Key, int>, k: Key): int
  {
    if k in m then m[k] else 0
  }

  /**
   * Storing value at k the sparse way: a non-zero value is stored, and a 0
   * removes whatever was stored at k.
   */
  function Assign(m: map<Key, int>, k: Key, value: int): map<Key, int>
  {
    if value != 0 then m[k := value] else m - {k}
  }

  /** Reading back a position after Assign gives the value written; other positions are untouched. */
  lemma GetAssign(m: map<Key, int>, k: Key, value: int, k': Key)
    ensures Get(Assign(m, k, value), k') == if k' == k then value else Get(m, k')
  {
  }

  /** Every stored entry is non-zero. */
  predicate NoZeros(m: map<Key, int>)
  {
    forall k :: k in m ==> m[k] != 0
  }

  /** Assign never stores a 0 and keeps every other entry. */
  lemma AssignKeepsNoZeros(m: map<Key, int>, k: Key, value: int)
    requires NoZeros(m)
    ensures NoZeros(Assign(m, k, value))
    ensures value == 0 ==> k !in Assign(m, k, value)
  {
  }

  // ----- Addition and subtraction -----

  /**
   * The entry-wise sum, stored at every position stored in either operand,
   * including positions where the two values cancel to 0.
   */
  function PointwiseSum(a: map<Key, int>, b: map<Key, int>): map<Key, int>
  {
    map k | k in a.Keys + b.Keys :: Get(a, k) + Get(b, k)
  }

  /** The entry-wise difference, stored at every position stored in either operand. */
  function PointwiseDifference(a: map<Key, int>, b: map<Key, int>): map<Key, int>
  {
    map k | k in a.Keys + b.Keys :: Get(a, k) - Get(b, k)
  }

  /** Adding the empty map changes nothing. */
  lemma SumWithEmpty(a: map<Key, int>)
    ensures PointwiseSum(a, map[]) == a
    ensures PointwiseDifference(a, map[]) == a
  {
    assert PointwiseSum(a, map[]).Keys == a.Keys;
    assert PointwiseDifference(a, map[]).Keys == a.Keys;
  }

  /**
   * Folding one more entry k of b into a partial sum over the entries of b
   * outside todo: the position's value becomes its old reading plus b's
   * value there, and every other position keeps its value.
   */
  lemma SumStep(a: map<Key, int>, b: map<Key, int>, todo: set<Key>, k: Key)
    requires todo <= b.Keys && k in todo
    ensures PointwiseSum(a, b - (todo - {k})) ==
            PointwiseSum(a, b - todo)[k := Get(PointwiseSum(a, b - todo), k) + b[k]]
  {
    var done, done' := b - todo, b - (todo - {k});
    var s0, s1 := PointwiseSum(a, done), PointwiseSum(a, done');
    var s2 := s0[k := Get(s0, k) + b[k]];
    assert s1.Keys == s2.Keys by {
      assert done'.Keys == done.Keys + {k};
    }
    forall j | j in s1 ensures s1[j] == s2[j] {
      if j == k {
        assert Get(done, k) == 0 && Get(done', k) == b[k];
      } else {
        assert Get(done', j) == Get(done, j);
      }
    }
  }

  /** The same step for a partial difference: b's value at k is subtracted. */
  lemma DifferenceStep(a: map<Key, int>, b: map<Key, int>, todo: set<Key>, k: Key)
    requires todo <= b.Keys && k in todo
    ensures PointwiseDifference(a, b - (todo - {k})) ==
            PointwiseDifference(a, b - todo)[k := Get(PointwiseDifference(a, b - todo), k) - b[k]]
  {
    var done, done' := b - todo, b - (todo - {k});
    var d0, d1 := PointwiseDifference(a, done), PointwiseDifference(a, done');
    var d2 := d0[k := Get(d0, k) - b[k]];
    assert d1.Keys == d2.Keys by {
      assert done'.Keys == done.Keys + {k};
    }
    forall j | j in d1 ensures d1[j] == d2[j] {
      if j == k {
        assert Get(done, k) == 0 && Get(done', k) == b[k];
      } else {
        assert Get(done', j) == Get(done, j);
      }
    }
  }

  /** Addition commutes. */
  lemma SumCommutes(a: map<Key, int>, b: map<Key, int>)
    ensures PointwiseSum(a, b) == PointwiseSum(b, a)
  {
    assert PointwiseSum(a, b).Keys == PointwiseSum(b, a).Keys;
  }

  /**
   * Subtracting b from a + b reads back as a at every position, but keeps a
   * stored entry (possibly 0) at every position stored in b.
   */
  lemma DifferenceUndoesSum(a: map<Key, int>, b: map<Key, int>)
    ensures PointwiseDifference(PointwiseSum(a, b), b).Keys == a.Keys + b.Keys
    ensures forall k :: Get(PointwiseDifference(PointwiseSum(a, b), b), k) == Get(a, k)
  {
    var s := PointwiseSum(a, b);
    assert s.Keys == a.Keys + b.Keys;
  }

  /** a - a reads as 0 everywhere, yet keeps every position of a stored, with value 0. */
  lemma DifferenceWithSelf(a: map<Key, int>)
    ensures PointwiseDifference(a, a).Keys == a.Keys
    ensures forall k :: k in PointwiseDifference(a, a) ==> PointwiseDifference(a, a)[k] == 0
  {
  }

  /** A sum that cancels is stored as 0: {(0,0): 1} + {(0,0): -1} == {(0,0): 0}. */
  lemma SumCanStoreZero()
    ensures PointwiseSum(map[(0, 0) := 1], map[(0, 0) := -1]) == map[(0, 0) := 0]
    ensures !NoZeros(PointwiseSum(map[(0, 0) := 1], map[(0, 0) := -1]))
  {
    assert PointwiseSum(map[(0, 0) := 1], map[(0, 0) := -1]).Keys == {(0, 0)};
  }

  // ----- Multiplication -----

  /** What term t adds to the product entry at k. */
  function Contribution(a: map<Key, int>, b: map<Key, int>, t: Term, k: Key): int
  {
    if t.0.0 == k.0 && t.1.1 == k.1 then Get(a, t.0) * Get(b, t.1) else 0
  }

  /** The sum of the contributions of the terms ts to the entry at k, in no particular order. */
  ghost function TermSum(a: map<Key, int>, b: map<Key, int>, ts: set<Term>, k: Key): int
    decreases ts
  {
    if ts == {} then 0
    else
      var t :| t in ts;
      Contribution(a, b, t, k) + TermSum(a, b, ts - {t}, k)
  }

  /** Any term can be summed first: the sum does not depend on the order terms are taken in. */
  lemma {:induction false} TermSumRemove(a: map<Key, int>, b: map<Key, int>, ts: set<Term>, t: Term, k: Key)
    requires t in ts
    ensures TermSum(a, b, ts, k) == Contribution(a, b, t, k) + TermSum(a, b, ts - {t}, k)
    decreases ts
  {
    var u :| u in ts && TermSum(a, b, ts, k) == Contribution(a, b, u, k) + TermSum(a, b, ts - {u}, k);
    if u != t {
      TermSumRemove(a, b, ts - {u}, t, k);
      TermSumRemove(a, b, ts - {t}, u, k);
      assert ts - {u} - {t} == ts - {t} - {u};
    }
  }

  /** Terms that all contribute 0 sum to 0. */
  lemma {:induction false} TermSumOfZeros(a: map<Key, int>, b: map<Key, int>, ts: set<Term>, k: Key)
    requires forall t :: t in ts ==> Contribution(a, b, t, k) == 0
    ensures TermSum(a, b, ts, k) == 0
    decreases ts
  {
    if ts != {} {
      var t :| t in ts;
      TermSumRemove(a, b, ts, t, k);
      TermSumOfZeros(a, b, ts - {t}, k);
    }
  }

  /** All terms whose left position is one of ps: each (i, j) in ps with each stored (j, k) of b. */
  function Terms(ps: set<Key>, b: map<Key, int>): set<Term>
  {
    set p, q | p in ps && q in b.Keys && p.1 == q.0 :: (p, q)
  }

  /** The terms of one left position p: p with every stored position of b in row p.1. */
  function TermsOf(p: Key, b: map<Key, int>): set<Term>
  {
    set q | q in b.Keys && q.0 == p.1 :: (p, q)
  }

  /**
   * The product entry at k = (i, l): the sum of a[(i, j)] * b[(j, l)] over
   * the stored positions (i, j) of a and (j, l) of b.
   */
  ghost function ProductEntry(a: map<Key, int>, b: map<Key, int>, k: Key): int
  {
    TermSum(a, b, Terms(a.Keys, b), k)
  }

  /**
   * r holds exactly the non-zero sums of the terms ts: every position reads
   * as its sum, and nothing stored is 0.
   */
  ghost predicate Accumulates(r: map<Key, int>, a: map<Key, int>, b: map<Key, int>, ts: set<Term>)
  {
    NoZeros(r) && forall k :: Get(r, k) == TermSum(a, b, ts, k)
  }

  /** r is the sparse product of a and b: it stores exactly the non-zero product entries. */
  ghost predicate IsProduct(r: map<Key, int>, a: map<Key, int>, b: map<Key, int>)
  {
    Accumulates(r, a, b, Terms(a.Keys, b))
  }

  /** Two maps that both accumulate ts are equal, so the product is determined by its operands alone. */
  lemma AccumulatesUnique(r1: map<Key, int>, r2: map<Key, int>, a: map<Key, int>, b: map<Key, int>, ts: set<Term>)
    requires Accumulates(r1, a, b, ts) && Accumulates(r2, a, b, ts)
    ensures r1 == r2
  {
    forall k | k in r1 ensures k in r2 && r2[k] == r1[k] {
      assert Get(r1, k) == Get(r2, k);
    }
    forall k | k in r2 ensures k in r1 {
      assert Get(r1, k) == Get(r2, k);
    }
  }

  /** The empty map accumulates no terms. */
  lemma AccumulatesNothing(a: map<Key, int>, b: map<Key, int>)
    ensures Accumulates(map[], a, b, {})
  {
  }

  /**
   * Accumulating one more term t into r the way the multiplication does
   * (read the entry, Assign it plus the term's product) accumulates ts + {t}.
   */
  lemma AccumulateTerm(r: map<Key, int>, a: map<Key, int>, b: map<Key, int>, ts: set<Term>, t: Term)
    requires Accumulates(r, a, b, ts) && t !in ts
    ensures var k := (t.0.0, t.1.1);
      Accumulates(Assign(r, k, Get(r, k) + Get(a, t.0) * Get(b, t.1)), a, b, ts + {t})
  {
    var k := (t.0.0, t.1.1);
    var r' := Assign(r, k, Get(r, k) + Get(a, t.0) * Get(b, t.1));
    AssignKeepsNoZeros(r, k, Get(r, k) + Get(a, t.0) * Get(b, t.1));
    forall k' ensures Get(r', k') == TermSum(a, b, ts + {t}, k') {
      TermSumRemove(a, b, ts + {t}, t, k');
      assert ts + {t} - {t} == ts;
      GetAssign(r, k, Get(r, k) + Get(a, t.0) * Get(b, t.1), k');
    }
  }

  /** The terms of ps + {p} are those of ps and those of p. */
  lemma TermsAdd(ps: set<Key>, p: Key, b: map<Key, int>)
    ensures Terms(ps + {p}, b) == Terms(ps, b) + TermsOf(p, b)
  {
  }

  /** The identity matrix of size n: 1 on the diagonal positions (j, j), 0 <= j < n. */
  function Identity(n: int): map<Key, int>
  {
    map j | 0 <= j < n :: (j, j) := 1
  }

  /**
   * Multiplying by the identity on the left selects the rows 0 .. n-1 of b:
   * entry k of the product is b's value at k when 0 <= k.0 < n, and 0 otherwise.
   */
  lemma IdentityTimes(n: int, b: map<Key, int>, k: Key)
    ensures ProductEntry(Identity(n), b, k) == if 0 <= k.0 < n then Get(b, k) else 0
  {
    var id := Identity(n);
    var ts := Terms(id.Keys, b);
    forall t | t in ts
      ensures t.0 == (t.0.0, t.0.0) && 0 <= t.0.0 < n && t.0 in id && id[t.0] == 1 && t.1 in b && t.1.0 == t.0.0
    {
      var j :| 0 <= j < n && (j, j) == t.0;
    }
    if 0 <= k.0 < n && k in b {
      var t0: Term := ((k.0, k.0), k);
      assert (k.0, k.0) in id;
      assert t0 in ts;
      TermSumRemove(id, b, ts, t0, k);
      TermSumOfZeros(id, b, ts - {t0}, k);
    } else {
      TermSumOfZeros(id, b, ts, k);
    }
  }

  /**
   * When every stored entry of b is non-zero and lies in rows 0 .. n-1, the
   * sparse product of the n-by-n identity and b is b itself.
   */
  lemma IdentityProduct(n: int, b: map<Key, int>)
    requires NoZeros(b)
    requires forall k :: k in b ==> 0 <= k.0 < n
    ensures IsProduct(b, Identity(n), b)
  {
    forall k ensures Get(b, k) == ProductEntry(Identity(n), b, k) {
      IdentityTimes(n, b, k);
    }
  }
}
