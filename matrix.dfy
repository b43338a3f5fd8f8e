/**
 * The sparse integer matrix: its dimensions and a map holding the entries
 * that are stored, every other position reading as 0. The arithmetic
 * operations build a new matrix and leave both operands as they were.
 */
module Matrix {
  import opened Wrappers
  import opened Algebra
  import opened LineFormat

  /** Why an arithmetic operation was refused. */
  datatype ShapeError =
    | DimensionMismatch   // add or subtract with different rows or cols
    | IncompatibleShape   // multiply where the left cols differ from the right rows

  /** A row list of an index. */
  type RowList = seq<(int, int)>

  /** Every listed (c, v) of row r is a stored entry (r, c) of b with value v. */
  ghost predicate ListsStored(index: map<int, RowList>, b: map<Key, int>)
  {
    forall r, i :: r in index && 0 <= i < |index[r]| ==>
      (r, index[r][i].0) in b && b[(r, index[r][i].0)] == index[r][i].1
  }

  /** One listed entry of a row index names a stored position and its value. */
  lemma Listed(index: map<int, RowList>, b: map<Key, int>, r: int, i: int)
    requires ListsStored(index, b) && r in index && 0 <= i < |index[r]|
    ensures (r, index[r][i].0) in b && b[(r, index[r][i].0)] == index[r][i].1
  {
  }

  /** No column is listed twice in a row. */
  ghost predicate ColumnsDistinct(index: map<int, RowList>)
  {
    forall r, i, j :: r in index && 0 <= i < j < |index[r]| ==> index[r][i].0 != index[r][j].0
  }

  /** Every stored entry (r, c) of b is listed in row r. */
  ghost predicate EntriesListed(index: map<int, RowList>, b: map<Key, int>)
  {
    forall q :: q in b ==> q.0 in index && exists i :: 0 <= i < |index[q.0]| && index[q.0][i].0 == q.1
  }

  /**
   * The row index of a map: index[r] lists (c, b[(r, c)]) once for every
   * stored position (r, c) of b, and only rows with a stored entry appear.
   */
  ghost predicate IsRowIndex(index: map<int, RowList>, b: map<Key, int>)
  {
    (forall r :: r in index ==> |index[r]| > 0) &&
    ListsStored(index, b) && ColumnsDistinct(index) && EntriesListed(index, b)
  }

  /** The terms a row list of position p yields: p paired with (p.1, c) for each listed column c. */
  function ListedTerms(p: Key, list: RowList): set<Term>
  {
    set i | 0 <= i < |list| :: (p, (p.1, list[i].0))
  }

  /** One more listed column yields one more term, a new one when no column is listed twice. */
  lemma ListedTermsSnoc(p: Key, list: RowList, t: nat)
    requires t < |list|
    requires forall i, j :: 0 <= i < j < |list| ==> list[i].0 != list[j].0
    ensures ListedTerms(p, list[..t + 1]) == ListedTerms(p, list[..t]) + {(p, (p.1, list[t].0))}
    ensures (p, (p.1, list[t].0)) !in ListedTerms(p, list[..t])
  {
    var small, big := ListedTerms(p, list[..t]), ListedTerms(p, list[..t + 1]);
    forall u | u in big ensures u in small + {(p, (p.1, list[t].0))} {
      var i :| 0 <= i < t + 1 && u == (p, (p.1, list[..t + 1][i].0));
      if i < t {
        assert u == (p, (p.1, list[..t][i].0));
      }
    }
    forall u | u in small ensures u in big {
      var i :| 0 <= i < t && u == (p, (p.1, list[..t][i].0));
      assert u == (p, (p.1, list[..t + 1][i].0));
    }
    assert (p, (p.1, list[t].0)) == (p, (p.1, list[..t + 1][t].0));
  }

  /** Adding one element to a union through its second part. */
  lemma UnionStep<T>(a: set<T>, l: set<T>, l': set<T>, x: T)
    requires l' == l + {x}
    ensures a + l + {x} == a + l'
  {
  }

  /** The row list of p.1 yields exactly the terms of p. */
  lemma ListedTermsComplete(index: map<int, RowList>, b: map<Key, int>, p: Key)
    requires IsRowIndex(index, b)
    ensures p.1 in index ==> ListedTerms(p, index[p.1]) == TermsOf(p, b)
    ensures p.1 !in index ==> TermsOf(p, b) == {}
  {
    if p.1 in index {
      forall t | t in TermsOf(p, b) ensures t in ListedTerms(p, index[p.1]) {
        var q := t.1;
        var i :| 0 <= i < |index[q.0]| && index[q.0][i].0 == q.1;
        assert t == (p, (p.1, index[p.1][i].0));
      }
    }
  }

  /** Appending (q.1, b[q]) to row q.0 of an index of b - todo gives an index of b - (todo - {q}). */
  lemma RowIndexExtend(index: map<int, RowList>, b: map<Key, int>, todo: set<Key>, q: Key)
    requires todo <= b.Keys && q in todo
    requires IsRowIndex(index, b - todo)
    ensures var row := if q.0 in index then index[q.0] else [];
      IsRowIndex(index[q.0 := row + [(q.1, b[q])]], b - (todo - {q}))
  {
    var done, done' := b - todo, b - (todo - {q});
    var row: RowList := if q.0 in index then index[q.0] else [];
    var index': map<int, RowList> := index[q.0 := row + [(q.1, b[q])]];
    forall i | 0 <= i < |row| ensures (q.0, row[i].0) in done {
      assert q.0 in index && index[q.0][i] == row[i];
      Listed(index, done, q.0, i);
    }
    assert ListsStored(index', done') by {
      forall r, i | r in index' && 0 <= i < |index'[r]|
        ensures (r, index'[r][i].0) in done' && done'[(r, index'[r][i].0)] == index'[r][i].1
      {
        if r == q.0 && i < |row| {
          assert index'[r][i] == row[i];
          assert row == index[q.0];
        }
      }
    }
    assert ColumnsDistinct(index') by {
      forall r, i, j | r in index' && 0 <= i < j < |index'[r]| ensures index'[r][i].0 != index'[r][j].0 {
        if r == q.0 && j == |row| {
          assert (q.0, row[i].0) in done;
        } else if r == q.0 {
          assert row == index[q.0];
        }
      }
    }
    assert EntriesListed(index', done') by {
      forall q' | q' in done'
        ensures q'.0 in index' && exists i :: 0 <= i < |index'[q'.0]| && index'[q'.0][i].0 == q'.1
      {
        if q' == q {
          assert index'[q.0][|row|].0 == q.1;
        } else {
          assert q' in done;
          var i :| 0 <= i < |index[q'.0]| && index[q'.0][i].0 == q'.1;
          assert index'[q'.0][i].0 == q'.1;
        }
      }
    }
  }

  /** Groups the entries of b by row, as the multiplication's row index. */
  method BuildRowIndex(b: map<Key, int>) returns (index: map<int, RowList>)
    ensures IsRowIndex(index, b)
  {
    index := map[];
    var todo := b.Keys;
    while todo != {}
      invariant todo <= b.Keys
      invariant IsRowIndex(index, b - todo)
      decreases todo
    {
      var q :| q in todo;
      RowIndexExtend(index, b, todo, q);
      if q.0 !in index {
        index := index[q.0 := []];
      }
      index := index[q.0 := index[q.0] + [(q.1, b[q])]];
      todo := todo - {q};
    }
    assert b - todo == b;
  }

  class SparseMatrix {
    var rows: int
    var cols: int
    var elements: map<Key, int>

    /** An empty matrix with no rows and no columns. */
    constructor ()
      ensures rows == 0 && cols == 0 && elements == map[]
    {
      rows := 0;
      cols := 0;
      elements := map[];
    }

    /**
     * The value at (row, col): the stored one, or 0 when none is stored.
     * The position is not checked against the dimensions.
     */
    function GetElement(row: int, col: int): (value: int)
      reads this
      ensures (row, col) in elements ==> value == elements[(row, col)]
      ensures (row, col) !in elements ==> value == 0
    {
      Get(elements, (row, col))
    }

    /**
     * Writes value at (row, col): a non-zero value is stored, a 0 removes
     * the stored entry, if there is one. Nothing else changes.
     */
    method SetElement(row: int, col: int, value: int)
      modifies this
      ensures rows == old(rows) && cols == old(cols)
      ensures elements == Assign(old(elements), (row, col), value)
      ensures GetElement(row, col) == value
      ensures forall k :: k != (row, col) ==> Get(elements, k) == Get(old(elements), k)
      ensures value == 0 ==> (row, col) !in elements
      ensures value == 0 && (row, col) !in old(elements) ==> elements == old(elements)
      ensures NoZeros(old(elements)) ==> NoZeros(elements)
    {
      if value != 0 {
        elements := elements[(row, col) := value];
      } else if (row, col) in elements {
        elements := elements - {(row, col)};
      }
    }

    /**
     * Loads a matrix from the lines of a file. The header values set the
     * dimensions and each element line writes its entry into the existing
     * entries, which are not cleared first. A failure leaves in place what
     * was set before the failing line.
     */
    method LoadFromLines(input: seq<string>) returns (outcome: Outcome<FormatError>)
      modifies this
      ensures outcome == match ParseMatrix(input) case Ok(_) => Pass case Err(e) => Fail(e)
      ensures ParseMatrix(input).Ok? ==>
        var p := ParseMatrix(input).value;
        rows == p.rows && cols == p.cols && elements == old(elements) + EntryMap(p.entries)
      ensures var lines := NonBlankLines(input);
        if |lines| < 2 || HeaderValue(lines[0]).None? then
          rows == old(rows) && cols == old(cols) && elements == old(elements)
        else if HeaderValue(lines[1]).None? then
          rows == HeaderValue(lines[0]).value && cols == old(cols) && elements == old(elements)
        else
          rows == HeaderValue(lines[0]).value && cols == HeaderValue(lines[1]).value &&
          elements == old(elements) + EntryMap(ScanElements(lines[2..]).entries)
    {
      var lines := NonBlankLines(input);
      if |lines| < 2 {
        return Fail(InsufficientData);
      }
      var r := HeaderValue(lines[0]);
      if r.None? {
        return Fail(BadHeader);
      }
      rows := r.value;
      var c := HeaderValue(lines[1]);
      if c.None? {
        return Fail(BadHeader);
      }
      cols := c.value;
      var failure := LoadElements(lines[2..]);
      outcome := if failure.Some? then Fail(failure.value) else Pass;
    }

    /**
     * The loop over the element lines of a load: each line writes its entry
     * into the existing entries, and the first line that does not parse
     * stops the loop, leaving the entries of the lines before it.
     */
    method LoadElements(body: seq<string>) returns (failure: Option<FormatError>)
      modifies this
      ensures rows == old(rows) && cols == old(cols)
      ensures failure == ScanElements(body).failure
      ensures elements == old(elements) + EntryMap(ScanElements(body).entries)
    {
      var i := 0;
      ghost var entries: seq<Entry> := [];
      while i < |body|
        invariant 0 <= i <= |body|
        invariant rows == old(rows) && cols == old(cols)
        invariant ScanElements(body[..i]) == Scan(entries, None)
        invariant elements == old(elements) + EntryMap(entries)
      {
        var e := ParseElement(body[i]);
        ScanStep(body, i);
        if e.Err? {
          return Some(e.error);
        }
        EntryMapSnoc(old(elements), entries, e.value);
        elements := elements[e.value.0 := e.value.1];
        entries := entries + [e.value];
        i := i + 1;
      }
      assert body[..i] == body;
      return None;
    }

    /**
     * The entry-wise sum of this matrix and other, when their dimensions
     * agree. The result starts as a copy of this matrix's entries and every
     * entry of other is added in; positions that cancel keep a stored 0.
     */
    method Add(other: SparseMatrix) returns (result: Result<SparseMatrix, ShapeError>)
      ensures result.Err? <==> rows != other.rows || cols != other.cols
      ensures result.Err? ==> result.error == DimensionMismatch
      ensures result.Ok? ==>
        fresh(result.value) && result.value.rows == rows && result.value.cols == cols &&
        result.value.elements == PointwiseSum(elements, other.elements)
    {
      if rows != other.rows || cols != other.cols {
        return Err(DimensionMismatch);
      }
      var sum := new SparseMatrix();
      sum.rows := rows;
      sum.cols := cols;
      sum.elements := elements;
      var todo := other.elements.Keys;
      SumWithEmpty(elements);
      assert other.elements - todo == map[];
      while todo != {}
        invariant todo <= other.elements.Keys
        invariant sum.rows == rows && sum.cols == cols
        invariant sum.elements == PointwiseSum(elements, other.elements - todo)
        decreases todo
      {
        var k :| k in todo;
        SumStep(elements, other.elements, todo, k);
        sum.elements := sum.elements[k := Get(sum.elements, k) + other.elements[k]];
        todo := todo - {k};
      }
      assert other.elements - todo == other.elements;
      return Ok(sum);
    }

    /**
     * The entry-wise difference of this matrix and other, when their
     * dimensions agree. The result starts as a copy of this matrix's entries
     * and every entry of other is subtracted; positions that cancel keep a stored 0.
     */
    method Subtract(other: SparseMatrix) returns (result: Result<SparseMatrix, ShapeError>)
      ensures result.Err? <==> rows != other.rows || cols != other.cols
      ensures result.Err? ==> result.error == DimensionMismatch
      ensures result.Ok? ==>
        fresh(result.value) && result.value.rows == rows && result.value.cols == cols &&
        result.value.elements == PointwiseDifference(elements, other.elements)
    {
      if rows != other.rows || cols != other.cols {
        return Err(DimensionMismatch);
      }
      var difference := new SparseMatrix();
      difference.rows := rows;
      difference.cols := cols;
      difference.elements := elements;
      var todo := other.elements.Keys;
      SumWithEmpty(elements);
      assert other.elements - todo == map[];
      while todo != {}
        invariant todo <= other.elements.Keys
        invariant difference.rows == rows && difference.cols == cols
        invariant difference.elements == PointwiseDifference(elements, other.elements - todo)
        decreases todo
      {
        var k :| k in todo;
        DifferenceStep(elements, other.elements, todo, k);
        difference.elements := difference.elements[k := Get(difference.elements, k) - other.elements[k]];
        todo := todo - {k};
      }
      assert other.elements - todo == other.elements;
      return Ok(difference);
    }

    /**
     * The product of this matrix and other, when this matrix's cols equal
     * other's rows. Every stored (i, j) of this matrix meets every stored
     * (j, k) of other through other's row index, and each product is added
     * into the result's (i, k) through GetElement and SetElement, so the
     * result stores exactly the non-zero sums, whatever order the entries
     * are taken in.
     */
    method Multiply(other: SparseMatrix) returns (result: Result<SparseMatrix, ShapeError>)
      ensures result.Err? <==> cols != other.rows
      ensures result.Err? ==> result.error == IncompatibleShape
      ensures result.Ok? ==>
        fresh(result.value) && result.value.rows == rows && result.value.cols == other.cols &&
        IsProduct(result.value.elements, elements, other.elements)
    {
      if cols != other.rows {
        return Err(IncompatibleShape);
      }
      var product := new SparseMatrix();
      product.rows := rows;
      product.cols := other.cols;
      var index := BuildRowIndex(other.elements);
      var todo := elements.Keys;
      ghost var done: set<Term> := {};
      AccumulatesNothing(elements, other.elements);
      while todo != {}
        invariant todo <= elements.Keys
        invariant product.rows == rows && product.cols == other.cols
        invariant done == Terms(elements.Keys - todo, other.elements)
        invariant Accumulates(product.elements, elements, other.elements, done)
        decreases todo
      {
        var p :| p in todo;
        ListedTermsComplete(index, other.elements, p);
        TermsAdd(elements.Keys - todo, p, other.elements);
        if p.1 in index {
          product.AccumulateRow(elements, other.elements, p, index[p.1], done);
          done := done + ListedTerms(p, index[p.1]);
        }
        assert elements.Keys - (todo - {p}) == (elements.Keys - todo) + {p};
        todo := todo - {p};
      }
      assert elements.Keys - todo == elements.Keys;
      return Ok(product);
    }

    /**
     * The innermost loop of the multiplication, run on the result: for every
     * (c, v) in the row list of a's entry p, reads the entry (p.0, c) and
     * writes it back plus a[p] * v.
     */
    method AccumulateRow(a: map<Key, int>, b: map<Key, int>, p: Key, list: RowList, ghost before: set<Term>)
      requires p in a
      requires forall i :: 0 <= i < |list| ==> (p.1, list[i].0) in b && b[(p.1, list[i].0)] == list[i].1
      requires forall i, j :: 0 <= i < j < |list| ==> list[i].0 != list[j].0
      requires forall u :: u in before ==> u.0 != p
      requires Accumulates(elements, a, b, before)
      modifies this
      ensures rows == old(rows) && cols == old(cols)
      ensures Accumulates(elements, a, b, before + ListedTerms(p, list))
    {
      var v1 := a[p];
      var t := 0;
      assert before + ListedTerms(p, list[..t]) == before;
      while t < |list|
        invariant 0 <= t <= |list|
        invariant rows == old(rows) && cols == old(cols)
        invariant Accumulates(elements, a, b, before + ListedTerms(p, list[..t]))
      {
        var (c2, v2) := list[t];
        ghost var term: Term := (p, (p.1, c2));
        ghost var listed := ListedTerms(p, list[..t]);
        ListedTermsSnoc(p, list, t);
        AccumulateTerm(elements, a, b, before + listed, term);
        var current := GetElement(p.0, c2);
        SetElement(p.0, c2, current + v1 * v2);
        UnionStep(before, listed, ListedTerms(p, list[..t + 1]), term);
        t := t + 1;
      }
      assert list[..t] == list;
    }
  }

  // ----- Results about the operations -----

  /**
   * Multiplying the n-by-n identity by a matrix whose entries are non-zero
   * and lie in rows 0 .. n-1 gives back exactly that matrix's entries.
   */
  lemma IdentityProductIsOperand(n: int, b: map<Key, int>, r: map<Key, int>)
    requires NoZeros(b)
    requires forall k :: k in b ==> 0 <= k.0 < n
    requires IsProduct(r, Identity(n), b)
    ensures r == b
  {
    IdentityProduct(n, b);
    AccumulatesUnique(r, b, Identity(n), b, Terms(Identity(n).Keys, b));
  }

}
