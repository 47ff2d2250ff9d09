/**
 * CartesianProductService: validation of the two input lists, the three ways
 * the service builds A × B (nested loops, recursion with a shared accumulator,
 * and a stream flatMap), and the queries over a product (cardinality, numeric
 * filtering, membership and counts). The service holds no state; its methods
 * are modelled as module members, and Java lists that may be null as Options.
 */
module CartesianProductService {
  import opened Outcomes
  import opened Seqs
  import opened Model

  // ---------------------------------------------------------------------------
  // validateSets
  // ---------------------------------------------------------------------------

  /** validateSets: null lists first, then an empty A, then an empty B. */
  function ValidateSets(setA: Option<seq<SetElement>>, setB: Option<seq<SetElement>>): (r: Outcome)
    ensures r.Pass? <==> setA.Some? && setB.Some? && |setA.value| > 0 && |setB.value| > 0
    ensures setA.None? || setB.None? ==> r == Fail("Sets cannot be null")
    ensures setA.Some? && setB.Some? && |setA.value| == 0 ==> r == Fail("Set A cannot be empty")
    ensures setA.Some? && setB.Some? && |setA.value| > 0 && |setB.value| == 0 ==> r == Fail("Set B cannot be empty")
  {
    if setA.None? || setB.None? then Fail("Sets cannot be null")
    else if |setA.value| == 0 then Fail("Set A cannot be empty")
    else if |setB.value| == 0 then Fail("Set B cannot be empty")
    else Pass
  }

  // ---------------------------------------------------------------------------
  // The product, row by row
  // ---------------------------------------------------------------------------

  /** setB.stream().map(b -> new CartesianPair(a, b)): the row of a. */
  function Row(a: SetElement, setB: seq<SetElement>): (r: seq<CartesianPair>)
    ensures |r| == |setB| && forall j :: 0 <= j < |setB| ==> r[j] == CartesianPair(a, setB[j])
  {
    seq(|setB|, j requires 0 <= j < |setB| => CartesianPair(a, setB[j]))
  }

  /** setA.stream().flatMap(row): the rows of the elements of A, one after the other. */
  function FlatMapRows(setA: seq<SetElement>, setB: seq<SetElement>): seq<CartesianPair>
    decreases |setA|
  {
    if setA == [] then [] else Row(setA[0], setB) + FlatMapRows(setA[1..], setB)
  }

  /** a · b as repeated addition; row offsets in a product are stated with it. */
  function Mul(a: nat, b: nat): nat
    decreases a
  {
    if a == 0 then 0 else Mul(a - 1, b) + b
  }

  /** Mul is multiplication. */
  lemma {:induction false} MulIsMultiplication(a: nat, b: nat)
    ensures Mul(a, b) == a * b
    decreases a
  {
    if a > 0 {
      MulIsMultiplication(a - 1, b);
      assert a * b == (a - 1) * b + b;
    }
  }

  /** The offset of column j < n in row i lies before row m, for every row i < m. */
  lemma {:induction false} MulBound(i: nat, j: nat, m: nat, n: nat)
    requires i < m && j < n
    ensures Mul(i, n) + j < Mul(m, n)
    decreases m
  {
    assert Mul(m, n) == Mul(m - 1, n) + n;
    if i < m - 1 {
      MulBound(i, j, m - 1, n);
    }
  }

  /** Every offset k is column j < n of some row i. */
  lemma {:induction false} RowColumn(k: nat, n: nat) returns (i: nat, j: nat)
    requires n > 0
    ensures j < n && k == Mul(i, n) + j
    decreases k
  {
    if k < n {
      i, j := 0, k;
    } else {
      var i', j' := RowColumn(k - n, n);
      i, j := i' + 1, j';
      assert Mul(i, n) == Mul(i', n) + n;
    }
  }

  /** Row i, column j of a row-major product: the pair at offset i · |B| + j is (A[i], B[j]). */
  ghost predicate EntryHolds(p: seq<CartesianPair>, setA: seq<SetElement>, setB: seq<SetElement>, i: nat, j: nat)
    requires i < |setA| && j < |setB|
  {
    Mul(i, |setB|) + j < |p| && p[Mul(i, |setB|) + j] == CartesianPair(setA[i], setB[j])
  }

  /**
   * p is A × B in row-major order: |A| · |B| pairs, and the pair at
   * i · |B| + j is (A[i], B[j]).
   */
  ghost predicate IsProductOf(p: seq<CartesianPair>, setA: seq<SetElement>, setB: seq<SetElement>) {
    && |p| == Mul(|setA|, |setB|)
    && forall i, j :: 0 <= i < |setA| && 0 <= j < |setB| ==> EntryHolds(p, setA, setB, i, j)
  }

  /** The entry of a row-major product for row i and column j. */
  lemma ProductEntry(p: seq<CartesianPair>, setA: seq<SetElement>, setB: seq<SetElement>, i: nat, j: nat)
    requires IsProductOf(p, setA, setB)
    requires i < |setA| && j < |setB|
    ensures Mul(i, |setB|) + j < |p| && p[Mul(i, |setB|) + j] == CartesianPair(setA[i], setB[j])
  {
    assert EntryHolds(p, setA, setB, i, j);
  }

  lemma {:induction false} FlatMapRowsConcat(x: seq<SetElement>, y: seq<SetElement>, setB: seq<SetElement>)
    ensures FlatMapRows(x + y, setB) == FlatMapRows(x, setB) + FlatMapRows(y, setB)
    decreases |x|
  {
    if x == [] {
      assert x + y == y;
    } else {
      assert (x + y)[1..] == x[1..] + y;
      FlatMapRowsConcat(x[1..], y, setB);
    }
  }

  /** The rows so far plus the next row. */
  lemma FlatMapRowsSnoc(setA: seq<SetElement>, i: nat, setB: seq<SetElement>)
    requires i < |setA|
    ensures FlatMapRows(setA[..i + 1], setB) == FlatMapRows(setA[..i], setB) + Row(setA[i], setB)
  {
    assert setA[..i + 1] == setA[..i] + [setA[i]];
    FlatMapRowsConcat(setA[..i], [setA[i]], setB);
    assert [setA[i]][1..] == [];
  }

  /** One row in front of a product of the remaining rows: the entry for (i, j). */
  lemma RowInFront(a: SetElement, rest: seq<SetElement>, setB: seq<SetElement>, p: seq<CartesianPair>, i: nat, j: nat)
    requires IsProductOf(p, rest, setB)
    requires i <= |rest| && j < |setB|
    ensures EntryHolds(Row(a, setB) + p, [a] + rest, setB, i, j)
  {
    if i == 0 {
      assert (Row(a, setB) + p)[j] == Row(a, setB)[j];
    } else {
      assert Mul(i, |setB|) == Mul(i - 1, |setB|) + |setB|;
      ProductEntry(p, rest, setB, i - 1, j);
      assert ([a] + rest)[i] == rest[i - 1];
    }
  }

  /** One row in front of a product of the remaining rows is the product of all rows. */
  lemma RowInFrontIsProduct(a: SetElement, rest: seq<SetElement>, setB: seq<SetElement>, p: seq<CartesianPair>)
    requires IsProductOf(p, rest, setB)
    ensures IsProductOf(Row(a, setB) + p, [a] + rest, setB)
  {
    var q, setA := Row(a, setB) + p, [a] + rest;
    assert Mul(|setA|, |setB|) == Mul(|rest|, |setB|) + |setB|;
    forall i, j | 0 <= i < |setA| && 0 <= j < |setB| ensures EntryHolds(q, setA, setB, i, j) {
      RowInFront(a, rest, setB, p, i, j);
    }
  }

  /** The flatMap of rows is the row-major product. */
  lemma {:induction false} FlatMapRowsIsProduct(setA: seq<SetElement>, setB: seq<SetElement>)
    ensures IsProductOf(FlatMapRows(setA, setB), setA, setB)
    decreases |setA|
  {
    if setA != [] {
      FlatMapRowsIsProduct(setA[1..], setB);
      RowInFrontIsProduct(setA[0], setA[1..], setB, FlatMapRows(setA[1..], setB));
      assert setA == [setA[0]] + setA[1..];
    }
  }

  /** The generated product in the usual notation: pair i * |B| + j is (A[i], B[j]), of |A| * |B| pairs. */
  lemma GeneratedProductEntry(setA: seq<SetElement>, setB: seq<SetElement>, i: nat, j: nat)
    requires i < |setA| && j < |setB|
    ensures var p := FlatMapRows(setA, setB);
      |p| == |setA| * |setB| && i * |setB| + j < |p| && p[i * |setB| + j] == CartesianPair(setA[i], setB[j])
  {
    FlatMapRowsIsProduct(setA, setB);
    ProductEntry(FlatMapRows(setA, setB), setA, setB, i, j);
    MulIsMultiplication(i, |setB|);
    MulIsMultiplication(|setA|, |setB|);
  }

  /** Pair k of a row-major product lies in some row i and column j. */
  lemma ProductIndex(p: seq<CartesianPair>, setA: seq<SetElement>, setB: seq<SetElement>, k: nat) returns (i: nat, j: nat)
    requires IsProductOf(p, setA, setB) && k < |p|
    ensures i < |setA| && j < |setB| && k == Mul(i, |setB|) + j
    ensures p[k] == CartesianPair(setA[i], setB[j])
  {
    MulIsMultiplication(|setA|, |setB|);
    i, j := RowColumn(k, |setB|);
    MulMonotone(|setA|, i, |setB|);
    ProductEntry(p, setA, setB, i, j);
  }

  /** Mul grows with its first argument. */
  lemma {:induction false} MulMonotone(a: nat, b: nat, n: nat)
    ensures a <= b ==> Mul(a, n) <= Mul(b, n)
    decreases b
  {
    if a < b {
      MulMonotone(a, b - 1, n);
      assert Mul(b, n) == Mul(b - 1, n) + n;
    }
  }

  /** A × B is unique: two sequences with the row-major property are equal. */
  lemma ProductIsUnique(p: seq<CartesianPair>, q: seq<CartesianPair>, setA: seq<SetElement>, setB: seq<SetElement>)
    requires IsProductOf(p, setA, setB) && IsProductOf(q, setA, setB)
    ensures p == q
  {
    forall k | 0 <= k < |p| ensures p[k] == q[k] {
      var i, j := ProductIndex(p, setA, setB, k);
      ProductEntry(q, setA, setB, i, j);
    }
  }

  // ---------------------------------------------------------------------------
  // generateCartesianProductStream
  // ---------------------------------------------------------------------------

  /** generateCartesianProductStream: validate, then flatMap each a to its row. */
  function GenerateCartesianProductStream(setA: Option<seq<SetElement>>, setB: Option<seq<SetElement>>): (r: Result<seq<CartesianPair>>)
    ensures r.Success? <==> ValidateSets(setA, setB).Pass?
    ensures r.Failure? ==> r.message == ValidateSets(setA, setB).message
    ensures r.Success? ==> IsProductOf(r.value, setA.value, setB.value)
  {
    match ValidateSets(setA, setB)
    case Fail(m) => Failure(m)
    case Pass =>
      FlatMapRowsIsProduct(setA.value, setB.value);
      Success(FlatMapRows(setA.value, setB.value))
  }

  // ---------------------------------------------------------------------------
  // generateCartesianProduct
  // ---------------------------------------------------------------------------

  /** generateCartesianProduct: validate, then pair each a with each b in nested loops. */
  method GenerateCartesianProduct(setA: Option<seq<SetElement>>, setB: Option<seq<SetElement>>) returns (r: Result<seq<CartesianPair>>)
    ensures r == GenerateCartesianProductStream(setA, setB)
    ensures r.Success? ==> IsProductOf(r.value, setA.value, setB.value)
  {
    var v := ValidateSets(setA, setB);
    if v.Fail? {
      return Failure(v.message);
    }
    var a, b := setA.value, setB.value;
    var product: seq<CartesianPair> := [];
    var i := 0;
    while i < |a|
      invariant 0 <= i <= |a|
      invariant product == FlatMapRows(a[..i], b)
    {
      var elementA := a[i];
      var j := 0;
      while j < |b|
        invariant 0 <= j <= |b|
        invariant product == FlatMapRows(a[..i], b) + Row(elementA, b[..j])
      {
        assert Row(elementA, b[..j + 1]) == Row(elementA, b[..j]) + [CartesianPair(elementA, b[j])];
        product := product + [CartesianPair(elementA, b[j])];
        j := j + 1;
      }
      assert b[..j] == b;
      FlatMapRowsSnoc(a, i, b);
      i := i + 1;
    }
    assert a[..i] == a;
    r := Success(product);
  }

  // ---------------------------------------------------------------------------
  // generateCartesianProductRecursive / generateRecursive
  // ---------------------------------------------------------------------------

  /** The ArrayList that generateRecursive appends to and passes down. */
  class PairList {
    var items: seq<CartesianPair>

    constructor ()
      ensures items == []
    {
      items := [];
    }

    /** List.add */
    method Add(p: CartesianPair)
      modifies this
      ensures items == old(items) + [p]
    {
      items := items + [p];
    }
  }

  /**
   * generateRecursive: append the row of A[indexA] to the shared accumulator,
   * then recurse on indexA + 1; return the accumulator itself. When it returns,
   * the accumulator holds what it held plus the rows of A[indexA..].
   */
  method GenerateRecursive(setA: seq<SetElement>, setB: seq<SetElement>, indexA: nat, result: PairList) returns (r: PairList)
    modifies result
    ensures r == result
    ensures result.items == old(result.items) + (if indexA < |setA| then FlatMapRows(setA[indexA..], setB) else [])
    decreases |setA| - indexA
  {
    if indexA >= |setA| {
      return result;
    }
    var currentA := setA[indexA];
    var j := 0;
    while j < |setB|
      invariant 0 <= j <= |setB|
      invariant result.items == old(result.items) + Row(currentA, setB[..j])
    {
      assert Row(currentA, setB[..j + 1]) == Row(currentA, setB[..j]) + [CartesianPair(currentA, setB[j])];
      result.Add(CartesianPair(currentA, setB[j]));
      j := j + 1;
    }
    assert setB[..j] == setB;
    RowsFrom(setA, indexA, setB);
    r := GenerateRecursive(setA, setB, indexA + 1, result);
  }

  /** The rows of A[indexA..]: the row of A[indexA], then the rows after it. */
  lemma RowsFrom(setA: seq<SetElement>, indexA: nat, setB: seq<SetElement>)
    requires indexA < |setA|
    ensures FlatMapRows(setA[indexA..], setB) ==
      Row(setA[indexA], setB) + (if indexA + 1 < |setA| then FlatMapRows(setA[indexA + 1..], setB) else [])
  {
    assert setA[indexA..][1..] == setA[indexA + 1..];
  }

  /** generateCartesianProductRecursive: validate, then fill a fresh list from index 0. */
  method GenerateCartesianProductRecursive(setA: Option<seq<SetElement>>, setB: Option<seq<SetElement>>) returns (r: Result<seq<CartesianPair>>)
    ensures r == GenerateCartesianProductStream(setA, setB)
    ensures r.Success? ==> IsProductOf(r.value, setA.value, setB.value)
  {
    var v := ValidateSets(setA, setB);
    if v.Fail? {
      return Failure(v.message);
    }
    var acc := new PairList();
    var filled := GenerateRecursive(setA.value, setB.value, 0, acc);
    assert setA.value[0..] == setA.value;
    assert filled.items == FlatMapRows(setA.value, setB.value);
    r := Success(filled.items);
  }

  // ---------------------------------------------------------------------------
  // filterNumericPairs
  // ---------------------------------------------------------------------------

  /** filterNumericPairs: the numeric pairs of the product, in their order. */
  function FilterNumericPairs(product: seq<CartesianPair>, isNumeric: string -> bool): (r: seq<CartesianPair>)
    ensures |r| <= |product|
    ensures forall k :: 0 <= k < |r| ==> IsNumericPair(r[k], isNumeric)
  {
    if product == [] then []
    else
      var init, last := product[..|product| - 1], product[|product| - 1];
      assert product == init + [last];
      FilterNumericPairs(init, isNumeric) + (if IsNumericPair(last, isNumeric) then [last] else [])
  }

  /** The filter keeps every numeric pair, as often as it occurs, and nothing else. */
  lemma {:induction false} FilterNumericPairsIsExact(product: seq<CartesianPair>, isNumeric: string -> bool)
    ensures forall p ::
      multiset(FilterNumericPairs(product, isNumeric))[p] == if IsNumericPair(p, isNumeric) then multiset(product)[p] else 0
    decreases |product|
  {
    if product != [] {
      var init, last := product[..|product| - 1], product[|product| - 1];
      assert product == init + [last];
      FilterNumericPairsIsExact(init, isNumeric);
    }
  }

  /** The filter keeps the order of what it keeps. */
  lemma {:induction false} FilterNumericPairsIsSubsequence(product: seq<CartesianPair>, isNumeric: string -> bool)
    ensures Subseq(FilterNumericPairs(product, isNumeric), product)
    decreases |product|
  {
    if product == [] {
      assert Subseq<CartesianPair>([], []);
    } else {
      var init, last := product[..|product| - 1], product[|product| - 1];
      assert product == init + [last];
      FilterNumericPairsIsSubsequence(init, isNumeric);
      if IsNumericPair(last, isNumeric) {
        SubseqKeep(FilterNumericPairs(init, isNumeric), init, last);
      } else {
        assert FilterNumericPairs(product, isNumeric) == FilterNumericPairs(init, isNumeric);
        SubseqSkip(FilterNumericPairs(init, isNumeric), init, last);
      }
    }
  }

  lemma {:induction false} FilterNumericPairsConcat(x: seq<CartesianPair>, y: seq<CartesianPair>, isNumeric: string -> bool)
    ensures FilterNumericPairs(x + y, isNumeric) == FilterNumericPairs(x, isNumeric) + FilterNumericPairs(y, isNumeric)
    decreases |y|
  {
    if y == [] {
      assert x + y == x;
    } else {
      var y' := y[..|y| - 1];
      assert (x + y)[..|x + y| - 1] == x + y';
      FilterNumericPairsConcat(x, y', isNumeric);
    }
  }

  // ---------------------------------------------------------------------------
  // getCardinality
  // ---------------------------------------------------------------------------

  /** getCardinality: |A| · |B|, or 0 when either list is null. */
  function GetCardinality(setA: Option<seq<SetElement>>, setB: Option<seq<SetElement>>): (n: int)
    ensures n >= 0
    ensures n == 0 <==> setA.None? || setB.None? || |setA.value| == 0 || |setB.value| == 0
  {
    if setA.None? || setB.None? then 0 else |setA.value| * |setB.value|
  }

  /** Whenever generation succeeds, the cardinality is the size of the product it builds. */
  lemma CardinalityIsProductSize(setA: Option<seq<SetElement>>, setB: Option<seq<SetElement>>)
    ensures var r := GenerateCartesianProductStream(setA, setB);
      r.Success? ==> |r.value| == GetCardinality(setA, setB)
  {
    if setA.Some? && setB.Some? {
      MulIsMultiplication(|setA.value|, |setB.value|);
    }
  }

  /** On a null list the cardinality answers 0 where generation throws instead. */
  lemma CardinalityOfNullList(setA: Option<seq<SetElement>>, setB: Option<seq<SetElement>>)
    requires setA.None? || setB.None?
    ensures GetCardinality(setA, setB) == 0
    ensures GenerateCartesianProductStream(setA, setB) == Failure("Sets cannot be null")
  {
  }

  // ---------------------------------------------------------------------------
  // containsPair
  // ---------------------------------------------------------------------------

  /**
   * containsPair: some pair has the given first and second values. A null value
   * matches nothing, since String.equals(null) is false.
   */
  function ContainsPair(product: seq<CartesianPair>, first: Option<string>, second: Option<string>): (b: bool)
    ensures b <==> (first.Some? && second.Some? &&
      exists k :: 0 <= k < |product| && product[k].first.value == first.value && product[k].second.value == second.value)
  {
    if product == [] then false
    else
      var p := product[0];
      (first.Some? && second.Some? && p.first.value == first.value && p.second.value == second.value)
      || (assert forall k :: 0 <= k < |product| - 1 ==> product[1..][k] == product[k + 1];
          ContainsPair(product[1..], first, second))
  }

  /**
   * In a product A × B, containsPair holds for the values of any a in A and b
   * in B, and only for those.
   */
  lemma ContainsPairOfProduct(p: seq<CartesianPair>, setA: seq<SetElement>, setB: seq<SetElement>, x: string, y: string)
    requires IsProductOf(p, setA, setB)
    ensures ContainsPair(p, Some(x), Some(y)) <==>
      exists i, j :: 0 <= i < |setA| && 0 <= j < |setB| && setA[i].value == x && setB[j].value == y
  {
    if ContainsPair(p, Some(x), Some(y)) {
      ContainedPairComesFromSets(p, setA, setB, x, y);
    }
    if exists i, j :: 0 <= i < |setA| && 0 <= j < |setB| && setA[i].value == x && setB[j].value == y {
      var i, j :| 0 <= i < |setA| && 0 <= j < |setB| && setA[i].value == x && setB[j].value == y;
      ProductHoldsPair(p, setA, setB, i, j);
    }
  }

  /** A pair of values found in A × B comes from an element of A and an element of B. */
  lemma ContainedPairComesFromSets(p: seq<CartesianPair>, setA: seq<SetElement>, setB: seq<SetElement>, x: string, y: string)
    requires IsProductOf(p, setA, setB)
    requires ContainsPair(p, Some(x), Some(y))
    ensures exists i, j :: 0 <= i < |setA| && 0 <= j < |setB| && setA[i].value == x && setB[j].value == y
  {
    var k :| 0 <= k < |p| && p[k].first.value == x && p[k].second.value == y;
    var i, j := ProductIndex(p, setA, setB, k);
    assert setA[i].value == x && setB[j].value == y;
  }

  /** A × B contains the values of A[i] and B[j]. */
  lemma ProductHoldsPair(p: seq<CartesianPair>, setA: seq<SetElement>, setB: seq<SetElement>, i: nat, j: nat)
    requires IsProductOf(p, setA, setB)
    requires i < |setA| && j < |setB|
    ensures ContainsPair(p, Some(setA[i].value), Some(setB[j].value))
  {
    ProductEntry(p, setA, setB, i, j);
    var k := Mul(i, |setB|) + j;
    assert p[k].first.value == setA[i].value && p[k].second.value == setB[j].value;
  }

  // ---------------------------------------------------------------------------
  // generateStatistics
  // ---------------------------------------------------------------------------

  /** The three counts generateStatistics prints. */
  datatype Statistics = Statistics(total: int, numeric: int, nonNumeric: int)

  /** generateStatistics: the number of pairs, of numeric pairs, and the difference. */
  function GenerateStatistics(product: seq<CartesianPair>, isNumeric: string -> bool): (s: Statistics)
    ensures s.total == |product|
    ensures s.numeric == |FilterNumericPairs(product, isNumeric)|
    ensures 0 <= s.numeric <= s.total && s.nonNumeric >= 0
    ensures s.numeric + s.nonNumeric == s.total
  {
    var numericPairs := |FilterNumericPairs(product, isNumeric)|;
    Statistics(|product|, numericPairs, |product| - numericPairs)
  }

  /** How many elements of a list are numeric. */
  function NumericElementCount(es: seq<SetElement>, isNumeric: string -> bool): nat
    decreases |es|
  {
    if es == [] then 0
    else NumericElementCount(es[..|es| - 1], isNumeric) + (if IsNumeric(es[|es| - 1], isNumeric) then 1 else 0)
  }

  /** A row has as many numeric pairs as B has numeric elements, if a is numeric, and none otherwise. */
  lemma {:induction false} NumericPairsOfRow(a: SetElement, setB: seq<SetElement>, isNumeric: string -> bool)
    ensures |FilterNumericPairs(Row(a, setB), isNumeric)| ==
      if IsNumeric(a, isNumeric) then NumericElementCount(setB, isNumeric) else 0
    decreases |setB|
  {
    if setB != [] {
      var init := setB[..|setB| - 1];
      var rw := Row(a, setB);
      assert rw[..|rw| - 1] == Row(a, init);
      NumericPairsOfRow(a, init, isNumeric);
    }
  }

  /** The numeric pairs of A × B: numeric elements of A times numeric elements of B. */
  lemma NumericPairsOfProduct(setA: seq<SetElement>, setB: seq<SetElement>, isNumeric: string -> bool)
    ensures GenerateStatistics(FlatMapRows(setA, setB), isNumeric).numeric ==
      NumericElementCount(setA, isNumeric) * NumericElementCount(setB, isNumeric)
  {
    NumericPairCount(setA, setB, isNumeric);
  }

  lemma {:induction false} NumericPairCount(setA: seq<SetElement>, setB: seq<SetElement>, isNumeric: string -> bool)
    ensures |FilterNumericPairs(FlatMapRows(setA, setB), isNumeric)| ==
      NumericElementCount(setA, isNumeric) * NumericElementCount(setB, isNumeric)
    decreases |setA|
  {
    if setA != [] {
      var a, rest := setA[0], setA[1..];
      NumericPairCount(rest, setB, isNumeric);
      FilterNumericPairsConcat(Row(a, setB), FlatMapRows(rest, setB), isNumeric);
      NumericPairsOfRow(a, setB, isNumeric);
      NumericElementCountFront(setA, isNumeric);
      var x, y, nb := (if IsNumeric(a, isNumeric) then 1 else 0), NumericElementCount(rest, isNumeric), NumericElementCount(setB, isNumeric);
      assert (x + y) * nb == x * nb + y * nb;
    }
  }

  /** The numeric count, taken from the front. */
  lemma {:induction false} NumericElementCountFront(es: seq<SetElement>, isNumeric: string -> bool)
    requires es != []
    ensures NumericElementCount(es, isNumeric) ==
      (if IsNumeric(es[0], isNumeric) then 1 else 0) + NumericElementCount(es[1..], isNumeric)
    decreases |es|
  {
    if |es| > 1 {
      var init := es[..|es| - 1];
      NumericElementCountFront(init, isNumeric);
      assert init[1..] == es[1..][..|es[1..]| - 1];
      assert init[0] == es[0];
    } else {
      assert es[1..] == [];
      assert es[..0] == [];
    }
  }
}
