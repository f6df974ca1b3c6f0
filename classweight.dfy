/** TPreprocessor_addClassWeight: a fresh weight meta per row, the old weight
    times a factor that depends on the row's class.

    The class distribution (getClassDistribution) is computed outside the
    operator; it is the input `dist`, one mass per class value, and its
    total `abs` is the sum of its entries. Float arithmetic is modelled over
    the reals. */
module ClassWeight {
  import opened Data

  /** s[0] + ... + s[n-1] */
  function SumTo(s: seq<real>, n: nat): real
    requires n <= |s|
  {
    if n == 0 then 0.0 else SumTo(s, n - 1) + s[n - 1]
  }

  /** d[0]·w[0] + ... + d[n-1]·w[n-1] */
  function Dot(d: seq<real>, w: seq<real>, n: nat): real
    requires n <= |d| && n <= |w|
  {
    if n == 0 then 0.0 else Dot(d, w, n - 1) + d[n - 1] * w[n - 1]
  }

  /** The number of entries among the first n that are positive. */
  function CountPositive(s: seq<real>, n: nat): (k: nat)
    requires n <= |s|
    ensures k <= n
  {
    if n == 0 then 0 else CountPositive(s, n - 1) + (if s[n - 1] > 0.0 then 1 else 0)
  }

  /** A positive entry makes the count positive. */
  lemma {:induction false} CountPositiveWitness(s: seq<real>, n: nat, c: nat)
    requires c < n <= |s| && s[c] > 0.0
    ensures CountPositive(s, n) > 0
  {
    if c < n - 1 {
      CountPositiveWitness(s, n - 1, c);
    }
  }

  /** The weights of the equalize-only regime: N/k/d[c] for a class with
      positive mass, 1 for the others. */
  function EqualizedWeights(dist: seq<real>, N: real, k: nat): (w: seq<real>)
    requires forall c :: 0 <= c < |dist| && dist[c] > 0.0 ==> k > 0
    ensures |w| == |dist|
  {
    seq(|dist|, c requires 0 <= c < |dist| => if dist[c] > 0.0 then N / (k as real) / dist[c] else 1.0)
  }

  /** Every weight multiplied by f. */
  function Scale(cw: seq<real>, f: real): (w: seq<real>)
    ensures |w| == |cw|
  {
    seq(|cw|, i requires 0 <= i < |cw| => cw[i] * f)
  }

  /** tot_w · abs / total, the factor every explicit weight is multiplied by. */
  function EqualizeFactor(cw: seq<real>, dist: seq<real>): real
    requires |dist| <= |cw| && Dot(dist, cw, |dist|) != 0.0
  {
    SumTo(cw, |dist|) * (SumTo(dist, |dist|) / Dot(dist, cw, |dist|))
  }

  /** Equalization with explicit weights: None when the weighted mass `total` is 0. */
  function WeightedEqualized(cw: seq<real>, dist: seq<real>): Option<seq<real>>
    requires |dist| <= |cw|
  {
    if Dot(dist, cw, |dist|) == 0.0 then None else Some(Scale(cw, EqualizeFactor(cw, dist)))
  }

  /** Equalization alone, with k the number of classes with positive mass. */
  function Equalized(dist: seq<real>): (w: seq<real>)
    ensures |w| == |dist|
  {
    var k := CountPositive(dist, |dist|);
    assert forall c :: 0 <= c < |dist| && dist[c] > 0.0 ==> k > 0 by {
      forall c | 0 <= c < |dist| && dist[c] > 0.0 ensures k > 0 { CountPositiveWitness(dist, |dist|, c); }
    }
    EqualizedWeights(dist, SumTo(dist, |dist|), k)
  }

  /** The per-class weights, or None for the no-op that returns weight id 0. */
  function WeightVector(classVar: Option<Variable>, cw: seq<real>, equalize: bool, dist: seq<real>)
    : Result<Option<seq<real>>>
  {
    if classVar.None? || classVar.value.varType != IntVar then Failure(ClassLessOrNonDiscrete)
    else if (!equalize && |cw| == 0) || classVar.value.noOfValues == 0 then Success(None)
    else if |cw| > 0 && |cw| != classVar.value.noOfValues then Failure(ClassWeightsSize)
    else if !equalize then Success(Some(cw))
    else if |dist| > classVar.value.noOfValues then Failure(OutOfRangeClasses)
    else if |cw| > 0 then Success(WeightedEqualized(cw, dist))
    else Success(Some(Equalized(dist)))
  }

  /** TExample::getClass: the class value, stored last in the row. */
  function ClassValue(row: Row): Value
    requires |row.values| > 0
  {
    row.values[|row.values| - 1]
  }

  predicate HasClassCell(rows: seq<Row>) {
    forall i :: 0 <= i < |rows| ==> |rows[i].values| > 0
  }

  /** The row's class is a known value that indexes the weight vector; a special
      value's payload is not a class index. */
  predicate ClassIndexes(row: Row, weights: seq<real>)
    requires |row.values| > 0
  {
    !ClassValue(row).IsSpecial() && 0 <= ClassValue(row).intV < |weights|
  }

  /** A row's new weight: its old weight times the weight of its class. */
  function ClassReweighted(row: Row, weightId: int, weights: seq<real>): real
    requires |row.values| > 0 && ClassIndexes(row, weights)
  {
    Weight(row, weightId) * weights[ClassValue(row).intV]
  }

  /** One row of the final loop: the old weight times the weight of its class, under the fresh id. */
  function ReweightRow(row: Row, weightId: int, freshId: int, weights: seq<real>): Result<Row>
    requires |row.values| > 0
  {
    if ClassIndexes(row, weights) then Success(SetMeta(row, freshId, ClassReweighted(row, weightId, weights)))
    else Failure(ClassIndexOutOfRange)
  }

  /** The final loop over the first n rows. */
  function ReweightRows(rows: seq<Row>, weightId: int, freshId: int, weights: seq<real>, n: nat)
    : (r: Result<seq<Row>>)
    requires n <= |rows| && HasClassCell(rows)
    ensures r.Success? ==> |r.value| == n
  {
    if n == 0 then Success([])
    else match ReweightRows(rows, weightId, freshId, weights, n - 1)
      case Failure(e) => Failure(e)
      case Success(done) =>
        match ReweightRow(rows[n - 1], weightId, freshId, weights)
        case Failure(e) => Failure(e)
        case Success(row) => Success(done + [row])
  }

  /** The table TPreprocessor_addClassWeight returns. */
  function ClassWeights(gen: Table, weightId: int, cw: seq<real>, equalize: bool, dist: seq<real>, freshId: int)
    : Result<Output>
    requires gen.Valid()
  {
    match WeightVector(gen.domain.classVar, cw, equalize, dist)
    case Failure(e) => Failure(e)
    case Success(None) => Success(Output(Table(gen.domain, gen.rows), 0))
    case Success(Some(weights)) =>
      ValidClassCells(gen);
      match ReweightRows(gen.rows, weightId, freshId, weights, |gen.rows|)
      case Failure(e) => Failure(e)
      case Success(rows) => Success(Output(Table(gen.domain, rows), freshId))
  }

  /** Rows that fit a domain with a class have a class cell. */
  lemma ValidClassCells(gen: Table)
    requires gen.Valid() && gen.domain.classVar.Some?
    ensures HasClassCell(gen.rows)
  {
  }

  // ---------------------------------------------------------------------
  // Properties
  // ---------------------------------------------------------------------

  /** The guards, in the order the operator checks them. */
  lemma WeightVectorGuards(classVar: Option<Variable>, cw: seq<real>, equalize: bool, dist: seq<real>)
    ensures var r := WeightVector(classVar, cw, equalize, dist);
            (r == Failure(ClassLessOrNonDiscrete) <==> classVar.None? || classVar.value.varType != IntVar)
            && (classVar.Some? && classVar.value.varType == IntVar ==>
                  var nocl := classVar.value.noOfValues;
                  ((!equalize && |cw| == 0) || nocl == 0 ==> r == Success(None))
                  && (r == Failure(ClassWeightsSize) <==>
                        !((!equalize && |cw| == 0) || nocl == 0) && |cw| > 0 && |cw| != nocl)
                  && (r == Failure(OutOfRangeClasses) <==>
                        !((!equalize && |cw| == 0) || nocl == 0) && (|cw| == 0 || |cw| == nocl)
                        && equalize && |dist| > nocl)
                  && (r.Success? && r.value.Some? ==> |r.value.value| == if |cw| > 0 then nocl else |dist|))
  {
  }

  /** Scaling every weight scales the weighted mass. */
  lemma {:induction false} DotScale(d: seq<real>, w: seq<real>, f: real, n: nat)
    requires n <= |d| && n <= |w|
    ensures Dot(d, Scale(w, f), n) == f * Dot(d, w, n)
  {
    if n > 0 {
      DotScale(d, w, f, n - 1);
      assert d[n - 1] * (w[n - 1] * f) == f * (d[n - 1] * w[n - 1]);
    }
  }

  /** With equalization and explicit weights, the regime is a no-op exactly
      when the weighted mass is 0, and otherwise the reweighted class masses
      sum to tot_w·abs. */
  lemma EqualizeWithWeightsMass(cw: seq<real>, dist: seq<real>)
    requires |dist| <= |cw|
    ensures WeightedEqualized(cw, dist).None? <==> Dot(dist, cw, |dist|) == 0.0
    ensures WeightedEqualized(cw, dist).Some? ==>
              Dot(dist, WeightedEqualized(cw, dist).value, |dist|) == SumTo(cw, |dist|) * SumTo(dist, |dist|)
  {
    if Dot(dist, cw, |dist|) == 0.0 { return; }
    var total := Dot(dist, cw, |dist|);
    var f := EqualizeFactor(cw, dist);
    DotScale(dist, cw, f, |dist|);
    var abs, totW := SumTo(dist, |dist|), SumTo(cw, |dist|);
    assert (abs / total) * total == abs;
    calc {
      f * total;
      == totW * (abs / total) * total;
      == totW * ((abs / total) * total);
      == totW * abs;
    }
  }

  /** With equalization only, every class with positive mass carries abs/k after reweighting. */
  lemma EqualizedClassMass(dist: seq<real>, c: nat)
    requires c < |dist| && dist[c] > 0.0
    ensures CountPositive(dist, |dist|) > 0
    ensures dist[c] * Equalized(dist)[c] == SumTo(dist, |dist|) / (CountPositive(dist, |dist|) as real)
  {
    var k := CountPositive(dist, |dist|);
    CountPositiveWitness(dist, |dist|, c);
    var q := SumTo(dist, |dist|) / (k as real);
    assert Equalized(dist)[c] == q / dist[c];
    assert dist[c] * (q / dist[c]) == q;
  }

  lemma DivCancel(x: real, y: real)
    requires y != 0.0
    ensures y * (x / y) == x && x / y * y == x
  {
  }

  /** q added m times. */
  function Repeat(q: real, m: nat): real {
    if m == 0 then 0.0 else Repeat(q, m - 1) + q
  }

  lemma {:induction false} RepeatIsProduct(q: real, m: nat)
    ensures Repeat(q, m) == q * (m as real)
  {
    if m > 0 {
      RepeatIsProduct(q, m - 1);
      assert q * (m as real) == q * ((m - 1) as real) + q;
    }
  }

  /** The reweighted mass of the first n classes, when every class with mass
      carries q after reweighting and no mass is negative: q once per class with mass. */
  lemma {:induction false} EqualizedPrefixMass(dist: seq<real>, w: seq<real>, q: real, n: nat)
    requires n <= |dist| == |w|
    requires forall c :: 0 <= c < |dist| ==> dist[c] >= 0.0
    requires forall c :: 0 <= c < |dist| && dist[c] > 0.0 ==> dist[c] * w[c] == q
    ensures Dot(dist, w, n) == Repeat(q, CountPositive(dist, n))
  {
    if n > 0 {
      EqualizedPrefixMass(dist, w, q, n - 1);
      if dist[n - 1] > 0.0 {
        assert dist[n - 1] * w[n - 1] == q;
      } else {
        assert dist[n - 1] == 0.0;
        assert dist[n - 1] * w[n - 1] == 0.0;
      }
    }
  }

  /** With equalization only, every class with mass carries the same share abs/k. */
  lemma EqualizedShares(dist: seq<real>)
    requires CountPositive(dist, |dist|) > 0
    ensures forall c :: 0 <= c < |dist| && dist[c] > 0.0 ==>
              dist[c] * Equalized(dist)[c] == SumTo(dist, |dist|) / (CountPositive(dist, |dist|) as real)
  {
    forall c | 0 <= c < |dist| && dist[c] > 0.0
      ensures dist[c] * Equalized(dist)[c] == SumTo(dist, |dist|) / (CountPositive(dist, |dist|) as real)
    {
      EqualizedClassMass(dist, c);
    }
  }

  /** Shares q for the classes with mass add up to abs when q times their number k is abs. */
  lemma SharesTotal(dist: seq<real>, w: seq<real>, q: real, abs: real, k: nat)
    requires |dist| == |w|
    requires forall c :: 0 <= c < |dist| ==> dist[c] >= 0.0
    requires forall c :: 0 <= c < |dist| && dist[c] > 0.0 ==> dist[c] * w[c] == q
    requires abs == SumTo(dist, |dist|) && k == CountPositive(dist, |dist|)
    requires q * (k as real) == abs
    ensures Dot(dist, w, |dist|) == abs
  {
    EqualizedPrefixMass(dist, w, q, |dist|);
    RepeatIsProduct(q, k);
  }

  /** Weights under which every class with mass carries abs/k restore the total abs. */
  lemma TotalFromShares(dist: seq<real>, w: seq<real>, abs: real, k: nat)
    requires |dist| == |w|
    requires forall c :: 0 <= c < |dist| ==> dist[c] >= 0.0
    requires abs == SumTo(dist, |dist|) && k == CountPositive(dist, |dist|) && k > 0
    requires forall c :: 0 <= c < |dist| && dist[c] > 0.0 ==> dist[c] * w[c] == abs / (k as real)
    ensures Dot(dist, w, |dist|) == abs
  {
    DivCancel(abs, k as real);
    SharesTotal(dist, w, abs / (k as real), abs, k);
  }

  /** Equalization alone preserves the total mass: the reweighted classes together weigh abs. */
  lemma EqualizedTotalMass(dist: seq<real>)
    requires forall c :: 0 <= c < |dist| ==> dist[c] >= 0.0
    requires CountPositive(dist, |dist|) > 0
    ensures Dot(dist, Equalized(dist), |dist|) == SumTo(dist, |dist|)
  {
    EqualizedShares(dist);
    TotalFromShares(dist, Equalized(dist), SumTo(dist, |dist|), CountPositive(dist, |dist|));
  }

  /** The distribution {30, 10, 0}: two classes with mass, abs = 40, weights 40/2/30, 2 and 1. */
  lemma EqualizedExample()
    ensures Equalized([30.0, 10.0, 0.0]) == [40.0 / 2.0 / 30.0, 2.0, 1.0]
  {
    var dist := [30.0, 10.0, 0.0];
    assert CountPositive(dist, 3) == 2;
    assert SumTo(dist, 3) == 40.0;
    var w := Equalized(dist);
    assert w[1] == 2.0;
    assert w == [40.0 / 2.0 / 30.0, 2.0, 1.0];
  }

  lemma {:induction false} ReweightRowsPrefix(rows: seq<Row>, weightId: int, freshId: int, weights: seq<real>, n: nat, m: nat)
    requires n <= m <= |rows| && HasClassCell(rows)
    requires ReweightRows(rows, weightId, freshId, weights, n).Failure?
    ensures ReweightRows(rows, weightId, freshId, weights, m) == ReweightRows(rows, weightId, freshId, weights, n)
    decreases m - n
  {
    if n < m {
      ReweightRowsPrefix(rows, weightId, freshId, weights, n, m - 1);
    }
  }

  /** The final loop fails exactly when some row's class indexes outside the weight vector. */
  lemma {:induction false} ReweightRowsSucceeds(rows: seq<Row>, weightId: int, freshId: int, weights: seq<real>, n: nat)
    requires n <= |rows| && HasClassCell(rows)
    ensures ReweightRows(rows, weightId, freshId, weights, n).Success?
            <==> forall i :: 0 <= i < n ==> ClassIndexes(rows[i], weights)
  {
    if n > 0 {
      ReweightRowsSucceeds(rows, weightId, freshId, weights, n - 1);
      if ReweightRows(rows, weightId, freshId, weights, n - 1).Failure? {
        var i :| 0 <= i < n - 1 && !ClassIndexes(rows[i], weights);
        assert !(forall i :: 0 <= i < n ==> ClassIndexes(rows[i], weights));
      }
    }
  }

  /** Otherwise every row keeps its values and gets, under the fresh id, its
      old weight times the weight of its class. */
  lemma {:induction false} ReweightRowsValues(rows: seq<Row>, weightId: int, freshId: int, weights: seq<real>, n: nat)
    requires n <= |rows| && HasClassCell(rows)
    requires ReweightRows(rows, weightId, freshId, weights, n).Success?
    ensures forall i :: 0 <= i < n ==>
              ClassIndexes(rows[i], weights)
              && ReweightRows(rows, weightId, freshId, weights, n).value[i]
                 == SetMeta(rows[i], freshId, ClassReweighted(rows[i], weightId, weights))
  {
    if n > 0 {
      ReweightRowsSucceeds(rows, weightId, freshId, weights, n);
      ReweightRowsStep(rows, weightId, freshId, weights, n);
      ReweightRowsValues(rows, weightId, freshId, weights, n - 1);
      assert forall i :: 0 <= i < n - 1 ==>
        ReweightRows(rows, weightId, freshId, weights, n).value[i]
        == ReweightRows(rows, weightId, freshId, weights, n - 1).value[i];
    }
  }

  /** One more row through the final loop. */
  lemma ReweightRowsStep(rows: seq<Row>, weightId: int, freshId: int, weights: seq<real>, n: nat)
    requires 0 < n <= |rows| && HasClassCell(rows)
    requires ReweightRows(rows, weightId, freshId, weights, n - 1).Success?
    requires ClassIndexes(rows[n - 1], weights)
    ensures ReweightRows(rows, weightId, freshId, weights, n)
            == Success(ReweightRows(rows, weightId, freshId, weights, n - 1).value
                       + [SetMeta(rows[n - 1], freshId, ClassReweighted(rows[n - 1], weightId, weights))])
  {
  }

  /** Weights only: every row's new weight is its old weight times classWeights[class]. */
  lemma WeightsOnlyRows(gen: Table, weightId: int, cw: seq<real>, freshId: int, i: nat)
    requires gen.Valid() && i < |gen.rows|
    requires gen.domain.classVar.Some? && gen.domain.classVar.value.varType == IntVar
    requires |cw| == gen.domain.classVar.value.noOfValues > 0
    requires ClassWeights(gen, weightId, cw, false, [], freshId).Success? && freshId != 0
    ensures var out := ClassWeights(gen, weightId, cw, false, [], freshId).value;
            out.weightId == freshId && |out.table.rows| == |gen.rows|
            && ClassIndexes(gen.rows[i], cw)
            && out.table.rows[i].values == gen.rows[i].values
            && Weight(out.table.rows[i], freshId) == Weight(gen.rows[i], weightId) * cw[ClassValue(gen.rows[i]).intV]
  {
    ValidClassCells(gen);
    ReweightRowsValues(gen.rows, weightId, freshId, cw, |gen.rows|);
  }

  // ---------------------------------------------------------------------
  // The loops of the operator
  // ---------------------------------------------------------------------

  /** The loop over the distribution that accumulates `total` and `tot_w`. */
  method WeightedTotals(dist: seq<real>, cw: seq<real>) returns (total: real, totW: real)
    requires |dist| <= |cw|
    ensures total == Dot(dist, cw, |dist|) && totW == SumTo(cw, |dist|)
  {
    total, totW := 0.0, 0.0;
    var c := 0;
    while c < |dist|
      invariant 0 <= c <= |dist|
      invariant total == Dot(dist, cw, c) && totW == SumTo(cw, c)
    {
      total := total + dist[c] * cw[c];
      totW := totW + cw[c];
      c := c + 1;
    }
  }

  /** ddist.abs */
  method Mass(dist: seq<real>) returns (abs: real)
    ensures abs == SumTo(dist, |dist|)
  {
    abs := 0.0;
    var c := 0;
    while c < |dist|
      invariant 0 <= c <= |dist| && abs == SumTo(dist, c)
    {
      abs := abs + dist[c];
      c := c + 1;
    }
  }

  /** The explicit class weights, each multiplied by the equalizing factor. */
  method ScaleWeights(cw: seq<real>, fact: real) returns (weights: seq<real>)
    ensures weights == Scale(cw, fact)
  {
    weights := [];
    var i := 0;
    while i < |cw|
      invariant 0 <= i <= |cw| && |weights| == i
      invariant forall j :: 0 <= j < i ==> weights[j] == Scale(cw, fact)[j]
    {
      weights := weights + [cw[i] * fact];
      i := i + 1;
    }
  }

  /** The two loops of the equalize-only regime: count the classes with mass, then push the weights. */
  method EqualizeOnly(dist: seq<real>, N: real) returns (weights: seq<real>)
    requires N == SumTo(dist, |dist|)
    ensures weights == Equalized(dist)
  {
    var noNullClasses := 0;
    var c := 0;
    while c < |dist|
      invariant 0 <= c <= |dist| && noNullClasses == CountPositive(dist, c)
    {
      if dist[c] > 0.0 {
        noNullClasses := noNullClasses + 1;
      }
      c := c + 1;
    }
    forall c | 0 <= c < |dist| && dist[c] > 0.0 ensures noNullClasses > 0 {
      CountPositiveWitness(dist, |dist|, c);
    }
    weights := [];
    c := 0;
    while c < |dist|
      invariant 0 <= c <= |dist| && |weights| == c
      invariant forall j :: 0 <= j < c ==> weights[j] == EqualizedWeights(dist, N, noNullClasses)[j]
    {
      if dist[c] > 0.0 {
        weights := weights + [N / (noNullClasses as real) / dist[c]];
      } else {
        weights := weights + [1.0];
      }
      c := c + 1;
    }
    assert weights == EqualizedWeights(dist, N, noNullClasses);
  }

  /** The final loop: every row of the copy gets its reweighted value under the fresh meta id. */
  method ApplyWeights(table: ExampleTable, weightId: int, freshId: int, weights: seq<real>)
    returns (r: Result<seq<Row>>)
    requires HasClassCell(table.examples)
    modifies table
    ensures table.domain == old(table.domain)
    ensures r == ReweightRows(old(table.examples), weightId, freshId, weights, |old(table.examples)|)
    ensures r.Success? ==> table.examples == r.value
  {
    ghost var rows := table.examples;
    assert rows[0..] == rows;
    var i := 0;
    while i < |table.examples|
      invariant 0 <= i <= |rows| && |table.examples| == |rows|
      invariant table.domain == old(table.domain)
      invariant ReweightedUpTo(rows, weightId, freshId, weights, i, table.examples)
    {
      var ok := ReweightAt(table, rows, weightId, freshId, weights, i);
      if !ok {
        return Failure(ClassIndexOutOfRange);
      }
      i := i + 1;
    }
    ReweightedAll(rows, weightId, freshId, weights, table.examples);
    r := Success(table.examples);
  }

  /** The loop's state after i rows: those are reweighted and the rest are untouched. */
  ghost predicate ReweightedUpTo(rows: seq<Row>, weightId: int, freshId: int, weights: seq<real>, i: nat,
                                 current: seq<Row>)
    requires i <= |rows| && HasClassCell(rows)
  {
    ReweightRows(rows, weightId, freshId, weights, i).Success?
    && current == ReweightRows(rows, weightId, freshId, weights, i).value + rows[i..]
  }

  /** After the last row, the table is the fold's result. */
  lemma ReweightedAll(rows: seq<Row>, weightId: int, freshId: int, weights: seq<real>, current: seq<Row>)
    requires HasClassCell(rows) && ReweightedUpTo(rows, weightId, freshId, weights, |rows|, current)
    ensures ReweightRows(rows, weightId, freshId, weights, |rows|) == Success(current)
  {
    var done := ReweightRows(rows, weightId, freshId, weights, |rows|).value;
    assert rows[|rows|..] == [];
    assert done + rows[|rows|..] == done;
  }

  /** One step of the ApplyWeights loop: row i gets its reweighted meta, or the
      loop stops when its class is not a known value indexing the weight vector. */
  method ReweightAt(table: ExampleTable, ghost rows: seq<Row>, weightId: int, freshId: int, weights: seq<real>, i: nat)
    returns (ok: bool)
    requires i < |rows| && HasClassCell(rows)
    requires ReweightedUpTo(rows, weightId, freshId, weights, i, table.examples)
    modifies table
    ensures table.domain == old(table.domain) && |table.examples| == |rows|
    ensures !ok ==> ReweightRows(rows, weightId, freshId, weights, |rows|) == Failure(ClassIndexOutOfRange)
    ensures ok ==> ReweightedUpTo(rows, weightId, freshId, weights, i + 1, table.examples)
  {
    ReweightRowsUnchangedTail(rows, weightId, freshId, weights, i, table.examples);
    var ex := table.examples[i];
    if !ClassIndexes(ex, weights) {
      ReweightRowsStop(rows, weightId, freshId, weights, i);
      return false;
    }
    ghost var before := table.examples;
    table.SetWeight(i, freshId, ClassReweighted(ex, weightId, weights));
    ReweightRowsExtend(rows, weightId, freshId, weights, i, before, table.examples);
    ok := true;
  }

  lemma UpdateAt<T>(a: seq<T>, x: T, y: T, b: seq<T>)
    ensures (a + ([x] + b))[|a| := y] == (a + [y]) + b
  {
    assert forall k :: 0 <= k < |a| + 1 + |b| ==> (a + ([x] + b))[|a| := y][k] == ((a + [y]) + b)[k];
  }

  /** The rows the loop has not reached yet are still the input rows. */
  lemma ReweightRowsUnchangedTail(rows: seq<Row>, weightId: int, freshId: int, weights: seq<real>, i: nat,
                                  current: seq<Row>)
    requires i < |rows| && HasClassCell(rows)
    requires ReweightRows(rows, weightId, freshId, weights, i).Success?
    requires current == ReweightRows(rows, weightId, freshId, weights, i).value + rows[i..]
    ensures |current| == |rows| && current[i] == rows[i]
  {
  }

  /** A row whose class indexes outside the weight vector stops the loop with an error. */
  lemma ReweightRowsStop(rows: seq<Row>, weightId: int, freshId: int, weights: seq<real>, i: nat)
    requires i < |rows| && HasClassCell(rows)
    requires ReweightRows(rows, weightId, freshId, weights, i).Success?
    requires !ClassIndexes(rows[i], weights)
    ensures ReweightRows(rows, weightId, freshId, weights, |rows|) == Failure(ClassIndexOutOfRange)
  {
    assert ReweightRows(rows, weightId, freshId, weights, i + 1) == Failure(ClassIndexOutOfRange);
    ReweightRowsPrefix(rows, weightId, freshId, weights, i + 1, |rows|);
  }

  /** Reweighting row i in place extends the done prefix by one row. */
  lemma ReweightRowsExtend(rows: seq<Row>, weightId: int, freshId: int, weights: seq<real>, i: nat,
                           before: seq<Row>, after: seq<Row>)
    requires i < |rows| && HasClassCell(rows)
    requires ReweightRows(rows, weightId, freshId, weights, i).Success?
    requires ClassIndexes(rows[i], weights)
    requires before == ReweightRows(rows, weightId, freshId, weights, i).value + rows[i..]
    requires after == before[i := SetMeta(rows[i], freshId, ClassReweighted(rows[i], weightId, weights))]
    ensures ReweightRows(rows, weightId, freshId, weights, i + 1).Success?
    ensures after == ReweightRows(rows, weightId, freshId, weights, i + 1).value + rows[i + 1..]
  {
    ReweightRowsStep(rows, weightId, freshId, weights, i + 1);
    assert rows[i..] == [rows[i]] + rows[i + 1..];
    UpdateAt(ReweightRows(rows, weightId, freshId, weights, i).value, rows[i],
             SetMeta(rows[i], freshId, ClassReweighted(rows[i], weightId, weights)), rows[i + 1..]);
  }

  /** TPreprocessor_addClassWeight::operator(). */
  method AddClassWeight(gen: Table, weightId: int, classWeights: seq<real>, equalize: bool, dist: seq<real>,
                        freshId: int)
    returns (r: Result<Output>)
    requires gen.Valid()
    ensures r == ClassWeights(gen, weightId, classWeights, equalize, dist, freshId)
  {
    var classVar := gen.domain.classVar;
    if classVar.None? || classVar.value.varType != IntVar {
      return Failure(ClassLessOrNonDiscrete);
    }
    ValidClassCells(gen);
    var table := new ExampleTable.Copy(gen);
    var nocl := classVar.value.noOfValues;
    if (!equalize && |classWeights| == 0) || nocl == 0 {
      return Success(Output(Table(table.domain, table.examples), 0));
    }
    if |classWeights| > 0 && |classWeights| != nocl {
      return Failure(ClassWeightsSize);
    }
    var weights: seq<real>;
    if equalize {
      if |dist| > nocl {
        return Failure(OutOfRangeClasses);
      }
      var abs := Mass(dist);
      if |classWeights| > 0 {
        var total, totW := WeightedTotals(dist, classWeights);
        if total == 0.0 {
          return Success(Output(Table(table.domain, table.examples), 0));
        }
        weights := ScaleWeights(classWeights, totW * (abs / total));
        assert totW * (abs / total) == EqualizeFactor(classWeights, dist);
        assert WeightedEqualized(classWeights, dist) == Some(weights);
        assert WeightVector(classVar, classWeights, equalize, dist) == Success(WeightedEqualized(classWeights, dist));
      } else {
        weights := EqualizeOnly(dist, abs);
        assert WeightVector(classVar, classWeights, equalize, dist) == Success(Some(weights));
      }
    } else {
      weights := classWeights;
    }
    assert WeightVector(classVar, classWeights, equalize, dist) == Success(Some(weights));
    var rows := ApplyWeights(table, weightId, freshId, weights);
    if rows.Failure? {
      return Failure(rows.error);
    }
    r := Success(Output(Table(table.domain, rows.value), freshId));
  }
}
