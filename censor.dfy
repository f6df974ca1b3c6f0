/** TPreprocessor_addCensorWeight: survival-analysis weights for censored rows.

    A row is an event when its outcome is known and equals the event value;
    every other row (a censored one, or one whose outcome is unknown) is
    reweighted by the chosen method. The survival curve of the `km` and
    `bayes` methods (kaplanMeier, bayesSurvival) is computed outside the
    operator: it is the parameter `survival`, S(t), with `curveLast` the
    value at its last time point. getMetaID is the parameter `freshId`.
    Float arithmetic is modelled over the reals. */
module Censor {
  import opened Data

  /** TPreprocessor_addCensorWeight's `method` property: linear, km, bayes or any other code. */
  datatype WeightingMethod = Linear | KaplanMeier | Bayes | OtherMethod(code: int)

  /** The operator's properties. */
  datatype CensorParams = CensorParams(
    outcomeVar: Option<Variable>,
    timeVar: Option<Variable>,
    eventValue: Value,
    weighting: WeightingMethod,
    maxTime: real,
    addComplementary: bool)

  /** The default constructor: no variables, an unset (special) event value, km, maxTime 0. */
  function DefaultCensorWeight(): (p: CensorParams)
    ensures p.outcomeVar.None? && p.timeVar.None? && p.eventValue.IsSpecial()
    ensures p.weighting == KaplanMeier && p.maxTime == 0.0 && !p.addComplementary
  {
    CensorParams(None, None, SpecialValue(IntVar, ValueDK), KaplanMeier, 0.0, false)
  }

  /** The constructor TPreprocessor_addCensorWeight(ov, tv, ev, me, mt) as
      written: `mt` is accepted but maxTime is initialised to 0. */
  function NewCensorWeight(ov: Option<Variable>, tv: Option<Variable>, ev: Value, me: WeightingMethod, mt: real)
    : CensorParams
  {
    CensorParams(ov, tv, ev, me, 0.0, false)
  }

  /** The constructor as evidently intended: maxTime takes `mt`. */
  function NewCensorWeightCorrected(ov: Option<Variable>, tv: Option<Variable>, ev: Value, me: WeightingMethod, mt: real)
    : CensorParams
  {
    CensorParams(ov, tv, ev, me, mt, false)
  }

  /** The constructor as written drops `mt`: two constructions that differ only in it are equal. */
  lemma NewCensorWeightIgnoresMaxTime(ov: Option<Variable>, tv: Option<Variable>, ev: Value, me: WeightingMethod,
                                      mt: real, mt': real)
    ensures NewCensorWeight(ov, tv, ev, me, mt) == NewCensorWeight(ov, tv, ev, me, mt')
    ensures NewCensorWeight(ov, tv, ev, me, mt).maxTime == 0.0
  {
  }

  /** The corrected constructor keeps every argument, `mt` included. */
  lemma NewCensorWeightCorrectedKeepsArguments(ov: Option<Variable>, tv: Option<Variable>, ev: Value,
                                               me: WeightingMethod, mt: real)
    ensures var p := NewCensorWeightCorrected(ov, tv, ev, me, mt);
            p.outcomeVar == ov && p.timeVar == tv && p.eventValue == ev && p.weighting == me
            && p.maxTime == mt && !p.addComplementary
  {
  }

  // ---------------------------------------------------------------------
  // addExample
  // ---------------------------------------------------------------------

  /** TPreprocessor_addCensorWeight::addExample: the row with weight `w`
      under `id`, and, when complementary >= 0 and compWeight > 0, a copy
      whose class is `complementary` with weight `compWeight`. */
  function Emit(row: Row, id: int, w: real, complementary: int, compWeight: real): (r: seq<Row>)
    ensures |r| == (if complementary >= 0 && compWeight > 0.0 then 2 else 1)
    ensures r[0].values == row.values && r[0].metas == row.metas[id := w]
    ensures |r| == 2 ==> r[1].values == SetClass(row, IntValue(complementary)).values
                         && r[1].metas == row.metas[id := compWeight]
  {
    var ex := SetMeta(row, id, w);
    [ex] + if complementary >= 0 && compWeight > 0.0 then [SetMeta(SetClass(ex, IntValue(complementary)), id, compWeight)]
           else []
  }

  // ---------------------------------------------------------------------
  // One row
  // ---------------------------------------------------------------------

  /** Every row has a cell at position k. */
  predicate Indexable(rows: seq<Row>, k: nat) {
    forall i :: 0 <= i < |rows| ==> k < |rows[i].values|
  }

  /** What the row loop reads besides the row: the method, the resolved
      positions, the complementary class (or -1), the max time in force,
      S_max, the curve and the two weight ids. */
  datatype Context = Context(
    weighting: WeightingMethod,
    outcomeIndex: nat,
    failIndex: int,
    timeIndex: nat,
    complementary: int,
    maxTime: real,
    kmMax: real,
    survival: real -> real,
    weightId: int,
    newWeight: int)
  {
    /** The linear method divides by the max time, which the operator has checked to be positive. */
    predicate Sound() { weighting == Linear ==> maxTime > 0.0 }

    predicate Fits(row: Row) { outcomeIndex < |row.values| && timeIndex < |row.values| }
  }

  /** A row is an event when its outcome is known and equals the event value. */
  predicate IsEvent(c: Context, row: Row)
    requires c.Fits(row)
  {
    !row.values[c.outcomeIndex].IsSpecial() && row.values[c.outcomeIndex].intV == c.failIndex
  }

  /** The linear weight factor min(1, t/max): 1 past the max time, otherwise the time's share of it. */
  function LinearFactor(t: real, max: real): real
    requires max > 0.0
  {
    if t > max then 1.0 else t / max
  }

  /** A censored row's linear weight, w·min(1, t/max). */
  function LinearWeight(c: Context, row: Row): real
    requires c.Fits(row) && c.maxTime > 0.0
  {
    Weight(row, c.weightId) * LinearFactor(row.values[c.timeIndex].floatV, c.maxTime)
  }

  /** The linear method's rule for one row. */
  function LinearRow(c: Context, row: Row): Result<seq<Row>>
    requires c.Fits(row) && c.maxTime > 0.0
  {
    var tme := row.values[c.timeIndex];
    if IsEvent(c, row) then Success(Emit(row, c.newWeight, Weight(row, c.weightId), c.complementary, 0.0))
    else if tme.varType != FloatVar then Failure(InvalidTime)
    else if tme.IsSpecial() then Success([])
    else Success(Emit(row, c.newWeight, LinearWeight(c, row), c.complementary, 0.0))
  }

  /** km's factor S_max / S(t). */
  function KmFactor(c: Context, t: real): real
    requires c.survival(t) != 0.0
  {
    c.kmMax / c.survival(t)
  }

  /** The share of a censored row's weight that stays in its own class:
      S_max/S(t) for km, S(t) for bayes. */
  function SurvivalFactor(c: Context, row: Row): real
    requires c.Fits(row)
    requires c.weighting == KaplanMeier ==> c.survival(row.values[c.timeIndex].floatV) > 0.0
  {
    var t := row.values[c.timeIndex].floatV;
    if c.weighting == KaplanMeier then KmFactor(c, t) else c.survival(t)
  }

  /** A censored row's own weight: the old weight times the survival factor. */
  function OwnWeight(c: Context, row: Row): real
    requires c.Fits(row)
    requires c.weighting == KaplanMeier ==> c.survival(row.values[c.timeIndex].floatV) > 0.0
  {
    Weight(row, c.weightId) * SurvivalFactor(c, row)
  }

  /** The weight of the complementary row: the old weight times one minus the survival factor. */
  function ComplementWeight(c: Context, row: Row): real
    requires c.Fits(row)
    requires c.weighting == KaplanMeier ==> c.survival(row.values[c.timeIndex].floatV) > 0.0
  {
    Weight(row, c.weightId) * (1.0 - SurvivalFactor(c, row))
  }

  /** The km and bayes rule for one row. */
  function SurvivalRow(c: Context, row: Row): Result<seq<Row>>
    requires c.Fits(row)
  {
    var tme := row.values[c.timeIndex];
    if IsEvent(c, row) then Success(Emit(row, c.newWeight, Weight(row, c.weightId), -1, 0.0))
    else if tme.varType != FloatVar then Failure(InvalidTime)
    else if tme.IsSpecial() then Success([])
    else if tme.floatV > c.maxTime then Success(Emit(row, c.newWeight, Weight(row, c.weightId), -1, 0.0))
    else if c.weighting == KaplanMeier && c.survival(tme.floatV) <= 0.0 then Success([])
    else Success(Emit(row, c.newWeight, OwnWeight(c, row), c.complementary, ComplementWeight(c, row)))
  }

  /** The body of the operator's row loop. */
  function CensorRow(c: Context, row: Row): Result<seq<Row>>
    requires c.Fits(row) && c.Sound()
  {
    if c.weighting == Linear then LinearRow(c, row) else SurvivalRow(c, row)
  }

  /** The row loop over the first n rows of the generator. */
  function CensorRows(c: Context, rows: seq<Row>, n: nat): Result<seq<Row>>
    requires n <= |rows| && c.Sound()
    requires Indexable(rows, c.outcomeIndex) && Indexable(rows, c.timeIndex)
  {
    if n == 0 then Success([])
    else match CensorRows(c, rows, n - 1)
      case Failure(e) => Failure(e)
      case Success(done) =>
        match CensorRow(c, rows[n - 1])
        case Failure(e) => Failure(e)
        case Success(out) => Success(done + out)
  }

  // ---------------------------------------------------------------------
  // The guards and the operator
  // ---------------------------------------------------------------------

  /** failIndex, outcomeIndex, complementary and timeIndex. */
  datatype Positions = Positions(failIndex: int, outcomeIndex: nat, complementary: int, timeIndex: nat)

  /** The checks before the output table is created, in the operator's order. */
  function CensorPositions(p: CensorParams, d: Domain): (r: Result<Positions>)
    ensures r.Success? ==> r.value.outcomeIndex < |d.Variables()| && r.value.timeIndex < |d.Variables()|
  {
    if p.eventValue.IsSpecial() then Failure(EventValueNotSet)
    else if p.eventValue.varType != IntVar then Failure(EventValueNotDiscrete)
    else
      var outcome: Result<nat> :=
        if p.outcomeVar.Some? then
          (match GetVarNum(d, p.outcomeVar.value) case None => Failure(OutcomeNotFound) case Some(k) => Success(k))
        else if d.classVar.Some? then Success(|d.attributes|)
        else Failure(OutcomeNotSetClassLess);
      match outcome
      case Failure(e) => Failure(e)
      case Success(outcomeIndex) =>
        var complementary := if p.addComplementary then p.eventValue.intV else -1;
        if p.timeVar.None? then Failure(PropertyNotSet("timeVar"))
        else match GetVarNum(d, p.timeVar.value)
          case None => Failure(TimeVarNotFound)
          case Some(timeIndex) => Success(Positions(p.eventValue.intV, outcomeIndex, complementary, timeIndex))
  }

  /** The linear method's max-time scan: the largest known time above
      `start` among the first n rows; a known time that is not continuous is
      an error. */
  function MaxTimeScan(rows: seq<Row>, timeIndex: nat, start: real, n: nat): Result<real>
    requires n <= |rows| && Indexable(rows, timeIndex)
  {
    if n == 0 then Success(start)
    else match MaxTimeScan(rows, timeIndex, start, n - 1)
      case Failure(e) => Failure(e)
      case Success(m) =>
        var tme := rows[n - 1].values[timeIndex];
        if tme.IsSpecial() then Success(m)
        else if tme.varType != FloatVar then Failure(InvalidTime)
        else Success(if tme.floatV > m then tme.floatV else m)
  }

  lemma RowsFitIndexable(d: Domain, rows: seq<Row>, k: nat)
    requires RowsFit(d, rows) && k < |d.Variables()|
    ensures Indexable(rows, k)
  {
  }

  /** The linear branch of the operator: when no positive maxTime is
      configured, the largest known time among `scanRows` becomes the
      horizon; a horizon that is still not positive is an error; otherwise
      `rows` are weighted against it. */
  function LinearPass(scanRows: seq<Row>, pos: Positions, maxTime: real, rows: seq<Row>, survival: real -> real,
                      weightId: int, freshId: int): Result<seq<Row>>
    requires Indexable(scanRows, pos.timeIndex)
    requires Indexable(rows, pos.outcomeIndex) && Indexable(rows, pos.timeIndex)
  {
    var scanned := if maxTime <= 0.0 then MaxTimeScan(scanRows, pos.timeIndex, maxTime, |scanRows|)
                   else Success(maxTime);
    match scanned
    case Failure(e) => Failure(e)
    case Success(thisMaxTime) =>
      if thisMaxTime <= 0.0 then Failure(MaxTimeNotPositive)
      else
        var c := Context(Linear, pos.outcomeIndex, pos.failIndex, pos.timeIndex, pos.complementary,
                         thisMaxTime, 0.0, survival, weightId, freshId);
        CensorRows(c, rows, |rows|)
  }

  /** The output of the row loop as an operator result under the fresh weight id. */
  function Finish(d: Domain, rows: Result<seq<Row>>, freshId: int): Result<Output> {
    match rows
    case Failure(e) => Failure(e)
    case Success(out) => Success(Output(Table(d, out), freshId))
  }

  /** TPreprocessor_addCensorWeight::operator(), as written. The linear
      max-time scan runs over the output table, which is still empty, so it
      returns the configured maxTime; the Bayes guard compares the constants
      km and bayes. */
  function CensorWeight(p: CensorParams, gen: Table, weightId: int, survival: real -> real, curveLast: real,
                        freshId: int): Result<Output>
    requires gen.Valid()
  {
    match CensorPositions(p, gen.domain)
    case Failure(e) => Failure(e)
    case Success(pos) =>
      RowsFitIndexable(gen.domain, gen.rows, pos.outcomeIndex);
      RowsFitIndexable(gen.domain, gen.rows, pos.timeIndex);
      if p.weighting == Linear then
        Finish(gen.domain, LinearPass([], pos, p.maxTime, gen.rows, survival, weightId, freshId), freshId)
      else if p.weighting == KaplanMeier || p.weighting == Bayes then
        if KaplanMeier == Bayes && p.maxTime <= 0.0 then Failure(MaxTimeRequiredForBayes)
        else
          var kmMax := if p.maxTime > 0.0 then survival(p.maxTime) else curveLast;
          var c := Context(p.weighting, pos.outcomeIndex, pos.failIndex, pos.timeIndex, pos.complementary,
                           p.maxTime, kmMax, survival, weightId, freshId);
          Finish(gen.domain, CensorRows(c, gen.rows, |gen.rows|), freshId)
      else Failure(UnknownWeightingMethod)
  }

  /** The rows whose outcome is known. */
  function KnownOutcome(rows: seq<Row>, outcomeIndex: nat): (r: seq<Row>)
    requires Indexable(rows, outcomeIndex)
    ensures Indexable(r, outcomeIndex) && |r| <= |rows|
    ensures forall i :: 0 <= i < |r| ==> !r[i].values[outcomeIndex].IsSpecial()
    ensures forall i :: 0 <= i < |r| ==> r[i] in rows
  {
    if rows == [] then []
    else
      var init := KnownOutcome(rows[..|rows| - 1], outcomeIndex);
      var last := rows[|rows| - 1];
      if last.values[outcomeIndex].IsSpecial() then init else init + [last]
  }

  /** The operator as evidently intended: the linear scan runs over the
      generator's rows, the Bayes guard tests the method, and rows whose
      outcome is unknown are left out. */
  function CensorWeightCorrected(p: CensorParams, gen: Table, weightId: int, survival: real -> real, curveLast: real,
                                 freshId: int): Result<Output>
    requires gen.Valid()
  {
    match CensorPositions(p, gen.domain)
    case Failure(e) => Failure(e)
    case Success(pos) =>
      RowsFitIndexable(gen.domain, gen.rows, pos.outcomeIndex);
      RowsFitIndexable(gen.domain, gen.rows, pos.timeIndex);
      var rows := KnownOutcome(gen.rows, pos.outcomeIndex);
      KnownOutcomeIndexable(gen.rows, pos.outcomeIndex, pos.timeIndex);
      if p.weighting == Linear then
        Finish(gen.domain, LinearPass(gen.rows, pos, p.maxTime, rows, survival, weightId, freshId), freshId)
      else if p.weighting == KaplanMeier || p.weighting == Bayes then
        if p.weighting == Bayes && p.maxTime <= 0.0 then Failure(MaxTimeRequiredForBayes)
        else
          var kmMax := if p.maxTime > 0.0 then survival(p.maxTime) else curveLast;
          var c := Context(p.weighting, pos.outcomeIndex, pos.failIndex, pos.timeIndex, pos.complementary,
                           p.maxTime, kmMax, survival, weightId, freshId);
          Finish(gen.domain, CensorRows(c, rows, |rows|), freshId)
      else Failure(UnknownWeightingMethod)
  }

  /** KnownOutcome keeps a sub-sequence, so any other column stays indexable. */
  lemma {:induction false} KnownOutcomeIndexable(rows: seq<Row>, outcomeIndex: nat, k: nat)
    requires Indexable(rows, outcomeIndex) && Indexable(rows, k)
    ensures Indexable(KnownOutcome(rows, outcomeIndex), k)
    ensures forall row :: row in KnownOutcome(rows, outcomeIndex) <==>
              row in rows && !row.values[outcomeIndex].IsSpecial()
  {
    if rows != [] {
      KnownOutcomeIndexable(rows[..|rows| - 1], outcomeIndex, k);
      assert rows == rows[..|rows| - 1] + [rows[|rows| - 1]];
    }
  }

  // ---------------------------------------------------------------------
  // Properties of one row
  // ---------------------------------------------------------------------

  /** Without a complement, addExample appends the row alone. */
  lemma EmitSingle(row: Row, id: int, w: real, complementary: int, compWeight: real)
    requires complementary < 0 || compWeight <= 0.0
    ensures Emit(row, id, w, complementary, compWeight) == [SetMeta(row, id, w)]
  {
    assert [SetMeta(row, id, w)] + [] == [SetMeta(row, id, w)];
  }

  /** An event row keeps its weight, under the new id, and gets no complement, whatever the method. */
  lemma CensorRowEvent(c: Context, row: Row)
    requires c.Fits(row) && c.Sound() && IsEvent(c, row)
    ensures CensorRow(c, row) == Success([SetMeta(row, c.newWeight, Weight(row, c.weightId))])
  {
    EmitSingle(row, c.newWeight, Weight(row, c.weightId), c.complementary, 0.0);
    EmitSingle(row, c.newWeight, Weight(row, c.weightId), -1, 0.0);
  }

  /** A row fails the loop exactly when it is not an event and its time is not continuous. */
  lemma CensorRowFails(c: Context, row: Row)
    requires c.Fits(row) && c.Sound()
    ensures CensorRow(c, row).Failure? <==> !IsEvent(c, row) && row.values[c.timeIndex].varType != FloatVar
    ensures CensorRow(c, row).Failure? ==> CensorRow(c, row).error == InvalidTime
  {
  }

  /** A non-event row whose (continuous) time is unknown is dropped. */
  lemma CensorRowMissingTime(c: Context, row: Row)
    requires c.Fits(row) && c.Sound() && !IsEvent(c, row)
    requires row.values[c.timeIndex].varType == FloatVar && row.values[c.timeIndex].IsSpecial()
    ensures CensorRow(c, row) == Success([])
  {
  }

  /** The linear factor lies in [0, 1] for a non-negative time and is 1 from the max time on. */
  lemma LinearFactorBounds(t: real, max: real)
    requires max > 0.0
    ensures t >= 0.0 ==> 0.0 <= LinearFactor(t, max) <= 1.0
    ensures t >= max ==> LinearFactor(t, max) == 1.0
  {
    if 0.0 <= t <= max {
      var q := t / max;
      assert q * max == t;
      if q > 1.0 {
        assert q * max > 1.0 * max;
      }
    }
  }

  /** A censored row at the max time keeps its whole weight; one at half the max time keeps half. */
  lemma LinearFactorScenario(max: real)
    requires max > 0.0
    ensures LinearFactor(max, max) == 1.0 && LinearFactor(max / 2.0, max) == 0.5
  {
    assert max / max * max == max;
    assert (max / 2.0) / max * max == max / 2.0;
    assert 0.5 * max == max / 2.0;
  }

  /** Linear, censored row with a known time t: one row, same values, weight w·min(1, t/max),
      which lies between 0 and w for a non-negative time and weight. */
  lemma LinearCensoredRow(c: Context, row: Row)
    requires c.Fits(row) && c.weighting == Linear && c.maxTime > 0.0 && c.newWeight != 0 && !IsEvent(c, row)
    requires row.values[c.timeIndex].varType == FloatVar && !row.values[c.timeIndex].IsSpecial()
    ensures CensorRow(c, row).Success? && |CensorRow(c, row).value| == 1
    ensures var out := CensorRow(c, row).value[0];
            var t := row.values[c.timeIndex].floatV;
            var w := Weight(row, c.weightId);
            out.values == row.values
            && Weight(out, c.newWeight) == w * LinearFactor(t, c.maxTime)
            && (t >= 0.0 && w >= 0.0 ==> 0.0 <= Weight(out, c.newWeight) <= w)
  {
    var t := row.values[c.timeIndex].floatV;
    var w := Weight(row, c.weightId);
    LinearFactorBounds(t, c.maxTime);
    if t >= 0.0 && w >= 0.0 {
      var f := LinearFactor(t, c.maxTime);
      assert w * f <= w * 1.0;
    }
  }

  /** The linear method never emits a complement row. */
  lemma LinearNeverSplits(c: Context, row: Row)
    requires c.Fits(row) && c.Sound() && c.weighting == Linear && CensorRow(c, row).Success?
    ensures |CensorRow(c, row).value| <= 1
  {
  }

  /** km and bayes: a censored row whose time is after maxTime keeps its weight and gets no complement. */
  lemma SurvivalLateTime(c: Context, row: Row)
    requires c.Fits(row) && c.weighting != Linear && !IsEvent(c, row)
    requires row.values[c.timeIndex].varType == FloatVar && !row.values[c.timeIndex].IsSpecial()
    requires row.values[c.timeIndex].floatV > c.maxTime
    ensures CensorRow(c, row) == Success([SetMeta(row, c.newWeight, Weight(row, c.weightId))])
  {
    EmitSingle(row, c.newWeight, Weight(row, c.weightId), -1, 0.0);
  }

  /** km: a censored row at a time where S(t) <= 0 contributes nothing, neither itself nor a complement. */
  lemma KmDropsExhaustedCurve(c: Context, row: Row)
    requires c.Fits(row) && c.weighting == KaplanMeier && !IsEvent(c, row)
    requires row.values[c.timeIndex].varType == FloatVar && !row.values[c.timeIndex].IsSpecial()
    requires row.values[c.timeIndex].floatV <= c.maxTime
    requires c.survival(row.values[c.timeIndex].floatV) <= 0.0
    ensures CensorRow(c, row) == Success([])
  {
  }

  /** km and bayes split a censored row in two: its own class at w·f and the
      complementary class at w·(1 − f), with f = S_max/S(t) for km and
      f = S(t) for bayes; the complement is emitted exactly when
      addComplementary is set and w·(1 − f) > 0, and then the two rows
      together carry the row's weight w. */
  lemma SurvivalSplit(c: Context, row: Row)
    requires c.Fits(row) && c.weighting != Linear && c.newWeight != 0 && !IsEvent(c, row)
    requires row.values[c.timeIndex].varType == FloatVar && !row.values[c.timeIndex].IsSpecial()
    requires row.values[c.timeIndex].floatV <= c.maxTime
    requires c.weighting == KaplanMeier ==> c.survival(row.values[c.timeIndex].floatV) > 0.0
    ensures var f := SurvivalFactor(c, row);
            var w := Weight(row, c.weightId);
            var out := CensorRow(c, row);
            out.Success?
            && |out.value| == (if c.complementary >= 0 && ComplementWeight(c, row) > 0.0 then 2 else 1)
            && out.value[0].values == row.values && Weight(out.value[0], c.newWeight) == w * f
            && (|out.value| == 2 ==>
                  out.value[1].values == SetClass(row, IntValue(c.complementary)).values
                  && Weight(out.value[1], c.newWeight) == w * (1.0 - f)
                  && Weight(out.value[0], c.newWeight) + Weight(out.value[1], c.newWeight) == w)
  {
    var f := SurvivalFactor(c, row);
    var w := Weight(row, c.weightId);
    assert w * f + w * (1.0 - f) == w;
  }

  /** Whatever the row, the loop body emits at most two rows; the first keeps
      the row's values and any second one differs from it only in the class. */
  lemma CensorRowShape(c: Context, row: Row)
    requires c.Fits(row) && c.Sound() && CensorRow(c, row).Success?
    ensures |CensorRow(c, row).value| <= 2
    ensures |CensorRow(c, row).value| >= 1 ==> CensorRow(c, row).value[0].values == row.values
    ensures |CensorRow(c, row).value| == 2 ==>
              c.complementary >= 0
              && CensorRow(c, row).value[1].values == SetClass(row, IntValue(c.complementary)).values
  {
  }

  lemma PositiveProduct(x: real, y: real)
    requires x > 0.0 && y > 0.0
    ensures x * y > 0.0
  {
  }

  /** A positive weight with an own-class share below 1 leaves a positive complement. */
  lemma ComplementPositive(c: Context, row: Row)
    requires c.Fits(row)
    requires c.weighting == KaplanMeier ==> c.survival(row.values[c.timeIndex].floatV) > 0.0
    requires Weight(row, c.weightId) > 0.0 && SurvivalFactor(c, row) < 1.0
    ensures ComplementWeight(c, row) > 0.0
  {
    var w, g := Weight(row, c.weightId), 1.0 - SurvivalFactor(c, row);
    assert ComplementWeight(c, row) == w * g;
    PositiveProduct(w, g);
  }

  /** As written, an unknown outcome is never an event: with bayes and
      addComplementary, such a row at a time t <= maxTime where S(t) < 1 and
      its weight is positive gets a complement in the event class. */
  lemma MissingOutcomeCensored(c: Context, row: Row)
    requires c.Fits(row) && c.weighting == Bayes && c.newWeight != 0 && c.complementary >= 0
    requires row.values[c.outcomeIndex].IsSpecial()
    requires row.values[c.timeIndex].varType == FloatVar && !row.values[c.timeIndex].IsSpecial()
    requires row.values[c.timeIndex].floatV <= c.maxTime
    requires c.survival(row.values[c.timeIndex].floatV) < 1.0 && Weight(row, c.weightId) > 0.0
    ensures !IsEvent(c, row)
    ensures CensorRow(c, row).Success? && |CensorRow(c, row).value| == 2
    ensures CensorRow(c, row).value[1].values == SetClass(row, IntValue(c.complementary)).values
  {
    ComplementPositive(c, row);
    SurvivalSplit(c, row);
  }

  // ---------------------------------------------------------------------
  // Properties of the row loop
  // ---------------------------------------------------------------------

  lemma {:induction false} CensorRowsNext(c: Context, rows: seq<Row>, i: nat)
    requires i < |rows| && c.Sound() && Indexable(rows, c.outcomeIndex) && Indexable(rows, c.timeIndex)
    requires CensorRows(c, rows, i).Success? && CensorRow(c, rows[i]).Success?
    ensures CensorRows(c, rows, i + 1) == Success(CensorRows(c, rows, i).value + CensorRow(c, rows[i]).value)
  {
  }

  lemma {:induction false} CensorRowsPrefix(c: Context, rows: seq<Row>, n: nat, m: nat)
    requires n <= m <= |rows| && c.Sound() && Indexable(rows, c.outcomeIndex) && Indexable(rows, c.timeIndex)
    requires CensorRows(c, rows, n).Failure?
    ensures CensorRows(c, rows, m) == CensorRows(c, rows, n)
    decreases m - n
  {
    if n < m {
      CensorRowsPrefix(c, rows, n, m - 1);
    }
  }

  /** A failing row stops the loop with its error. */
  lemma {:induction false} CensorRowsStop(c: Context, rows: seq<Row>, i: nat)
    requires i < |rows| && c.Sound() && Indexable(rows, c.outcomeIndex) && Indexable(rows, c.timeIndex)
    requires CensorRows(c, rows, i).Success? && CensorRow(c, rows[i]).Failure?
    ensures CensorRows(c, rows, |rows|) == Failure(CensorRow(c, rows[i]).error)
  {
    assert CensorRows(c, rows, i + 1) == Failure(CensorRow(c, rows[i]).error);
    CensorRowsPrefix(c, rows, i + 1, |rows|);
  }

  /** The loop succeeds exactly when every row does, and its only error is an invalid time. */
  lemma {:induction false} CensorRowsSucceeds(c: Context, rows: seq<Row>, n: nat)
    requires n <= |rows| && c.Sound() && Indexable(rows, c.outcomeIndex) && Indexable(rows, c.timeIndex)
    ensures CensorRows(c, rows, n).Success? <==> forall i :: 0 <= i < n ==> CensorRow(c, rows[i]).Success?
    ensures CensorRows(c, rows, n).Failure? ==> CensorRows(c, rows, n).error == InvalidTime
  {
    if n > 0 {
      CensorRowsSucceeds(c, rows, n - 1);
      CensorRowFails(c, rows[n - 1]);
      if CensorRows(c, rows, n - 1).Failure? {
        var i :| 0 <= i < n - 1 && !CensorRow(c, rows[i]).Success?;
        assert !(forall j :: 0 <= j < n ==> CensorRow(c, rows[j]).Success?);
      }
    }
  }

  /** The loop emits at most two rows per input row, and at most one with the linear method. */
  lemma {:induction false} CensorRowsCount(c: Context, rows: seq<Row>, n: nat)
    requires n <= |rows| && c.Sound() && Indexable(rows, c.outcomeIndex) && Indexable(rows, c.timeIndex)
    requires CensorRows(c, rows, n).Success?
    ensures |CensorRows(c, rows, n).value| <= 2 * n
    ensures c.weighting == Linear ==> |CensorRows(c, rows, n).value| <= n
  {
    if n > 0 {
      CensorRowsCount(c, rows, n - 1);
      CensorRowShape(c, rows[n - 1]);
      if c.weighting == Linear {
        LinearNeverSplits(c, rows[n - 1]);
      }
    }
  }

  // ---------------------------------------------------------------------
  // Properties of the operator
  // ---------------------------------------------------------------------

  /** The guards before the output table is created, each with its condition, in order. */
  lemma CensorPositionsGuards(p: CensorParams, d: Domain)
    ensures CensorPositions(p, d) == Failure(EventValueNotSet) <==> p.eventValue.IsSpecial()
    ensures CensorPositions(p, d) == Failure(EventValueNotDiscrete)
            <==> !p.eventValue.IsSpecial() && p.eventValue.varType != IntVar
    ensures !p.eventValue.IsSpecial() && p.eventValue.varType == IntVar ==>
              ((CensorPositions(p, d) == Failure(OutcomeNotFound))
                 <==> (p.outcomeVar.Some? && GetVarNum(d, p.outcomeVar.value).None?))
              && ((CensorPositions(p, d) == Failure(OutcomeNotSetClassLess))
                 <==> (p.outcomeVar.None? && d.classVar.None?))
    ensures CensorPositions(p, d).Success? ==>
              var pos := CensorPositions(p, d).value;
              pos.failIndex == p.eventValue.intV
              && (p.outcomeVar.Some? ==> GetVarNum(d, p.outcomeVar.value) == Some(pos.outcomeIndex))
              && (p.outcomeVar.None? ==> d.classVar.Some? && pos.outcomeIndex == |d.attributes|)
              && pos.complementary == (if p.addComplementary then p.eventValue.intV else -1)
              && p.timeVar.Some? && GetVarNum(d, p.timeVar.value) == Some(pos.timeIndex)
  {
  }

  /** As written, linear without a configured max time always fails: the
      scan sees no rows, so the max stays at maxTime <= 0. */
  lemma LinearWithoutMaxTimeFails(p: CensorParams, gen: Table, weightId: int, survival: real -> real,
                                  curveLast: real, freshId: int)
    requires gen.Valid() && p.weighting == Linear && p.maxTime <= 0.0
    requires CensorPositions(p, gen.domain).Success?
    ensures CensorWeight(p, gen, weightId, survival, curveLast, freshId) == Failure(MaxTimeNotPositive)
  {
  }

  /** As written, the Bayes guard never fires: no input yields its error. */
  lemma BayesGuardNeverFires(p: CensorParams, gen: Table, weightId: int, survival: real -> real,
                             curveLast: real, freshId: int)
    requires gen.Valid()
    ensures CensorWeight(p, gen, weightId, survival, curveLast, freshId) != Failure(MaxTimeRequiredForBayes)
  {
    var r := CensorWeight(p, gen, weightId, survival, curveLast, freshId);
    if CensorPositions(p, gen.domain).Success? {
      var pos := CensorPositions(p, gen.domain).value;
      RowsFitIndexable(gen.domain, gen.rows, pos.outcomeIndex);
      RowsFitIndexable(gen.domain, gen.rows, pos.timeIndex);
      if p.weighting == Linear && p.maxTime > 0.0 {
        var c := Context(Linear, pos.outcomeIndex, pos.failIndex, pos.timeIndex, pos.complementary,
                         p.maxTime, 0.0, survival, weightId, freshId);
        CensorRowsSucceeds(c, gen.rows, |gen.rows|);
      } else if p.weighting == KaplanMeier || p.weighting == Bayes {
        var kmMax := if p.maxTime > 0.0 then survival(p.maxTime) else curveLast;
        var c := Context(p.weighting, pos.outcomeIndex, pos.failIndex, pos.timeIndex, pos.complementary,
                         p.maxTime, kmMax, survival, weightId, freshId);
        CensorRowsSucceeds(c, gen.rows, |gen.rows|);
      }
    }
  }

  /** Corrected: bayes without a configured max time is refused. */
  lemma CorrectedBayesNeedsMaxTime(p: CensorParams, gen: Table, weightId: int, survival: real -> real,
                                   curveLast: real, freshId: int)
    requires gen.Valid() && p.weighting == Bayes && p.maxTime <= 0.0
    requires CensorPositions(p, gen.domain).Success?
    ensures CensorWeightCorrected(p, gen, weightId, survival, curveLast, freshId) == Failure(MaxTimeRequiredForBayes)
  {
  }

  /** The scan's result bounds every known time of the scanned rows, is at
      least the start, and is the start or one of those times; it fails
      exactly when some known time is not continuous. */
  lemma {:induction false} MaxTimeScanBounds(rows: seq<Row>, timeIndex: nat, start: real, n: nat)
    requires n <= |rows| && Indexable(rows, timeIndex)
    ensures MaxTimeScan(rows, timeIndex, start, n).Success?
            <==> forall i :: 0 <= i < n && !rows[i].values[timeIndex].IsSpecial() ==>
                   rows[i].values[timeIndex].varType == FloatVar
    ensures MaxTimeScan(rows, timeIndex, start, n).Success? ==>
              var m := MaxTimeScan(rows, timeIndex, start, n).value;
              start <= m
              && (forall i :: 0 <= i < n && !rows[i].values[timeIndex].IsSpecial() ==>
                    rows[i].values[timeIndex].floatV <= m)
              && (m == start || exists i :: 0 <= i < n && !rows[i].values[timeIndex].IsSpecial()
                                            && rows[i].values[timeIndex].floatV == m)
  {
    if n > 0 {
      MaxTimeScanBounds(rows, timeIndex, start, n - 1);
      if MaxTimeScan(rows, timeIndex, start, n - 1).Failure? {
        var i :| 0 <= i < n - 1 && !rows[i].values[timeIndex].IsSpecial()
                 && rows[i].values[timeIndex].varType != FloatVar;
        assert !(forall j :: 0 <= j < n && !rows[j].values[timeIndex].IsSpecial() ==>
                   rows[j].values[timeIndex].varType == FloatVar);
      }
    }
  }

  /** Corrected: linear without a configured max time takes it from the data,
      so a data set with a positive known time (all known times continuous)
      does not hit the max<=0 error. */
  lemma CorrectedLinearFindsMaxTime(p: CensorParams, gen: Table, weightId: int, survival: real -> real,
                                    curveLast: real, freshId: int, k: nat)
    requires gen.Valid() && p.weighting == Linear && p.maxTime <= 0.0
    requires CensorPositions(p, gen.domain).Success?
    requires forall i :: 0 <= i < |gen.rows| ==>
               var tme := gen.rows[i].values[CensorPositions(p, gen.domain).value.timeIndex];
               !tme.IsSpecial() ==> tme.varType == FloatVar
    requires k < |gen.rows|
    requires var tme := gen.rows[k].values[CensorPositions(p, gen.domain).value.timeIndex];
             !tme.IsSpecial() && tme.floatV > 0.0
    ensures CensorWeightCorrected(p, gen, weightId, survival, curveLast, freshId) != Failure(MaxTimeNotPositive)
  {
    var pos := CensorPositions(p, gen.domain).value;
    RowsFitIndexable(gen.domain, gen.rows, pos.outcomeIndex);
    RowsFitIndexable(gen.domain, gen.rows, pos.timeIndex);
    MaxTimeScanBounds(gen.rows, pos.timeIndex, p.maxTime, |gen.rows|);
    var m := MaxTimeScan(gen.rows, pos.timeIndex, p.maxTime, |gen.rows|).value;
    assert gen.rows[k].values[pos.timeIndex].floatV <= m;
    var rows := KnownOutcome(gen.rows, pos.outcomeIndex);
    KnownOutcomeIndexable(gen.rows, pos.outcomeIndex, pos.timeIndex);
    var c := Context(Linear, pos.outcomeIndex, pos.failIndex, pos.timeIndex, pos.complementary,
                     m, 0.0, survival, weightId, freshId);
    CensorRowsSucceeds(c, rows, |rows|);
  }

  /** Rows with an unknown outcome are not kept. */
  lemma {:induction false} KnownOutcomeNone(rows: seq<Row>, outcomeIndex: nat)
    requires Indexable(rows, outcomeIndex)
    requires forall i :: 0 <= i < |rows| ==> rows[i].values[outcomeIndex].IsSpecial()
    ensures KnownOutcome(rows, outcomeIndex) == []
  {
    if rows != [] {
      KnownOutcomeNone(rows[..|rows| - 1], outcomeIndex);
    }
  }

  /** Corrected: with km or bayes, a data set in which no outcome is known yields no rows at all. */
  lemma CorrectedUnknownOutcomesVanish(p: CensorParams, gen: Table, weightId: int, survival: real -> real,
                                       curveLast: real, freshId: int)
    requires gen.Valid() && (p.weighting == KaplanMeier || p.weighting == Bayes)
    requires p.weighting == Bayes ==> p.maxTime > 0.0
    requires CensorPositions(p, gen.domain).Success?
    requires forall i :: 0 <= i < |gen.rows| ==>
               gen.rows[i].values[CensorPositions(p, gen.domain).value.outcomeIndex].IsSpecial()
    ensures CensorWeightCorrected(p, gen, weightId, survival, curveLast, freshId)
            == Success(Output(Table(gen.domain, []), freshId))
  {
    var pos := CensorPositions(p, gen.domain).value;
    RowsFitIndexable(gen.domain, gen.rows, pos.outcomeIndex);
    KnownOutcomeNone(gen.rows, pos.outcomeIndex);
  }

  /** Keeping only the rows with a known outcome keeps every row fitting the domain. */
  lemma KnownOutcomeFits(d: Domain, rows: seq<Row>, outcomeIndex: nat)
    requires RowsFit(d, rows) && Indexable(rows, outcomeIndex)
    ensures RowsFit(d, KnownOutcome(rows, outcomeIndex))
  {
    var r := KnownOutcome(rows, outcomeIndex);
    forall i | 0 <= i < |r| ensures |r[i].values| == |d.Variables()| {
      var j :| 0 <= j < |rows| && rows[j] == r[i];
    }
  }

  /** Corrected, on any mix of rows: with km, or bayes with a positive maxTime,
      the corrected operator gives what the operator as written gives on the
      rows whose outcome is known. */
  lemma CorrectedIsWrittenOnKnownOutcomes(p: CensorParams, gen: Table, weightId: int, survival: real -> real,
                                          curveLast: real, freshId: int)
    requires gen.Valid() && (p.weighting == KaplanMeier || p.weighting == Bayes)
    requires p.weighting == Bayes ==> p.maxTime > 0.0
    requires CensorPositions(p, gen.domain).Success?
    ensures var known := KnownOutcome(gen.rows, CensorPositions(p, gen.domain).value.outcomeIndex);
            Table(gen.domain, known).Valid()
            && CensorWeightCorrected(p, gen, weightId, survival, curveLast, freshId)
               == CensorWeight(p, Table(gen.domain, known), weightId, survival, curveLast, freshId)
  {
    var pos := CensorPositions(p, gen.domain).value;
    RowsFitIndexable(gen.domain, gen.rows, pos.outcomeIndex);
    KnownOutcomeFits(gen.domain, gen.rows, pos.outcomeIndex);
  }

  // ---------------------------------------------------------------------
  // The operator's loops
  // ---------------------------------------------------------------------

  /** TPreprocessor_addCensorWeight::addExample on the output table. */
  method AddExampleTo(table: ExampleTable, weightId: int, example: Row, weight: real, complementary: int,
                      compWeight: real)
    modifies table
    ensures table.domain == old(table.domain)
    ensures table.examples == old(table.examples) + Emit(example, weightId, weight, complementary, compWeight)
  {
    var ex := SetMeta(example, weightId, weight);
    table.AddExample(ex);
    if complementary >= 0 && compWeight > 0.0 {
      ex := SetClass(ex, IntValue(complementary));
      ex := SetMeta(ex, weightId, compWeight);
      table.AddExample(ex);
    }
  }

  /** One pass of the row loop: append what the row contributes, or report the error. */
  method CensorOne(table: ExampleTable, c: Context, row: Row) returns (err: Option<Error>)
    requires c.Fits(row) && c.Sound()
    modifies table
    ensures table.domain == old(table.domain)
    ensures err.Some? <==> CensorRow(c, row).Failure?
    ensures err.Some? ==> err.value == CensorRow(c, row).error
    ensures err.None? ==> table.examples == old(table.examples) + CensorRow(c, row).value
  {
    if c.weighting == Linear {
      err := LinearOne(table, c, row);
    } else {
      err := SurvivalOne(table, c, row);
    }
  }

  /** The linear loop's body. */
  method LinearOne(table: ExampleTable, c: Context, row: Row) returns (err: Option<Error>)
    requires c.Fits(row) && c.maxTime > 0.0
    modifies table
    ensures table.domain == old(table.domain)
    ensures err.Some? <==> LinearRow(c, row).Failure?
    ensures err.Some? ==> err.value == LinearRow(c, row).error
    ensures err.None? ==> table.examples == old(table.examples) + LinearRow(c, row).value
  {
    var outcome := row.values[c.outcomeIndex];
    var tme := row.values[c.timeIndex];
    err := None;
    if !outcome.IsSpecial() && outcome.intV == c.failIndex {
      AddExampleTo(table, c.newWeight, row, Weight(row, c.weightId), c.complementary, 0.0);
    } else if tme.varType != FloatVar {
      err := Some(InvalidTime);
    } else if !tme.IsSpecial() {
      AddExampleTo(table, c.newWeight, row, LinearWeight(c, row), c.complementary, 0.0);
    } else {
      assert table.examples == old(table.examples) + [];
    }
  }

  /** The km and bayes loop's body. */
  method SurvivalOne(table: ExampleTable, c: Context, row: Row) returns (err: Option<Error>)
    requires c.Fits(row)
    modifies table
    ensures table.domain == old(table.domain)
    ensures err.Some? <==> SurvivalRow(c, row).Failure?
    ensures err.Some? ==> err.value == SurvivalRow(c, row).error
    ensures err.None? ==> table.examples == old(table.examples) + SurvivalRow(c, row).value
  {
    var outcome := row.values[c.outcomeIndex];
    var tme := row.values[c.timeIndex];
    err := None;
    if !outcome.IsSpecial() && outcome.intV == c.failIndex {
      AddExampleTo(table, c.newWeight, row, Weight(row, c.weightId), -1, 0.0);
    } else if tme.varType != FloatVar {
      err := Some(InvalidTime);
    } else if tme.IsSpecial() {
      assert table.examples == old(table.examples) + [];
    } else if tme.floatV > c.maxTime {
      AddExampleTo(table, c.newWeight, row, Weight(row, c.weightId), -1, 0.0);
    } else if c.weighting == KaplanMeier && c.survival(tme.floatV) <= 0.0 {
      assert table.examples == old(table.examples) + [];
    } else {
      AddExampleTo(table, c.newWeight, row, OwnWeight(c, row), c.complementary, ComplementWeight(c, row));
    }
  }

  /** The row loop over the input rows, appending to the output table; the first error stops it. */
  method CensorLoop(table: ExampleTable, c: Context, rows: seq<Row>) returns (err: Option<Error>)
    requires c.Sound() && Indexable(rows, c.outcomeIndex) && Indexable(rows, c.timeIndex)
    modifies table
    ensures table.domain == old(table.domain)
    ensures err.Some? <==> CensorRows(c, rows, |rows|).Failure?
    ensures err.Some? ==> err.value == CensorRows(c, rows, |rows|).error
    ensures err.None? ==> table.examples == old(table.examples) + CensorRows(c, rows, |rows|).value
  {
    ghost var start := table.examples;
    var i := 0;
    while i < |rows|
      invariant 0 <= i <= |rows| && table.domain == old(table.domain)
      invariant CensorRows(c, rows, i).Success?
      invariant table.examples == start + CensorRows(c, rows, i).value
    {
      var e := CensorStep(table, c, rows, i, start);
      if e.Some? {
        return e;
      }
      i := i + 1;
    }
    err := None;
  }

  /** Row i of the row loop: its rows are appended, or its error stops the loop. */
  method CensorStep(table: ExampleTable, c: Context, rows: seq<Row>, i: nat, ghost start: seq<Row>)
    returns (err: Option<Error>)
    requires i < |rows| && c.Sound() && Indexable(rows, c.outcomeIndex) && Indexable(rows, c.timeIndex)
    requires CensorRows(c, rows, i).Success? && table.examples == start + CensorRows(c, rows, i).value
    modifies table
    ensures table.domain == old(table.domain)
    ensures err.Some? ==> CensorRows(c, rows, |rows|) == Failure(err.value)
    ensures err.None? ==> CensorRows(c, rows, i + 1).Success?
                          && table.examples == start + CensorRows(c, rows, i + 1).value
  {
    ghost var before := table.examples;
    err := CensorOne(table, c, rows[i]);
    if err.Some? {
      CensorRowsStop(c, rows, i);
      return;
    }
    CensorRowsNext(c, rows, i);
    assert before + CensorRow(c, rows[i]).value
           == start + (CensorRows(c, rows, i).value + CensorRow(c, rows[i]).value);
  }

  /** The linear method's scan for the largest known time in `table`. */
  method ScanMaxTime(table: ExampleTable, timeIndex: nat, start: real) returns (r: Result<real>)
    requires Indexable(table.examples, timeIndex)
    ensures r == MaxTimeScan(table.examples, timeIndex, start, |table.examples|)
  {
    var thisMaxTime := start;
    var i := 0;
    while i < |table.examples|
      invariant 0 <= i <= |table.examples|
      invariant MaxTimeScan(table.examples, timeIndex, start, i) == Success(thisMaxTime)
    {
      var tme := table.examples[i].values[timeIndex];
      if !tme.IsSpecial() {
        if tme.varType != FloatVar {
          MaxTimeScanPrefix(table.examples, timeIndex, start, i + 1, |table.examples|);
          return Failure(InvalidTime);
        }
        if tme.floatV > thisMaxTime {
          thisMaxTime := tme.floatV;
        }
      }
      i := i + 1;
    }
    r := Success(thisMaxTime);
  }

  lemma {:induction false} MaxTimeScanPrefix(rows: seq<Row>, timeIndex: nat, start: real, n: nat, m: nat)
    requires n <= m <= |rows| && Indexable(rows, timeIndex)
    requires MaxTimeScan(rows, timeIndex, start, n).Failure?
    ensures MaxTimeScan(rows, timeIndex, start, m) == MaxTimeScan(rows, timeIndex, start, n)
    decreases m - n
  {
    if n < m {
      MaxTimeScanPrefix(rows, timeIndex, start, n, m - 1);
    }
  }

  /** The checks at the head of TPreprocessor_addCensorWeight::operator(). */
  method ResolvePositions(p: CensorParams, d: Domain) returns (r: Result<Positions>)
    ensures r == CensorPositions(p, d)
  {
    if p.eventValue.IsSpecial() {
      return Failure(EventValueNotSet);
    }
    if p.eventValue.varType != IntVar {
      return Failure(EventValueNotDiscrete);
    }
    var failIndex := p.eventValue.intV;
    var outcomeIndex: nat;
    if p.outcomeVar.Some? {
      var k := GetVarNum(d, p.outcomeVar.value);
      if k.None? {
        return Failure(OutcomeNotFound);
      }
      outcomeIndex := k.value;
    } else if d.classVar.Some? {
      outcomeIndex := |d.attributes|;
    } else {
      return Failure(OutcomeNotSetClassLess);
    }
    var complementary := if p.addComplementary then p.eventValue.intV else -1;
    if p.timeVar.None? {
      return Failure(PropertyNotSet("timeVar"));
    }
    var t := GetVarNum(d, p.timeVar.value);
    if t.None? {
      return Failure(TimeVarNotFound);
    }
    r := Success(Positions(failIndex, outcomeIndex, complementary, t.value));
  }

  /** The linear branch of the operator on `table`: the horizon scan over
      the table's rows, then the weighting of `rows` into it. */
  method LinearLoop(table: ExampleTable, pos: Positions, maxTime: real, rows: seq<Row>, survival: real -> real,
                    weightId: int, freshId: int) returns (err: Option<Error>)
    requires Indexable(table.examples, pos.timeIndex)
    requires Indexable(rows, pos.outcomeIndex) && Indexable(rows, pos.timeIndex)
    modifies table
    ensures table.domain == old(table.domain)
    ensures err.Some? <==> LinearPass(old(table.examples), pos, maxTime, rows, survival, weightId, freshId).Failure?
    ensures err.Some? ==> err.value == LinearPass(old(table.examples), pos, maxTime, rows, survival, weightId, freshId).error
    ensures err.None? ==>
              table.examples == old(table.examples)
                                + LinearPass(old(table.examples), pos, maxTime, rows, survival, weightId, freshId).value
  {
    var thisMaxTime := maxTime;
    if thisMaxTime <= 0.0 {
      var scanned := ScanMaxTime(table, pos.timeIndex, thisMaxTime);
      if scanned.Failure? {
        return Some(scanned.error);
      }
      thisMaxTime := scanned.value;
    }
    if thisMaxTime <= 0.0 {
      return Some(MaxTimeNotPositive);
    }
    var c := Context(Linear, pos.outcomeIndex, pos.failIndex, pos.timeIndex, pos.complementary, thisMaxTime, 0.0,
                     survival, weightId, freshId);
    err := CensorLoop(table, c, rows);
  }

  /** TPreprocessor_addCensorWeight::operator(). */
  method AddCensorWeight(p: CensorParams, gen: Table, weightId: int, survival: real -> real, curveLast: real,
                         freshId: int)
    returns (r: Result<Output>)
    requires gen.Valid()
    ensures r == CensorWeight(p, gen, weightId, survival, curveLast, freshId)
  {
    var pos :- ResolvePositions(p, gen.domain);
    RowsFitIndexable(gen.domain, gen.rows, pos.outcomeIndex);
    RowsFitIndexable(gen.domain, gen.rows, pos.timeIndex);

    var table := new ExampleTable.Empty(gen.domain);
    if p.weighting == Linear {
      // the horizon scan reads the output table, which has no rows yet
      var err := LinearLoop(table, pos, p.maxTime, gen.rows, survival, weightId, freshId);
      if err.Some? {
        r := Failure(err.value);
      } else {
        assert table.examples == LinearPass([], pos, p.maxTime, gen.rows, survival, weightId, freshId).value;
        r := Success(Output(Table(table.domain, table.examples), freshId));
      }
    } else if p.weighting == KaplanMeier || p.weighting == Bayes {
      if KaplanMeier == Bayes && p.maxTime <= 0.0 {
        r := Failure(MaxTimeRequiredForBayes);
      } else {
        var kmMax := if p.maxTime > 0.0 then survival(p.maxTime) else curveLast;
        var c := Context(p.weighting, pos.outcomeIndex, pos.failIndex, pos.timeIndex, pos.complementary, p.maxTime,
                         kmMax, survival, weightId, freshId);
        var err := CensorLoop(table, c, gen.rows);
        if err.Some? {
          r := Failure(err.value);
        } else {
          assert table.examples == CensorRows(c, gen.rows, |gen.rows|).value;
          r := Success(Output(Table(table.domain, table.examples), freshId));
        }
      }
    } else {
      r := Failure(UnknownWeightingMethod);
    }
  }
}
