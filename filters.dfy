/** Row selection by filters (`drop`, `take`, `filter` and the missing-value
    wrappers) and the weight channel of `removeDuplicates`. The filter
    evaluator itself is external: it is the parameter `accepts`. */
module Filters {
  import opened Data

  /** A value filter: the column it tests and the user's condition, which only the evaluator reads. */
  datatype ValueFilter = ValueFilter(position: int, condition: int)

  /** The filters the preprocessors build or are given. */
  datatype Filter =
    | FilterValues(conditions: seq<ValueFilter>, conjunction: bool, negate: bool)
    | FilterHasSpecial(negate: bool)
    | FilterHasClassValue(negate: bool)
    | FilterGiven(code: int)

  /** filterExamples: the rows the filter accepts, in their order. */
  function FilterExamples(f: Filter, accepts: (Filter, Row) -> bool, rows: seq<Row>): (r: seq<Row>)
    ensures |r| <= |rows|
  {
    if rows == [] then []
    else FilterExamples(f, accepts, rows[..|rows| - 1])
         + (if accepts(f, rows[|rows| - 1]) then [rows[|rows| - 1]] else [])
  }

  /** The kept rows are exactly the accepted ones. */
  lemma {:induction false} FilterExamplesExact(f: Filter, accepts: (Filter, Row) -> bool, rows: seq<Row>)
    ensures forall row :: row in FilterExamples(f, accepts, rows) <==> row in rows && accepts(f, row)
  {
    if rows != [] {
      FilterExamplesExact(f, accepts, rows[..|rows| - 1]);
      assert rows == rows[..|rows| - 1] + [rows[|rows| - 1]];
    }
  }

  /** A filter and its negation split the rows between them. */
  lemma {:induction false} FilterExamplesSplit(f: Filter, g: Filter, accepts: (Filter, Row) -> bool, rows: seq<Row>)
    requires forall i :: 0 <= i < |rows| ==> accepts(g, rows[i]) == !accepts(f, rows[i])
    ensures |FilterExamples(f, accepts, rows)| + |FilterExamples(g, accepts, rows)| == |rows|
  {
    if rows != [] {
      FilterExamplesSplit(f, g, accepts, rows[..|rows| - 1]);
    }
  }

  /** The value filters of `drop` and `take`, each moved to the position of its variable. */
  function Positioned(d: Domain, values: seq<(Variable, ValueFilter)>): (r: Result<seq<ValueFilter>>)
    ensures r.Success? ==> |r.value| == |values|
  {
    if values == [] then Success([])
    else match Positioned(d, values[..|values| - 1])
      case Failure(e) => Failure(e)
      case Success(fs) =>
        var (v, vf) := values[|values| - 1];
        match GetVarNum(d, v)
        case None => Failure(AttributeNotFound(v.name))
        case Some(p) => Success(fs + [ValueFilter(p, vf.condition)])
  }

  /** The build fails exactly when some variable is not in the domain. */
  lemma {:induction false} PositionedFails(d: Domain, values: seq<(Variable, ValueFilter)>)
    ensures Positioned(d, values).Failure? <==> exists k :: 0 <= k < |values| && GetVarNum(d, values[k].0).None?
  {
    if values != [] {
      var init := values[..|values| - 1];
      PositionedFails(d, init);
      if Positioned(d, init).Failure? {
        var k :| 0 <= k < |init| && GetVarNum(d, init[k].0).None?;
        assert values[k] == init[k];
      } else if GetVarNum(d, values[|values| - 1].0).Some? {
        forall k | 0 <= k < |values| ensures GetVarNum(d, values[k].0).Some? {
          if k < |init| {
            assert values[k] == init[k];
          }
        }
      }
    }
  }

  /** Each condition is the user's, placed at its variable's column. */
  lemma {:induction false} PositionedExact(d: Domain, values: seq<(Variable, ValueFilter)>)
    ensures Positioned(d, values).Success? ==>
              forall k :: 0 <= k < |values| ==>
                GetVarNum(d, values[k].0).Some?
                && GetVarNum(d, values[k].0).value == Positioned(d, values).value[k].position
                && Positioned(d, values).value[k].condition == values[k].1.condition
  {
    if values != [] && Positioned(d, values).Success? {
      var init := values[..|values| - 1];
      PositionedExact(d, init);
      forall k | 0 <= k < |init| ensures values[k] == init[k] { }
    }
  }

  lemma {:induction false} PositionedPrefix(d: Domain, values: seq<(Variable, ValueFilter)>, k: nat)
    requires k <= |values| && Positioned(d, values[..k]).Failure?
    ensures Positioned(d, values) == Positioned(d, values[..k])
    decreases |values| - k
  {
    if k < |values| {
      assert values[..k + 1][..k] == values[..k];
      PositionedPrefix(d, values, k + 1);
    } else {
      assert values[..k] == values;
    }
  }

  /** TPreprocessor_take::constructFilter, and the identical loop of
      TPreprocessor_drop: a conjunction of the positioned value filters. */
  method ConstructFilter(values: seq<(Variable, ValueFilter)>, d: Domain, negate: bool) returns (r: Result<Filter>)
    ensures match Positioned(d, values)
            case Failure(e) => r == Failure(e)
            case Success(fs) => r == Success(FilterValues(fs, true, negate))
  {
    var fs: seq<ValueFilter> := [];
    var k := 0;
    while k < |values|
      invariant 0 <= k <= |values|
      invariant Positioned(d, values[..k]) == Success(fs)
    {
      assert values[..k + 1][..k] == values[..k];
      var (v, vf) := values[k];
      var p := GetVarNum(d, v);
      if p.None? {
        PositionedPrefix(d, values, k + 1);
        return Failure(AttributeNotFound(v.name));
      }
      fs := fs + [ValueFilter(p.value, vf.condition)];
      k := k + 1;
    }
    assert values[..k] == values;
    r := Success(FilterValues(fs, true, negate));
  }

  /** TPreprocessor_drop::operator(): remove the rows that match all the value filters. */
  method Drop(gen: Table, weightId: int, values: seq<(Variable, ValueFilter)>, accepts: (Filter, Row) -> bool)
    returns (r: Result<Output>)
    ensures match Positioned(gen.domain, values)
            case Failure(e) => r == Failure(e)
            case Success(fs) =>
              r == Success(Output(Table(gen.domain,
                     FilterExamples(FilterValues(fs, true, true), accepts, gen.rows)), weightId))
  {
    var f :- ConstructFilter(values, gen.domain, true);
    r := Success(Output(Table(gen.domain, FilterExamples(f, accepts, gen.rows)), weightId));
  }

  /** TPreprocessor_take::operator(): keep the rows that match all the value filters. */
  method Take(gen: Table, weightId: int, values: seq<(Variable, ValueFilter)>, accepts: (Filter, Row) -> bool)
    returns (r: Result<Output>)
    ensures match Positioned(gen.domain, values)
            case Failure(e) => r == Failure(e)
            case Success(fs) =>
              r == Success(Output(Table(gen.domain,
                     FilterExamples(FilterValues(fs, true, false), accepts, gen.rows)), weightId))
  {
    var f :- ConstructFilter(values, gen.domain, false);
    r := Success(Output(Table(gen.domain, FilterExamples(f, accepts, gen.rows)), weightId));
  }

  /** With an evaluator for which negation inverts the verdict, `drop` and
      `take` with the same map split every table's rows between them. */
  lemma DropTakeSplit(gen: Table, values: seq<(Variable, ValueFilter)>, accepts: (Filter, Row) -> bool)
    requires Positioned(gen.domain, values).Success?
    requires forall i :: 0 <= i < |gen.rows| ==>
               accepts(FilterValues(Positioned(gen.domain, values).value, true, true), gen.rows[i])
               == !accepts(FilterValues(Positioned(gen.domain, values).value, true, false), gen.rows[i])
    ensures var fs := Positioned(gen.domain, values).value;
            |FilterExamples(FilterValues(fs, true, true), accepts, gen.rows)|
            + |FilterExamples(FilterValues(fs, true, false), accepts, gen.rows)| == |gen.rows|
  {
    var fs := Positioned(gen.domain, values).value;
    FilterExamplesSplit(FilterValues(fs, true, false), FilterValues(fs, true, true), accepts, gen.rows);
  }

  /** TPreprocessor_dropMissing, takeMissing, dropMissingClasses and
      takeMissingClasses: delegation to the has-special and has-class-value filters. */
  function DropMissing(gen: Table, weightId: int, accepts: (Filter, Row) -> bool): (r: Output)
    ensures r.weightId == weightId && r.table.domain == gen.domain
    ensures forall row :: row in r.table.rows <==> row in gen.rows && accepts(FilterHasSpecial(true), row)
  {
    FilterExamplesExact(FilterHasSpecial(true), accepts, gen.rows);
    Output(Table(gen.domain, FilterExamples(FilterHasSpecial(true), accepts, gen.rows)), weightId)
  }

  function TakeMissing(gen: Table, weightId: int, accepts: (Filter, Row) -> bool): (r: Output)
    ensures r.weightId == weightId && r.table.domain == gen.domain
    ensures forall row :: row in r.table.rows <==> row in gen.rows && accepts(FilterHasSpecial(false), row)
  {
    FilterExamplesExact(FilterHasSpecial(false), accepts, gen.rows);
    Output(Table(gen.domain, FilterExamples(FilterHasSpecial(false), accepts, gen.rows)), weightId)
  }

  function DropMissingClasses(gen: Table, weightId: int, accepts: (Filter, Row) -> bool): (r: Output)
    ensures r.weightId == weightId && r.table.domain == gen.domain
    ensures forall row :: row in r.table.rows <==> row in gen.rows && accepts(FilterHasClassValue(false), row)
  {
    FilterExamplesExact(FilterHasClassValue(false), accepts, gen.rows);
    Output(Table(gen.domain, FilterExamples(FilterHasClassValue(false), accepts, gen.rows)), weightId)
  }

  function TakeMissingClasses(gen: Table, weightId: int, accepts: (Filter, Row) -> bool): (r: Output)
    ensures r.weightId == weightId && r.table.domain == gen.domain
    ensures forall row :: row in r.table.rows <==> row in gen.rows && accepts(FilterHasClassValue(true), row)
  {
    FilterExamplesExact(FilterHasClassValue(true), accepts, gen.rows);
    Output(Table(gen.domain, FilterExamples(FilterHasClassValue(true), accepts, gen.rows)), weightId)
  }

  /** TPreprocessor_filter::operator(): the filter property must be set. */
  function FilterOperator(gen: Table, weightId: int, filter: Option<Filter>, accepts: (Filter, Row) -> bool)
    : (r: Result<Output>)
    ensures filter.None? <==> r == Failure(PropertyNotSet("filter"))
    ensures r.Success? ==> r.value.weightId == weightId && r.value.table.domain == gen.domain
    ensures r.Success? ==> forall row :: row in r.value.table.rows <==> row in gen.rows && accepts(filter.value, row)
  {
    match filter
    case None => Failure(PropertyNotSet("filter"))
    case Some(f) =>
      FilterExamplesExact(f, accepts, gen.rows);
      Success(Output(Table(gen.domain, FilterExamples(f, accepts, gen.rows)), weightId))
  }

  // ---------------------------------------------------------------------
  // removeDuplicates: the weight channel the grouping will sum into
  // ---------------------------------------------------------------------

  /** The table and weight id TPreprocessor_removeDuplicates hands to the
      table's own duplicate removal: the existing weight id, or a fresh meta
      id (from getMetaID) that every row gets with weight 1. */
  function DuplicatesWeightChannel(gen: Table, weightId: int, freshId: int): Output {
    if weightId != 0 then Output(Table(gen.domain, gen.rows), weightId)
    else Output(Table(gen.domain, seq(|gen.rows|, i requires 0 <= i < |gen.rows| => SetMeta(gen.rows[i], freshId, 1.0))),
                freshId)
  }

  /** The channel carries every row's weight unchanged, and it is a real meta
      id whenever one existed or a non-zero fresh id was allocated. */
  lemma DuplicatesWeightChannelKeepsWeights(gen: Table, weightId: int, freshId: int)
    ensures var out := DuplicatesWeightChannel(gen, weightId, freshId);
            |out.table.rows| == |gen.rows| && out.table.domain == gen.domain
            && (forall i :: 0 <= i < |gen.rows| ==>
                  out.table.rows[i].values == gen.rows[i].values
                  && Weight(out.table.rows[i], out.weightId) == Weight(gen.rows[i], weightId))
            && (weightId != 0 ==> out.weightId == weightId && out.table.rows == gen.rows)
            && (weightId == 0 ==> out.weightId == freshId)
  {
  }
}
