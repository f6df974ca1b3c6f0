/** Plain data the preprocessors work on: values, variables, domains, rows,
    example tables and the errors an operator can raise. */
module Data {

  datatype Option<+T> = None | Some(value: T)

  datatype Result<+T> = Success(value: T) | Failure(error: Error) {
    predicate IsFailure() { Failure? }
    function PropagateFailure<U>(): Result<U>
      requires Failure?
    {
      Failure(error)
    }
    function Extract(): T
      requires Success?
    {
      value
    }
  }

  /** The errors raised by the operators, one per distinct message. */
  datatype Error =
    | AttributeNotFound(name: string)      // "attribute '%s' not found"
    | AttributeNotContinuous(name: string) // "attribute '%s' is not continuous"
    | ClassLessDomain                      // "Class-less domain"
    | DiscreteClassExpected                // "Discrete class value expected"
    | ClassNotContinuous(name: string)     // "Class '%s' is not continuous"
    | ClassLessOrNonDiscrete               // "Class-less domain or non-discrete class"
    | ClassWeightsSize                     // "size of classWeights should equal the number of classes"
    | OutOfRangeClasses                    // "there are out-of-range classes in the data ..."
    | ClassIndexOutOfRange                 // a row's class indexes outside the weight vector
    | EventValueNotSet                     // "'eventValue' not set"
    | EventValueNotDiscrete                // "'eventValue' invalid (discrete value expected)"
    | OutcomeNotFound                      // "outcomeVar not found in domain"
    | OutcomeNotSetClassLess               // "'outcomeVar' not set and the domain is class-less"
    | TimeVarNotFound                      // "'timeVar' not found in domain"
    | InvalidTime                          // "invalid time (continuous attribute expected)"
    | MaxTimeNotPositive                   // "invalid time values (max<=0)"
    | MaxTimeRequiredForBayes              // "'maxTime' should be set when 'method' is 'Bayes'"
    | UnknownWeightingMethod               // "unknown weighting method"
    | PropertyNotSet(property: string)     // checkProperty on an unset property

  /** TValue::INTVAR (discrete) and TValue::FLOATVAR (continuous). */
  datatype VarType = IntVar | FloatVar

  /** Value kinds: a known value, "don't care" and "don't know". */
  const ValueRegular: int := 0
  const ValueDC: int := 1
  const ValueDK: int := 2

  /** A cell: its variable type, its kind (regular or one of the special
      kinds) and the discrete or continuous payload. */
  datatype Value = Value(varType: VarType, valueType: int, intV: int, floatV: real) {
    predicate IsSpecial() { valueType != ValueRegular }
  }

  /** TValue(int): a known discrete value. */
  function IntValue(i: int): (v: Value)
    ensures !v.IsSpecial() && v.varType == IntVar && v.intV == i
  {
    Value(IntVar, ValueRegular, i, 0.0)
  }

  /** TValue(varType, specialType): a value of the given kind with no payload. */
  function SpecialValue(t: VarType, specialType: int): (v: Value)
    ensures v.varType == t && v.valueType == specialType
  {
    Value(t, specialType, 0, 0.0)
  }

  /** A variable, compared by value (the source compares references). */
  datatype Variable = Variable(name: string, varType: VarType, noOfValues: nat)

  predicate Distinct<T(==)>(s: seq<T>) {
    forall i, j :: 0 <= i < j < |s| ==> s[i] != s[j]
  }

  /** The first position of x in s. */
  function IndexOf<T(==)>(s: seq<T>, x: T): (k: nat)
    requires x in s
    ensures k < |s| && s[k] == x
    ensures forall j :: 0 <= j < k ==> s[j] != x
  {
    if s[0] == x then 0 else 1 + IndexOf(s[1..], x)
  }

  /** An ordered list of attributes and an optional class variable. */
  datatype Domain = Domain(attributes: seq<Variable>, classVar: Option<Variable>) {
    /** The attributes followed by the class, the layout of a row's values. */
    function Variables(): (vs: seq<Variable>)
      ensures |vs| == |attributes| + (if classVar.Some? then 1 else 0)
      ensures vs[..|attributes|] == attributes
      ensures classVar.Some? ==> vs[|attributes|] == classVar.value
    {
      attributes + (if classVar.Some? then [classVar.value] else [])
    }

    /** Every variable occurs once: distinct attributes, and the class is not one of them. */
    predicate WellFormed() {
      Distinct(attributes) && (classVar.Some? ==> classVar.value !in attributes)
    }
  }

  /** TDomain::getVarNum without the exception: the attribute's index, the
      class's position right after the attributes, or None. */
  function GetVarNum(d: Domain, v: Variable): (r: Option<nat>)
    ensures r.Some? <==> v in d.Variables()
    ensures r.Some? ==> r.value < |d.Variables()| && d.Variables()[r.value] == v
    ensures r.Some? && r.value < |d.attributes| ==> d.attributes[r.value] == v
    ensures r.Some? && r.value == |d.attributes| ==> d.classVar == Some(v)
  {
    if v in d.attributes then Some(IndexOf(d.attributes, v))
    else if d.classVar == Some(v) then Some(|d.attributes|)
    else None
  }

  /** In a well-formed domain, distinct variables sit at distinct positions. */
  lemma GetVarNumInjective(d: Domain, u: Variable, v: Variable)
    requires d.WellFormed()
    requires GetVarNum(d, u).Some? && GetVarNum(d, u) == GetVarNum(d, v)
    ensures u == v
  {
  }

  /** An example: one value per variable of its domain plus meta values;
      only weight metas are kept, as reals. */
  datatype Row = Row(values: seq<Value>, metas: map<int, real>)

  /** WEIGHT(example): weight 1 when the weight id is 0 (or the meta is absent). */
  function Weight(row: Row, weightId: int): real {
    if weightId != 0 && weightId in row.metas then row.metas[weightId] else 1.0
  }

  /** TExample::setMeta for a weight. */
  function SetMeta(row: Row, id: int, w: real): (r: Row)
    ensures r.values == row.values && r.metas == row.metas[id := w]
    ensures id != 0 ==> Weight(r, id) == w
  {
    Row(row.values, row.metas[id := w])
  }

  /** Write one cell of a row. */
  function SetCell(row: Row, idx: nat, v: Value): (r: Row)
    requires idx < |row.values|
    ensures |r.values| == |row.values| && r.metas == row.metas
    ensures r.values[idx] == v
    ensures forall j :: 0 <= j < |row.values| && j != idx ==> r.values[j] == row.values[j]
  {
    Row(row.values[idx := v], row.metas)
  }

  /** TExample::setClass, which writes the last value of the example. */
  function SetClass(row: Row, v: Value): (r: Row)
    ensures |r.values| == |row.values| && r.metas == row.metas
    ensures |row.values| > 0 ==> r.values[|row.values| - 1] == v
    ensures forall j :: 0 <= j < |row.values| - 1 ==> r.values[j] == row.values[j]
  {
    if |row.values| == 0 then row else SetCell(row, |row.values| - 1, v)
  }

  /** Every row has one value per variable of the domain. */
  predicate RowsFit(d: Domain, rows: seq<Row>) {
    forall i :: 0 <= i < |rows| ==> |rows[i].values| == |d.Variables()|
  }

  /** An example generator: a domain and its rows. */
  datatype Table = Table(domain: Domain, rows: seq<Row>) {
    predicate Valid() { RowsFit(domain, rows) }
  }

  /** What every operator returns: a new table and the weight id to use with it. */
  datatype Output = Output(table: Table, weightId: int)

  /** A materialised example table that the operators build and change in place. */
  class ExampleTable {
    var domain: Domain
    var examples: seq<Row>

    /** TExampleTable(domain): an empty table. */
    constructor Empty(d: Domain)
      ensures domain == d && examples == []
    {
      domain := d;
      examples := [];
    }

    /** TExampleTable(gen): a copy of the generator's rows. */
    constructor Copy(gen: Table)
      ensures domain == gen.domain && examples == gen.rows
    {
      domain := gen.domain;
      examples := gen.rows;
    }

    /** TExampleTable::addExample: append one row. */
    method AddExample(ex: Row)
      modifies this
      ensures domain == old(domain)
      ensures examples == old(examples) + [ex]
    {
      examples := examples + [ex];
    }

    /** Overwrite cell idx of row i. */
    method SetValue(i: nat, idx: nat, v: Value)
      requires i < |examples| && idx < |examples[i].values|
      modifies this
      ensures domain == old(domain)
      ensures examples == old(examples)[i := SetCell(old(examples)[i], idx, v)]
    {
      examples := examples[i := SetCell(examples[i], idx, v)];
    }

    /** Set meta id of row i to the weight w. */
    method SetWeight(i: nat, id: int, w: real)
      requires i < |examples|
      modifies this
      ensures domain == old(domain)
      ensures examples == old(examples)[i := SetMeta(old(examples)[i], id, w)]
    {
      examples := examples[i := SetMeta(examples[i], id, w)];
    }
  }
}
