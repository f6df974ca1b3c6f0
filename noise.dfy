/** Noise and missing-value injection: `addNoise`, `addMissing`,
    `addGaussianNoise` and the class-slot variants `addClassNoise`,
    `addGaussianClassNoise` and `addMissingClasses`.

    The random masks (TMakeRandomIndices2) are inputs: one boolean per row,
    set where the cell is to be overwritten. The random values
    (TVariable::randomValue) are the input function `drawn`, indexed by row
    and column. The Gaussian generator is external: for it the model
    builds the list of (column, deviation) pairs it is given. */
module Noise {
  import opened Data

  /** What a masked cell is overwritten with. */
  datatype Replacement =
    | RandomValues(drawn: (nat, nat) -> Value)  // var.randomValue()
    | MissingValues(specialType: int)           // TValue(varType, specialType)

  function Fill(rep: Replacement, v: Variable, row: nat, col: nat): Value {
    match rep
    case RandomValues(drawn) => drawn(row, col)
    case MissingValues(st) => SpecialValue(v.varType, st)
  }

  /** Bit i of a random mask (a missing bit reads as unset). */
  predicate Bit(mask: seq<bool>, i: nat) {
    i < |mask| && mask[i]
  }

  /** Every row has a cell at column idx. */
  predicate HasColumn(rows: seq<Row>, idx: nat) {
    forall i :: 0 <= i < |rows| ==> idx < |rows[i].values|
  }

  /** Every mask has one bit per row. */
  predicate MasksFit(masks: seq<seq<bool>>, n: nat) {
    forall k :: 0 <= k < |masks| ==> |masks[k]| == n
  }

  /** Two tables with the same number of rows, the same row lengths and the same metas. */
  predicate SameShape(rows: seq<Row>, rows': seq<Row>) {
    |rows'| == |rows|
    && forall i :: 0 <= i < |rows| ==> |rows'[i].values| == |rows[i].values| && rows'[i].metas == rows[i].metas
  }

  /** Column idx of every row whose mask bit is set, overwritten (a row too
      short to have that column, which a table that fits its domain never
      holds, is left alone). */
  function Overwrite(rows: seq<Row>, idx: nat, mask: seq<bool>, rep: Replacement, v: Variable): (r: seq<Row>)
    ensures |r| == |rows|
  {
    seq(|rows|, i requires 0 <= i < |rows| =>
      if Bit(mask, i) && idx < |rows[i].values| then SetCell(rows[i], idx, Fill(rep, v, i, idx)) else rows[i])
  }

  /** Only the masked cell of column idx changes in a row. */
  lemma OverwriteCell(rows: seq<Row>, idx: nat, mask: seq<bool>, rep: Replacement, v: Variable, i: nat, c: nat)
    requires i < |rows| && c < |rows[i].values|
    ensures var r := Overwrite(rows, idx, mask, rep, v);
            r[i].values[c] == if c == idx && Bit(mask, i) then Fill(rep, v, i, idx) else rows[i].values[c]
  {
  }

  lemma OverwriteShape(rows: seq<Row>, idx: nat, mask: seq<bool>, rep: Replacement, v: Variable)
    ensures SameShape(rows, Overwrite(rows, idx, mask, rep, v))
  {
  }

  lemma SameShapeFits(d: Domain, rows: seq<Row>, rows': seq<Row>)
    requires RowsFit(d, rows) && SameShape(rows, rows')
    ensures RowsFit(d, rows')
  {
  }

  lemma FitsHasColumn(d: Domain, rows: seq<Row>, idx: nat)
    requires RowsFit(d, rows) && idx < |d.Variables()|
    ensures HasColumn(rows, idx)
  {
  }

  /** The mask loop over the rows: a row whose bit is set gets a replacement in column idx. */
  method MaskColumn(table: ExampleTable, idx: nat, mask: seq<bool>, rep: Replacement, v: Variable)
    requires |mask| == |table.examples| && HasColumn(table.examples, idx)
    modifies table
    ensures table.domain == old(table.domain)
    ensures table.examples == Overwrite(old(table.examples), idx, mask, rep, v)
  {
    ghost var before := table.examples;
    var eind := 0;
    while eind < |mask|
      invariant 0 <= eind <= |mask|
      invariant table.domain == old(table.domain)
      invariant |table.examples| == |before|
      invariant forall i :: 0 <= i < eind ==> table.examples[i] == Overwrite(before, idx, mask, rep, v)[i]
      invariant forall i :: eind <= i < |before| ==> table.examples[i] == before[i]
    {
      if mask[eind] {
        table.SetValue(eind, idx, Fill(rep, v, eind, idx));
      }
      eind := eind + 1;
    }
  }

  // ---------------------------------------------------------------------
  // addNoise / addMissing
  // ---------------------------------------------------------------------

  /** The variables of a proportion map are distinct, as the keys of a map are. */
  predicate DistinctKeys(props: seq<(Variable, real)>) {
    forall j, k :: 0 <= j < k < |props| ==> props[j].0 != props[k].0
  }

  predicate AllFound(d: Domain, props: seq<(Variable, real)>) {
    forall k :: 0 <= k < |props| ==> GetVarNum(d, props[k].0).Some?
  }

  /** The first loop: every listed variable with a positive proportion has its
      column masked; every listed attribute is marked in `attributeUsed`;
      getVarNum raises for a variable outside the domain. */
  function ExplicitPass(d: Domain, rows: seq<Row>, used: seq<bool>, props: seq<(Variable, real)>,
                        masks: seq<seq<bool>>, rep: Replacement): (r: Result<(seq<Row>, seq<bool>)>)
    requires |masks| == |props|
    ensures r.Success? ==> |r.value.1| == |used|
    decreases |props|
  {
    if props == [] then Success((rows, used))
    else
      var (v, p) := props[0];
      match GetVarNum(d, v)
      case None => Failure(AttributeNotFound(v.name))
      case Some(idx) =>
        var rows' := if p > 0.0 then Overwrite(rows, idx, masks[0], rep, v) else rows;
        var used' := if idx < |used| then used[idx := true] else used;
        ExplicitPass(d, rows', used', props[1..], masks[1..], rep)
  }

  /** The second loop: every attribute not marked in `attributeUsed` is masked with its default mask. */
  function DefaultPass(d: Domain, rows: seq<Row>, used: seq<bool>, dmasks: seq<seq<bool>>,
                       rep: Replacement, idx: nat): (r: seq<Row>)
    requires |used| == |d.attributes| && |dmasks| == |used| && idx <= |used|
    ensures |r| == |rows|
    decreases |used| - idx
  {
    if idx == |used| then rows
    else
      var rows' := if !used[idx] then Overwrite(rows, idx, dmasks[idx], rep, d.attributes[idx]) else rows;
      DefaultPass(d, rows', used, dmasks, rep, idx + 1)
  }

  function Entries(props: Option<seq<(Variable, real)>>): seq<(Variable, real)> {
    if props.Some? then props.value else []
  }

  /** The rows addNoise (with random values) or addMissing (with special values) returns. */
  function MaskedOverwrite(gen: Table, props: Option<seq<(Variable, real)>>, defaultProportion: real,
                           masks: seq<seq<bool>>, dmasks: seq<seq<bool>>, rep: Replacement): Result<seq<Row>>
    requires |masks| == |Entries(props)| && |dmasks| == |gen.domain.attributes|
  {
    if props.None? && defaultProportion <= 0.0 then Success(gen.rows)
    else
      var unused := seq(|gen.domain.attributes|, _ => false);
      match ExplicitPass(gen.domain, gen.rows, unused, Entries(props), masks, rep)
      case Failure(e) => Failure(e)
      case Success((rows, used)) =>
        Success(if defaultProportion > 0.0 then DefaultPass(gen.domain, rows, used, dmasks, rep, 0) else rows)
  }

  /** The listed entry whose variable sits at column c, if any. */
  function EntryAt(d: Domain, props: seq<(Variable, real)>, c: nat): (r: Option<nat>)
    ensures r.Some? ==> r.value < |props| && GetVarNum(d, props[r.value].0) == Some(c)
    ensures r.None? ==> forall k :: 0 <= k < |props| ==> GetVarNum(d, props[k].0) != Some(c)
  {
    if props == [] then None
    else if GetVarNum(d, props[0].0) == Some(c) then Some(0)
    else match EntryAt(d, props[1..], c)
      case None => None
      case Some(k) => Some(k + 1)
  }

  /** A cell after the explicit pass: overwritten iff its column is listed with
      a positive proportion and that entry's mask bit is set. */
  function ExplicitCell(d: Domain, rows: seq<Row>, props: seq<(Variable, real)>, masks: seq<seq<bool>>,
                        rep: Replacement, i: nat, c: nat): Value
    requires |masks| == |props| && i < |rows| && c < |rows[i].values|
  {
    match EntryAt(d, props, c)
    case Some(k) => if props[k].1 > 0.0 && Bit(masks[k], i) then Fill(rep, props[k].0, i, c) else rows[i].values[c]
    case None => rows[i].values[c]
  }

  lemma DistinctKeysTail(props: seq<(Variable, real)>)
    requires props != [] && DistinctKeys(props)
    ensures DistinctKeys(props[1..])
  {
    var rest := props[1..];
    forall j, k | 0 <= j < k < |rest| ensures rest[j].0 != rest[k].0 {
      assert rest[j] == props[j + 1] && rest[k] == props[k + 1];
    }
  }

  lemma AllFoundTail(d: Domain, props: seq<(Variable, real)>)
    requires props != [] && AllFound(d, props)
    ensures AllFound(d, props[1..])
  {
    var rest := props[1..];
    forall k | 0 <= k < |rest| ensures GetVarNum(d, rest[k].0).Some? { assert rest[k] == props[k + 1]; }
  }

  /** A listed variable's column is not listed again further on. */
  lemma EntryAtTail(d: Domain, props: seq<(Variable, real)>)
    requires d.WellFormed() && props != [] && DistinctKeys(props) && GetVarNum(d, props[0].0).Some?
    ensures EntryAt(d, props[1..], GetVarNum(d, props[0].0).value).None?
  {
  }

  /** One step of the explicit pass, seen from one cell. */
  lemma ExplicitCellStep(d: Domain, rows: seq<Row>, props: seq<(Variable, real)>, masks: seq<seq<bool>>,
                         rep: Replacement, i: nat, c: nat)
    requires |masks| == |props| && props != [] && GetVarNum(d, props[0].0).Some?
    requires EntryAt(d, props[1..], GetVarNum(d, props[0].0).value).None?
    requires i < |rows| && c < |rows[i].values|
    ensures var (v, p) := props[0];
            var rows1 := if p > 0.0 then Overwrite(rows, GetVarNum(d, v).value, masks[0], rep, v) else rows;
            i < |rows1| && c < |rows1[i].values|
            && ExplicitCell(d, rows1, props[1..], masks[1..], rep, i, c) == ExplicitCell(d, rows, props, masks, rep, i, c)
  {
    var (v, p) := props[0];
    var idx := GetVarNum(d, v).value;
    OverwriteShape(rows, idx, masks[0], rep, v);
    OverwriteCell(rows, idx, masks[0], rep, v, i, c);
    if c != idx {
      match EntryAt(d, props[1..], c)
      case None =>
      case Some(k) => assert props[k + 1] == props[1..][k] && masks[k + 1] == masks[1..][k];
    }
  }

  /** The first pass leaves in each cell the value ExplicitCell describes and
      marks exactly the listed attributes as used. */
  lemma {:induction false} ExplicitPassCells(d: Domain, rows: seq<Row>, used: seq<bool>, props: seq<(Variable, real)>,
                                             masks: seq<seq<bool>>, rep: Replacement)
    requires d.WellFormed() && |masks| == |props| && DistinctKeys(props) && AllFound(d, props)
    ensures ExplicitPass(d, rows, used, props, masks, rep).Success?
    ensures var (rows', used') := ExplicitPass(d, rows, used, props, masks, rep).value;
            SameShape(rows, rows')
            && (forall i, c :: 0 <= i < |rows| && 0 <= c < |rows[i].values| ==>
                  rows'[i].values[c] == ExplicitCell(d, rows, props, masks, rep, i, c))
            && (forall c :: 0 <= c < |used| ==> used'[c] == (used[c] || EntryAt(d, props, c).Some?))
    decreases |props|
  {
    if props != [] {
      var (v, p) := props[0];
      var idx := GetVarNum(d, v).value;
      var rows1 := if p > 0.0 then Overwrite(rows, idx, masks[0], rep, v) else rows;
      var used1 := if idx < |used| then used[idx := true] else used;
      DistinctKeysTail(props);
      AllFoundTail(d, props);
      EntryAtTail(d, props);
      OverwriteShape(rows, idx, masks[0], rep, v);
      ExplicitPassCells(d, rows1, used1, props[1..], masks[1..], rep);
      var (rows', used') := ExplicitPass(d, rows1, used1, props[1..], masks[1..], rep).value;
      forall i, c | 0 <= i < |rows| && 0 <= c < |rows[i].values|
        ensures rows'[i].values[c] == ExplicitCell(d, rows, props, masks, rep, i, c)
      {
        ExplicitCellStep(d, rows, props, masks, rep, i, c);
      }
      forall c | 0 <= c < |used|
        ensures used'[c] == (used[c] || EntryAt(d, props, c).Some?)
      {
        EntryAtSplit(d, props, c);
        assert used'[c] == (used1[c] || EntryAt(d, props[1..], c).Some?);
      }
    }
  }

  /** Column c is listed iff it is the first entry's column or listed in the rest. */
  lemma EntryAtSplit(d: Domain, props: seq<(Variable, real)>, c: nat)
    requires props != []
    ensures EntryAt(d, props, c).Some? <==> GetVarNum(d, props[0].0) == Some(c) || EntryAt(d, props[1..], c).Some?
  {
  }

  /** A cell after the default pass from column idx on. */
  function DefaultCell(d: Domain, rows: seq<Row>, used: seq<bool>, dmasks: seq<seq<bool>>,
                       rep: Replacement, idx: nat, i: nat, c: nat): Value
    requires |used| == |d.attributes| && |dmasks| == |used| && i < |rows| && c < |rows[i].values|
  {
    if idx <= c < |used| && !used[c] && Bit(dmasks[c], i) then Fill(rep, d.attributes[c], i, c) else rows[i].values[c]
  }

  /** One step of the default pass, seen from one cell. */
  lemma DefaultCellStep(d: Domain, rows: seq<Row>, used: seq<bool>, dmasks: seq<seq<bool>>,
                        rep: Replacement, idx: nat, i: nat, c: nat)
    requires |used| == |d.attributes| && |dmasks| == |used| && idx < |used| && i < |rows| && c < |rows[i].values|
    ensures var rows1 := if !used[idx] then Overwrite(rows, idx, dmasks[idx], rep, d.attributes[idx]) else rows;
            i < |rows1| && c < |rows1[i].values|
            && DefaultCell(d, rows1, used, dmasks, rep, idx + 1, i, c) == DefaultCell(d, rows, used, dmasks, rep, idx, i, c)
  {
    OverwriteShape(rows, idx, dmasks[idx], rep, d.attributes[idx]);
    OverwriteCell(rows, idx, dmasks[idx], rep, d.attributes[idx], i, c);
  }

  /** The second pass masks exactly the unused attribute columns from idx on. */
  lemma {:induction false} DefaultPassCells(d: Domain, rows: seq<Row>, used: seq<bool>, dmasks: seq<seq<bool>>,
                                            rep: Replacement, idx: nat)
    requires |used| == |d.attributes| && |dmasks| == |used| && idx <= |used|
    ensures var r := DefaultPass(d, rows, used, dmasks, rep, idx);
            SameShape(rows, r)
            && forall i, c :: 0 <= i < |rows| && 0 <= c < |rows[i].values| ==>
                 r[i].values[c] == DefaultCell(d, rows, used, dmasks, rep, idx, i, c)
    decreases |used| - idx
  {
    if idx < |used| {
      var rows1 := if !used[idx] then Overwrite(rows, idx, dmasks[idx], rep, d.attributes[idx]) else rows;
      OverwriteShape(rows, idx, dmasks[idx], rep, d.attributes[idx]);
      DefaultPassCells(d, rows1, used, dmasks, rep, idx + 1);
      forall i, c | 0 <= i < |rows| && 0 <= c < |rows[i].values|
        ensures DefaultPass(d, rows, used, dmasks, rep, idx)[i].values[c] == DefaultCell(d, rows, used, dmasks, rep, idx, i, c)
      {
        DefaultCellStep(d, rows, used, dmasks, rep, idx, i, c);
      }
    }
  }

  /** What a cell holds after addNoise or addMissing: a column listed in the
      map is masked only by its own entry (and only if its proportion is
      positive); an unlisted attribute is masked by its default mask when the
      default proportion is positive; an unlisted class is never touched. */
  function ExpectedCell(d: Domain, rows: seq<Row>, props: seq<(Variable, real)>, defaultProportion: real,
                        masks: seq<seq<bool>>, dmasks: seq<seq<bool>>, rep: Replacement, i: nat, c: nat): Value
    requires |masks| == |props| && |dmasks| == |d.attributes| && i < |rows| && c < |rows[i].values|
  {
    match EntryAt(d, props, c)
    case Some(k) => if props[k].1 > 0.0 && Bit(masks[k], i) then Fill(rep, props[k].0, i, c) else rows[i].values[c]
    case None =>
      if c < |d.attributes| && defaultProportion > 0.0 && Bit(dmasks[c], i)
      then Fill(rep, d.attributes[c], i, c) else rows[i].values[c]
  }

  lemma {:induction false} ExplicitPassFails(d: Domain, rows: seq<Row>, used: seq<bool>, props: seq<(Variable, real)>,
                                             masks: seq<seq<bool>>, rep: Replacement)
    requires |masks| == |props| && !AllFound(d, props)
    ensures ExplicitPass(d, rows, used, props, masks, rep).Failure?
    decreases |props|
  {
    var (v, p) := props[0];
    if GetVarNum(d, v).Some? {
      var idx := GetVarNum(d, v).value;
      var rows1 := if p > 0.0 then Overwrite(rows, idx, masks[0], rep, v) else rows;
      var used1 := if idx < |used| then used[idx := true] else used;
      var rest := props[1..];
      assert !AllFound(d, rest) by {
        var k :| 0 <= k < |props| && GetVarNum(d, props[k].0).None?;
        assert k > 0 && rest[k - 1] == props[k];
      }
      ExplicitPassFails(d, rows1, used1, rest, masks[1..], rep);
    }
  }

  /** One cell after both passes. */
  lemma ExpectedCellOfPasses(d: Domain, rows: seq<Row>, props: seq<(Variable, real)>, defaultProportion: real,
                             masks: seq<seq<bool>>, dmasks: seq<seq<bool>>, rep: Replacement,
                             x1: Value, used1: seq<bool>, x: Value, i: nat, c: nat)
    requires |masks| == |props| && |dmasks| == |d.attributes| && i < |rows| && c < |rows[i].values|
    requires |used1| == |d.attributes|
    requires x1 == ExplicitCell(d, rows, props, masks, rep, i, c)
    requires c < |used1| ==> used1[c] == EntryAt(d, props, c).Some?
    requires x == if defaultProportion > 0.0 && c < |used1| && !used1[c] && Bit(dmasks[c], i)
                  then Fill(rep, d.attributes[c], i, c) else x1
    ensures x == ExpectedCell(d, rows, props, defaultProportion, masks, dmasks, rep, i, c)
  {
  }

  /** The default pass after the explicit pass, cell by cell. */
  lemma DefaultAfterExplicit(d: Domain, rows: seq<Row>, props: seq<(Variable, real)>, defaultProportion: real,
                             masks: seq<seq<bool>>, dmasks: seq<seq<bool>>, rep: Replacement,
                             rows1: seq<Row>, used1: seq<bool>)
    requires |masks| == |props| && |dmasks| == |d.attributes| && |used1| == |d.attributes|
    requires SameShape(rows, rows1)
    requires forall i, c :: 0 <= i < |rows| && 0 <= c < |rows[i].values| ==>
               rows1[i].values[c] == ExplicitCell(d, rows, props, masks, rep, i, c)
    requires forall c :: 0 <= c < |used1| ==> used1[c] == EntryAt(d, props, c).Some?
    ensures var r := if defaultProportion > 0.0 then DefaultPass(d, rows1, used1, dmasks, rep, 0) else rows1;
            SameShape(rows, r)
            && forall i, c :: 0 <= i < |rows| && 0 <= c < |rows[i].values| ==>
                 r[i].values[c] == ExpectedCell(d, rows, props, defaultProportion, masks, dmasks, rep, i, c)
  {
    if defaultProportion > 0.0 {
      DefaultPassCells(d, rows1, used1, dmasks, rep, 0);
    }
    var r := if defaultProportion > 0.0 then DefaultPass(d, rows1, used1, dmasks, rep, 0) else rows1;
    forall i, c | 0 <= i < |rows| && 0 <= c < |rows[i].values|
      ensures r[i].values[c] == ExpectedCell(d, rows, props, defaultProportion, masks, dmasks, rep, i, c)
    {
      ExpectedCellOfPasses(d, rows, props, defaultProportion, masks, dmasks, rep,
                           rows1[i].values[c], used1, r[i].values[c], i, c);
    }
  }

  /** The explicit pass starting from an all-false `attributeUsed`, then the default pass. */
  lemma ExplicitThenDefault(d: Domain, rows: seq<Row>, props: seq<(Variable, real)>, defaultProportion: real,
                            masks: seq<seq<bool>>, dmasks: seq<seq<bool>>, rep: Replacement)
    requires d.WellFormed() && |masks| == |props| && DistinctKeys(props) && AllFound(d, props)
    requires |dmasks| == |d.attributes|
    ensures ExplicitPass(d, rows, seq(|d.attributes|, _ => false), props, masks, rep).Success?
    ensures var (rows1, used1) := ExplicitPass(d, rows, seq(|d.attributes|, _ => false), props, masks, rep).value;
            var r := if defaultProportion > 0.0 then DefaultPass(d, rows1, used1, dmasks, rep, 0) else rows1;
            SameShape(rows, r)
            && forall i, c :: 0 <= i < |rows| && 0 <= c < |rows[i].values| ==>
                 r[i].values[c] == ExpectedCell(d, rows, props, defaultProportion, masks, dmasks, rep, i, c)
  {
    var unused := seq(|d.attributes|, _ => false);
    ExplicitPassCells(d, rows, unused, props, masks, rep);
    var (rows1, used1) := ExplicitPass(d, rows, unused, props, masks, rep).value;
    forall c | 0 <= c < |used1| ensures used1[c] == EntryAt(d, props, c).Some? {
      assert !unused[c];
    }
    DefaultAfterExplicit(d, rows, props, defaultProportion, masks, dmasks, rep, rows1, used1);
  }

  /** The main property of addNoise and addMissing: the operator fails exactly
      when a listed variable is not in the domain, and otherwise overwrites
      exactly the masked cells described by ExpectedCell, keeping the row
      count, the row lengths and every meta value. */
  lemma MaskedOverwriteCharacterised(gen: Table, props: Option<seq<(Variable, real)>>, defaultProportion: real,
                                     masks: seq<seq<bool>>, dmasks: seq<seq<bool>>, rep: Replacement)
    requires gen.domain.WellFormed() && DistinctKeys(Entries(props))
    requires |masks| == |Entries(props)| && |dmasks| == |gen.domain.attributes|
    ensures var r := MaskedOverwrite(gen, props, defaultProportion, masks, dmasks, rep);
            (r.Failure? <==> props.Some? && !AllFound(gen.domain, props.value))
            && (r.Success? ==>
                  SameShape(gen.rows, r.value)
                  && forall i, c :: 0 <= i < |gen.rows| && 0 <= c < |gen.rows[i].values| ==>
                       r.value[i].values[c]
                       == ExpectedCell(gen.domain, gen.rows, Entries(props), defaultProportion, masks, dmasks, rep, i, c))
  {
    var d, rows, ps := gen.domain, gen.rows, Entries(props);
    if !AllFound(d, ps) {
      ExplicitPassFails(d, rows, seq(|d.attributes|, _ => false), ps, masks, rep);
    } else if !(props.None? && defaultProportion <= 0.0) {
      ExplicitThenDefault(d, rows, ps, defaultProportion, masks, dmasks, rep);
    } else {
      forall i, c | 0 <= i < |rows| && 0 <= c < |rows[i].values|
        ensures rows[i].values[c] == ExpectedCell(d, rows, ps, defaultProportion, masks, dmasks, rep, i, c)
      {
        assert EntryAt(d, ps, c).None?;
      }
    }
  }

  /** With no proportion map, or an empty one, and no positive default the table comes back unchanged. */
  lemma NoProportionsNoChange(gen: Table, props: Option<seq<(Variable, real)>>, defaultProportion: real,
                              dmasks: seq<seq<bool>>, rep: Replacement)
    requires Entries(props) == [] && defaultProportion <= 0.0 && |dmasks| == |gen.domain.attributes|
    ensures MaskedOverwrite(gen, props, defaultProportion, [], dmasks, rep) == Success(gen.rows)
  {
  }

  /** How the explicit pass unfolds at entry k. */
  lemma ExplicitPassUnfold(d: Domain, rows: seq<Row>, used: seq<bool>, props: seq<(Variable, real)>,
                           masks: seq<seq<bool>>, rep: Replacement, k: nat)
    requires |masks| == |props| && k < |props|
    ensures ExplicitPass(d, rows, used, props[k..], masks[k..], rep)
            == match GetVarNum(d, props[k].0)
               case None => Failure(AttributeNotFound(props[k].0.name))
               case Some(idx) =>
                 ExplicitPass(d, if props[k].1 > 0.0 then Overwrite(rows, idx, masks[k], rep, props[k].0) else rows,
                              if idx < |used| then used[idx := true] else used,
                              props[k + 1..], masks[k + 1..], rep)
  {
    assert props[k..][0] == props[k] && props[k..][1..] == props[k + 1..];
    assert masks[k..][0] == masks[k] && masks[k..][1..] == masks[k + 1..];
  }

  /** One entry of the first loop: mask column idx if the proportion is
      positive, and mark it used if it is an attribute. */
  method ExplicitEntry(table: ExampleTable, attributeUsed: array<bool>, d: Domain, idx: nat, v: Variable, p: real,
                       mask: seq<bool>, rep: Replacement)
    requires table.domain == d && RowsFit(d, table.examples) && idx < |d.Variables()| && |mask| == |table.examples|
    modifies table, attributeUsed
    ensures table.domain == d && RowsFit(d, table.examples)
    ensures table.examples == if p > 0.0 then Overwrite(old(table.examples), idx, mask, rep, v) else old(table.examples)
    ensures attributeUsed[..] == if idx < attributeUsed.Length then old(attributeUsed[..])[idx := true] else old(attributeUsed[..])
  {
    if p > 0.0 {
      FitsHasColumn(d, table.examples, idx);
      OverwriteShape(table.examples, idx, mask, rep, v);
      SameShapeFits(d, table.examples, Overwrite(table.examples, idx, mask, rep, v));
      MaskColumn(table, idx, mask, rep, v);
    }
    if idx < attributeUsed.Length {
      attributeUsed[idx] := true;
    }
  }

  /** The first loop of addNoise and addMissing, over the table and `attributeUsed`. */
  method ExplicitLoop(table: ExampleTable, attributeUsed: array<bool>, d: Domain, ps: seq<(Variable, real)>,
                      masks: seq<seq<bool>>, rep: Replacement)
    returns (r: Result<(seq<Row>, seq<bool>)>)
    requires table.domain == d && RowsFit(d, table.examples)
    requires |masks| == |ps| && MasksFit(masks, |table.examples|)
    modifies table, attributeUsed
    ensures r == ExplicitPass(d, old(table.examples), old(attributeUsed[..]), ps, masks, rep)
    ensures table.domain == d
    ensures r.Success? ==> table.examples == r.value.0 && attributeUsed[..] == r.value.1
    ensures RowsFit(d, table.examples) && |table.examples| == |old(table.examples)|
  {
    var k := 0;
    while k < |ps|
      invariant 0 <= k <= |ps|
      invariant table.domain == d && RowsFit(d, table.examples) && |table.examples| == |old(table.examples)|
      invariant ExplicitPass(d, old(table.examples), old(attributeUsed[..]), ps, masks, rep)
                == ExplicitPass(d, table.examples, attributeUsed[..], ps[k..], masks[k..], rep)
    {
      var ok := ExplicitStep(table, attributeUsed, d, ps, masks, rep, k);
      if !ok {
        return Failure(AttributeNotFound(ps[k].0.name));
      }
      k := k + 1;
    }
    assert ps[k..] == [] && masks[k..] == [];
    r := Success((table.examples, attributeUsed[..]));
  }

  /** Entry k of the first loop: false when its variable is not in the domain. */
  method ExplicitStep(table: ExampleTable, attributeUsed: array<bool>, d: Domain, ps: seq<(Variable, real)>,
                      masks: seq<seq<bool>>, rep: Replacement, k: nat)
    returns (ok: bool)
    requires table.domain == d && RowsFit(d, table.examples)
    requires |masks| == |ps| && k < |ps| && |masks[k]| == |table.examples|
    modifies table, attributeUsed
    ensures table.domain == d && RowsFit(d, table.examples) && |table.examples| == |old(table.examples)|
    ensures !ok ==> ExplicitPass(d, old(table.examples), old(attributeUsed[..]), ps[k..], masks[k..], rep)
                    == Failure(AttributeNotFound(ps[k].0.name))
    ensures ok ==> ExplicitPass(d, old(table.examples), old(attributeUsed[..]), ps[k..], masks[k..], rep)
                   == ExplicitPass(d, table.examples, attributeUsed[..], ps[k + 1..], masks[k + 1..], rep)
  {
    ExplicitPassUnfold(d, table.examples, attributeUsed[..], ps, masks, rep, k);
    var (v, p) := ps[k];
    var pos := GetVarNum(d, v);
    if pos.None? {
      return false;
    }
    ExplicitEntry(table, attributeUsed, d, pos.value, v, p, masks[k], rep);
    ok := true;
  }

  /** The second loop of addNoise and addMissing. */
  method DefaultLoop(table: ExampleTable, attributeUsed: array<bool>, d: Domain, dmasks: seq<seq<bool>>,
                     rep: Replacement)
    requires table.domain == d && RowsFit(d, table.examples)
    requires attributeUsed.Length == |d.attributes| && |dmasks| == |d.attributes| && MasksFit(dmasks, |table.examples|)
    modifies table
    ensures table.domain == d
    ensures table.examples == DefaultPass(d, old(table.examples), attributeUsed[..], dmasks, rep, 0)
  {
    var idx := 0;
    while idx < attributeUsed.Length
      invariant 0 <= idx <= attributeUsed.Length
      invariant table.domain == d && RowsFit(d, table.examples) && |table.examples| == |old(table.examples)|
      invariant DefaultPass(d, old(table.examples), attributeUsed[..], dmasks, rep, 0)
                == DefaultPass(d, table.examples, attributeUsed[..], dmasks, rep, idx)
    {
      DefaultStep(table, attributeUsed[..], d, dmasks, rep, idx);
      idx := idx + 1;
    }
  }

  /** Column idx of the second loop: masked with its default mask unless it is used. */
  method DefaultStep(table: ExampleTable, used: seq<bool>, d: Domain, dmasks: seq<seq<bool>>, rep: Replacement, idx: nat)
    requires table.domain == d && RowsFit(d, table.examples)
    requires |used| == |d.attributes| && |dmasks| == |used| && idx < |used| && MasksFit(dmasks, |table.examples|)
    modifies table
    ensures table.domain == d && RowsFit(d, table.examples) && |table.examples| == |old(table.examples)|
    ensures DefaultPass(d, old(table.examples), used, dmasks, rep, idx)
            == DefaultPass(d, table.examples, used, dmasks, rep, idx + 1)
  {
    if !used[idx] {
      FitsHasColumn(d, table.examples, idx);
      OverwriteShape(table.examples, idx, dmasks[idx], rep, d.attributes[idx]);
      SameShapeFits(d, table.examples, Overwrite(table.examples, idx, dmasks[idx], rep, d.attributes[idx]));
      MaskColumn(table, idx, dmasks[idx], rep, d.attributes[idx]);
    }
  }

  /** The body shared by TPreprocessor_addNoise and TPreprocessor_addMissing. */
  method MaskedOverwriteLoops(gen: Table, props: Option<seq<(Variable, real)>>, defaultProportion: real,
                              masks: seq<seq<bool>>, dmasks: seq<seq<bool>>, rep: Replacement)
    returns (r: Result<seq<Row>>)
    requires gen.Valid() && |masks| == |Entries(props)| && MasksFit(masks, |gen.rows|)
    requires |dmasks| == |gen.domain.attributes| && MasksFit(dmasks, |gen.rows|)
    ensures r == MaskedOverwrite(gen, props, defaultProportion, masks, dmasks, rep)
  {
    if props.None? && defaultProportion <= 0.0 {
      return Success(gen.rows);
    }
    var d := gen.domain;
    var attributeUsed := new bool[|d.attributes|](_ => false);
    assert attributeUsed[..] == seq(|d.attributes|, _ => false);
    var table := new ExampleTable.Copy(gen);
    var first := ExplicitLoop(table, attributeUsed, d, Entries(props), masks, rep);
    if first.Failure? {
      return Failure(first.error);
    }
    if defaultProportion > 0.0 {
      DefaultLoop(table, attributeUsed, d, dmasks, rep);
    }
    r := Success(table.examples);
  }

  /** A masked table as an operator's result; the weight id is passed through. */
  function AsOutput(d: Domain, rows: Result<seq<Row>>, weightId: int): (r: Result<Output>)
    ensures rows.Failure? <==> r.Failure?
    ensures rows.Failure? ==> r.error == rows.error
    ensures rows.Success? ==> r.value == Output(Table(d, rows.value), weightId)
  {
    match rows
    case Failure(e) => Failure(e)
    case Success(rs) => Success(Output(Table(d, rs), weightId))
  }

  /** TPreprocessor_addNoise::operator(): cells replaced by the variable's random values. */
  method AddNoise(gen: Table, weightId: int, proportions: Option<seq<(Variable, real)>>, defaultProportion: real,
                  masks: seq<seq<bool>>, dmasks: seq<seq<bool>>, drawn: (nat, nat) -> Value)
    returns (r: Result<Output>)
    requires gen.Valid() && |masks| == |Entries(proportions)| && MasksFit(masks, |gen.rows|)
    requires |dmasks| == |gen.domain.attributes| && MasksFit(dmasks, |gen.rows|)
    ensures r == AsOutput(gen.domain, MaskedOverwrite(gen, proportions, defaultProportion, masks, dmasks, RandomValues(drawn)), weightId)
  {
    var rows := MaskedOverwriteLoops(gen, proportions, defaultProportion, masks, dmasks, RandomValues(drawn));
    r := AsOutput(gen.domain, rows, weightId);
  }

  /** TPreprocessor_addMissing::operator(): cells replaced by special values of the given kind. */
  method AddMissing(gen: Table, weightId: int, proportions: Option<seq<(Variable, real)>>, defaultProportion: real,
                    specialType: int, masks: seq<seq<bool>>, dmasks: seq<seq<bool>>)
    returns (r: Result<Output>)
    requires gen.Valid() && |masks| == |Entries(proportions)| && MasksFit(masks, |gen.rows|)
    requires |dmasks| == |gen.domain.attributes| && MasksFit(dmasks, |gen.rows|)
    ensures r == AsOutput(gen.domain, MaskedOverwrite(gen, proportions, defaultProportion, masks, dmasks, MissingValues(specialType)), weightId)
  {
    var rows := MaskedOverwriteLoops(gen, proportions, defaultProportion, masks, dmasks, MissingValues(specialType));
    r := AsOutput(gen.domain, rows, weightId);
  }

  // ---------------------------------------------------------------------
  // addGaussianNoise: the deviation list handed to TGaussianNoiseGenerator
  // ---------------------------------------------------------------------

  /** What a Gaussian noise operator produces: a plain copy of the table, or
      the table passed through TGaussianNoiseGenerator with these (column,
      deviation) pairs. */
  datatype NoisePlan = CopyTable | GaussianNoise(deviations: seq<(nat, real)>)

  datatype PlanOutput = PlanOutput(plan: NoisePlan, weightId: int)

  /** Some listed variable sits at column c. */
  predicate Listed(d: Domain, props: seq<(Variable, real)>, c: nat) {
    exists k :: 0 <= k < |props| && GetVarNum(d, props[k].0) == Some(c)
  }

  predicate AllContinuous(props: seq<(Variable, real)>) {
    forall k :: 0 <= k < |props| ==> props[k].0.varType == FloatVar
  }

  /** The first loop: each listed variable must be continuous and in the
      domain; its (position, deviation) pair is pushed and an attribute's
      position is marked used. */
  function ExplicitDeviations(d: Domain, devs: seq<(Variable, real)>): (r: Result<(seq<(nat, real)>, seq<bool>)>)
    ensures r.Success? ==> |r.value.0| == |devs| && |r.value.1| == |d.attributes|
  {
    if devs == [] then Success(([], seq(|d.attributes|, _ => false)))
    else match ExplicitDeviations(d, devs[..|devs| - 1])
      case Failure(e) => Failure(e)
      case Success((ps, used)) =>
        var (v, dev) := devs[|devs| - 1];
        if v.varType != FloatVar then Failure(AttributeNotContinuous(v.name))
        else match GetVarNum(d, v)
          case None => Failure(AttributeNotFound(v.name))
          case Some(pos) => Success((ps + [(pos, dev)], if pos < |used| then used[pos := true] else used))
  }

  /** The second loop: a pair (i, default) for every unused continuous attribute i, in order. */
  function DefaultDeviations(d: Domain, used: seq<bool>, def: real, n: nat): (r: seq<(nat, real)>)
    requires |used| == |d.attributes| && n <= |used|
  {
    if n == 0 then []
    else DefaultDeviations(d, used, def, n - 1)
         + (if !used[n - 1] && d.attributes[n - 1].varType == FloatVar then [(n - 1, def)] else [])
  }

  /** The deviations TPreprocessor_addGaussianNoise builds. */
  function GaussianPlan(d: Domain, devs: Option<seq<(Variable, real)>>, def: real): Result<NoisePlan> {
    if devs.None? && def <= 0.0 then Success(CopyTable)
    else match ExplicitDeviations(d, Entries(devs))
      case Failure(e) => Failure(e)
      case Success((ps, used)) =>
        Success(GaussianNoise(ps + (if def != 0.0 then DefaultDeviations(d, used, def, |used|) else [])))
  }

  lemma {:induction false} ExplicitDeviationsPrefix(d: Domain, devs: seq<(Variable, real)>, k: nat)
    requires k <= |devs| && ExplicitDeviations(d, devs[..k]).Failure?
    ensures ExplicitDeviations(d, devs) == ExplicitDeviations(d, devs[..k])
    decreases |devs| - k
  {
    if k < |devs| {
      assert devs[..k + 1][..k] == devs[..k];
      ExplicitDeviationsPrefix(d, devs, k + 1);
    } else {
      assert devs[..k] == devs;
    }
  }

  /** The explicit list fails exactly when a listed variable is not continuous or not in the domain. */
  lemma {:induction false} ExplicitDeviationsSucceeds(d: Domain, devs: seq<(Variable, real)>)
    ensures ExplicitDeviations(d, devs).Success? <==> AllContinuous(devs) && AllFound(d, devs)
  {
    if devs != [] {
      var init := devs[..|devs| - 1];
      ExplicitDeviationsSucceeds(d, init);
      assert forall k :: 0 <= k < |init| ==> init[k] == devs[k];
    }
  }

  /** On success the list holds each entry's position and deviation, in map order. */
  lemma {:induction false} ExplicitDeviationsPairs(d: Domain, devs: seq<(Variable, real)>)
    requires ExplicitDeviations(d, devs).Success?
    ensures var ps := ExplicitDeviations(d, devs).value.0;
            forall k :: 0 <= k < |devs| ==> GetVarNum(d, devs[k].0) == Some(ps[k].0) && ps[k].1 == devs[k].1
  {
    if devs != [] {
      var init := devs[..|devs| - 1];
      ExplicitDeviationsPairs(d, init);
      var ps0 := ExplicitDeviations(d, init).value.0;
      var ps := ExplicitDeviations(d, devs).value.0;
      assert forall k :: 0 <= k < |init| ==> init[k] == devs[k] && ps[k] == ps0[k];
    }
  }

  /** On success exactly the listed attributes are marked used. */
  lemma {:induction false} ExplicitDeviationsUsed(d: Domain, devs: seq<(Variable, real)>)
    requires ExplicitDeviations(d, devs).Success?
    ensures var used := ExplicitDeviations(d, devs).value.1;
            forall c :: 0 <= c < |used| ==> used[c] == Listed(d, devs, c)
  {
    if devs != [] {
      var init, last := devs[..|devs| - 1], devs[|devs| - 1];
      ExplicitDeviationsUsed(d, init);
      var used0 := ExplicitDeviations(d, init).value.1;
      var used := ExplicitDeviations(d, devs).value.1;
      forall c | 0 <= c < |used| ensures used[c] == Listed(d, devs, c) {
        ListedSnoc(d, devs, c);
      }
    }
  }

  lemma ListedSnoc(d: Domain, devs: seq<(Variable, real)>, c: nat)
    requires devs != []
    ensures Listed(d, devs, c) <==> Listed(d, devs[..|devs| - 1], c) || GetVarNum(d, devs[|devs| - 1].0) == Some(c)
  {
    var init := devs[..|devs| - 1];
    if Listed(d, devs, c) {
      var k :| 0 <= k < |devs| && GetVarNum(d, devs[k].0) == Some(c);
      if k < |init| { assert init[k] == devs[k]; }
    }
    if Listed(d, init, c) {
      var k :| 0 <= k < |init| && GetVarNum(d, init[k].0) == Some(c);
      assert init[k] == devs[k];
    }
  }

  /** Every default pair is (i, default) for an unused continuous attribute i below n. */
  lemma {:induction false} DefaultDeviationsSound(d: Domain, used: seq<bool>, def: real, n: nat)
    requires |used| == |d.attributes| && n <= |used|
    ensures forall j :: 0 <= j < |DefaultDeviations(d, used, def, n)| ==>
              DefaultDeviations(d, used, def, n)[j].0 < n
              && !used[DefaultDeviations(d, used, def, n)[j].0]
              && d.attributes[DefaultDeviations(d, used, def, n)[j].0].varType == FloatVar
              && DefaultDeviations(d, used, def, n)[j].1 == def
  {
    if n > 0 {
      DefaultDeviationsSound(d, used, def, n - 1);
    }
  }

  /** The default pairs are in increasing position order. */
  lemma {:induction false} DefaultDeviationsIncreasing(d: Domain, used: seq<bool>, def: real, n: nat)
    requires |used| == |d.attributes| && n <= |used|
    ensures forall j, j' :: 0 <= j < j' < |DefaultDeviations(d, used, def, n)| ==>
              DefaultDeviations(d, used, def, n)[j].0 < DefaultDeviations(d, used, def, n)[j'].0
  {
    if n > 0 {
      DefaultDeviationsIncreasing(d, used, def, n - 1);
      DefaultDeviationsSound(d, used, def, n - 1);
    }
  }

  /** Every unused continuous attribute below n has its default pair. */
  lemma {:induction false} DefaultDeviationsComplete(d: Domain, used: seq<bool>, def: real, n: nat, c: nat)
    requires |used| == |d.attributes| && c < n <= |used|
    requires !used[c] && d.attributes[c].varType == FloatVar
    ensures exists j :: 0 <= j < |DefaultDeviations(d, used, def, n)| && DefaultDeviations(d, used, def, n)[j].0 == c
  {
    var s0, s := DefaultDeviations(d, used, def, n - 1), DefaultDeviations(d, used, def, n);
    if c == n - 1 {
      assert s[|s| - 1].0 == c;
    } else {
      DefaultDeviationsComplete(d, used, def, n - 1, c);
      var j :| 0 <= j < |s0| && s0[j].0 == c;
      assert s[j] == s0[j];
    }
  }

  /** addGaussianNoise: it fails exactly when a listed variable is not
      continuous or not in the domain; otherwise the generator gets first one
      pair per listed variable (its position and deviation), then, for a
      non-zero default, one pair (i, default) for every continuous attribute
      i that is not listed, in increasing order. */
  lemma GaussianPlanCharacterised(d: Domain, devs: Option<seq<(Variable, real)>>, def: real)
    ensures var r := GaussianPlan(d, devs, def);
            var es := Entries(devs);
            (devs.None? && def <= 0.0 ==> r == Success(CopyTable))
            && (!(devs.None? && def <= 0.0) ==>
                  (r.Success? <==> AllContinuous(es) && AllFound(d, es))
                  && (r.Success? ==>
                        r.value.GaussianNoise?
                        && var ps := r.value.deviations;
                        |ps| >= |es|
                        && (forall k :: 0 <= k < |es| ==> GetVarNum(d, es[k].0) == Some(ps[k].0) && ps[k].1 == es[k].1)
                        && (def == 0.0 ==> |ps| == |es|)
                        && (forall j :: |es| <= j < |ps| ==>
                              ps[j].0 < |d.attributes| && !Listed(d, es, ps[j].0)
                              && d.attributes[ps[j].0].varType == FloatVar && ps[j].1 == def)
                        && (forall j, j' :: |es| <= j < j' < |ps| ==> ps[j].0 < ps[j'].0)
                        && (def != 0.0 ==>
                              forall c :: 0 <= c < |d.attributes| && !Listed(d, es, c)
                                          && d.attributes[c].varType == FloatVar ==>
                                exists j :: |es| <= j < |ps| && ps[j].0 == c)))
  {
    var es := Entries(devs);
    ExplicitDeviationsSucceeds(d, es);
    if !(devs.None? && def <= 0.0) && ExplicitDeviations(d, es).Success? {
      ExplicitDeviationsPairs(d, es);
      ExplicitDeviationsUsed(d, es);
      var (ps0, used) := ExplicitDeviations(d, es).value;
      if def != 0.0 {
        DefaultDeviationsSound(d, used, def, |used|);
        DefaultDeviationsIncreasing(d, used, def, |used|);
        AppendedDefaultsComplete(d, es, ps0, used, def, ps0 + DefaultDeviations(d, used, def, |used|));
      }
    }
  }

  /** Every unlisted continuous attribute gets a default pair after the explicit ones. */
  lemma AppendedDefaultsComplete(d: Domain, es: seq<(Variable, real)>, ps0: seq<(nat, real)>, used: seq<bool>,
                                 def: real, ps: seq<(nat, real)>)
    requires |used| == |d.attributes|
    requires forall c :: 0 <= c < |used| ==> used[c] == Listed(d, es, c)
    requires ps == ps0 + DefaultDeviations(d, used, def, |used|)
    ensures forall c :: 0 <= c < |d.attributes| && !Listed(d, es, c) && d.attributes[c].varType == FloatVar ==>
              exists j :: |ps0| <= j < |ps| && ps[j].0 == c
  {
    forall c | 0 <= c < |d.attributes| && !Listed(d, es, c) && d.attributes[c].varType == FloatVar
      ensures exists j :: |ps0| <= j < |ps| && ps[j].0 == c
    {
      var s := DefaultDeviations(d, used, def, |used|);
      DefaultDeviationsComplete(d, used, def, |used|, c);
      var j :| 0 <= j < |s| && s[j].0 == c;
      assert ps[|ps0| + j] == s[j];
    }
  }

  /** The first loop of addGaussianNoise. */
  method ExplicitDeviationLoop(d: Domain, devs: seq<(Variable, real)>, attributeUsed: array<bool>)
    returns (r: Result<seq<(nat, real)>>)
    requires attributeUsed[..] == seq(|d.attributes|, _ => false)
    modifies attributeUsed
    ensures match ExplicitDeviations(d, devs)
            case Failure(e) => r == Failure(e)
            case Success((ps, used)) => r == Success(ps) && attributeUsed[..] == used
  {
    var ps: seq<(nat, real)> := [];
    var k := 0;
    assert devs[..0] == [];
    while k < |devs|
      invariant 0 <= k <= |devs|
      invariant ExplicitDeviations(d, devs[..k]) == Success((ps, attributeUsed[..]))
    {
      assert devs[..k + 1][..k] == devs[..k];
      var (v, dev) := devs[k];
      if v.varType != FloatVar {
        ExplicitDeviationsPrefix(d, devs, k + 1);
        return Failure(AttributeNotContinuous(v.name));
      }
      var pos := GetVarNum(d, v);
      if pos.None? {
        ExplicitDeviationsPrefix(d, devs, k + 1);
        return Failure(AttributeNotFound(v.name));
      }
      ps := ps + [(pos.value, dev)];
      if pos.value < attributeUsed.Length {
        attributeUsed[pos.value] := true;
      }
      k := k + 1;
    }
    assert devs[..k] == devs;
    r := Success(ps);
  }

  /** The second loop of addGaussianNoise. */
  method DefaultDeviationLoop(d: Domain, attributeUsed: array<bool>, defaultDeviation: real)
    returns (ps: seq<(nat, real)>)
    requires attributeUsed.Length == |d.attributes|
    ensures ps == DefaultDeviations(d, attributeUsed[..], defaultDeviation, attributeUsed.Length)
  {
    ps := [];
    var i := 0;
    while i < attributeUsed.Length
      invariant 0 <= i <= attributeUsed.Length
      invariant ps == DefaultDeviations(d, attributeUsed[..], defaultDeviation, i)
    {
      if !attributeUsed[i] && d.attributes[i].varType == FloatVar {
        ps := ps + [(i, defaultDeviation)];
      }
      i := i + 1;
    }
  }

  /** TPreprocessor_addGaussianNoise::operator(). */
  method AddGaussianNoise(gen: Table, weightId: int, deviations: Option<seq<(Variable, real)>>, defaultDeviation: real)
    returns (r: Result<PlanOutput>)
    ensures match GaussianPlan(gen.domain, deviations, defaultDeviation)
            case Failure(e) => r == Failure(e)
            case Success(plan) => r == Success(PlanOutput(plan, weightId))
  {
    if deviations.None? && defaultDeviation <= 0.0 {
      return Success(PlanOutput(CopyTable, weightId));
    }
    var d := gen.domain;
    var attributeUsed := new bool[|d.attributes|](_ => false);
    assert attributeUsed[..] == seq(|d.attributes|, _ => false);
    var explicit := ExplicitDeviationLoop(d, Entries(deviations), attributeUsed);
    if explicit.Failure? {
      return Failure(explicit.error);
    }
    var ps := explicit.value;
    assert ExplicitDeviations(d, Entries(deviations)) == Success((ps, attributeUsed[..]));
    if defaultDeviation != 0.0 {
      var defaults := DefaultDeviationLoop(d, attributeUsed, defaultDeviation);
      ps := ps + defaults;
    }
    assert ps == explicit.value + (if defaultDeviation != 0.0 then DefaultDeviations(d, attributeUsed[..], defaultDeviation, |attributeUsed[..]|) else []);
    assert GaussianPlan(d, deviations, defaultDeviation) == Success(GaussianNoise(ps));
    r := Success(PlanOutput(GaussianNoise(ps), weightId));
  }

  // ---------------------------------------------------------------------
  // The class-slot variants
  // ---------------------------------------------------------------------

  /** The rows after masking the class column (position |attributes|, where
      setClass writes in a row that fits the domain). */
  function MaskClass(gen: Table, proportion: real, mask: seq<bool>, rep: Replacement): seq<Row>
    requires gen.domain.classVar.Some?
  {
    if proportion > 0.0 then Overwrite(gen.rows, |gen.domain.attributes|, mask, rep, gen.domain.classVar.value)
    else gen.rows
  }

  /** Masking the class column changes nothing but the masked class cells. */
  lemma MaskClassCells(gen: Table, proportion: real, mask: seq<bool>, rep: Replacement, i: nat, c: nat)
    requires gen.domain.classVar.Some? && i < |gen.rows| && c < |gen.rows[i].values|
    ensures var rows := MaskClass(gen, proportion, mask, rep);
            SameShape(gen.rows, rows)
            && rows[i].values[c]
               == if c == |gen.domain.attributes| && proportion > 0.0 && Bit(mask, i)
                  then Fill(rep, gen.domain.classVar.value, i, c) else gen.rows[i].values[c]
  {
    OverwriteShape(gen.rows, |gen.domain.attributes|, mask, rep, gen.domain.classVar.value);
    OverwriteCell(gen.rows, |gen.domain.attributes|, mask, rep, gen.domain.classVar.value, i, c);
  }

  function ClassNoise(gen: Table, weightId: int, proportion: real, mask: seq<bool>, drawn: (nat, nat) -> Value)
    : Result<Output>
  {
    if gen.domain.classVar.None? then Failure(ClassLessDomain)
    else if gen.domain.classVar.value.varType != IntVar then Failure(DiscreteClassExpected)
    else Success(Output(Table(gen.domain, MaskClass(gen, proportion, mask, RandomValues(drawn))), weightId))
  }

  /** The classes masked with the class variable's random values, after the two domain checks. */
  method AddClassNoise(gen: Table, weightId: int, proportion: real, mask: seq<bool>, drawn: (nat, nat) -> Value)
    returns (r: Result<Output>)
    requires gen.Valid() && |mask| == |gen.rows|
    ensures r == ClassNoise(gen, weightId, proportion, mask, drawn)
  {
    if gen.domain.classVar.None? {
      return Failure(ClassLessDomain);
    }
    var classVar := gen.domain.classVar.value;
    if classVar.varType != IntVar {
      return Failure(DiscreteClassExpected);
    }
    var table := new ExampleTable.Copy(gen);
    if proportion > 0.0 {
      FitsHasColumn(gen.domain, table.examples, |gen.domain.attributes|);
      MaskColumn(table, |gen.domain.attributes|, mask, RandomValues(drawn), classVar);
    }
    r := Success(Output(Table(table.domain, table.examples), weightId));
  }

  /** addClassNoise fails exactly on a class-less domain or a continuous
      class; otherwise only masked class cells change, to the drawn value. */
  lemma ClassNoiseCharacterised(gen: Table, weightId: int, proportion: real, mask: seq<bool>,
                                drawn: (nat, nat) -> Value, i: nat, c: nat)
    requires i < |gen.rows| && c < |gen.rows[i].values|
    ensures var r := ClassNoise(gen, weightId, proportion, mask, drawn);
            (r == Failure(ClassLessDomain) <==> gen.domain.classVar.None?)
            && (r == Failure(DiscreteClassExpected) <==>
                  gen.domain.classVar.Some? && gen.domain.classVar.value.varType != IntVar)
            && (r.Success? ==>
                  r.value.weightId == weightId && r.value.table.domain == gen.domain
                  && SameShape(gen.rows, r.value.table.rows)
                  && r.value.table.rows[i].values[c]
                     == if c == |gen.domain.attributes| && proportion > 0.0 && Bit(mask, i)
                        then drawn(i, c) else gen.rows[i].values[c])
  {
    if gen.domain.classVar.Some? {
      MaskClassCells(gen, proportion, mask, RandomValues(drawn), i, c);
    }
  }

  /** TPreprocessor_addGaussianClassNoise::operator(): a single pair for the
      class column when the deviation is positive. */
  function AddGaussianClassNoise(gen: Table, weightId: int, deviation: real): (r: Result<PlanOutput>)
    ensures r == Failure(ClassLessDomain) <==> gen.domain.classVar.None?
    ensures r.Failure? && gen.domain.classVar.Some? ==>
              r == Failure(ClassNotContinuous(gen.domain.classVar.value.name))
    ensures r.Success? <==> gen.domain.classVar.Some? && gen.domain.classVar.value.varType == FloatVar
    ensures r.Success? ==> r.value.weightId == weightId
                           && (r.value.plan.GaussianNoise? <==> deviation > 0.0)
                           && (deviation > 0.0 ==>
                                 r.value.plan.deviations == [(|gen.domain.attributes|, deviation)])
  {
    if gen.domain.classVar.None? then Failure(ClassLessDomain)
    else if gen.domain.classVar.value.varType != FloatVar then Failure(ClassNotContinuous(gen.domain.classVar.value.name))
    else if deviation > 0.0 then Success(PlanOutput(GaussianNoise([(|gen.domain.attributes|, deviation)]), weightId))
    else Success(PlanOutput(CopyTable, weightId))
  }

  function MissingClasses(gen: Table, weightId: int, proportion: real, specialType: int, mask: seq<bool>)
    : Result<Output>
  {
    if gen.domain.classVar.None? then Failure(ClassLessDomain)
    else Success(Output(Table(gen.domain, MaskClass(gen, proportion, mask, MissingValues(specialType))), weightId))
  }

  /** TPreprocessor_addMissingClasses::operator(): masked classes become special values. */
  method AddMissingClasses(gen: Table, weightId: int, proportion: real, specialType: int, mask: seq<bool>)
    returns (r: Result<Output>)
    requires gen.Valid() && |mask| == |gen.rows|
    ensures r == MissingClasses(gen, weightId, proportion, specialType, mask)
  {
    if gen.domain.classVar.None? {
      return Failure(ClassLessDomain);
    }
    var classVar := gen.domain.classVar.value;
    var table := new ExampleTable.Copy(gen);
    if proportion > 0.0 {
      FitsHasColumn(gen.domain, table.examples, |gen.domain.attributes|);
      MaskColumn(table, |gen.domain.attributes|, mask, MissingValues(specialType), classVar);
    }
    r := Success(Output(Table(table.domain, table.examples), weightId));
  }

  /** addMissingClasses fails exactly on a class-less domain; otherwise the
      masked class cells become special values of the class's type. */
  lemma MissingClassesCharacterised(gen: Table, weightId: int, proportion: real, specialType: int, mask: seq<bool>,
                                    i: nat, c: nat)
    requires i < |gen.rows| && c < |gen.rows[i].values|
    ensures var r := MissingClasses(gen, weightId, proportion, specialType, mask);
            (r.Failure? <==> gen.domain.classVar.None?)
            && (r.Success? ==>
                  r.value.weightId == weightId
                  && SameShape(gen.rows, r.value.table.rows)
                  && r.value.table.rows[i].values[c]
                     == if c == |gen.domain.attributes| && proportion > 0.0 && Bit(mask, i)
                        then SpecialValue(gen.domain.classVar.value.varType, specialType) else gen.rows[i].values[c])
  {
    if gen.domain.classVar.Some? {
      MaskClassCells(gen, proportion, mask, MissingValues(specialType), i, c);
    }
  }
}
