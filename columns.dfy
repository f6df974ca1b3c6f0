/** Column selection: the `ignore`, `select` and `discretize` preprocessors. */
module Columns {
  import opened Data

  // ---------------------------------------------------------------------
  // Filters over variable lists
  // ---------------------------------------------------------------------

  /** The variables of s that are not in vars, in the order of s. */
  function Without(s: seq<Variable>, vars: seq<Variable>): (r: seq<Variable>)
    ensures |r| <= |s|
  {
    if s == [] then []
    else Without(s[..|s| - 1], vars) + (if s[|s| - 1] in vars then [] else [s[|s| - 1]])
  }

  /** The variables of s that are in vars, in the order of s. */
  function Only(s: seq<Variable>, vars: seq<Variable>): (r: seq<Variable>)
    ensures |r| <= |s|
  {
    if s == [] then []
    else Only(s[..|s| - 1], vars) + (if s[|s| - 1] in vars then [s[|s| - 1]] else [])
  }

  lemma {:induction false} WithoutMembers(s: seq<Variable>, vars: seq<Variable>)
    ensures forall u :: u in Without(s, vars) <==> u in s && u !in vars
  {
    if s != [] {
      WithoutMembers(s[..|s| - 1], vars);
      assert s == s[..|s| - 1] + [s[|s| - 1]];
    }
  }

  lemma {:induction false} OnlyMembers(s: seq<Variable>, vars: seq<Variable>)
    ensures forall u :: u in Only(s, vars) <==> u in s && u in vars
  {
    if s != [] {
      OnlyMembers(s[..|s| - 1], vars);
      assert s == s[..|s| - 1] + [s[|s| - 1]];
    }
  }

  lemma {:induction false} WithoutDistinct(s: seq<Variable>, vars: seq<Variable>)
    requires Distinct(s)
    ensures Distinct(Without(s, vars))
  {
    if s != [] {
      WithoutDistinct(s[..|s| - 1], vars);
      WithoutMembers(s[..|s| - 1], vars);
    }
  }

  /** Two lists that agree on the members of s leave the same filter. */
  lemma {:induction false} WithoutSameMembers(s: seq<Variable>, a: seq<Variable>, b: seq<Variable>)
    requires forall u :: u in s ==> (u in a <==> u in b)
    ensures Without(s, a) == Without(s, b)
  {
    if s != [] {
      WithoutSameMembers(s[..|s| - 1], a, b);
    }
  }

  /** Filtering twice is filtering by the concatenated list. */
  lemma {:induction false} WithoutTwice(s: seq<Variable>, a: seq<Variable>, b: seq<Variable>)
    ensures Without(Without(s, a), b) == Without(s, a + b)
  {
    if s != [] {
      var x := s[|s| - 1];
      WithoutTwice(s[..|s| - 1], a, b);
      WithoutAppend(Without(s[..|s| - 1], a), if x in a then [] else [x], b);
    }
  }

  lemma {:induction false} WithoutAppend(s: seq<Variable>, t: seq<Variable>, vars: seq<Variable>)
    ensures Without(s + t, vars) == Without(s, vars) + Without(t, vars)
  {
    if t != [] {
      assert (s + t)[..|s + t| - 1] == s + t[..|t| - 1];
      WithoutAppend(s, t[..|t| - 1], vars);
    } else {
      assert s + t == s;
    }
  }

  lemma {:induction false} IndexOfAppend(p: seq<Variable>, q: seq<Variable>, x: Variable)
    requires x !in p && x in q
    ensures IndexOf(p + q, x) == |p| + IndexOf(q, x)
  {
    if p != [] {
      assert (p + q)[0] == p[0] && (p + q)[1..] == p[1..] + q;
      IndexOfAppend(p[1..], q, x);
    } else {
      assert p + q == q;
    }
  }

  // ---------------------------------------------------------------------
  // Domain editing
  // ---------------------------------------------------------------------

  /** TDomain::delVariable on the attribute list: remove the first occurrence of v. */
  function DelVariable(attrs: seq<Variable>, v: Variable): (r: seq<Variable>)
    requires v in attrs
    ensures |r| == |attrs| - 1
    ensures forall u :: u in r ==> u in attrs
  {
    var k := IndexOf(attrs, v);
    attrs[..k] + attrs[k + 1..]
  }

  /** In a list without repetitions, the entry at k occurs neither before nor after k. */
  lemma DistinctSplit<T>(s: seq<T>, k: nat)
    requires Distinct(s) && k < |s|
    ensures s[k] !in s[..k] && s[k] !in s[k + 1..]
  {
    assert forall j :: 0 <= j < k ==> s[..k][j] == s[j];
    assert forall j :: k < j < |s| ==> s[j] != s[k];
  }

  /** Deleting v from p + [v] + q, where p lacks v, leaves p + q. */
  lemma DelVariableAt(p: seq<Variable>, v: Variable, q: seq<Variable>)
    requires v !in p
    ensures v in p + ([v] + q)
    ensures DelVariable(p + ([v] + q), v) == p + q
  {
    var o := p + ([v] + q);
    assert IndexOf([v] + q, v) == 0;
    IndexOfAppend(p, [v] + q, v);
    assert o[..|p|] == p;
    assert o[|p| + 1..] == q;
  }

  /** Filtering v out of p + [v] + q, where neither p nor q holds v, leaves p + q. */
  lemma WithoutAt(p: seq<Variable>, v: Variable, q: seq<Variable>)
    requires v !in p && v !in q
    ensures Without(p + ([v] + q), [v]) == p + q
  {
    calc {
      Without(p + ([v] + q), [v]);
    == { WithoutAppend(p, [v] + q, [v]); }
      Without(p, [v]) + Without([v] + q, [v]);
    == { WithoutAppend([v], q, [v]); }
      Without(p, [v]) + (Without([v], [v]) + Without(q, [v]));
    == { WithoutNone(p, [v]); WithoutNone(q, [v]); WithoutItself(v); }
      p + ([] + q);
    == { assert [] + q == q; }
      p + q;
    }
  }

  lemma WithoutItself(v: Variable)
    ensures Without([v], [v]) == []
  {
    assert [v][..0] == [];
  }

  /** In a list without repetitions, deleting v is filtering v out. */
  lemma {:induction false} DelVariableIsWithout(attrs: seq<Variable>, v: Variable)
    requires Distinct(attrs) && v in attrs
    ensures DelVariable(attrs, v) == Without(attrs, [v])
  {
    var k := IndexOf(attrs, v);
    DistinctSplit(attrs, k);
    assert attrs == attrs[..k] + ([v] + attrs[k + 1..]);
    DelVariableAt(attrs[..k], v, attrs[k + 1..]);
    WithoutAt(attrs[..k], v, attrs[k + 1..]);
  }

  lemma {:induction false} WithoutNone(s: seq<Variable>, vars: seq<Variable>)
    requires forall u :: u in s ==> u !in vars
    ensures Without(s, vars) == s
  {
    if s != [] {
      WithoutNone(s[..|s| - 1], vars);
    }
  }

  /** The variables of dst all occur in src, so every row of src can be converted to dst. */
  predicate Narrows(dst: Domain, src: Domain) {
    forall v :: v in dst.Variables() ==> v in src.Variables()
  }

  /** TExampleTable(outDomain, gen): each value is taken from the same variable in the source row. */
  function ConvertRow(src: Domain, dst: Domain, row: Row): (r: Row)
    requires |row.values| == |src.Variables()| && Narrows(dst, src)
    ensures |r.values| == |dst.Variables()| && r.metas == row.metas
    ensures forall j :: 0 <= j < |r.values| ==>
              r.values[j] == row.values[IndexOf(src.Variables(), dst.Variables()[j])]
  {
    var vs := dst.Variables();
    Row(seq(|vs|, j requires 0 <= j < |vs| => row.values[IndexOf(src.Variables(), vs[j])]), row.metas)
  }

  function ConvertRows(src: Domain, dst: Domain, rows: seq<Row>): (r: seq<Row>)
    requires RowsFit(src, rows) && Narrows(dst, src)
    ensures |r| == |rows| && RowsFit(dst, r)
    ensures forall i :: 0 <= i < |rows| ==> r[i] == ConvertRow(src, dst, rows[i])
  {
    seq(|rows|, i requires 0 <= i < |rows| => ConvertRow(src, dst, rows[i]))
  }

  // ---------------------------------------------------------------------
  // ignore
  // ---------------------------------------------------------------------

  /** The loop of TPreprocessor_ignore over the listed variables, applied to a clone of the domain. */
  function IgnoreDomain(d: Domain, vars: seq<Variable>): Result<Domain>
    decreases |vars|
  {
    if vars == [] then Success(d)
    else if vars[0] in d.attributes then
      IgnoreDomain(Domain(DelVariable(d.attributes, vars[0]), d.classVar), vars[1..])
    else if d.classVar == Some(vars[0]) then
      IgnoreDomain(Domain(d.attributes, None), vars[1..])
    else Failure(AttributeNotFound(vars[0].name))
  }

  /** Every listed variable is, once, an attribute or the class. */
  predicate IgnoreAccepts(d: Domain, vars: seq<Variable>) {
    Distinct(vars) && forall v :: v in vars ==> v in d.attributes || d.classVar == Some(v)
  }

  /** The domain `ignore` leaves: the unlisted attributes, and the class unless listed. */
  function Ignored(d: Domain, vars: seq<Variable>): Domain {
    Domain(Without(d.attributes, vars),
           if d.classVar.Some? && d.classVar.value in vars then None else d.classVar)
  }

  lemma DistinctCons(v: Variable, rest: seq<Variable>)
    ensures Distinct([v] + rest) <==> v !in rest && Distinct(rest)
  {
    var vars := [v] + rest;
    if v !in rest && Distinct(rest) {
      forall i, j | 0 <= i < j < |vars| ensures vars[i] != vars[j] {
        if i > 0 { assert vars[i] == rest[i - 1] && vars[j] == rest[j - 1]; }
        else { assert vars[j] == rest[j - 1]; }
      }
    }
    if v in rest {
      var j :| 0 <= j < |rest| && rest[j] == v;
      assert vars[0] == vars[j + 1];
    }
    if !Distinct(rest) {
      var i, j :| 0 <= i < j < |rest| && rest[i] == rest[j];
      assert vars[i + 1] == vars[j + 1];
    }
  }

  /** One step of `ignore` on a listed attribute. */
  lemma IgnoreStepAttribute(d: Domain, v: Variable, rest: seq<Variable>)
    requires d.WellFormed() && v in d.attributes
    ensures var d' := Domain(DelVariable(d.attributes, v), d.classVar);
            d'.WellFormed()
            && (IgnoreAccepts(d, [v] + rest) <==> IgnoreAccepts(d', rest))
            && Ignored(d, [v] + rest) == Ignored(d', rest)
  {
    var d' := Domain(DelVariable(d.attributes, v), d.classVar);
    DelVariableIsWithout(d.attributes, v);
    WithoutMembers(d.attributes, [v]);
    WithoutDistinct(d.attributes, [v]);
    DistinctCons(v, rest);
    WithoutTwice(d.attributes, [v], rest);
  }

  /** One step of `ignore` on the class. */
  lemma IgnoreStepClass(d: Domain, v: Variable, rest: seq<Variable>)
    requires d.WellFormed() && v !in d.attributes && d.classVar == Some(v)
    ensures var d' := Domain(d.attributes, None);
            d'.WellFormed()
            && (IgnoreAccepts(d, [v] + rest) <==> IgnoreAccepts(d', rest))
            && Ignored(d, [v] + rest) == Ignored(d', rest)
  {
    DistinctCons(v, rest);
    WithoutSameMembers(d.attributes, rest, [v] + rest);
  }

  /** `ignore` succeeds exactly when every listed variable is an attribute or the
      class (each listed once), and then removes the listed attributes and the
      class if listed; otherwise it reports "not found" for a listed variable. */
  lemma {:induction false} IgnoreDomainCharacterised(d: Domain, vars: seq<Variable>)
    requires d.WellFormed()
    ensures IgnoreDomain(d, vars).Success? <==> IgnoreAccepts(d, vars)
    ensures IgnoreDomain(d, vars).Success? ==> IgnoreDomain(d, vars).value == Ignored(d, vars)
    ensures IgnoreDomain(d, vars).Failure? ==>
              exists v :: v in vars && IgnoreDomain(d, vars).error == AttributeNotFound(v.name)
    decreases |vars|
  {
    if vars == [] {
      WithoutNone(d.attributes, vars);
    } else {
      var v, rest := vars[0], vars[1..];
      assert vars == [v] + rest;
      if v in d.attributes {
        IgnoreStepAttribute(d, v, rest);
        IgnoreDomainCharacterised(Domain(DelVariable(d.attributes, v), d.classVar), rest);
      } else if d.classVar == Some(v) {
        IgnoreStepClass(d, v, rest);
        IgnoreDomainCharacterised(Domain(d.attributes, None), rest);
      }
    }
  }

  /** The output domain of a successful `ignore` only narrows the input domain. */
  lemma IgnoreNarrows(d: Domain, vars: seq<Variable>)
    requires d.WellFormed() && IgnoreDomain(d, vars).Success?
    ensures Narrows(IgnoreDomain(d, vars).value, d)
  {
    IgnoreDomainCharacterised(d, vars);
    WithoutMembers(d.attributes, vars);
  }

  /** TPreprocessor_ignore::operator(): the output table and an unchanged weight id. */
  function IgnoreSpec(gen: Table, weightId: int, vars: seq<Variable>): Result<Output>
    requires gen.Valid() && gen.domain.WellFormed()
  {
    match IgnoreDomain(gen.domain, vars)
    case Failure(e) => Failure(e)
    case Success(out) =>
      IgnoreNarrows(gen.domain, vars);
      Success(Output(Table(out, ConvertRows(gen.domain, out, gen.rows)), weightId))
  }

  method Ignore(gen: Table, weightId: int, vars: seq<Variable>) returns (r: Result<Output>)
    requires gen.Valid() && gen.domain.WellFormed()
    ensures r == IgnoreSpec(gen, weightId, vars)
  {
    var outDomain := gen.domain;
    var i := 0;
    while i < |vars|
      invariant 0 <= i <= |vars|
      invariant IgnoreDomain(gen.domain, vars) == IgnoreDomain(outDomain, vars[i..])
    {
      var v := vars[i];
      assert vars[i..][0] == v && vars[i..][1..] == vars[i + 1..];
      if v in outDomain.attributes {
        outDomain := Domain(DelVariable(outDomain.attributes, v), outDomain.classVar);
      } else if outDomain.classVar == Some(v) {
        outDomain := Domain(outDomain.attributes, None);
      } else {
        return Failure(AttributeNotFound(v.name));
      }
      i := i + 1;
    }
    assert vars[i..] == [];
    IgnoreNarrows(gen.domain, vars);
    r := Success(Output(Table(outDomain, ConvertRows(gen.domain, outDomain, gen.rows)), weightId));
  }

  // ---------------------------------------------------------------------
  // select
  // ---------------------------------------------------------------------

  /** The domain `select` leaves: the listed attributes in their order, and the class only if listed. */
  function Selected(d: Domain, vars: seq<Variable>): (r: Domain)
    ensures forall u :: u in r.attributes <==> u in d.attributes && u in vars
    ensures r.classVar.Some? <==> d.classVar.Some? && d.classVar.value in vars
    ensures r.classVar.Some? ==> r.classVar == d.classVar
    ensures Narrows(r, d)
  {
    OnlyMembers(d.attributes, vars);
    Domain(Only(d.attributes, vars),
           if d.classVar.Some? && d.classVar.value in vars then d.classVar else None)
  }

  /** `select` and `ignore` with the same list split a domain's attributes between them. */
  lemma {:induction false} SelectIgnoreComplement(d: Domain, vars: seq<Variable>)
    requires d.WellFormed() && IgnoreAccepts(d, vars)
    ensures IgnoreDomain(d, vars) == Success(Ignored(d, vars))
    ensures forall u :: u in d.attributes ==>
              (u in Selected(d, vars).attributes <==> u !in Ignored(d, vars).attributes)
    ensures Selected(d, vars).classVar.Some? <==> Ignored(d, vars).classVar.None? && d.classVar.Some?
  {
    IgnoreDomainCharacterised(d, vars);
    WithoutMembers(d.attributes, vars);
  }

  lemma {:induction false} OnlyDistinct(s: seq<Variable>, vars: seq<Variable>)
    requires Distinct(s)
    ensures Distinct(Only(s, vars))
  {
    if s != [] {
      OnlyDistinct(s[..|s| - 1], vars);
      OnlyMembers(s[..|s| - 1], vars);
    }
  }

  /** The filter of a prefix one longer. */
  lemma OnlyExtend(attrs: seq<Variable>, vars: seq<Variable>, i: nat)
    requires i < |attrs|
    ensures Only(attrs[..i + 1], vars) == Only(attrs[..i], vars) + (if attrs[i] in vars then [attrs[i]] else [])
  {
    assert attrs[..i + 1][..i] == attrs[..i];
  }

  /** One iteration of `select`'s loop: deleting an unlisted attribute. */
  lemma SelectStep(attrs: seq<Variable>, vars: seq<Variable>, i: nat)
    requires Distinct(attrs) && i < |attrs| && attrs[i] !in vars
    ensures attrs[i] in Only(attrs[..i], vars) + attrs[i..]
    ensures DelVariable(Only(attrs[..i], vars) + attrs[i..], attrs[i]) == Only(attrs[..i + 1], vars) + attrs[i + 1..]
  {
    DistinctSplit(attrs, i);
    OnlyMembers(attrs[..i], vars);
    OnlyExtend(attrs, vars, i);
    assert attrs[i..] == [attrs[i]] + attrs[i + 1..];
    DelVariableAt(Only(attrs[..i], vars), attrs[i], attrs[i + 1..]);
  }

  /** One iteration of `select`'s loop: a listed attribute stays. */
  lemma SelectKeep(attrs: seq<Variable>, vars: seq<Variable>, i: nat)
    requires i < |attrs| && attrs[i] in vars
    ensures Only(attrs[..i], vars) + attrs[i..] == Only(attrs[..i + 1], vars) + attrs[i + 1..]
  {
    OnlyExtend(attrs, vars, i);
    assert attrs[i..] == [attrs[i]] + attrs[i + 1..];
  }

  /** The loop of TPreprocessor_select: delete every unlisted attribute from a copy of the list. */
  method SelectAttributes(attrs: seq<Variable>, vars: seq<Variable>) returns (outAttrs: seq<Variable>)
    requires Distinct(attrs)
    ensures outAttrs == Only(attrs, vars)
  {
    outAttrs := attrs;
    var i := 0;
    while i < |attrs|
      invariant 0 <= i <= |attrs|
      invariant outAttrs == Only(attrs[..i], vars) + attrs[i..]
    {
      var v := attrs[i];
      if v !in vars {
        SelectStep(attrs, vars, i);
        outAttrs := DelVariable(outAttrs, v);
      } else {
        SelectKeep(attrs, vars, i);
      }
      i := i + 1;
    }
    assert attrs[..i] == attrs;
  }

  method Select(gen: Table, weightId: int, vars: seq<Variable>) returns (r: Output)
    requires gen.Valid() && gen.domain.WellFormed()
    ensures r.weightId == weightId
    ensures r.table.domain == Selected(gen.domain, vars)
    ensures r.table.rows == ConvertRows(gen.domain, Selected(gen.domain, vars), gen.rows)
  {
    var outAttrs := SelectAttributes(gen.domain.attributes, vars);
    var cls := gen.domain.classVar;
    if !(cls.Some? && cls.value in vars) {
      cls := None;
    }
    var outDomain := Domain(outAttrs, cls);
    assert outDomain == Selected(gen.domain, vars);
    r := Output(Table(outDomain, ConvertRows(gen.domain, outDomain, gen.rows)), weightId);
  }

  // ---------------------------------------------------------------------
  // discretize: which columns are handed to the discretisation method
  // ---------------------------------------------------------------------

  /** The positions of the explicitly listed variables, failing at the first unknown one. */
  function ListedPositions(d: Domain, vars: seq<Variable>): (r: Result<seq<nat>>)
    ensures r.Success? ==> |r.value| == |vars|
    ensures r.Success? ==> forall k :: 0 <= k < |vars| ==> GetVarNum(d, vars[k]) == Some(r.value[k])
  {
    if vars == [] then Success([])
    else match ListedPositions(d, vars[..|vars| - 1])
      case Failure(e) => Failure(e)
      case Success(ps) =>
        match GetVarNum(d, vars[|vars| - 1])
        case None => Failure(AttributeNotFound(vars[|vars| - 1].name))
        case Some(p) => Success(ps + [p])
  }

  /** A failure on a prefix of the list is the failure of the whole list. */
  lemma {:induction false} ListedPositionsPrefix(d: Domain, vars: seq<Variable>, k: nat)
    requires k <= |vars| && ListedPositions(d, vars[..k]).Failure?
    ensures ListedPositions(d, vars) == ListedPositions(d, vars[..k])
    decreases |vars| - k
  {
    if k < |vars| {
      assert vars[..k + 1][..k] == vars[..k];
      ListedPositionsPrefix(d, vars, k + 1);
    } else {
      assert vars[..k] == vars;
    }
  }

  lemma {:induction false} ListedPositionsFails(d: Domain, vars: seq<Variable>)
    ensures ListedPositions(d, vars).Failure? <==> exists v :: v in vars && GetVarNum(d, v).None?
  {
    if vars != [] {
      var init := vars[..|vars| - 1];
      ListedPositionsFails(d, init);
      assert vars == init + [vars[|vars| - 1]];
      if exists v :: v in vars && GetVarNum(d, v).None? {
        var v :| v in vars && GetVarNum(d, v).None?;
        assert v in init || v == vars[|vars| - 1];
      }
    }
  }

  /** The indices, below n, of the continuous attributes. */
  function ContinuousIndices(attrs: seq<Variable>, n: nat): (r: seq<nat>)
    requires n <= |attrs|
  {
    if n == 0 then []
    else ContinuousIndices(attrs, n - 1) + (if attrs[n - 1].varType == FloatVar then [n - 1] else [])
  }

  lemma {:induction false} ContinuousIndicesExact(attrs: seq<Variable>, n: nat)
    requires n <= |attrs|
    ensures forall i: nat :: i in ContinuousIndices(attrs, n) <==> i < n && attrs[i].varType == FloatVar
    ensures forall j, k :: 0 <= j < k < |ContinuousIndices(attrs, n)| ==>
              ContinuousIndices(attrs, n)[j] < ContinuousIndices(attrs, n)[k]
  {
    if n > 0 {
      ContinuousIndicesExact(attrs, n - 1);
      var p := ContinuousIndices(attrs, n - 1);
      if attrs[n - 1].varType == FloatVar {
        var q := p + [n - 1];
        forall j, k | 0 <= j < k < |q| ensures q[j] < q[k] {
          if k == |p| { assert q[j] == p[j] && p[j] in p; } else { assert q[j] == p[j] && q[k] == p[k]; }
        }
      } else {
        assert ContinuousIndices(attrs, n) == p;
      }
    }
  }

  /** The column indices TPreprocessor_discretize hands to the discretisation method. */
  function DiscretizeIds(d: Domain, vars: seq<Variable>, discretizeClass: bool): Result<seq<nat>> {
    if |vars| > 0 then ListedPositions(d, vars)
    else if !discretizeClass then Success(ContinuousIndices(d.attributes, |d.attributes|))
    else if d.classVar.None? then Failure(ClassLessDomain)
    else if d.classVar.value.varType == FloatVar then
      Success(ContinuousIndices(d.attributes, |d.attributes|) + [|d.attributes|])
    else Success(ContinuousIndices(d.attributes, |d.attributes|))
  }

  /** Without a list, exactly the continuous attributes are discretized, in
      attribute order, followed by the class when it is continuous and requested. */
  lemma {:induction false} DiscretizeIdsDefault(d: Domain, discretizeClass: bool)
    requires DiscretizeIds(d, [], discretizeClass).Success?
    ensures var ids := DiscretizeIds(d, [], discretizeClass).value;
            (forall i: nat :: i in ids <==>
               (i < |d.attributes| && d.attributes[i].varType == FloatVar) ||
               (i == |d.attributes| && discretizeClass && d.classVar.Some? && d.classVar.value.varType == FloatVar))
            && (forall j, k :: 0 <= j < k < |ids| ==> ids[j] < ids[k])
  {
    var n := |d.attributes|;
    ContinuousIndicesExact(d.attributes, n);
    var p := ContinuousIndices(d.attributes, n);
    if discretizeClass && d.classVar.Some? && d.classVar.value.varType == FloatVar {
      var q := p + [n];
      forall j, k | 0 <= j < k < |q| ensures q[j] < q[k] {
        if k == |p| { assert q[j] == p[j] && p[j] in p; } else { assert q[j] == p[j] && q[k] == p[k]; }
      }
      forall i: nat ensures i in q <==> i in p || i == n { }
    }
  }

  /** TPreprocessor_discretize::operator(): the chosen column indices and the unchanged weight id;
      the discretized domain itself is built by the external discretisation method. */
  method Discretize(gen: Table, weightId: int, vars: seq<Variable>, discretizeClass: bool, methodSet: bool)
    returns (r: Result<(seq<nat>, int)>)
    ensures !methodSet ==> r == Failure(PropertyNotSet("method"))
    ensures methodSet ==> match DiscretizeIds(gen.domain, vars, discretizeClass)
                          case Failure(e) => r == Failure(e)
                          case Success(ids) => r == Success((ids, weightId))
  {
    if !methodSet {
      return Failure(PropertyNotSet("method"));
    }
    var d := gen.domain;
    var ids: seq<nat> := [];
    if |vars| > 0 {
      var k := 0;
      while k < |vars|
        invariant 0 <= k <= |vars|
        invariant ListedPositions(d, vars[..k]) == Success(ids)
      {
        assert vars[..k + 1][..k] == vars[..k];
        var p := GetVarNum(d, vars[k]);
        if p.None? {
          ListedPositionsPrefix(d, vars, k + 1);
          return Failure(AttributeNotFound(vars[k].name));
        }
        ids := ids + [p.value];
        k := k + 1;
      }
      assert vars[..k] == vars;
    } else {
      var idx := 0;
      while idx < |d.attributes|
        invariant 0 <= idx <= |d.attributes|
        invariant ids == ContinuousIndices(d.attributes, idx)
      {
        if d.attributes[idx].varType == FloatVar {
          ids := ids + [idx];
        }
        idx := idx + 1;
      }
      if discretizeClass {
        if d.classVar.None? {
          return Failure(ClassLessDomain);
        }
        if d.classVar.value.varType == FloatVar {
          ids := ids + [idx];
        }
      }
    }
    r := Success((ids, weightId));
  }
}
