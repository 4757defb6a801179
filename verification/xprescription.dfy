/** Conversion of obligations and advice (`on permit { ... }` blocks) into
    XACML obligation and advice expressions, and the split of a list of
    such expressions into obligations and advice. */
module XPrescriptions {
  import opened Wrappers
  import opened Errors
  import opened Decls
  import opened Ast
  import opened CompilerContext
  import opened XConditions

  /** The right-hand side of an assignment: a literal or a designator. */
  datatype XAssignmentArg = ArgValue(v: TypedLiteral) | ArgAttrib(d: XAttrDesignator)

  /** An assignment: the destination attribute's URI and category URI,
      and the value assigned to it. */
  datatype XAttributeAssignment = XAttributeAssignment(id: string, category: string, arg: XAssignmentArg)

  /** An obligation or advice expression, fulfilled on `fulfillOn`. */
  datatype XPrescriptionExpr = XPrescriptionExpr(ptype: PrescriptionType, id: string, fulfillOn: Effect,
                                                 assignments: seq<XAttributeAssignment>)

  datatype XPrescriptionByType = XPrescriptionByType(obligations: seq<XPrescriptionExpr>,
                                                     associatedAdvice: seq<XPrescriptionExpr>)

  /** The expressions of type `t`, in their original order. */
  function OfType(exprs: seq<XPrescriptionExpr>, t: PrescriptionType): (r: seq<XPrescriptionExpr>)
  {
    if |exprs| == 0 then []
    else OfType(exprs[..|exprs| - 1], t) + (if exprs[|exprs| - 1].ptype == t then [exprs[|exprs| - 1]] else [])
  }

  /** `XPrescriptionByType::from`: one pass that sends each expression to
      the obligations or to the advice. */
  method ByType(exprs: seq<XPrescriptionExpr>) returns (r: XPrescriptionByType)
    ensures r.obligations == OfType(exprs, Obligation)
    ensures r.associatedAdvice == OfType(exprs, Advice)
  {
    var obligations: seq<XPrescriptionExpr> := [];
    var advice: seq<XPrescriptionExpr> := [];
    var i := 0;
    while i < |exprs|
      invariant 0 <= i <= |exprs|
      invariant obligations == OfType(exprs[..i], Obligation)
      invariant advice == OfType(exprs[..i], Advice)
    {
      assert exprs[..i + 1][..i] == exprs[..i];
      match exprs[i].ptype {
        case Advice => advice := advice + [exprs[i]];
        case Obligation => obligations := obligations + [exprs[i]];
      }
      i := i + 1;
    }
    assert exprs[..i] == exprs;
    r := XPrescriptionByType(obligations, advice);
  }

  /** Every expression of `OfType(exprs, t)` has type `t`. */
  lemma {:induction false} OfTypeHasType(exprs: seq<XPrescriptionExpr>, t: PrescriptionType)
    ensures forall e :: e in OfType(exprs, t) ==> e.ptype == t
  {
    if |exprs| > 0 {
      OfTypeHasType(exprs[..|exprs| - 1], t);
    }
  }

  /** Appending one expression to the input appends it to the part of its
      type and leaves the other part unchanged. */
  lemma PartitionStep(exprs: seq<XPrescriptionExpr>)
    requires |exprs| > 0
    ensures var init, last := exprs[..|exprs| - 1], exprs[|exprs| - 1];
            multiset(OfType(exprs, Obligation)) + multiset(OfType(exprs, Advice))
              == multiset(OfType(init, Obligation)) + multiset(OfType(init, Advice)) + multiset{last}
  {
    var init, last := exprs[..|exprs| - 1], exprs[|exprs| - 1];
    if last.ptype == Obligation {
      assert OfType(exprs, Obligation) == OfType(init, Obligation) + [last];
    } else {
      assert OfType(exprs, Advice) == OfType(init, Advice) + [last];
    }
  }

  /** The two parts hold exactly the input expressions, each once: their
      sizes add up to the input's and together they are a permutation of
      it. */
  lemma {:induction false} PartitionIsPermutation(exprs: seq<XPrescriptionExpr>)
    ensures |OfType(exprs, Obligation)| + |OfType(exprs, Advice)| == |exprs|
    ensures multiset(OfType(exprs, Obligation)) + multiset(OfType(exprs, Advice)) == multiset(exprs)
  {
    if |exprs| > 0 {
      var init := exprs[..|exprs| - 1];
      PartitionIsPermutation(init);
      PartitionStep(exprs);
      assert exprs == init + [exprs[|exprs| - 1]];
    }
    var ob, ad := OfType(exprs, Obligation), OfType(exprs, Advice);
    assert |multiset(ob) + multiset(ad)| == |ob| + |ad|;
  }

  /** Filtering distributes over concatenation: the relative order of the
      expressions of one type is kept. */
  lemma {:induction false} OfTypeConcat(xs: seq<XPrescriptionExpr>, ys: seq<XPrescriptionExpr>, t: PrescriptionType)
    ensures OfType(xs + ys, t) == OfType(xs, t) + OfType(ys, t)
  {
    if |ys| > 0 {
      var init := ys[..|ys| - 1];
      assert (xs + ys)[..|xs + ys| - 1] == xs + init;
      OfTypeConcat(xs, init, t);
    } else {
      assert xs + ys == xs;
    }
  }

  /** The identifier of an obligation or advice expression: the URI of the
      advice or of the obligation declaration the name resolves to. */
  function PrescriptionId(ctx: Context, ptype: PrescriptionType, id: string, ns: seq<string>): (r: Res<string>)
    ensures ptype.Advice? ==> (r.Ok? <==> LookupAdvice(ctx, id, ns).Ok?)
    ensures ptype.Advice? && r.Ok? ==> r.value == LookupAdvice(ctx, id, ns).value.uri
    ensures ptype.Obligation? ==> (r.Ok? <==> LookupObligation(ctx, id, ns).Ok?)
    ensures ptype.Obligation? && r.Ok? ==> r.value == LookupObligation(ctx, id, ns).value.uri
  {
    match ptype
    case Advice =>
      var a :- LookupAdvice(ctx, id, ns);
      Ok(a.uri)
    case Obligation =>
      var o :- LookupObligation(ctx, id, ns);
      Ok(o.uri)
  }

  /** The designator on the right of an assignment: the attribute resolved
      from the prescription's namespace, its category and type from the
      attribute's own namespace, the flags copied. */
  function DesignatorToX(ctx: Context, d: AttributeDesignator, ns: seq<string>): (r: Res<XAttrDesignator>)
    ensures r.Ok? ==>
              var a := LookupAttribute(ctx, DesignatorName(d), ns);
              && a.Ok? && r.value.uri == a.value.uri
              && LookupCategory(ctx, a.value.category, a.value.ns).Ok?
              && r.value.category == LookupCategory(ctx, a.value.category, a.value.ns).value.uri
              && LookupType(ctx, a.value.typedef, a.value.ns).Ok?
              && r.value.typeUri == LookupType(ctx, a.value.typedef, a.value.ns).value.uri
              && r.value.mustBePresent == d.mustBePresent && r.value.issuer == d.issuer
  {
    var attr :- LookupAttribute(ctx, DesignatorName(d), ns);
    var cat :- LookupCategory(ctx, attr.category, attr.ns);
    var atype :- LookupType(ctx, attr.typedef, attr.ns);
    Ok(XAttrDesignator(attr.uri, cat.uri, atype.uri, d.mustBePresent, d.issuer))
  }

  /** One assignment. The destination's category is resolved from the
      prescription's namespace, not from the attribute's as everywhere
      else. */
  function AssignmentToX(ctx: Context, a: AttributeAssignment, ns: seq<string>): (r: Res<XAttributeAssignment>)
    ensures r.Ok? ==>
              var dest := LookupAttribute(ctx, a.destinationId, ns);
              && dest.Ok? && r.value.id == dest.value.uri
              && LookupCategory(ctx, dest.value.category, ns).Ok?
              && r.value.category == LookupCategory(ctx, dest.value.category, ns).value.uri
    ensures r.Ok? && a.source.SourceValue? ==>
              ConstantToTypedLiteral(ctx, a.source.value, ns).Ok?
              && r.value.arg == ArgValue(ConstantToTypedLiteral(ctx, a.source.value, ns).value)
    ensures r.Ok? && a.source.SourceAttribute? ==>
              DesignatorToX(ctx, a.source.designator, ns).Ok?
              && r.value.arg == ArgAttrib(DesignatorToX(ctx, a.source.designator, ns).value)
    ensures LookupAttribute(ctx, a.destinationId, ns).Err? ==> r == Err(LookupAttribute(ctx, a.destinationId, ns).error)
  {
    var dest :- LookupAttribute(ctx, a.destinationId, ns);
    var destCat :- LookupCategory(ctx, dest.category, ns);
    var arg :-
      match a.source
      case SourceAttribute(d) =>
        var x :- DesignatorToX(ctx, d, ns);
        Ok(ArgAttrib(x))
      case SourceValue(v) =>
        var tl :- ConstantToTypedLiteral(ctx, v, ns);
        Ok(ArgValue(tl));
    Ok(XAttributeAssignment(dest.uri, destCat.uri, arg))
  }

  /** The assignments of one expression, converted in order. */
  function AssignmentsToX(ctx: Context, as_: seq<AttributeAssignment>, ns: seq<string>): (r: Res<seq<XAttributeAssignment>>)
    ensures r.Ok? ==> |r.value| == |as_|
                      && forall i :: 0 <= i < |as_| ==> AssignmentToX(ctx, as_[i], ns) == Ok(r.value[i])
    ensures r.Err? ==> exists i :: 0 <= i < |as_| && AssignmentToX(ctx, as_[i], ns) == Err(r.error)
  {
    if |as_| == 0 then Ok([])
    else
      var x :- AssignmentToX(ctx, as_[0], ns);
      var rest :- AssignmentsToX(ctx, as_[1..], ns);
      Ok([x] + rest)
  }

  /** One obligation or advice expression, fulfilled on `effect`; its
      identifier is resolved before its assignments. */
  function ExprToX(ctx: Context, e: PrescriptionExpr, effect: Effect, ns: seq<string>): (r: Res<XPrescriptionExpr>)
    ensures r.Ok? ==> r.value.ptype == e.ptype && r.value.fulfillOn == effect
    ensures r.Ok? ==> PrescriptionId(ctx, e.ptype, e.id, ns) == Ok(r.value.id)
    ensures r.Ok? ==> AssignmentsToX(ctx, e.assignments, ns) == Ok(r.value.assignments)
    ensures PrescriptionId(ctx, e.ptype, e.id, ns).Err? ==> r == Err(PrescriptionId(ctx, e.ptype, e.id, ns).error)
  {
    var id :- PrescriptionId(ctx, e.ptype, e.id, ns);
    var xs :- AssignmentsToX(ctx, e.assignments, ns);
    Ok(XPrescriptionExpr(e.ptype, id, effect, xs))
  }

  /** `TryFrom<&Prescription>`: one expression per input expression, in
      order, each of the input's type and fulfilled on the block's
      effect. */
  function PrescriptionToX(ctx: Context, p: Prescription): (r: Res<seq<XPrescriptionExpr>>)
    ensures r.Ok? ==> |r.value| == |p.expressions|
    ensures r.Ok? ==> forall i :: 0 <= i < |r.value| ==>
                        && r.value[i].fulfillOn == p.effect
                        && r.value[i].ptype == p.expressions[i].ptype
                        && ExprToX(ctx, p.expressions[i], p.effect, p.ns) == Ok(r.value[i])
    ensures r.Err? ==> exists i :: 0 <= i < |p.expressions| && ExprToX(ctx, p.expressions[i], p.effect, p.ns) == Err(r.error)
  {
    ExprsToX(ctx, p.expressions, p.effect, p.ns)
  }

  function ExprsToX(ctx: Context, es: seq<PrescriptionExpr>, effect: Effect, ns: seq<string>): (r: Res<seq<XPrescriptionExpr>>)
    ensures r.Ok? ==> |r.value| == |es|
                      && forall i :: 0 <= i < |es| ==> ExprToX(ctx, es[i], effect, ns) == Ok(r.value[i])
    ensures r.Err? ==> exists i :: 0 <= i < |es| && ExprToX(ctx, es[i], effect, ns) == Err(r.error)
  {
    if |es| == 0 then Ok([])
    else
      var x :- ExprToX(ctx, es[0], effect, ns);
      var rest :- ExprsToX(ctx, es[1..], effect, ns);
      Ok([x] + rest)
  }

  /** Splitting a converted block by type gives as many obligations as the
      block declares obligations, and as many advice as it declares advice,
      all fulfilled on the block's effect. */
  lemma {:induction false} SplitKeepsTypes(ctx: Context, p: Prescription, t: PrescriptionType)
    requires PrescriptionToX(ctx, p).Ok?
    ensures var xs := PrescriptionToX(ctx, p).value;
            |OfType(xs, t)| == |InputOfType(p.expressions, t)|
            && forall e :: e in OfType(xs, t) ==> e.fulfillOn == p.effect
  {
    var xs := PrescriptionToX(ctx, p).value;
    OfTypeCount(xs, p.expressions, t);
    OfTypeSubset(xs, t);
  }

  /** The input expressions of type `t`. */
  function InputOfType(es: seq<PrescriptionExpr>, t: PrescriptionType): seq<PrescriptionExpr>
  {
    if |es| == 0 then []
    else InputOfType(es[..|es| - 1], t) + (if es[|es| - 1].ptype == t then [es[|es| - 1]] else [])
  }

  lemma {:induction false} OfTypeCount(xs: seq<XPrescriptionExpr>, es: seq<PrescriptionExpr>, t: PrescriptionType)
    requires |xs| == |es| && forall i :: 0 <= i < |xs| ==> xs[i].ptype == es[i].ptype
    ensures |OfType(xs, t)| == |InputOfType(es, t)|
  {
    if |xs| > 0 {
      OfTypeCount(xs[..|xs| - 1], es[..|es| - 1], t);
    }
  }

  lemma {:induction false} OfTypeSubset(xs: seq<XPrescriptionExpr>, t: PrescriptionType)
    ensures forall e :: e in OfType(xs, t) ==> e in xs
  {
    if |xs| > 0 {
      OfTypeSubset(xs[..|xs| - 1], t);
    }
  }
}
