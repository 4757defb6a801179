/** Conversion of a target into its XACML form. Every match becomes a XACML
    `Match`: a function-style match uses the named function, an operator
    match the first signature of its operator (or of the operator's
    inverse, when the attribute was written first) that compares the
    literal's type with the attribute's type and yields a boolean. The
    clause / alternative / match nesting is kept as it is. */
module XTargets {
  import opened Wrappers
  import opened Errors
  import opened Strings
  import opened Decls
  import opened Ast
  import opened CompilerContext
  import StdDefs
  import Builtins

  /** A XACML `Match`: function, literal value and type, and the attribute
      designator (identifier, category, type, presence flag and issuer). */
  datatype XMatch = XMatch(matchId: string, value: string, valueType: string,
                           designatorId: string, designatorCategory: string, designatorType: string,
                           mustBePresent: bool, issuer: Option<string>)

  datatype AllOf = AllOf(matches: seq<XMatch>)

  datatype AnyOf = AnyOf(allofs: seq<AllOf>)

  datatype XTarget = XTarget(anyofs: seq<AnyOf>)

  /** `chosen(y, x)` means `source(x, y)`: the operator itself when it is
      commutative, or the operator its declaration names as inverse,
      looked up from the source namespace. */
  predicate SwapsOperands(ctx: Context, source: Infix, chosen: Infix, sourceNs: seq<string>)
  {
    (chosen == source && source.commutative)
    || (source.inverse.Some? && LookupInfix(ctx, source.inverse.value, sourceNs) == Ok(chosen))
  }

  /** The operator an operator match is translated with. XACML puts the
      literal first; for a match written attribute-first the operands must
      be swapped, which needs a commutative operator or a declared
      inverse. */
  function InfixForMatch(ctx: Context, mo: MatchOperation, sourceNs: seq<string>): (r: Res<Infix>)
    ensures LookupInfix(ctx, QualifiedName(mo.operator), sourceNs).Err? ==>
              r == Err(LookupInfix(ctx, QualifiedName(mo.operator), sourceNs).error)
    ensures r.Ok? && !mo.reversed ==> Ok(r.value) == LookupInfix(ctx, QualifiedName(mo.operator), sourceNs)
    ensures r.Ok? && mo.reversed ==>
              LookupInfix(ctx, QualifiedName(mo.operator), sourceNs).Ok?
              && SwapsOperands(ctx, LookupInfix(ctx, QualifiedName(mo.operator), sourceNs).value, r.value, sourceNs)
    ensures mo.reversed && LookupInfix(ctx, QualifiedName(mo.operator), sourceNs).Ok? ==>
              var source := LookupInfix(ctx, QualifiedName(mo.operator), sourceNs).value;
              (!source.commutative && source.inverse.None? <==> r == Err(ReversedInfixArgsNotCommutativeError))
  {
    var source :- LookupInfix(ctx, QualifiedName(mo.operator), sourceNs);
    if !mo.reversed then Ok(source)
    else if source.commutative then Ok(source)
    else if source.inverse.Some? then LookupInfixInverse(ctx, QualifiedName(mo.operator), sourceNs)
    else Err(ReversedInfixArgsNotCommutativeError)
  }

  /** Whether signature `s` of `infix` compares a literal of type `litType`
      with an attribute of type `attrType` and yields a boolean; the three
      type names are resolved from the operator's namespace, and a failed
      resolution is an error. */
  function SigFits(ctx: Context, infix: Infix, s: InfixSignature, litType: string, attrType: string): (r: Res<bool>)
    ensures r == Ok(true) <==>
              && LookupType(ctx, s.firstArg, infix.ns).Ok? && LookupType(ctx, s.firstArg, infix.ns).value.uri == litType
              && LookupType(ctx, s.secondArg, infix.ns).Ok? && LookupType(ctx, s.secondArg, infix.ns).value.uri == attrType
              && LookupType(ctx, s.output, infix.ns).Ok? && LookupType(ctx, s.output, infix.ns).value.uri == BOOLEAN_URI
  {
    var first :- LookupType(ctx, s.firstArg, infix.ns);
    var second :- LookupType(ctx, s.secondArg, infix.ns);
    var output :- LookupType(ctx, s.output, infix.ns);
    Ok(first.uri == litType && second.uri == attrType && output.uri == BOOLEAN_URI)
  }

  /** Every signature in `[lo, hi)` was checked and does not fit. */
  predicate Unfit(ctx: Context, infix: Infix, litType: string, attrType: string, lo: nat, hi: nat)
    requires hi <= |infix.signatures|
  {
    forall k :: lo <= k < hi ==> SigFits(ctx, infix, infix.signatures[k], litType, attrType) == Ok(false)
  }

  /** The signature loop of `match_to_xmatch` from index `from` on: the
      index of the first fitting signature, `None` when none fits, or the
      first resolution error. */
  function FirstFit(ctx: Context, infix: Infix, litType: string, attrType: string, from: nat): (r: Res<Option<nat>>)
    requires from <= |infix.signatures|
    ensures r.Ok? && r.value.Some? ==>
              from <= r.value.value < |infix.signatures|
              && SigFits(ctx, infix, infix.signatures[r.value.value], litType, attrType) == Ok(true)
              && Unfit(ctx, infix, litType, attrType, from, r.value.value)
    ensures r.Ok? && r.value.None? ==> Unfit(ctx, infix, litType, attrType, from, |infix.signatures|)
    ensures r.Err? ==> exists j :: from <= j < |infix.signatures|
                                   && SigFits(ctx, infix, infix.signatures[j], litType, attrType) == Err(r.error)
                                   && Unfit(ctx, infix, litType, attrType, from, j)
    decreases |infix.signatures| - from
  {
    if from == |infix.signatures| then Ok(None)
    else
      var fits :- SigFits(ctx, infix, infix.signatures[from], litType, attrType);
      if fits then Ok(Some(from))
      else
        var rest := FirstFit(ctx, infix, litType, attrType, from + 1);
        UnfitExtend(ctx, infix, litType, attrType, from);
        rest
  }

  /** A signature that does not fit at `from`, followed by signatures that
      do not fit from `from + 1` on. */
  lemma UnfitExtend(ctx: Context, infix: Infix, litType: string, attrType: string, from: nat)
    requires from < |infix.signatures|
    requires SigFits(ctx, infix, infix.signatures[from], litType, attrType) == Ok(false)
    ensures forall hi :: from + 1 <= hi <= |infix.signatures| && Unfit(ctx, infix, litType, attrType, from + 1, hi) ==>
              Unfit(ctx, infix, litType, attrType, from, hi)
  {
  }

  /** `x` carries the typed literal, and the attribute resolved from the
      source namespace with its category and type resolved from the
      attribute's own namespace. */
  predicate Carries(ctx: Context, literal: Constant, attribute: seq<string>, sourceNs: seq<string>, x: XMatch)
  {
    var tl := ConstantToTypedLiteral(ctx, literal, sourceNs);
    var a := LookupAttribute(ctx, Join(attribute, "."), sourceNs);
    && tl.Ok? && x.value == tl.value.value && x.valueType == tl.value.typeUri
    && a.Ok? && x.designatorId == a.value.uri
    && LookupCategory(ctx, a.value.category, a.value.ns).Ok?
    && x.designatorCategory == LookupCategory(ctx, a.value.category, a.value.ns).value.uri
    && LookupType(ctx, a.value.typedef, a.value.ns).Ok?
    && x.designatorType == LookupType(ctx, a.value.typedef, a.value.ns).value.uri
  }

  /** The type URI of a match's attribute, when the attribute and its type
      resolve. */
  function AttributeType(ctx: Context, attribute: seq<string>, sourceNs: seq<string>): (r: Res<string>)
    ensures r.Ok? <==> LookupAttribute(ctx, Join(attribute, "."), sourceNs).Ok?
                       && LookupType(ctx, LookupAttribute(ctx, Join(attribute, "."), sourceNs).value.typedef,
                                     LookupAttribute(ctx, Join(attribute, "."), sourceNs).value.ns).Ok?
  {
    var a :- LookupAttribute(ctx, Join(attribute, "."), sourceNs);
    var t :- LookupType(ctx, a.typedef, a.ns);
    Ok(t.uri)
  }

  /** The XACML function of an operator match: the first signature, in
      declaration order, of the operator the match is translated with that
      fits the literal's and the attribute's types. */
  predicate ChosenSignature(ctx: Context, mo: MatchOperation, sourceNs: seq<string>, matchId: string)
  {
    var tl := ConstantToTypedLiteral(ctx, mo.literal, sourceNs);
    var infix := InfixForMatch(ctx, mo, sourceNs);
    var at := AttributeType(ctx, mo.attribute, sourceNs);
    && tl.Ok? && infix.Ok? && at.Ok?
    && exists k :: 0 <= k < |infix.value.signatures|
                   && SigFits(ctx, infix.value, infix.value.signatures[k], tl.value.typeUri, at.value) == Ok(true)
                   && Unfit(ctx, infix.value, tl.value.typeUri, at.value, 0, k)
                   && matchId == infix.value.signatures[k].uri
  }

  function MustBePresent(m: Match): bool
  {
    match m
    case MatchFunc(f) => f.mustBePresent
    case MatchOp(o) => o.mustBePresent
  }

  function Issuer(m: Match): Option<string>
  {
    match m
    case MatchFunc(f) => f.issuer
    case MatchOp(o) => o.issuer
  }

  /** `match_to_xmatch`. The error cases keep the compiler's order of
      resolution: for a function match the function, the literal, the
      attribute, its category and its type; for an operator match the
      literal, the operator (and its inverse), the attribute, its type and
      its category, and then the signatures. */
  function MatchToXMatch(ctx: Context, m: Match, sourceNs: seq<string>): (r: Res<XMatch>)
    ensures r.Ok? ==> r.value.mustBePresent == MustBePresent(m) && r.value.issuer == Issuer(m)
    ensures r.Ok? && m.MatchFunc? ==>
              && Carries(ctx, m.f.literal, m.f.attribute, sourceNs, r.value)
              && LookupFunction(ctx, Join(m.f.functionId, "."), sourceNs).Ok?
              && r.value.matchId == LookupFunction(ctx, Join(m.f.functionId, "."), sourceNs).value.functionUri
    ensures r.Ok? && m.MatchOp? ==>
              Carries(ctx, m.o.literal, m.o.attribute, sourceNs, r.value)
              && ChosenSignature(ctx, m.o, sourceNs, r.value.matchId)
    ensures m.MatchOp? && ConstantToTypedLiteral(ctx, m.o.literal, sourceNs).Ok? && InfixForMatch(ctx, m.o, sourceNs).Err? ==>
              r == Err(InfixForMatch(ctx, m.o, sourceNs).error)
    ensures m.MatchOp? && ConstantToTypedLiteral(ctx, m.o.literal, sourceNs).Ok? && InfixForMatch(ctx, m.o, sourceNs).Ok?
            && AttributeType(ctx, m.o.attribute, sourceNs).Ok?
            && LookupCategory(ctx, LookupAttribute(ctx, Join(m.o.attribute, "."), sourceNs).value.category,
                              LookupAttribute(ctx, Join(m.o.attribute, "."), sourceNs).value.ns).Ok?
            && Unfit(ctx, InfixForMatch(ctx, m.o, sourceNs).value, ConstantToTypedLiteral(ctx, m.o.literal, sourceNs).value.typeUri,
                     AttributeType(ctx, m.o.attribute, sourceNs).value, 0, |InfixForMatch(ctx, m.o, sourceNs).value.signatures|) ==>
              r == Err(AstConvertError)
  {
    match m
    case MatchFunc(mf) =>
      var f :- LookupFunction(ctx, Join(mf.functionId, "."), sourceNs);
      var tl :- ConstantToTypedLiteral(ctx, mf.literal, sourceNs);
      var attr :- LookupAttribute(ctx, Join(mf.attribute, "."), sourceNs);
      var cat :- LookupCategory(ctx, attr.category, attr.ns);
      var attrType :- LookupType(ctx, attr.typedef, attr.ns);
      Ok(XMatch(f.functionUri, tl.value, tl.typeUri, attr.uri, cat.uri, attrType.uri, mf.mustBePresent, mf.issuer))
    case MatchOp(mo) =>
      var tl :- ConstantToTypedLiteral(ctx, mo.literal, sourceNs);
      var infix :- InfixForMatch(ctx, mo, sourceNs);
      var attr :- LookupAttribute(ctx, Join(mo.attribute, "."), sourceNs);
      var attrType :- LookupType(ctx, attr.typedef, attr.ns);
      var cat :- LookupCategory(ctx, attr.category, attr.ns);
      var found :- FirstFit(ctx, infix, tl.typeUri, attrType.uri, 0);
      match found
      case None => Err(AstConvertError)
      case Some(k) =>
        Ok(XMatch(infix.signatures[k].uri, tl.value, tl.typeUri, attr.uri, cat.uri, attrType.uri,
                  mo.mustBePresent, mo.issuer))
  }

  /** The matches of one alternative, converted in order; the first failing
      match decides the error. */
  function AllOfToX(ctx: Context, ms: seq<Match>, sourceNs: seq<string>): (r: Res<AllOf>)
    ensures r.Ok? ==> |r.value.matches| == |ms|
                      && forall i :: 0 <= i < |ms| ==> MatchToXMatch(ctx, ms[i], sourceNs) == Ok(r.value.matches[i])
    ensures r.Err? ==> exists i :: 0 <= i < |ms| && MatchToXMatch(ctx, ms[i], sourceNs) == Err(r.error)
                                   && forall j :: 0 <= j < i ==> MatchToXMatch(ctx, ms[j], sourceNs).Ok?
  {
    if |ms| == 0 then Ok(AllOf([]))
    else
      var x :- MatchToXMatch(ctx, ms[0], sourceNs);
      var rest :- AllOfToX(ctx, ms[1..], sourceNs);
      Ok(AllOf([x] + rest.matches))
  }

  /** The alternatives of one clause, converted in order. */
  function AnyOfToX(ctx: Context, cs: seq<ConjunctiveSeq>, sourceNs: seq<string>): (r: Res<AnyOf>)
    ensures r.Ok? ==> |r.value.allofs| == |cs|
                      && forall i :: 0 <= i < |cs| ==> AllOfToX(ctx, cs[i].matches, sourceNs) == Ok(r.value.allofs[i])
    ensures r.Err? ==> exists i :: 0 <= i < |cs| && AllOfToX(ctx, cs[i].matches, sourceNs) == Err(r.error)
                                   && forall j :: 0 <= j < i ==> AllOfToX(ctx, cs[j].matches, sourceNs).Ok?
  {
    if |cs| == 0 then Ok(AnyOf([]))
    else
      var x :- AllOfToX(ctx, cs[0].matches, sourceNs);
      var rest :- AnyOfToX(ctx, cs[1..], sourceNs);
      Ok(AnyOf([x] + rest.allofs))
  }

  /** The clauses of a target, converted in order. */
  function ClausesToX(ctx: Context, ds: seq<DisjunctiveSeq>, sourceNs: seq<string>): (r: Res<XTarget>)
    ensures r.Ok? ==> |r.value.anyofs| == |ds|
                      && forall i :: 0 <= i < |ds| ==> AnyOfToX(ctx, ds[i].statements, sourceNs) == Ok(r.value.anyofs[i])
    ensures r.Err? ==> exists i :: 0 <= i < |ds| && AnyOfToX(ctx, ds[i].statements, sourceNs) == Err(r.error)
                                   && forall j :: 0 <= j < i ==> AnyOfToX(ctx, ds[j].statements, sourceNs).Ok?
  {
    if |ds| == 0 then Ok(XTarget([]))
    else
      var x :- AnyOfToX(ctx, ds[0].statements, sourceNs);
      var rest :- ClausesToX(ctx, ds[1..], sourceNs);
      Ok(XTarget([x] + rest.anyofs))
  }

  /** `XTarget::try_from`: every match of the target, resolved from the
      target's namespace, lands at the same clause, alternative and
      position. */
  function TargetToX(ctx: Context, t: Target): (r: Res<XTarget>)
    ensures r.Ok? ==>
              |r.value.anyofs| == |t.clauses|
              && (forall i :: 0 <= i < |t.clauses| ==>
                    |r.value.anyofs[i].allofs| == |t.clauses[i].statements|
                    && forall j :: 0 <= j < |t.clauses[i].statements| ==>
                         |r.value.anyofs[i].allofs[j].matches| == |t.clauses[i].statements[j].matches|
                         && forall k :: 0 <= k < |t.clauses[i].statements[j].matches| ==>
                              MatchToXMatch(ctx, t.clauses[i].statements[j].matches[k], t.ns)
                              == Ok(r.value.anyofs[i].allofs[j].matches[k]))
    ensures r.Err? ==> exists i, j, k :: 0 <= i < |t.clauses| && 0 <= j < |t.clauses[i].statements|
                                         && 0 <= k < |t.clauses[i].statements[j].matches|
                                         && MatchToXMatch(ctx, t.clauses[i].statements[j].matches[k], t.ns) == Err(r.error)
  {
    var r := ClausesToX(ctx, t.clauses, t.ns);
    if r.Err? then
      var i :| 0 <= i < |t.clauses| && AnyOfToX(ctx, t.clauses[i].statements, t.ns) == Err(r.error);
      var j :| 0 <= j < |t.clauses[i].statements| && AllOfToX(ctx, t.clauses[i].statements[j].matches, t.ns) == Err(r.error);
      r
    else r
  }

  /** Converting a target whose matches all convert never fails. */
  lemma TargetConverts(ctx: Context, t: Target)
    requires forall i, j, k :: 0 <= i < |t.clauses| && 0 <= j < |t.clauses[i].statements|
                               && 0 <= k < |t.clauses[i].statements[j].matches| ==>
                                 MatchToXMatch(ctx, t.clauses[i].statements[j].matches[k], t.ns).Ok?
    ensures TargetToX(ctx, t).Ok?
  {
  }

  /** A reversed match with a commutative operator converts exactly like
      the same match written literal-first. */
  lemma CommutativeReversalIgnored(ctx: Context, mo: MatchOperation, sourceNs: seq<string>)
    requires LookupInfix(ctx, QualifiedName(mo.operator), sourceNs).Ok?
    requires LookupInfix(ctx, QualifiedName(mo.operator), sourceNs).value.commutative
    ensures MatchToXMatch(ctx, MatchOp(mo.(reversed := true)), sourceNs)
            == MatchToXMatch(ctx, MatchOp(mo.(reversed := false)), sourceNs)
  {
  }

  /** A reversed match with an operator that declares an inverse converts
      exactly like the match written literal-first with the inverse: the
      attribute-first `a < 5` is the XACML `5 > a`. */
  lemma ReversalUsesInverse(ctx: Context, mo: MatchOperation, sourceNs: seq<string>)
    requires LookupInfix(ctx, QualifiedName(mo.operator), sourceNs).Ok?
    requires !LookupInfix(ctx, QualifiedName(mo.operator), sourceNs).value.commutative
    requires LookupInfix(ctx, QualifiedName(mo.operator), sourceNs).value.inverse.Some?
    ensures var inv := LookupInfix(ctx, QualifiedName(mo.operator), sourceNs).value.inverse.value;
            MatchToXMatch(ctx, MatchOp(mo.(reversed := true)), sourceNs)
            == MatchToXMatch(ctx, MatchOp(mo.(reversed := false, operator := Operator([], inv))), sourceNs)
  {
    var inv := LookupInfix(ctx, QualifiedName(mo.operator), sourceNs).value.inverse.value;
    assert QualifiedName(Operator([], inv)) == inv;
    assert InfixForMatch(ctx, mo.(reversed := true), sourceNs)
           == InfixForMatch(ctx, mo.(reversed := false, operator := Operator([], inv)), sourceNs);
  }

  /** An operator that is neither commutative nor has an inverse cannot be
      used attribute-first, whatever the attribute. */
  lemma ReversalWithoutInverseRejected(ctx: Context, mo: MatchOperation, sourceNs: seq<string>)
    requires mo.reversed
    requires ConstantToTypedLiteral(ctx, mo.literal, sourceNs).Ok?
    requires LookupInfix(ctx, QualifiedName(mo.operator), sourceNs).Ok?
    requires !LookupInfix(ctx, QualifiedName(mo.operator), sourceNs).value.commutative
    requires LookupInfix(ctx, QualifiedName(mo.operator), sourceNs).value.inverse.None?
    ensures MatchToXMatch(ctx, MatchOp(mo), sourceNs) == Err(ReversedInfixArgsNotCommutativeError)
  {
  }

  /** The built-in `-` is one such operator: `x - 1` with the attribute
      first is rejected. */
  lemma MinusCannotBeReversed(ctx: Context, attribute: seq<string>, sourceNs: seq<string>)
    requires Builtins.BuiltinsReady(ctx)
    ensures MatchToXMatch(ctx, MatchOp(MatchOperation(attribute, Operator([], "-"), CInteger("1"), true, None, false)), sourceNs)
            == Err(ReversedInfixArgsNotCommutativeError)
  {
    Builtins.BuiltinInfixResolves(ctx, 8, sourceNs);
    assert StdDefs.StandardInfix()[8].operator == "-";
    assert QualifiedName(Operator([], "-")) == "-";
  }

  /** The match of `resourceId == "test.txt"`, written attribute-first. */
  function ResourceIdMatch(): Match
  {
    MatchOp(MatchOperation(["resourceId"], Operator([], "=="), CString("test.txt"), true, None, false))
  }

  /** The XACML match expected for it: `string-equal` on the literal and
      the resource-id designator. */
  function ResourceIdXMatch(): XMatch
  {
    XMatch(StdDefs.F1 + "string-equal", "test.txt", STRING_URI,
           "urn:oasis:names:tc:xacml:1.0:resource:resource-id",
           "urn:oasis:names:tc:xacml:3.0:attribute-category:resource", STRING_URI, false, None)
  }

  /** `resourceId == "test.txt"` in namespace `main` becomes a
      `string-equal` match: `==` is commutative, so the reversal is
      harmless, and `string-equal` is its first signature. */
  lemma ResourceIdMatchConverts(ctx: Context)
    requires Builtins.Fixtures(ctx)
    ensures MatchToXMatch(ctx, ResourceIdMatch(), ["main"]) == Ok(ResourceIdXMatch())
  {
    var mo := ResourceIdMatch().o;
    assert QualifiedName(mo.operator) == "==";
    assert Join(mo.attribute, ".") == "resourceId";
    var infix := LookupInfix(ctx, "==", ["main"]).value;
    assert InfixForMatch(ctx, mo, ["main"]) == Ok(infix);
    assert SigFits(ctx, infix, infix.signatures[0], STRING_URI, STRING_URI) == Ok(true);
    assert FirstFit(ctx, infix, STRING_URI, STRING_URI, 0) == Ok(Some(0));
  }

  /** The one-clause target around it keeps the one-clause, one-alternative,
      one-match shape. */
  lemma ResourceIdTargetConverts(ctx: Context)
    requires Builtins.Fixtures(ctx)
    ensures TargetToX(ctx, Target([DisjunctiveSeq([ConjunctiveSeq([ResourceIdMatch()])])], ["main"]))
            == Ok(XTarget([AnyOf([AllOf([ResourceIdXMatch()])])]))
  {
    ResourceIdMatchConverts(ctx);
    var ms := [ResourceIdMatch()];
    assert AllOfToX(ctx, ms[1..], ["main"]) == Ok(AllOf([]));
    assert [ResourceIdXMatch()] + [] == [ResourceIdXMatch()];
    assert AllOfToX(ctx, ms, ["main"]) == Ok(AllOf([ResourceIdXMatch()]));
    var cs := [ConjunctiveSeq(ms)];
    assert AnyOfToX(ctx, cs[1..], ["main"]) == Ok(AnyOf([]));
    assert [AllOf([ResourceIdXMatch()])] + [] == [AllOf([ResourceIdXMatch()])];
    assert AnyOfToX(ctx, cs, ["main"]) == Ok(AnyOf([AllOf([ResourceIdXMatch()])]));
    var ds := [DisjunctiveSeq(cs)];
    assert ClausesToX(ctx, ds[1..], ["main"]) == Ok(XTarget([]));
    assert [AnyOf([AllOf([ResourceIdXMatch()])])] + [] == [AnyOf([AllOf([ResourceIdXMatch()])])];
  }
}
