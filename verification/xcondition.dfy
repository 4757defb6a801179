/** Conversion of a condition expression into its XACML form: static typing
    of the expression tree, choice of the XACML function behind each infix
    operator, lifting of bag operands through `any-of-any`, and the gate
    that only lets atomic booleans through as conditions. */
module XConditions {
  import opened Wrappers
  import opened Errors
  import opened Strings
  import opened Decls
  import opened Conditions
  import opened CompilerContext
  import StdDefs
  import Builtins

  /** The resolved type of an expression or of a function output. */
  datatype TypeResolved =
    | Atomic(uri: string)
    | AtomicBag(uri: string)
    | AnyAtomicBag
    | AnyAtomic

  predicate IsBag(t: TypeResolved)
  {
    t.AtomicBag? || t.AnyAtomicBag?
  }

  datatype XAttrDesignator = XAttrDesignator(uri: string, category: string, typeUri: string,
                                             mustBePresent: bool, issuer: Option<string>)

  /** A XACML expression: function application, a function passed as an
      argument, a literal value, or an attribute designator. */
  datatype XExpression =
    | XApply(functionUri: string, arguments: seq<XExpression>, returnType: TypeResolved)
    | XFunction(functionUri: string)
    | XValue(v: TypedLiteral)
    | XAttrib(d: XAttrDesignator)

  datatype XCondition = XCondition(expr: XExpression)

  const ANY_OF_ANY: string := "urn:oasis:names:tc:xacml:3.0:function:any-of-any"

  /** The abort raised when a non-specific type reaches an infix operand. */
  const ANY_OPERAND: ParseError := Panic("AnyAtomicBag/AnyAtomic are not valid arguments to an infix operator.")

  /** The abort raised when a literal of a known custom type is typed. */
  const CUSTOM_LITERAL: ParseError := Panic("not yet implemented: resolve custom types")

  /** `resolve_literal_types`: `Ok(None)` when the literal has no type, an
      error only for the abort on a custom literal whose type exists. */
  function ResolveLiteralType(ctx: Context, c: Constant, sourceNs: seq<string>): (r: Res<Option<string>>)
    ensures r.Err? <==> c.CCustom? && LookupType(ctx, c.ct.name, sourceNs).Ok?
    ensures r.Err? ==> r.error == CUSTOM_LITERAL
    ensures r.Ok? && r.value.Some? ==> !c.CCustom? && !c.Undefined?
  {
    match c
    case CString(_) => Ok(Some(STRING_URI))
    case CInteger(_) => Ok(Some(INTEGER_URI))
    case CDouble(_) => Ok(Some(DOUBLE_URI))
    case CBoolean(_) => Ok(Some(BOOLEAN_URI))
    case CCustom(ct, _) =>
      if LookupType(ctx, ct.name, sourceNs).Ok? then Err(CUSTOM_LITERAL) else Ok(None)
    case Undefined => Ok(None)
  }

  /** `fn_output_to_resolved`: the output type names of a function are
      looked up from the function's own namespace. */
  function FnOutputToResolved(ctx: Context, out: FunctionOutputArg, fnNs: seq<string>): (r: Res<TypeResolved>)
    ensures r.Ok? ==> (IsBag(r.value) <==> out.OutAtomicBag? || out.OutAnyAtomicBag?)
    ensures out.OutAtomic? || out.OutAtomicBag? ==>
              (r.Ok? <==> LookupType(ctx, out.typeName, fnNs).Ok?)
              && (r.Ok? ==> (r.value.Atomic? || r.value.AtomicBag?)
                            && r.value.uri == LookupType(ctx, out.typeName, fnNs).value.uri)
    ensures out.OutAnyAtomic? ==> r == Ok(AnyAtomic)
    ensures out.OutAnyAtomicBag? ==> r == Ok(AnyAtomicBag)
  {
    match out
    case OutAtomic(a) =>
      var t :- LookupType(ctx, a, fnNs);
      Ok(Atomic(t.uri))
    case OutAtomicBag(a) =>
      var t :- LookupType(ctx, a, fnNs);
      Ok(AtomicBag(t.uri))
    case OutAnyAtomicBag => Ok(AnyAtomicBag)
    case OutAnyAtomic => Ok(AnyAtomic)
  }

  /** `check_infix_sign_compat`: an atomic operand must have exactly the
      signature's type; a bag in first position is accepted whatever its
      element type; a second operand is only checked when atomic; a
      non-specific first operand aborts. */
  function CheckCompat(t1: TypeResolved, t2: TypeResolved, sigFirst: string, sigSecond: string): (r: Res<bool>)
    ensures r.Err? <==> t1.AnyAtomic? || t1.AnyAtomicBag?
    ensures r.Err? ==> r.error == ANY_OPERAND
    ensures r.Ok? ==> (r.value <==> (t1.Atomic? ==> t1.uri == sigFirst) && (t2.Atomic? ==> t2.uri == sigSecond))
  {
    match t1
    case Atomic(u) =>
      if u != sigFirst then Ok(false)
      else Ok(!t2.Atomic? || t2.uri == sigSecond)
    case AtomicBag(_) => Ok(!t2.Atomic? || t2.uri == sigSecond)
    case _ => Err(ANY_OPERAND)
  }

  /** One iteration of the signature search: the operand, second operand
      and output type names are looked up in the operator's namespace (any
      failure ends the search), then the operand types are compared. */
  function SigCheck(ctx: Context, infix: Infix, t1: TypeResolved, t2: TypeResolved, s: InfixSignature): (r: Res<bool>)
    ensures r.Ok? <==> LookupType(ctx, s.firstArg, infix.ns).Ok? && LookupType(ctx, s.secondArg, infix.ns).Ok?
                       && LookupType(ctx, s.output, infix.ns).Ok? && (t1.Atomic? || t1.AtomicBag?)
    ensures r.Ok? ==> r == CheckCompat(t1, t2, LookupType(ctx, s.firstArg, infix.ns).value.uri,
                                       LookupType(ctx, s.secondArg, infix.ns).value.uri)
  {
    var first :- LookupType(ctx, s.firstArg, infix.ns);
    var second :- LookupType(ctx, s.secondArg, infix.ns);
    var _ :- LookupType(ctx, s.output, infix.ns);
    CheckCompat(t1, t2, first.uri, second.uri)
  }

  /** Every signature in `[lo, hi)` was checked and rejected. */
  predicate Rejects(ctx: Context, infix: Infix, t1: TypeResolved, t2: TypeResolved, lo: nat, hi: nat)
    requires hi <= |infix.signatures|
  {
    forall k :: lo <= k < hi ==> SigCheck(ctx, infix, t1, t2, infix.signatures[k]) == Ok(false)
  }

  /** The search over the signatures from index `from` on, in declaration
      order: the index of the first compatible one, `None` when all are
      rejected, or the first error met. */
  function FirstCompatible(ctx: Context, infix: Infix, t1: TypeResolved, t2: TypeResolved, from: nat): (r: Res<Option<nat>>)
    requires from <= |infix.signatures|
    ensures r.Ok? && r.value.Some? ==>
              from <= r.value.value < |infix.signatures|
              && SigCheck(ctx, infix, t1, t2, infix.signatures[r.value.value]) == Ok(true)
              && Rejects(ctx, infix, t1, t2, from, r.value.value)
    ensures r.Ok? && r.value.None? ==> Rejects(ctx, infix, t1, t2, from, |infix.signatures|)
    ensures r.Err? ==> exists j :: from <= j < |infix.signatures|
                                   && SigCheck(ctx, infix, t1, t2, infix.signatures[j]) == Err(r.error)
                                   && Rejects(ctx, infix, t1, t2, from, j)
    decreases |infix.signatures| - from
  {
    if from == |infix.signatures| then Ok(None)
    else
      var ok :- SigCheck(ctx, infix, t1, t2, infix.signatures[from]);
      if ok then Ok(Some(from))
      else
        var rest := FirstCompatible(ctx, infix, t1, t2, from + 1);
        RejectsExtend(ctx, infix, t1, t2, from);
        rest
  }

  /** A rejection at `from` followed by a search from `from + 1` is a
      search from `from`. */
  lemma RejectsExtend(ctx: Context, infix: Infix, t1: TypeResolved, t2: TypeResolved, from: nat)
    requires from < |infix.signatures|
    requires SigCheck(ctx, infix, t1, t2, infix.signatures[from]) == Ok(false)
    ensures forall hi :: from + 1 <= hi <= |infix.signatures| && Rejects(ctx, infix, t1, t2, from + 1, hi) ==>
              Rejects(ctx, infix, t1, t2, from, hi)
  {
  }

  /** The type of an expression (`type_for_expr`). Attributes are always
      bags; an infix application has the atomic output type of its chosen
      signature; a function reference or an empty expression has no
      type. */
  function TypeForExpr(ctx: Context, e: CondExpression, sourceNs: seq<string>): (r: Res<TypeResolved>)
    ensures r.Ok? && e.Attr? ==> r.value.AtomicBag?
    ensures r.Ok? && e.InfixExpr? ==> r.value.Atomic?
    ensures r.Ok? && e.Lit? ==> r.value.Atomic?
    ensures e.FnRef? || e.Empty? ==> r == Err(AstConvertError)
    decreases e, 1
  {
    match e
    case InfixExpr(l, o, rr) =>
      var (_, t) :- SigAndTypeForInfix(ctx, l, o, rr, sourceNs);
      Ok(t)
    case Lit(c) =>
      var lt :- ResolveLiteralType(ctx, c, sourceNs);
      if lt.None? then Err(AstConvertError) else Ok(Atomic(lt.value))
    case Attr(ad) =>
      var attr :- LookupAttribute(ctx, DesignatorName(ad), sourceNs);
      var td :- LookupType(ctx, attr.typedef, [Join(attr.ns, ".")]);
      Ok(AtomicBag(td.uri))
    case Fn(id, _) =>
      var f :- LookupFunction(ctx, Join(id, "."), sourceNs);
      FnOutputToResolved(ctx, f.outputArg, f.ns)
    case FnRef(_) => Err(AstConvertError)
    case Empty => Err(AstConvertError)
  }

  /** `sig_and_type_for_infix`: the operator is looked up by its qualified
      name, both operands are typed, the first compatible signature is
      chosen and its output type resolved; when none is compatible the
      expression cannot be typed. */
  function SigAndTypeForInfix(ctx: Context, l: CondExpression, o: Operator, rr: CondExpression, sourceNs: seq<string>)
    : (r: Res<(InfixSignature, TypeResolved)>)
    ensures r.Ok? ==>
              && LookupInfix(ctx, QualifiedName(o), sourceNs).Ok?
              && r.value.0 in LookupInfix(ctx, QualifiedName(o), sourceNs).value.signatures
              && LookupType(ctx, r.value.0.output, LookupInfix(ctx, QualifiedName(o), sourceNs).value.ns).Ok?
              && r.value.1 == Atomic(LookupType(ctx, r.value.0.output, LookupInfix(ctx, QualifiedName(o), sourceNs).value.ns).value.uri)
    decreases InfixExpr(l, o, rr), 0
  {
    var infix :- LookupInfix(ctx, QualifiedName(o), sourceNs);
    var t1 :- TypeForExpr(ctx, l, sourceNs);
    var t2 :- TypeForExpr(ctx, rr, sourceNs);
    var found :- FirstCompatible(ctx, infix, t1, t2, 0);
    if found.None? then Err(AstConvertError)
    else
      // the search already resolved the output type of the chosen signature
      var sig := infix.signatures[found.value];
      Ok((sig, Atomic(LookupType(ctx, sig.output, infix.ns).value.uri)))
  }

  /** `resolve_infix_signature`: the same search, reporting a missing
      signature as such. */
  function ResolveInfixSignature(ctx: Context, infix: Infix, t1: TypeResolved, t2: TypeResolved): (r: Res<InfixSignature>)
    ensures r.Ok? ==> exists j :: 0 <= j < |infix.signatures| && r.value == infix.signatures[j]
                                  && SigCheck(ctx, infix, t1, t2, infix.signatures[j]) == Ok(true)
                                  && Rejects(ctx, infix, t1, t2, 0, j)
    ensures Rejects(ctx, infix, t1, t2, 0, |infix.signatures|) ==> r == Err(InfixNoMatchingSignature)
  {
    var found := FirstCompatible(ctx, infix, t1, t2, 0);
    if found.Ok? && found.value.None? then Err(InfixNoMatchingSignature)
    else if found.Err? then
      Err(found.error)
    else
      Ok(infix.signatures[found.value.value])
  }

  /** `create_infix_apply`: operands that are not bags call the
      signature's function directly; otherwise an operator that allows bags
      and yields a boolean is lifted through `any-of-any` with the
      function passed first, and anything else is an error. */
  function CreateInfixApply(ctx: Context, sig: InfixSignature, args: seq<XExpression>,
                            t1: TypeResolved, t2: TypeResolved, infix: Infix): (r: Res<XExpression>)
    ensures r.Ok? <==> LookupType(ctx, sig.output, infix.ns).Ok?
                       && (IsBag(t1) || IsBag(t2) ==> infix.allowBags && LookupType(ctx, sig.output, infix.ns).value.uri == BOOLEAN_URI)
    ensures r.Ok? ==> r.value.XApply?
                      && r.value.returnType == Atomic(LookupType(ctx, sig.output, infix.ns).value.uri)
                      && |args| <= |r.value.arguments|
                      && r.value.arguments[|r.value.arguments| - |args|..] == args
    ensures r.Ok? && !IsBag(t1) && !IsBag(t2) ==> r.value.functionUri == sig.uri && r.value.arguments == args
    ensures r.Ok? && (IsBag(t1) || IsBag(t2)) ==>
              r.value == XApply(ANY_OF_ANY, [XFunction(sig.uri)] + args, Atomic(BOOLEAN_URI))
    ensures LookupType(ctx, sig.output, infix.ns).Ok? && (IsBag(t1) || IsBag(t2)) ==>
              (!infix.allowBags ==> r == Err(InfixBagsDisallowed))
              && (infix.allowBags && LookupType(ctx, sig.output, infix.ns).value.uri != BOOLEAN_URI ==>
                    r == Err(InfixBagsBooleanRequired))
  {
    var out :- LookupType(ctx, sig.output, infix.ns);
    var rt := Atomic(out.uri);
    if !IsBag(t1) && !IsBag(t2) then Ok(XApply(sig.uri, args, rt))
    else if infix.allowBags then
      if out.uri == BOOLEAN_URI then Ok(XApply(ANY_OF_ANY, [XFunction(sig.uri)] + args, rt))
      else Err(InfixBagsBooleanRequired)
    else Err(InfixBagsDisallowed)
  }

  /** The bag lift: when an operand is a bag and the operator allows
      bags, a boolean-valued signature is applied through `any-of-any`,
      with the signature's function passed first and the operands after
      it, in order. */
  lemma BagLift(ctx: Context, sig: InfixSignature, args: seq<XExpression>, t1: TypeResolved, t2: TypeResolved, infix: Infix)
    requires IsBag(t1) || IsBag(t2)
    requires infix.allowBags
    requires LookupType(ctx, sig.output, infix.ns).Ok? && LookupType(ctx, sig.output, infix.ns).value.uri == BOOLEAN_URI
    ensures CreateInfixApply(ctx, sig, args, t1, t2, infix) == Ok(XApply(ANY_OF_ANY, [XFunction(sig.uri)] + args, Atomic(BOOLEAN_URI)))
  {
  }

  /** `expr_to_xexpr`: the XACML form of an expression. */
  function ExprToX(ctx: Context, e: CondExpression, sourceNs: seq<string>): (r: Res<XExpression>)
    ensures r.Ok? && e.Lit? ==>
              ConstantToTypedLiteral(ctx, e.constant, sourceNs).Ok?
              && r.value == XValue(ConstantToTypedLiteral(ctx, e.constant, sourceNs).value)
    ensures r.Ok? && e.FnRef? ==>
              LookupFunction(ctx, Join(e.ref.identifier, "."), sourceNs).Ok?
              && r.value == XFunction(LookupFunction(ctx, Join(e.ref.identifier, "."), sourceNs).value.functionUri)
    ensures r.Ok? && e.Fn? ==>
              LookupFunction(ctx, Join(e.identifier, "."), sourceNs).Ok?
              && r.value.XApply?
              && r.value.functionUri == LookupFunction(ctx, Join(e.identifier, "."), sourceNs).value.functionUri
              && |r.value.arguments| == |e.arguments|
    ensures r.Ok? && e.Attr? ==>
              r.value.XAttrib? && r.value.d.mustBePresent == e.designator.mustBePresent
              && r.value.d.issuer == e.designator.issuer
    ensures r.Ok? && e.InfixExpr? ==> r.value.XApply? && 2 <= |r.value.arguments| <= 3
    ensures e.Empty? ==> r == Err(AstConvertError)
    decreases e, 1
  {
    match e
    case InfixExpr(l, o, rr) =>
      var infix :- LookupInfix(ctx, QualifiedName(o), sourceNs);
      var t1 :- TypeForExpr(ctx, l, sourceNs);
      var t2 :- TypeForExpr(ctx, rr, sourceNs);
      var sig :- ResolveInfixSignature(ctx, infix, t1, t2);
      var a1 :- ExprToX(ctx, l, sourceNs);
      var a2 :- ExprToX(ctx, rr, sourceNs);
      CreateInfixApply(ctx, sig, [a1, a2], t1, t2, infix)
    case Lit(c) =>
      var v :- ConstantToTypedLiteral(ctx, c, sourceNs);
      Ok(XValue(v))
    case FnRef(fr) =>
      var f :- LookupFunction(ctx, Join(fr.identifier, "."), sourceNs);
      Ok(XFunction(f.functionUri))
    case Fn(id, args) =>
      var f :- LookupFunction(ctx, Join(id, "."), sourceNs);
      var xs :- ArgsToX(ctx, args, sourceNs);
      var rt :- FnOutputToResolved(ctx, f.outputArg, f.ns);
      Ok(XApply(f.functionUri, xs, rt))
    case Attr(ad) =>
      var attr :- LookupAttribute(ctx, DesignatorName(ad), sourceNs);
      var tu :- LookupType(ctx, attr.typedef, attr.ns);
      var cat :- LookupCategory(ctx, attr.category, attr.ns);
      Ok(XAttrib(XAttrDesignator(attr.uri, cat.uri, tu.uri, ad.mustBePresent, ad.issuer)))
    case Empty => Err(AstConvertError)
  }

  /** The arguments of a function call, converted in order; the first
      failing argument decides the error. */
  function ArgsToX(ctx: Context, args: seq<CondExpression>, sourceNs: seq<string>): (r: Res<seq<XExpression>>)
    ensures r.Ok? ==> |r.value| == |args|
                      && forall i :: 0 <= i < |args| ==> ExprToX(ctx, args[i], sourceNs) == Ok(r.value[i])
    ensures r.Err? ==> exists i :: 0 <= i < |args| && ExprToX(ctx, args[i], sourceNs) == Err(r.error)
    decreases args, 0
  {
    if |args| == 0 then Ok([])
    else
      var x :- ExprToX(ctx, args[0], sourceNs);
      var xs :- ArgsToX(ctx, args[1..], sourceNs);
      assert forall i :: 1 <= i < |args| ==> args[i] == args[1..][i - 1];
      Ok([x] + xs)
  }

  /** Converting one more argument in front. */
  lemma ArgsToXCons(ctx: Context, sourceNs: seq<string>, c: CondExpression, rest: seq<CondExpression>,
                    x: XExpression, xs: seq<XExpression>)
    requires ExprToX(ctx, c, sourceNs) == Ok(x) && ArgsToX(ctx, rest, sourceNs) == Ok(xs)
    ensures ArgsToX(ctx, [c] + rest, sourceNs) == Ok([x] + xs)
  {
    var args := [c] + rest;
    assert args[0] == c;
    assert args[1..] == rest;
  }

  /** `XCondition::try_from`. The expression's type is computed first,
      and a failure to type it counts as "not atomic" (an abort still
      aborts); only an atomic boolean is converted. */
  function ConditionToX(ctx: Context, c: Condition): (r: Res<XCondition>)
    ensures r.Ok? ==> TypeForExpr(ctx, c.condExpr, c.ns) == Ok(Atomic(BOOLEAN_URI))
                      && ExprToX(ctx, c.condExpr, c.ns) == Ok(r.value.expr)
    ensures TypeForExpr(ctx, c.condExpr, c.ns) == Ok(Atomic(BOOLEAN_URI)) ==>
              (r.Ok? <==> ExprToX(ctx, c.condExpr, c.ns).Ok?)
              && (r.Err? ==> r.error == ExprToX(ctx, c.condExpr, c.ns).error)
    ensures TypeForExpr(ctx, c.condExpr, c.ns).Ok? && TypeForExpr(ctx, c.condExpr, c.ns).value.Atomic?
            && TypeForExpr(ctx, c.condExpr, c.ns).value.uri != BOOLEAN_URI ==>
              r == Err(SrcError("Conditions must evaluate to booleans",
                                "type is " + DebugQuote(TypeForExpr(ctx, c.condExpr, c.ns).value.uri)))
    ensures TypeForExpr(ctx, c.condExpr, c.ns).Ok? && !TypeForExpr(ctx, c.condExpr, c.ns).value.Atomic? ==>
              r == Err(SrcError("Conditions must evaluate to atomic booleans", "non-atomic type"))
    ensures TypeForExpr(ctx, c.condExpr, c.ns).Err? ==>
              r == Err(if TypeForExpr(ctx, c.condExpr, c.ns).error.Panic? then TypeForExpr(ctx, c.condExpr, c.ns).error
                       else SrcError("Conditions must evaluate to atomic booleans", "non-atomic type"))
  {
    var t := TypeForExpr(ctx, c.condExpr, c.ns);
    if t.Err? && t.error.Panic? then Err(t.error)
    else if t.Ok? && t.value.Atomic? then
      if t.value.uri != BOOLEAN_URI then
        Err(SrcError("Conditions must evaluate to booleans", "type is " + DebugQuote(t.value.uri)))
      else
        var x :- ExprToX(ctx, c.condExpr, c.ns);
        Ok(XCondition(x))
    else Err(SrcError("Conditions must evaluate to atomic booleans", "non-atomic type"))
  }

  /** A literal's static type is the type of the value it converts to,
      except for a custom literal: its value gets the looked-up type while
      typing it aborts. */
  lemma LiteralTypeMatchesValue(ctx: Context, c: Constant, sourceNs: seq<string>)
    ensures !c.CCustom? ==>
              (TypeForExpr(ctx, Lit(c), sourceNs).Ok? <==> ConstantToTypedLiteral(ctx, c, sourceNs).Ok?)
              && (TypeForExpr(ctx, Lit(c), sourceNs).Ok? ==>
                    TypeForExpr(ctx, Lit(c), sourceNs) == Ok(Atomic(ConstantToTypedLiteral(ctx, c, sourceNs).value.typeUri)))
    ensures c.CCustom? && LookupType(ctx, c.ct.name, sourceNs).Ok? ==>
              TypeForExpr(ctx, Lit(c), sourceNs) == Err(CUSTOM_LITERAL) && ConstantToTypedLiteral(ctx, c, sourceNs).Ok?
    ensures c.CCustom? && LookupType(ctx, c.ct.name, sourceNs).Err? ==>
              TypeForExpr(ctx, Lit(c), sourceNs) == Err(AstConvertError) && ConstantToTypedLiteral(ctx, c, sourceNs).Err?
  {
  }

  /** The typing search and the conversion search are separate loops in
      the compiler; they pick the same signature. */
  lemma SearchesAgree(ctx: Context, l: CondExpression, o: Operator, rr: CondExpression, sourceNs: seq<string>)
    requires SigAndTypeForInfix(ctx, l, o, rr, sourceNs).Ok?
    ensures TypeForExpr(ctx, l, sourceNs).Ok? && TypeForExpr(ctx, rr, sourceNs).Ok?
    ensures ResolveInfixSignature(ctx, LookupInfix(ctx, QualifiedName(o), sourceNs).value,
                                  TypeForExpr(ctx, l, sourceNs).value, TypeForExpr(ctx, rr, sourceNs).value)
            == Ok(SigAndTypeForInfix(ctx, l, o, rr, sourceNs).value.0)
  {
  }

  /** What the XACML form of an expression says about the expression's
      static type: an application carries exactly that type, a value is a
      literal, a designator comes from a bag-typed attribute, and a bare
      function has no type. */
  lemma ConversionAgreesWithTyping(ctx: Context, e: CondExpression, sourceNs: seq<string>)
    requires ExprToX(ctx, e, sourceNs).Ok?
    ensures ExprToX(ctx, e, sourceNs).value.XApply? ==>
              TypeForExpr(ctx, e, sourceNs) == Ok(ExprToX(ctx, e, sourceNs).value.returnType)
    ensures ExprToX(ctx, e, sourceNs).value.XValue? ==> e.Lit?
    ensures ExprToX(ctx, e, sourceNs).value.XAttrib? ==>
              e.Attr? && (TypeForExpr(ctx, e, sourceNs).Ok? ==> TypeForExpr(ctx, e, sourceNs).value.AtomicBag?)
    ensures ExprToX(ctx, e, sourceNs).value.XFunction? ==> TypeForExpr(ctx, e, sourceNs) == Err(AstConvertError)
  {
    match e
    case InfixExpr(l, o, rr) =>
      var infix := LookupInfix(ctx, QualifiedName(o), sourceNs).value;
      var t1 := TypeForExpr(ctx, l, sourceNs).value;
      var t2 := TypeForExpr(ctx, rr, sourceNs).value;
      var sig := ResolveInfixSignature(ctx, infix, t1, t2).value;
      assert FirstCompatible(ctx, infix, t1, t2, 0).Ok?;
      assert FirstCompatible(ctx, infix, t1, t2, 0).value.Some?;
      assert sig == infix.signatures[FirstCompatible(ctx, infix, t1, t2, 0).value.value];
    case _ =>
  }

  /** A condition that converts is an atomic boolean: an application
      returning a boolean or a boolean literal, never a designator or a
      bare function. */
  lemma ConvertedConditionIsBoolean(ctx: Context, c: Condition)
    requires ConditionToX(ctx, c).Ok?
    ensures var x := ConditionToX(ctx, c).value.expr;
            (x.XApply? && x.returnType == Atomic(BOOLEAN_URI)) || (x.XValue? && x.v.typeUri == BOOLEAN_URI)
  {
    ConversionAgreesWithTyping(ctx, c.condExpr, c.ns);
    if c.condExpr.Lit? {
      LiteralTypeMatchesValue(ctx, c.condExpr.constant, c.ns);
    }
  }

  /** A string literal is not a boolean, so it is refused as a condition
      with the diagnostic naming its type. */
  lemma StringConditionRejected(ctx: Context, text: string, ns: seq<string>)
    ensures ConditionToX(ctx, Condition(Lit(CString(text)), ns))
            == Err(SrcError("Conditions must evaluate to booleans", "type is " + DebugQuote(STRING_URI)))
  {
    var c := Condition(Lit(CString(text)), ns);
    assert TypeForExpr(ctx, c.condExpr, c.ns) == Ok(Atomic(STRING_URI));
    assert STRING_URI != BOOLEAN_URI by {
      assert |STRING_URI| != |BOOLEAN_URI|;
    }
  }

  /** The repository's own case: `"this is not a boolean"` as a condition. */
  lemma NonBooleanConditionRejected(ctx: Context)
    ensures ConditionToX(ctx, Condition(Lit(CString("this is not a boolean")), ["main"]))
            == Err(SrcError("Conditions must evaluate to booleans", "type is " + DebugQuote(STRING_URI)))
  {
    StringConditionRejected(ctx, "this is not a boolean", ["main"]);
  }

  /** With the built-ins, a bag of strings is refused as a condition, since
      it is not atomic. */
  lemma BagConditionRejected(ctx: Context)
    requires Builtins.Fixtures(ctx)
    ensures ConditionToX(ctx, Condition(Fn(["stringBag"], [Lit(CString("foo")), Lit(CString("bar"))]), ["main"]))
            == Err(SrcError("Conditions must evaluate to atomic booleans", "non-atomic type"))
  {
    StringBagOperand(ctx);
    assert TypeForExpr(ctx, Fn(["stringBag"], [Lit(CString("foo")), Lit(CString("bar"))]), ["main"])
           == Ok(AtomicBag(STRING_URI));
  }

  /** The expression `resourceId == stringBag("foo", "bar")`. */
  function EqualsBagExample(): CondExpression
  {
    InfixExpr(Attr(AttributeDesignator(["resourceId"], None, false)), Operator([], "=="),
              Fn(["stringBag"], [Lit(CString("foo")), Lit(CString("bar"))]))
  }

  /** With the built-ins, comparing an attribute with a bag of strings by
      `==` types as a boolean and converts to `any-of-any` applied to
      `string-equal`, the designator and the bag. */
  lemma InfixBagConditionConverts(ctx: Context)
    requires Builtins.Fixtures(ctx)
    ensures ConditionToX(ctx, Condition(EqualsBagExample(), ["main"]))
            == Ok(XCondition(XApply(ANY_OF_ANY,
                                    [ XFunction(StdDefs.F1 + "string-equal"),
                                      XAttrib(XAttrDesignator("urn:oasis:names:tc:xacml:1.0:resource:resource-id",
                                                              "urn:oasis:names:tc:xacml:3.0:attribute-category:resource",
                                                              STRING_URI, false, None)),
                                      XApply(StdDefs.F1 + "string-bag",
                                             [XValue(TypedLiteral(STRING_URI, "foo")), XValue(TypedLiteral(STRING_URI, "bar"))],
                                             AtomicBag(STRING_URI)) ],
                                    Atomic(BOOLEAN_URI))))
  {
    EqualsBagSearch(ctx);
    EqualsBagTyped(ctx);
    EqualsBagConverted(ctx);
  }

  /** The signature search of the example: `string-equal`, the first
      signature of `==`, accepts two bags of strings. */
  lemma EqualsBagSearch(ctx: Context)
    requires Builtins.Fixtures(ctx)
    ensures LookupInfix(ctx, "==", ["main"]).Ok?
    ensures var infix := LookupInfix(ctx, "==", ["main"]).value;
            var sbag := AtomicBag(STRING_URI);
            && infix.allowBags && |infix.signatures| > 0
            && infix.signatures[0] == InfixSignature(StdDefs.F1 + "string-equal", "string", "string", "boolean")
            && LookupType(ctx, "boolean", infix.ns) == Ok(TypeDef("boolean", BOOLEAN_URI, [SYSTEM_NS]))
            && FirstCompatible(ctx, infix, sbag, sbag, 0) == Ok(Some(0))
            && ResolveInfixSignature(ctx, infix, sbag, sbag) == Ok(infix.signatures[0])
  {
    var infix := LookupInfix(ctx, "==", ["main"]).value;
    var sbag := AtomicBag(STRING_URI);
    assert SigCheck(ctx, infix, sbag, sbag, infix.signatures[0]) == Ok(true);
  }

  /** The example types as a boolean. */
  lemma EqualsBagTyped(ctx: Context)
    requires Builtins.Fixtures(ctx)
    ensures TypeForExpr(ctx, EqualsBagExample(), ["main"]) == Ok(Atomic(BOOLEAN_URI))
  {
    assert QualifiedName(Operator([], "==")) == "==";
    EqualsBagSearch(ctx);
    ResourceIdOperand(ctx);
    StringBagOperand(ctx);
  }

  /** The example converts to `any-of-any`. */
  lemma EqualsBagConverted(ctx: Context)
    requires Builtins.Fixtures(ctx)
    ensures ExprToX(ctx, EqualsBagExample(), ["main"])
            == Ok(XApply(ANY_OF_ANY,
                         [ XFunction(StdDefs.F1 + "string-equal"),
                           XAttrib(XAttrDesignator("urn:oasis:names:tc:xacml:1.0:resource:resource-id",
                                                   "urn:oasis:names:tc:xacml:3.0:attribute-category:resource",
                                                   STRING_URI, false, None)),
                           XApply(StdDefs.F1 + "string-bag",
                                  [XValue(TypedLiteral(STRING_URI, "foo")), XValue(TypedLiteral(STRING_URI, "bar"))],
                                  AtomicBag(STRING_URI)) ],
                         Atomic(BOOLEAN_URI)))
  {
    var l := Attr(AttributeDesignator(["resourceId"], None, false));
    var o := Operator([], "==");
    var rr := Fn(["stringBag"], [Lit(CString("foo")), Lit(CString("bar"))]);
    var a1 := XAttrib(XAttrDesignator("urn:oasis:names:tc:xacml:1.0:resource:resource-id",
                                      "urn:oasis:names:tc:xacml:3.0:attribute-category:resource",
                                      STRING_URI, false, None));
    var a2 := XApply(StdDefs.F1 + "string-bag",
                     [XValue(TypedLiteral(STRING_URI, "foo")), XValue(TypedLiteral(STRING_URI, "bar"))],
                     AtomicBag(STRING_URI));
    var sbag := AtomicBag(STRING_URI);
    assert QualifiedName(o) == "==";
    EqualsBagSearch(ctx);
    var infix := LookupInfix(ctx, "==", ["main"]).value;
    var sig := infix.signatures[0];
    assert TypeForExpr(ctx, l, ["main"]) == Ok(sbag) && ExprToX(ctx, l, ["main"]) == Ok(a1) by {
      ResourceIdOperand(ctx);
    }
    assert TypeForExpr(ctx, rr, ["main"]) == Ok(sbag) && ExprToX(ctx, rr, ["main"]) == Ok(a2) by {
      StringBagOperand(ctx);
    }
    InfixConversionSteps(ctx, l, o, rr, ["main"], infix, sbag, sbag, sig, a1, a2);
    BagLift(ctx, sig, [a1, a2], sbag, sbag, infix);
    assert sig.uri == StdDefs.F1 + "string-equal";
    assert [XFunction(sig.uri)] + [a1, a2] == [XFunction(sig.uri), a1, a2];
    assert EqualsBagExample() == InfixExpr(l, o, rr);
  }

  /** The conversion of an infix application, given the results of its
      steps. */
  lemma InfixConversionSteps(ctx: Context, l: CondExpression, o: Operator, rr: CondExpression, sourceNs: seq<string>,
                             infix: Infix, t1: TypeResolved, t2: TypeResolved, sig: InfixSignature,
                             a1: XExpression, a2: XExpression)
    requires LookupInfix(ctx, QualifiedName(o), sourceNs) == Ok(infix)
    requires TypeForExpr(ctx, l, sourceNs) == Ok(t1) && TypeForExpr(ctx, rr, sourceNs) == Ok(t2)
    requires ResolveInfixSignature(ctx, infix, t1, t2) == Ok(sig)
    requires ExprToX(ctx, l, sourceNs) == Ok(a1) && ExprToX(ctx, rr, sourceNs) == Ok(a2)
    ensures ExprToX(ctx, InfixExpr(l, o, rr), sourceNs) == CreateInfixApply(ctx, sig, [a1, a2], t1, t2, infix)
  {
  }

  /** The designator operand of the example above: a bag of strings,
      converted to a designator of the resource id. */
  lemma ResourceIdOperand(ctx: Context)
    requires Builtins.Fixtures(ctx)
    ensures var attr := Attr(AttributeDesignator(["resourceId"], None, false));
            && TypeForExpr(ctx, attr, ["main"]) == Ok(AtomicBag(STRING_URI))
            && ExprToX(ctx, attr, ["main"])
               == Ok(XAttrib(XAttrDesignator("urn:oasis:names:tc:xacml:1.0:resource:resource-id",
                                             "urn:oasis:names:tc:xacml:3.0:attribute-category:resource",
                                             STRING_URI, false, None)))
  {
    assert DesignatorName(AttributeDesignator(["resourceId"], None, false)) == "resourceId";
    assert Join([SYSTEM_NS], ".") == SYSTEM_NS;
  }

  /** The bag operand of the example above: a bag of strings, converted
      to an application of `string-bag` to the two literals. */
  lemma StringBagOperand(ctx: Context)
    requires Builtins.Fixtures(ctx)
    ensures var bag := Fn(["stringBag"], [Lit(CString("foo")), Lit(CString("bar"))]);
            && TypeForExpr(ctx, bag, ["main"]) == Ok(AtomicBag(STRING_URI))
            && ExprToX(ctx, bag, ["main"])
               == Ok(XApply(StdDefs.F1 + "string-bag",
                            [XValue(TypedLiteral(STRING_URI, "foo")), XValue(TypedLiteral(STRING_URI, "bar"))],
                            AtomicBag(STRING_URI)))
  {
    var ns := ["main"];
    assert Join(["stringBag"], ".") == "stringBag";
    assert ExprToX(ctx, Lit(CString("foo")), ns) == Ok(XValue(TypedLiteral(STRING_URI, "foo")));
    assert ExprToX(ctx, Lit(CString("bar")), ns) == Ok(XValue(TypedLiteral(STRING_URI, "bar")));
    ArgsToXCons(ctx, ns, Lit(CString("bar")), [], XValue(TypedLiteral(STRING_URI, "bar")), []);
    assert [Lit(CString("bar"))] + [] == [Lit(CString("bar"))];
    assert [XValue(TypedLiteral(STRING_URI, "bar"))] + [] == [XValue(TypedLiteral(STRING_URI, "bar"))];
    ArgsToXCons(ctx, ns, Lit(CString("foo")), [Lit(CString("bar"))], XValue(TypedLiteral(STRING_URI, "foo")),
                [XValue(TypedLiteral(STRING_URI, "bar"))]);
    assert [Lit(CString("foo"))] + [Lit(CString("bar"))] == [Lit(CString("foo")), Lit(CString("bar"))];
    assert [XValue(TypedLiteral(STRING_URI, "foo"))] + [XValue(TypedLiteral(STRING_URI, "bar"))]
           == [XValue(TypedLiteral(STRING_URI, "foo")), XValue(TypedLiteral(STRING_URI, "bar"))];
    assert FnOutputToResolved(ctx, OutAtomicBag("string"), [SYSTEM_NS]) == Ok(AtomicBag(STRING_URI));
  }

  /** A bag operand is accepted whatever its element type: with the
      built-ins, a bag of booleans compared by `==` with a string is given
      the first signature, `string-equal`. */
  lemma BooleanBagComparedAsString(ctx: Context)
    requires Builtins.Fixtures(ctx)
    ensures LookupInfix(ctx, "==", ["main"]).Ok?
    ensures ResolveInfixSignature(ctx, LookupInfix(ctx, "==", ["main"]).value, AtomicBag(BOOLEAN_URI), Atomic(STRING_URI))
            == Ok(InfixSignature(StdDefs.F1 + "string-equal", "string", "string", "boolean"))
  {
    var infix := LookupInfix(ctx, "==", ["main"]).value;
    assert SigCheck(ctx, infix, AtomicBag(BOOLEAN_URI), Atomic(STRING_URI), infix.signatures[0]) == Ok(true);
    assert FirstCompatible(ctx, infix, AtomicBag(BOOLEAN_URI), Atomic(STRING_URI), 0) == Ok(Some(0));
  }
}
