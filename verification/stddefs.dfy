/** The built-in declarations registered under `_A2X` (and the protected
    combining algorithms under `_A2X.PROTECTED`): XML Schema and XACML data
    types, combining algorithms, categories, the infix operator table, and
    the few functions and attributes that the repository's tests use. */
module StdDefs {
  import opened Wrappers
  import opened Decls

  function StdType(id: string, uri: string): TypeDef
  {
    TypeDef(id, uri, [SYSTEM_NS])
  }

  /** `standard_types`, in registration order. */
  function StandardTypes(): seq<TypeDef>
  {
    [ StdType("string", STRING_URI),
      StdType("boolean", BOOLEAN_URI),
      StdType("integer", INTEGER_URI),
      StdType("double", DOUBLE_URI),
      StdType("anyURI", "http://www.w3.org/2001/XMLSchema#anyURI"),
      StdType("base64Binary", "http://www.w3.org/2001/XMLSchema#base64Binary"),
      StdType("date", "http://www.w3.org/2001/XMLSchema#date"),
      StdType("dateTime", "http://www.w3.org/2001/XMLSchema#dateTime"),
      StdType("dayTimeDuration", "http://www.w3.org/2001/XMLSchema#dayTimeDuration"),
      StdType("hexBinary", "http://www.w3.org/2001/XMLSchema#hexBinary"),
      StdType("rfc822Name", "urn:oasis:names:tc:xacml:1.0:data-type:rfc822Name"),
      StdType("time", "http://www.w3.org/2001/XMLSchema#time"),
      StdType("x500Name", "urn:oasis:names:tc:xacml:1.0:data-type:x500Name"),
      StdType("xpath", "urn:oasis:names:tc:xacml:3.0:data-type:xpathExpression"),
      StdType("yearMonthDuration", "http://www.w3.org/2001/XMLSchema#yearMonthDuration"),
      StdType("dnsName", "urn:oasis:names:tc:xacml:2.0:data-type:dnsName"),
      StdType("ipAddress", "urn:oasis:names:tc:xacml:2.0:data-type:ipAddress") ]
  }

  function StdRuleComb(id: string, uri: string): RuleCombinator
  {
    RuleCombinator(id, uri, [SYSTEM_NS])
  }

  function StdPolicyComb(id: string, uri: string): PolicyCombinator
  {
    PolicyCombinator(id, uri, [SYSTEM_NS])
  }

  const POLICY_PERMIT_OVERRIDES: string := "urn:oasis:names:tc:xacml:3.0:policy-combining-algorithm:permit-overrides"
  const ON_PERMIT_APPLY_SECOND: string := "urn:oasis:names:tc:xacml:3.0:policy-combining-algorithm:on-permit-apply-second"
  const RULE_PERMIT_OVERRIDES: string := "urn:oasis:names:tc:xacml:3.0:rule-combining-algorithm:permit-overrides"

  /** `protected_policycombinators`. */
  function ProtectedPolicyCombinators(): seq<PolicyCombinator>
  {
    [ PolicyCombinator("permitOverrides", POLICY_PERMIT_OVERRIDES, [PROTECTED_NS]),
      PolicyCombinator("onPermitApplySecond", ON_PERMIT_APPLY_SECOND, [PROTECTED_NS]) ]
  }

  /** `protected_rulecombinators`. */
  function ProtectedRuleCombinators(): seq<RuleCombinator>
  {
    [ RuleCombinator("permitOverrides", RULE_PERMIT_OVERRIDES, [PROTECTED_NS]) ]
  }

  /** `standard_policycombinators`. */
  function StandardPolicyCombinators(): seq<PolicyCombinator>
  {
    [ StdPolicyComb("denyOverrides", "urn:oasis:names:tc:xacml:3.0:policy-combining-algorithm:deny-overrides"),
      StdPolicyComb("denyUnlessPermit", "urn:oasis:names:tc:xacml:3.0:policy-combining-algorithm:deny-unless-permit"),
      StdPolicyComb("firstApplicable", "urn:oasis:names:tc:xacml:1.0:policy-combining-algorithm:first-applicable"),
      StdPolicyComb("onlyOneApplicable", "urn:oasis:names:tc:xacml:1.0:policy-combining-algorithm:only-one-applicable"),
      StdPolicyComb("orderedDenyOverrides", "urn:oasis:names:tc:xacml:3.0:policy-combining-algorithm:ordered-deny-overrides"),
      StdPolicyComb("orderedPermitOverrides", "urn:oasis:names:tc:xacml:3.0:policy-combining-algorithm:ordered-permit-overrides"),
      StdPolicyComb("permitOverrides", POLICY_PERMIT_OVERRIDES),
      StdPolicyComb("permitUnlessDeny", "urn:oasis:names:tc:xacml:3.0:policy-combining-algorithm:permit-unless-deny"),
      StdPolicyComb("onPermitApplySecond", ON_PERMIT_APPLY_SECOND) ]
  }

  /** `standard_rulecombinators`. */
  function StandardRuleCombinators(): seq<RuleCombinator>
  {
    [ StdRuleComb("denyOverrides", "urn:oasis:names:tc:xacml:3.0:rule-combining-algorithm:deny-overrides"),
      StdRuleComb("denyUnlessPermit", "urn:oasis:names:tc:xacml:3.0:rule-combining-algorithm:deny-unless-permit"),
      StdRuleComb("firstApplicable", "urn:oasis:names:tc:xacml:1.0:rule-combining-algorithm:first-applicable"),
      StdRuleComb("orderedDenyOverrides", "urn:oasis:names:tc:xacml:3.0:rule-combining-algorithm:ordered-deny-overrides"),
      StdRuleComb("orderedPermitOverrides", "urn:oasis:names:tc:xacml:3.0:rule-combining-algorithm:ordered-permit-overrides"),
      StdRuleComb("permitUnlessDeny", "urn:oasis:names:tc:xacml:3.0:rule-combining-algorithm:permit-unless-deny"),
      StdRuleComb("permitOverrides", RULE_PERMIT_OVERRIDES) ]
  }

  function StdCat(id: string, uri: string): Category
  {
    Category(id, uri, [SYSTEM_NS])
  }

  /** `standard_categories`. */
  function StandardCategories(): seq<Category>
  {
    [ StdCat("subjectCat", "urn:oasis:names:tc:xacml:1.0:subject-category:access-subject"),
      StdCat("codebaseCat", "urn:oasis:names:tc:xacml:1.0:subject-category:codebase"),
      StdCat("intermediarySubjectCat", "urn:oasis:names:tc:xacml:1.0:subject-category:intermediary-subject"),
      StdCat("recipientSubjectCat", "urn:oasis:names:tc:xacml:1.0:subject-category:recipient-subject"),
      StdCat("requestingMachineCat", "urn:oasis:names:tc:xacml:1.0:subject-category:requesting-machine"),
      StdCat("resourceCat", "urn:oasis:names:tc:xacml:3.0:attribute-category:resource"),
      StdCat("actionCat", "urn:oasis:names:tc:xacml:3.0:attribute-category:action"),
      StdCat("environmentCat", "urn:oasis:names:tc:xacml:3.0:attribute-category:environment") ]
  }

  const F1: string := "urn:oasis:names:tc:xacml:1.0:function:"
  const F2: string := "urn:oasis:names:tc:xacml:2.0:function:"
  const F3: string := "urn:oasis:names:tc:xacml:3.0:function:"

  /** A signature of the form `t t -> out`. */
  function Sig(uri: string, t: string, out: string): InfixSignature
  {
    InfixSignature(uri, t, t, out)
  }

  function CompareSigs(name: string): seq<InfixSignature>
  {
    [ Sig(F1 + "integer-" + name, "integer", "boolean"),
      Sig(F1 + "double-" + name, "double", "boolean"),
      Sig(F1 + "string-" + name, "string", "boolean"),
      Sig(F1 + "time-" + name, "time", "boolean"),
      Sig(F1 + "dateTime-" + name, "dateTime", "boolean"),
      Sig(F1 + "date-" + name, "date", "boolean") ]
  }

  function StdInfix(op: string, allowBags: bool, comm: bool, sigs: seq<InfixSignature>, inv: Option<string>): Infix
  {
    Infix(op, allowBags, comm, sigs, [SYSTEM_NS], inv)
  }

  /** `standard_infix`, in registration order. */
  function StandardInfix(): seq<Infix>
  {
    [ StdInfix("==", true, true,
        [ Sig(F1 + "string-equal", "string", "boolean"),
          Sig(F1 + "boolean-equal", "boolean", "boolean"),
          Sig(F1 + "integer-equal", "integer", "boolean"),
          Sig(F1 + "date-equal", "date", "boolean"),
          Sig(F1 + "double-equal", "double", "boolean"),
          Sig(F1 + "time-equal", "time", "boolean"),
          Sig(F1 + "dateTime-equal", "dateTime", "boolean"),
          Sig(F3 + "dayTimeDuration-equal", "dayTimeDuration", "boolean"),
          Sig(F3 + "yearMonthDuration-equal", "yearMonthDuration", "boolean"),
          Sig(F1 + "anyURI-equal", "anyURI", "boolean"),
          Sig(F1 + "x500Name-equal", "x500Name", "boolean"),
          Sig(F1 + "rfc822Name-equal", "rfc822Name", "boolean"),
          Sig(F1 + "hexBinary-equal", "hexBinary", "boolean"),
          Sig(F1 + "base64Binary-equal", "base64Binary", "boolean") ], None),
      StdInfix("<", true, false, CompareSigs("less-than"), Some(">")),
      StdInfix(">=", true, false, CompareSigs("greater-than-or-equal"), Some("<=")),
      StdInfix("<=", true, false, CompareSigs("less-than-or-equal"), Some(">=")),
      StdInfix(">", true, false, CompareSigs("greater-than"), Some("<")),
      StdInfix("&&", false, true, [ Sig(F1 + "and", "boolean", "boolean") ], None),
      StdInfix("||", false, true, [ Sig(F1 + "or", "boolean", "boolean") ], None),
      StdInfix("+", false, true,
        [ Sig(F1 + "integer-add", "integer", "integer"),
          Sig(F1 + "double-add", "double", "double"),
          Sig(F2 + "string-concatenate", "string", "string") ], None),
      StdInfix("-", false, false,
        [ Sig(F1 + "integer-subtract", "integer", "integer"),
          Sig(F1 + "double-subtract", "double", "double") ], None),
      StdInfix("*", false, true,
        [ Sig(F1 + "integer-multiply", "integer", "integer"),
          Sig(F1 + "double-multiply", "double", "double") ], None),
      StdInfix("/", false, false,
        [ Sig(F1 + "integer-divide", "integer", "integer"),
          Sig(F1 + "double-divide", "double", "double") ], None) ]
  }

  /** The built-in functions used by the tests (a subset of
      `standard_functions`). */
  function FixtureFunctions(): seq<Function>
  {
    var anyArgs := FunctionInputs([InFunction, InAnyAtomicOrBag, InAnyAtomicOrBag], true);
    [ Function("stringBag", [SYSTEM_NS], F1 + "string-bag",
               FunctionInputs([InAtomic("string")], true), OutAtomicBag("string")),
      Function("booleanOneAndOnly", [SYSTEM_NS], F1 + "boolean-one-and-only",
               FunctionInputs([InAtomicBag("boolean")], false), OutAtomic("boolean")),
      Function("booleanBag", [SYSTEM_NS], F1 + "boolean-bag",
               FunctionInputs([InAtomic("boolean")], true), OutAtomicBag("boolean")),
      Function("anyOf", [SYSTEM_NS], F3 + "any-of", anyArgs, OutAtomic("boolean")),
      Function("anyOfAny", [SYSTEM_NS], F3 + "any-of-any", anyArgs, OutAtomic("boolean")) ]
  }

  /** The built-in attributes used by the tests (a subset of
      `standard_attributes`). */
  function FixtureAttributes(): seq<Attribute>
  {
    [ Attribute("subjectId", "urn:oasis:names:tc:xacml:1.0:subject:subject-id", "subjectCat", "string", [SYSTEM_NS]),
      Attribute("resourceId", "urn:oasis:names:tc:xacml:1.0:resource:resource-id", "resourceCat", "string", [SYSTEM_NS]) ]
  }


  /** The standard types: distinct ids, all in `_A2X`, and the four
      primitive types carry the four XML Schema URI constants. */
  predicate Distinct(names: seq<string>)
  {
    forall i, j :: 0 <= i < j < |names| ==> names[i] != names[j]
  }

  function TypeIds(ts: seq<TypeDef>): (r: seq<string>)
    ensures |r| == |ts| && forall i :: 0 <= i < |ts| ==> r[i] == ts[i].id
  {
    seq(|ts|, i requires 0 <= i < |ts| => ts[i].id)
  }

  function PolicyCombIds(cs: seq<PolicyCombinator>): (r: seq<string>)
    ensures |r| == |cs| && forall i :: 0 <= i < |cs| ==> r[i] == cs[i].id
  {
    seq(|cs|, i requires 0 <= i < |cs| => cs[i].id)
  }

  function RuleCombIds(cs: seq<RuleCombinator>): (r: seq<string>)
    ensures |r| == |cs| && forall i :: 0 <= i < |cs| ==> r[i] == cs[i].id
  {
    seq(|cs|, i requires 0 <= i < |cs| => cs[i].id)
  }

  function CategoryIds(cs: seq<Category>): (r: seq<string>)
    ensures |r| == |cs| && forall i :: 0 <= i < |cs| ==> r[i] == cs[i].id
  {
    seq(|cs|, i requires 0 <= i < |cs| => cs[i].id)
  }

  function InfixOperators(os: seq<Infix>): (r: seq<string>)
    ensures |r| == |os| && forall i :: 0 <= i < |os| ==> r[i] == os[i].operator
  {
    seq(|os|, i requires 0 <= i < |os| => os[i].operator)
  }

  /** The standard types have pairwise distinct ids. */
  lemma StandardTypeIdsDistinct()
    ensures Distinct(TypeIds(StandardTypes()))
  {
  }

  /** The standard types all live in `_A2X`, and the four primitive types
      carry the four XML Schema URI constants. */
  lemma StandardTypesFacts()
    ensures forall t :: t in StandardTypes() ==> t.ns == [SYSTEM_NS]
    ensures StandardTypes()[..4] == [ TypeDef("string", STRING_URI, [SYSTEM_NS]),
                                      TypeDef("boolean", BOOLEAN_URI, [SYSTEM_NS]),
                                      TypeDef("integer", INTEGER_URI, [SYSTEM_NS]),
                                      TypeDef("double", DOUBLE_URI, [SYSTEM_NS]) ]
  {
  }

  /** The protected combining algorithms are exactly permitOverrides and
      onPermitApplySecond for policies and permitOverrides for rules, all
      under `_A2X.PROTECTED`. */
  lemma ProtectedCombinatorFacts()
    ensures PolicyCombIds(ProtectedPolicyCombinators()) == ["permitOverrides", "onPermitApplySecond"]
    ensures RuleCombIds(ProtectedRuleCombinators()) == ["permitOverrides"]
    ensures forall c :: c in ProtectedPolicyCombinators() ==> c.ns == [PROTECTED_NS]
    ensures forall c :: c in ProtectedRuleCombinators() ==> c.ns == [PROTECTED_NS]
  {
  }

  /** Nine distinct standard policy-combining algorithms and seven distinct
      rule-combining algorithms, all under `_A2X`. */
  lemma StandardCombinatorFacts()
    ensures |StandardPolicyCombinators()| == 9 && Distinct(PolicyCombIds(StandardPolicyCombinators()))
    ensures |StandardRuleCombinators()| == 7 && Distinct(RuleCombIds(StandardRuleCombinators()))
    ensures forall c :: c in StandardPolicyCombinators() ==> c.ns == [SYSTEM_NS]
    ensures forall c :: c in StandardRuleCombinators() ==> c.ns == [SYSTEM_NS]
  {
  }

  /** The names deconditioning writes for the container's and the guard's
      combining algorithms are the qualified names of the protected
      combinators, so a root-match lookup finds them. */
  lemma ProtectedNamesAreQualified()
    ensures DottedName(ProtectedPolicyCombinators()[1].ns, ProtectedPolicyCombinators()[1].id)
            == PROTECTED_NS + ".onPermitApplySecond"
    ensures DottedName(ProtectedRuleCombinators()[0].ns, ProtectedRuleCombinators()[0].id)
            == PROTECTED_NS + ".permitOverrides"
  {
  }

  /** The eight standard categories have distinct ids and live in
      `_A2X`. */
  lemma StandardCategoriesFacts()
    ensures |StandardCategories()| == 8 && Distinct(CategoryIds(StandardCategories()))
    ensures forall c :: c in StandardCategories() ==> c.ns == [SYSTEM_NS]
  {
  }

  /** The operators of the table are distinct and live in `_A2X`. */
  lemma StandardInfixDistinct()
    ensures Distinct(InfixOperators(StandardInfix()))
    ensures forall o :: o in StandardInfix() ==> o.ns == [SYSTEM_NS]
  {
  }

  /** No operator of the table is both commutative and has an inverse. */
  lemma StandardInfixCommXorInverse()
    ensures forall o :: o in StandardInfix() ==> !(o.commutative && o.inverse.Some?)
  {
  }

  /** An operator that allows bags only has boolean-valued signatures. */
  lemma StandardInfixBagsBoolean()
    ensures forall i, j ::
              0 <= i < |StandardInfix()| && StandardInfix()[i].allowBags && 0 <= j < |StandardInfix()[i].signatures|
              ==> StandardInfix()[i].signatures[j].output == "boolean"
  {
  }

  /** Both operands of every signature have the same type. */
  lemma StandardInfixOperandsAgree()
    ensures forall i, j :: 0 <= i < |StandardInfix()| && 0 <= j < |StandardInfix()[i].signatures| ==>
              StandardInfix()[i].signatures[j].firstArg == StandardInfix()[i].signatures[j].secondArg
  {
  }

  /** Only the four ordering comparisons (entries 1 to 4) declare an inverse. */
  lemma InverseOnlyAtComparisons()
    ensures |StandardInfix()| == 11
    ensures forall i :: 0 <= i < |StandardInfix()| && StandardInfix()[i].inverse.Some? ==> 1 <= i <= 4
  {
  }

  /** The operators and inverses of entries 1 to 4. */
  lemma ComparisonEntries()
    ensures |StandardInfix()| == 11
    ensures StandardInfix()[1].operator == "<" && StandardInfix()[1].inverse == Some(">")
    ensures StandardInfix()[2].operator == ">=" && StandardInfix()[2].inverse == Some("<=")
    ensures StandardInfix()[3].operator == "<=" && StandardInfix()[3].inverse == Some(">=")
    ensures StandardInfix()[4].operator == ">" && StandardInfix()[4].inverse == Some("<")
  {
  }

  /** Any table laid out like the standard one has symmetric inverses. */
  lemma {:induction false} InversesPairUp(t: seq<Infix>)
    requires |t| == 11
    requires forall i :: 0 <= i < |t| && t[i].inverse.Some? ==> 1 <= i <= 4
    requires t[1].operator == "<" && t[1].inverse == Some(">")
    requires t[2].operator == ">=" && t[2].inverse == Some("<=")
    requires t[3].operator == "<=" && t[3].inverse == Some(">=")
    requires t[4].operator == ">" && t[4].inverse == Some("<")
    ensures forall o :: o in t && o.inverse.Some? ==>
              exists p :: p in t && p.operator == o.inverse.value && p.inverse == Some(o.operator)
  {
    forall o | o in t && o.inverse.Some?
      ensures exists p :: p in t && p.operator == o.inverse.value && p.inverse == Some(o.operator)
    {
      var i :| 0 <= i < |t| && t[i] == o;
      if i == 1 { assert t[4] in t; }
      else if i == 2 { assert t[3] in t; }
      else if i == 3 { assert t[2] in t; }
      else { assert t[1] in t; }
    }
  }

  /** Inverses are symmetric: `<` with `>`, `<=` with `>=`. */
  lemma StandardInfixInverses()
    ensures forall o :: o in StandardInfix() && o.inverse.Some? ==>
              exists p :: p in StandardInfix() && p.operator == o.inverse.value && p.inverse == Some(o.operator)
  {
    InverseOnlyAtComparisons();
    ComparisonEntries();
    InversesPairUp(StandardInfix());
  }

  /** Which operators accept bag operands, and which can never be used
      attribute-first in a target. */
  lemma StandardInfixBagsAndReversal()
    ensures forall o :: o in StandardInfix() ==> (o.allowBags <==> o.operator in {"==", "<", ">=", "<=", ">"})
    ensures forall o :: o in StandardInfix() && o.operator in {"-", "/"} ==> !o.commutative && o.inverse.None?
  {
  }
}
