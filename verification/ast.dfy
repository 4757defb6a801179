/** The policy tree of an ALFA document: targets, prescriptions, rules,
    policies, policysets and references, and the names the compiler derives
    for them from their namespace and their name-slot path (qualified
    names, output file names and XACML identifiers). */
module Ast {
  import opened Wrappers
  import opened Strings
  import opened Decls
  import opened Naming
  import opened Conditions

  datatype Effect = Permit | Deny

  /** A policy or policyset is anonymous, named, or named with an explicit
      XACML identifier. */
  datatype PolicyId =
    | PolicyNoName
    | PolicyName(name: string)
    | PolicyNameAndId(name: string, uri: string)

  /** A match written as a function call: `fn(literal, attribute)`. */
  datatype MatchFunction = MatchFunction(functionId: seq<string>, literal: Constant, attribute: seq<string>,
                                         issuer: Option<string>, mustBePresent: bool)

  /** A match written with an infix operator; `reversed` records that the
      attribute came first. */
  datatype MatchOperation = MatchOperation(attribute: seq<string>, operator: Operator, literal: Constant,
                                           reversed: bool, issuer: Option<string>, mustBePresent: bool)

  datatype Match = MatchFunc(f: MatchFunction) | MatchOp(o: MatchOperation)

  /** Matches that must all hold (an XACML AllOf). */
  datatype ConjunctiveSeq = ConjunctiveSeq(matches: seq<Match>)

  /** Alternatives of which one must hold (an XACML AnyOf). */
  datatype DisjunctiveSeq = DisjunctiveSeq(statements: seq<ConjunctiveSeq>)

  /** Clauses that must all hold; names are resolved from `ns`. */
  datatype Target = Target(clauses: seq<DisjunctiveSeq>, ns: seq<string>)

  datatype PrescriptionType = Obligation | Advice

  datatype AssignmentSource = SourceAttribute(designator: AttributeDesignator) | SourceValue(value: Constant)

  datatype AttributeAssignment = AttributeAssignment(destinationId: string, source: AssignmentSource)

  datatype PrescriptionExpr = PrescriptionExpr(ptype: PrescriptionType, id: string, assignments: seq<AttributeAssignment>)

  /** An `on permit { ... }` / `on deny { ... }` block. */
  datatype Prescription = Prescription(effect: Effect, ns: seq<string>, expressions: seq<PrescriptionExpr>)

  /** A rule; `policyNs` is the path of the policies enclosing it. */
  datatype RuleDef = RuleDef(id: Option<string>, ns: seq<string>, policyNs: GenName, description: Option<string>,
                             effect: Effect, target: Option<Target>, condition: Option<Condition>,
                             prescriptions: seq<Prescription>)

  datatype RuleReference = RuleReference(ns: seq<string>, id: string)

  datatype RuleEntry = RuleRef(ref: RuleReference) | RuleDefEntry(def: RuleDef)

  /** A policy; `policyNs` ends with this policy's own name slot and `apply`
      names its rule-combining algorithm. */
  datatype Policy = Policy(id: PolicyId, ns: seq<string>, policyNs: GenName, description: Option<string>,
                           target: Option<Target>, condition: Option<Condition>, apply: string,
                           rules: seq<RuleEntry>, prescriptions: seq<Prescription>)

  datatype PolicyReference = PolicyReference(ns: seq<string>, id: string)

  /** A policyset; `apply` names its policy-combining algorithm. */
  datatype PolicySet = PolicySet(id: PolicyId, ns: seq<string>, policyNs: GenName, description: Option<string>,
                                 target: Option<Target>, condition: Option<Condition>, apply: string,
                                 policies: seq<PolicyEntry>, prescriptions: seq<Prescription>)

  datatype PolicyEntry = PRef(ref: PolicyReference) | PPolicy(policy: Policy) | PPolicySet(policySet: PolicySet)

  /** The namespace as the first components of a qualified name: an empty
      namespace still contributes one empty component before the ".". */
  function NsParts(ns: seq<string>): (r: seq<string>)
    ensures |r| >= 1 && Join(r, ".") == Join(ns, ".")
  {
    if |ns| == 0 then [""] else ns
  }

  /** The qualified name of a policy or policyset: namespace, ".", then its
      path of names joined by "."; anonymous entities and unresolvable paths
      have none. */
  function EntityFqn(a: Arena, id: PolicyId, ns: seq<string>, path: GenName): (r: Option<string>)
    ensures r.Some? <==> !id.PolicyNoName? && IsResolvable(a, path)
    ensures r.Some? && |path| > 0 ==> r.value == Join(NsParts(ns) + SlotNames(a, path), ".")
  {
    match id
    case PolicyNoName => None
    case _ =>
      match BuildPath(a, path, ".")
      case None => None
      case Some(pp) =>
        if |path| > 0 then
          JoinConcat(NsParts(ns), SlotNames(a, path), ".");
          Some(Join(ns, ".") + "." + pp)
        else Some(Join(ns, ".") + "." + pp)
  }

  function PolicyFqn(a: Arena, p: Policy): Option<string>
  {
    EntityFqn(a, p.id, p.ns, p.policyNs)
  }

  function PolicySetFqn(a: Arena, s: PolicySet): Option<string>
  {
    EntityFqn(a, s.id, s.ns, s.policyNs)
  }

  /** The suggested output file: namespace, ".", the entity's own (last)
      name, ".xml"; none while that name is not chosen. */
  function EntityFilename(a: Arena, ns: seq<string>, path: GenName): (r: Option<string>)
    ensures r.Some? <==> |path| > 0 && Slot(a, path[|path| - 1]).Some?
    ensures r.Some? ==> StripSuffix(r.value, ".xml") == Some(DottedName(ns, Slot(a, path[|path| - 1]).value))
  {
    match LastElem(path)
    case None => None
    case Some(k) =>
      match Slot(a, k)
      case None => None
      case Some(n) =>
        var f := Join(ns, ".") + "." + n + ".xml";
        assert StripSuffix(f, ".xml") == Some(Join(ns, ".") + "." + n) by {
          assert f[|f| - 4..] == ".xml";
          assert f[..|f| - 4] == Join(ns, ".") + "." + n;
        }
        Some(f)
  }

  /** The XACML identifier of a policy or policyset. With a resolvable path
      it is the explicit identifier if one was written, else the base
      prefix, the namespace and the path joined by "/". With an unresolvable
      path it is a `urn:uuid:` name from a fresh UUID, given here as
      `uuid`. */
  function EntityId(a: Arena, base: string, id: PolicyId, ns: seq<string>, path: GenName, uuid: string): (r: string)
    ensures IsResolvable(a, path) && id.PolicyNameAndId? ==> r == id.uri
    ensures IsResolvable(a, path) && !id.PolicyNameAndId? && |path| > 0 ==>
              StripPrefix(r, base) == Some(Join(NsParts(ns) + SlotNames(a, path), "/"))
    ensures !IsResolvable(a, path) ==> r == "urn:uuid:" + uuid
  {
    match BuildPath(a, path, "/")
    case Some(pp) =>
      if id.PolicyNameAndId? then id.uri
      else
        var r := base + Join(ns, "/") + "/" + pp;
        if |path| > 0 then
          JoinConcat(NsParts(ns), SlotNames(a, path), "/");
          assert Join(NsParts(ns), "/") == Join(ns, "/");
          assert r[..|base|] == base;
          assert r[|base|..] == Join(ns, "/") + "/" + pp;
          r
        else r
    case None => "urn:uuid:" + uuid
  }

  /** A rule's qualified name: the namespace and "." (only when the
      namespace is non-empty), the enclosing policies' path and "." (only
      when that path is non-empty and resolvable), then the rule's id. An
      anonymous rule has none. */
  function RuleFqn(a: Arena, r: RuleDef): (res: Option<string>)
    ensures res.Some? <==> r.id.Some?
    ensures res.Some? ==> EndsWith(res.value, r.id.value)
    ensures res.Some? && (|r.policyNs| == 0 || !IsResolvable(a, r.policyNs)) ==>
              res.value == OptionallyDottedName(r.ns, r.id.value)
  {
    match r.id
    case None => None
    case Some(i) =>
      var prefix := Join(r.ns, ".") + (if |r.ns| > 0 then "." else "");
      var path :=
        if |r.policyNs| > 0 then
          match BuildPath(a, r.policyNs, ".")
          case Some(pp) => pp + "."
          case None => ""
        else "";
      assert (prefix + path + i)[|prefix + path|..] == i;
      Some(prefix + path + i)
  }

  /** A rule reference's qualified name; it always exists. */
  function RuleRefFqn(r: RuleReference): (res: Option<string>)
    ensures res.Some? && EndsWith(res.value, r.id)
  {
    Some(OptionallyDottedName(r.ns, r.id))
  }

  /** A policy reference's qualified name: the joined namespace, a "." only
      when that joined text is non-empty, then the id. */
  function PolicyRefFqn(r: PolicyReference): (res: string)
    ensures Join(r.ns, ".") != "" ==> res == DottedName(r.ns, r.id)
    ensures Join(r.ns, ".") == "" ==> res == r.id
  {
    var q := Join(r.ns, ".");
    if |q| > 0 then q + "." + r.id else r.id
  }

  /** Rule equality looks only at id, namespace, effect and target. */
  predicate RuleDefEq(x: RuleDef, y: RuleDef)
  {
    x.id == y.id && x.ns == y.ns && x.effect == y.effect && x.target == y.target
  }

  /** Rule equality ignores the description, the condition, the
      prescriptions and even the enclosing path, so two rules it calls equal
      can have different qualified names. */
  lemma RuleDefEqIgnoresPath(a: Arena, k: SlotId)
    requires Slot(a, k) == Some("p")
    ensures var x := RuleDef(Some("r"), ["n"], [], None, Permit, None, None, []);
            var y := x.(policyNs := [k], description := Some("d"));
            RuleDefEq(x, y) && x != y && RuleFqn(a, x) != RuleFqn(a, y)
  {
    var x := RuleDef(Some("r"), ["n"], [], None, Permit, None, None, []);
    var y := x.(policyNs := [k], description := Some("d"));
    assert BuildPath(a, [k], ".") == Some("p") by {
      assert SlotNames(a, [k]) == ["p"];
    }
    assert RuleFqn(a, x).value == "n.r";
    assert RuleFqn(a, y).value == "n.p.r";
  }

  /** A top-level named policy is registered under `ns.name`: the name
      rule 1 of lookup tries first from the policy's own namespace. */
  lemma TopLevelFqn(a: Arena, id: PolicyId, ns: seq<string>, k: SlotId)
    requires !id.PolicyNoName? && Slot(a, k).Some?
    ensures EntityFqn(a, id, ns, [k]) == Some(DottedName(ns, Slot(a, k).value))
  {
    assert SlotNames(a, [k]) == [Slot(a, k).value];
  }

  /** With dot-free components the qualified name splits back into the
      namespace components followed by the path's names. */
  lemma EntityFqnSplits(a: Arena, id: PolicyId, ns: seq<string>, path: GenName)
    requires EntityFqn(a, id, ns, path).Some? && |path| > 0
    requires DotFree(NsParts(ns) + SlotNames(a, path))
    ensures Split(EntityFqn(a, id, ns, path).value, '.') == NsParts(ns) + SlotNames(a, path)
  {
    JoinSplit(NsParts(ns) + SlotNames(a, path), '.');
  }

  /** Without an explicit identifier, the part of the XACML identifier after
      the base prefix has the same components as the qualified name, with
      "/" in place of ".". */
  lemma EntityIdMirrorsFqn(a: Arena, base: string, id: PolicyId, ns: seq<string>, path: GenName, uuid: string)
    requires id.PolicyName? && IsResolvable(a, path) && |path| > 0
    requires var parts := NsParts(ns) + SlotNames(a, path);
             DotFree(parts) && forall i :: 0 <= i < |parts| ==> '/' !in parts[i]
    ensures Split(StripPrefix(EntityId(a, base, id, ns, path, uuid), base).value, '/')
            == Split(EntityFqn(a, id, ns, path).value, '.')
  {
    var parts := NsParts(ns) + SlotNames(a, path);
    JoinSplit(parts, '/');
    JoinSplit(parts, '.');
  }

  /** The file name depends only on the entity's own slot, not on the
      enclosing policies. */
  lemma FilenameIgnoresAncestors(a: Arena, ns: seq<string>, p: GenName, q: GenName, k: SlotId)
    ensures EntityFilename(a, ns, p + [k]) == EntityFilename(a, ns, q + [k])
  {
  }

  /** A named rule under a resolvable, non-empty policy path carries that
      path between its namespace and its id. */
  lemma RuleFqnWithPath(a: Arena, r: RuleDef)
    requires r.id.Some? && |r.policyNs| > 0 && IsResolvable(a, r.policyNs)
    ensures RuleFqn(a, r) == Some(Join(r.ns, ".") + (if |r.ns| > 0 then "." else "")
                                  + (BuildPath(a, r.policyNs, ".").value + ".") + r.id.value)
  {
  }

  /** The qualified name of a named rule inside a named policy extends the
      policy's qualified name by "." and the rule id. */
  lemma RuleFqnExtendsPolicyFqn(a: Arena, pid: PolicyId, r: RuleDef)
    requires !pid.PolicyNoName? && r.id.Some? && |r.ns| > 0
    requires |r.policyNs| > 0 && IsResolvable(a, r.policyNs)
    ensures RuleFqn(a, r) == Some(EntityFqn(a, pid, r.ns, r.policyNs).value + "." + r.id.value)
  {
    RuleFqnWithPath(a, r);
    var pp := BuildPath(a, r.policyNs, ".").value;
    var q := Join(r.ns, ".");
    assert EntityFqn(a, pid, r.ns, r.policyNs).value == q + "." + pp;
    assert q + "." + (pp + ".") + r.id.value == (q + "." + pp) + "." + r.id.value;
  }

  /** In the empty namespace the rule's qualified name has no leading ".",
      so it extends the policy's qualified name without its first
      character. */
  lemma RuleFqnInEmptyNamespace(a: Arena, pid: PolicyId, r: RuleDef)
    requires !pid.PolicyNoName? && r.id.Some? && |r.ns| == 0
    requires |r.policyNs| > 0 && IsResolvable(a, r.policyNs)
    ensures RuleFqn(a, r) == Some(EntityFqn(a, pid, r.ns, r.policyNs).value[1..] + "." + r.id.value)
  {
    RuleFqnWithPath(a, r);
    var pp := BuildPath(a, r.policyNs, ".").value;
    assert Join(r.ns, ".") == "";
    assert EntityFqn(a, pid, r.ns, r.policyNs).value == "" + "." + pp;
    assert ("" + "." + pp)[1..] == pp;
    assert "" + "" + (pp + ".") + r.id.value == pp + "." + r.id.value;
  }

  /** A reference written as the qualified name of a rule declared outside
      any policy names exactly that rule. */
  lemma RuleRefNamesTopLevelRule(a: Arena, r: RuleDef)
    requires r.id.Some? && |r.policyNs| == 0
    ensures RuleRefFqn(RuleReference(r.ns, r.id.value)) == RuleFqn(a, r)
  {
  }

  /** A policy reference and a top-level policy agree on the qualified name
      unless the namespace joins to the empty text. */
  lemma PolicyRefNamesTopLevelPolicy(a: Arena, id: PolicyId, ns: seq<string>, n: string, k: SlotId)
    requires !id.PolicyNoName? && Slot(a, k) == Some(n)
    requires Join(ns, ".") != ""
    ensures EntityFqn(a, id, ns, [k]) == Some(PolicyRefFqn(PolicyReference(ns, n)))
  {
    TopLevelFqn(a, id, ns, k);
  }

  /** For the one-component namespace [""] the reference drops the "."
      that the policy's qualified name keeps, so the two disagree. */
  lemma PolicyRefEmptyComponent(a: Arena, id: PolicyId, n: string, k: SlotId)
    requires !id.PolicyNoName? && Slot(a, k) == Some(n)
    ensures EntityFqn(a, id, [""], [k]) == Some("." + n)
    ensures PolicyRefFqn(PolicyReference([""], n)) == n
  {
    assert Join([""], ".") == "";
    assert SlotNames(a, [k]) == [n];
    assert BuildPath(a, [k], ".") == Some(n);
    assert "" + "." + n == "." + n;
  }
}
