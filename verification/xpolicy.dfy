/** Conversion of rules, policies and policysets into their XACML forms.
    A policy with a condition has no XACML counterpart and is first
    rewritten into a policyset (`Decondition`); a policyset with a
    condition likewise. Anonymous entities are named just before their
    identifier and file name are read. References among the children of a
    policyset are emitted as identifier references only, so converting a
    set never follows a reference. The context is threaded through: naming
    fills slots and draws from the counters, and the rewrite allocates
    slots. */
module XPolicies {
  import opened Wrappers
  import opened Errors
  import opened Strings
  import opened Naming
  import opened Decls
  import opened Ast
  import opened CompilerContext
  import opened Identity
  import opened Decondition
  import opened XConditions
  import opened XTargets
  import opened XPrescriptions

  datatype XRule = XRule(id: string, description: Option<string>, effect: string, target: XTarget,
                         condition: Option<XCondition>, prescriptions: seq<XPrescriptionExpr>)

  datatype XPolicy = XPolicy(id: string, filename: Option<string>, combiningAlg: string,
                             description: Option<string>, target: XTarget,
                             prescriptions: seq<XPrescriptionExpr>, rules: seq<XRule>)

  datatype XPolicySet = XPolicySet(id: string, filename: Option<string>, combiningAlg: string,
                                   description: Option<string>, target: XTarget,
                                   prescriptions: seq<XPrescriptionExpr>, children: seq<XPolicyEntry>)

  /** A child of a XACML policyset, in declaration order. */
  datatype XPolicyEntry =
    | PolicyIdRef(refId: string)
    | PolicySetIdRef(refId: string)
    | EntrySet(policySet: XPolicySet)
    | EntryPolicy(policy: XPolicy)

  /** `Display` of an effect. */
  function EffectDisplay(e: Effect): (r: string)
    ensures r == "Permit" <==> e == Permit
    ensures r == "Deny" <==> e == Deny
  {
    match e
    case Permit => "Permit"
    case Deny => "Deny"
  }

  /** `XPolicy::rule_count`. */
  function RuleCount(x: XPolicy): nat
  {
    |x.rules|
  }

  // ----------------------------------------------------------------------
  // What conversion may change in the context

  /** `b` is `a` with, at most, other counters and other slot contents:
      every declaration table, the imports and the configuration are the
      same, so every lookup gives the same answer in both. */
  predicate SameTables(a: Context, b: Context)
  {
    a.(policysetIds := b.policysetIds, policyIds := b.policyIds, ruleIds := b.ruleIds, arena := b.arena) == b
  }

  lemma SameTablesLookups(a: Context, b: Context)
    requires SameTables(a, b)
    ensures forall s, n :: LookupRule(a, s, n) == LookupRule(b, s, n)
    ensures forall s, n :: LookupPolicy(a, s, n) == LookupPolicy(b, s, n)
    ensures forall s, n :: LookupPolicySet(a, s, n) == LookupPolicySet(b, s, n)
    ensures forall s, n :: LookupRuleCombinator(a, s, n) == LookupRuleCombinator(b, s, n)
    ensures forall s, n :: LookupPolicyCombinator(a, s, n) == LookupPolicyCombinator(b, s, n)
  {
    assert a.imports == b.imports;
    assert forall n :: GetImports(a, n) == GetImports(b, n);
  }

  /** Every slot that was filled keeps its name. */
  ghost predicate KeepsNames(a: Arena, b: Arena)
  {
    forall k :: Slot(a, k).Some? ==> Slot(b, k) == Slot(a, k)
  }

  /** What a conversion step may do to the arena: fill empty slots and
      allocate new ones, never rename a slot or reuse one. */
  ghost predicate Grows(a: Arena, b: Arena)
  {
    ValidArena(a) ==> ValidArena(b) && KeepsNames(a, b)
  }

  /** Naming fills the entity's own slot if it was empty and touches no
      other slot. */
  lemma FinalizeGrows(ctx: Context, kind: IdKind, ns: seq<string>, path: GenName)
    requires FinalizeId(ctx, kind, ns, path).Ok?
    ensures Grows(ctx.arena, FinalizeId(ctx, kind, ns, path).value.arena)
    ensures SameTables(ctx, FinalizeId(ctx, kind, ns, path).value)
  {
  }

  // ----------------------------------------------------------------------
  // Pieces shared by rules, policies and policysets

  /** An absent target converts to the empty XACML target. */
  function OptTargetToX(ctx: Context, t: Option<Target>): (r: Res<XTarget>)
    ensures t.None? ==> r == Ok(XTarget([]))
    ensures t.Some? ==> r == TargetToX(ctx, t.value)
  {
    match t
    case None => Ok(XTarget([]))
    case Some(tt) => TargetToX(ctx, tt)
  }

  /** The number of obligation and advice expressions in some blocks. */
  function ExprCount(ps: seq<Prescription>): nat
  {
    if |ps| == 0 then 0 else |ps[0].expressions| + ExprCount(ps[1..])
  }

  /** All blocks converted, their expressions concatenated in order. */
  function PrescriptionsToX(ctx: Context, ps: seq<Prescription>): (r: Res<seq<XPrescriptionExpr>>)
    ensures r.Ok? ==> |r.value| == ExprCount(ps)
    ensures r.Err? ==> exists i :: 0 <= i < |ps| && PrescriptionToX(ctx, ps[i]) == Err(r.error)
  {
    if |ps| == 0 then Ok([])
    else
      var first :- PrescriptionToX(ctx, ps[0]);
      var rest :- PrescriptionsToX(ctx, ps[1..]);
      Ok(first + rest)
  }

  // ----------------------------------------------------------------------
  // Rules

  /** `TryFrom<&RuleDef> for XRule`: target, condition and prescriptions
      converted, then the identifier chosen (which draws from the rule
      counter for an anonymous rule). */
  function RuleToX(ctx: Context, r: RuleDef): (res: Res<(XRule, Context)>)
    ensures res.Ok? ==>
              var x := res.value.0;
              && x.effect == EffectDisplay(r.effect) && x.description == r.description
              && OptTargetToX(ctx, r.target) == Ok(x.target)
              && (x.condition.Some? <==> r.condition.Some?)
              && (r.condition.Some? ==> ConditionToX(ctx, r.condition.value) == Ok(x.condition.value))
              && RuleId(ctx, r) == Ok((x.id, res.value.1))
    ensures res.Ok? ==> SameTables(ctx, res.value.1) && res.value.1.arena == ctx.arena
    ensures OptTargetToX(ctx, r.target).Ok? && r.condition.Some? && ConditionToX(ctx, r.condition.value).Err? ==>
              res == Err(ConditionToX(ctx, r.condition.value).error)
  {
    var target :- OptTargetToX(ctx, r.target);
    var condition :-
      match r.condition
      case None => Ok(None)
      case Some(c) =>
        var xc :- ConditionToX(ctx, c);
        Ok(Some(xc));
    var prescriptions :- PrescriptionsToX(ctx, r.prescriptions);
    var named :- RuleId(ctx, r);
    Ok((XRule(named.0, r.description, EffectDisplay(r.effect), target, condition, prescriptions), named.1))
  }

  /** `id` carries the suffix that makes a referenced rule's identifier
      unique within its policy. */
  ghost predicate HasRuleSuffix(id: string)
  {
    exists n: nat :: EndsWith(id, "#rule_" + NatToString(n))
  }

  /** A converted rule agrees with its entry: a definition gives its own
      effect and description; a reference resolves, from the policy's
      namespace, to a rule whose effect and description it gives, and its
      identifier carries a `#rule_<n>` suffix. */
  ghost predicate RuleMatches(ctx: Context, e: RuleEntry, policyNs: seq<string>, x: XRule)
  {
    match e
    case RuleDefEntry(d) => x.effect == EffectDisplay(d.effect) && x.description == d.description
    case RuleRef(rr) =>
      var found := LookupRule(ctx, RuleRefFqn(rr).value, policyNs);
      && found.Ok?
      && x.effect == EffectDisplay(found.value.effect)
      && x.description == found.value.description
      && HasRuleSuffix(x.id)
  }

  lemma RuleMatchesTables(a: Context, b: Context, es: seq<RuleEntry>, policyNs: seq<string>, xs: seq<XRule>)
    requires SameTables(a, b) && |xs| == |es|
    requires forall i :: 0 <= i < |es| ==> RuleMatches(b, es[i], policyNs, xs[i])
    ensures forall i :: 0 <= i < |es| ==> RuleMatches(a, es[i], policyNs, xs[i])
  {
    SameTablesLookups(a, b);
  }

  /** A rule converted under `ctx` followed by rules converted under a
      context with the same tables all match under `ctx`. */
  lemma RuleMatchesCons(ctx: Context, ctx1: Context, es: seq<RuleEntry>, policyNs: seq<string>,
                        x: XRule, xs: seq<XRule>)
    requires |es| > 0 && SameTables(ctx, ctx1) && |xs| == |es| - 1
    requires RuleMatches(ctx, es[0], policyNs, x)
    requires forall i :: 0 <= i < |es| - 1 ==> RuleMatches(ctx1, es[1..][i], policyNs, xs[i])
    ensures forall i :: 0 <= i < |es| ==> RuleMatches(ctx, es[i], policyNs, ([x] + xs)[i])
  {
    RuleMatchesTables(ctx, ctx1, es[1..], policyNs, xs);
    forall i | 0 <= i < |es| ensures RuleMatches(ctx, es[i], policyNs, ([x] + xs)[i]) {
      if i > 0 {
        assert es[i] == es[1..][i - 1] && ([x] + xs)[i] == xs[i - 1];
      }
    }
  }

  /** One rule entry of a policy. A reference is resolved from the
      policy's namespace; the rule it names is converted and its
      identifier made unique with `#rule_<n>`, `n` drawn from the rule
      counter of that rule's namespace. */
  function RuleEntryToX(ctx: Context, e: RuleEntry, policyNs: seq<string>): (res: Res<(XRule, Context)>)
    ensures res.Ok? ==> SameTables(ctx, res.value.1) && res.value.1.arena == ctx.arena
    ensures res.Ok? ==> RuleMatches(ctx, e, policyNs, res.value.0)
    ensures e.RuleRef? && LookupRule(ctx, RuleRefFqn(e.ref).value, policyNs).Err? ==>
              res == Err(LookupRule(ctx, RuleRefFqn(e.ref).value, policyNs).error)
  {
    match e
    case RuleDefEntry(d) => RuleToX(ctx, d)
    case RuleRef(rr) =>
      // `RuleRefFqn` is always present, so the compiler's fallback to
      // AstConvertError is never taken.
      var resolved :- LookupRule(ctx, RuleRefFqn(rr).value, policyNs);
      var converted :- RuleToX(ctx, resolved);
      var (n, ctx2) := NextRuleId(converted.1, Join(resolved.ns, "."));
      var suffix := "#rule_" + NatToString(n);
      var id := converted.0.id + suffix;
      assert id[|id| - |suffix|..] == suffix;
      assert HasRuleSuffix(id);
      Ok((converted.0.(id := id), ctx2))
  }

  /** The rules of a policy, converted in declaration order. */
  function RulesToX(ctx: Context, es: seq<RuleEntry>, policyNs: seq<string>): (res: Res<(seq<XRule>, Context)>)
    ensures res.Ok? ==> |res.value.0| == |es|
    ensures res.Ok? ==> SameTables(ctx, res.value.1) && res.value.1.arena == ctx.arena
    ensures res.Ok? ==> forall i :: 0 <= i < |es| ==> RuleMatches(ctx, es[i], policyNs, res.value.0[i])
    decreases |es|
  {
    if |es| == 0 then Ok(([], ctx))
    else
      var first :- RuleEntryToX(ctx, es[0], policyNs);
      var rest :- RulesToX(first.1, es[1..], policyNs);
      RuleMatchesCons(ctx, first.1, es, policyNs, first.0, rest.0);
      Ok(([first.0] + rest.0, rest.1))
  }

  // ----------------------------------------------------------------------
  // Policies

  /** The identifier and file name of a policy or policyset, read from the
      arena after naming. */
  function EntityIdIn(ctx: Context, id: PolicyId, ns: seq<string>, path: GenName, uuid: string): string
  {
    EntityId(ctx.arena, BaseNamespace(ctx.config), id, ns, path, uuid)
  }

  /** `TryFrom<&Policy> for XPolicy`. A policy with a condition is refused
      (with the variant `PolicyNoCondition`, although it does have one).
      Otherwise the policy is named if anonymous, then its combining
      algorithm, target, rules and prescriptions are converted, and its
      identifier and file name read. */
  function PolicyToX(ctx: Context, p: Policy, uuid: string): (res: Res<(XPolicy, Context)>)
    ensures p.condition.Some? ==> res == Err(PolicyNoCondition)
    ensures p.condition.None? && |p.policyNs| == 0 ==> res == Err(EmptyPathPanic(PolicyKind))
    ensures res.Ok? ==>
              var x := res.value.0;
              var c := res.value.1;
              && |p.policyNs| > 0 && SameTables(ctx, c) && KeepsNames(ctx.arena, c.arena)
              && Slot(c.arena, p.policyNs[|p.policyNs| - 1]).Some?
              && x.filename.Some?
              && x.filename == EntityFilename(c.arena, p.ns, p.policyNs)
              && x.id == EntityIdIn(c, p.id, p.ns, p.policyNs, uuid)
              && x.description == p.description
              && LookupRuleCombinator(ctx, p.apply, p.ns).Ok?
              && x.combiningAlg == LookupRuleCombinator(ctx, p.apply, p.ns).value.uri
              && RuleCount(x) == |p.rules|
    ensures res.Ok? ==> res.value.1.arena == FinalizePolicyId(ctx, p).value.arena
    ensures res.Ok? ==> Grows(ctx.arena, res.value.1.arena)
  {
    if p.condition.Some? then Err(PolicyNoCondition)
    else
      var ctx1 :- FinalizePolicyId(ctx, p);
      FinalizeGrows(ctx, PolicyKind, p.ns, p.policyNs);
      SameTablesLookups(ctx, ctx1);
      var alg :- LookupRuleCombinator(ctx1, p.apply, p.ns);
      var target :- OptTargetToX(ctx1, p.target);
      var converted :- RulesToX(ctx1, p.rules, p.ns);
      var ctx2 := converted.1;
      var prescriptions :- PrescriptionsToX(ctx2, p.prescriptions);
      var x := XPolicy(EntityIdIn(ctx2, p.id, p.ns, p.policyNs, uuid), EntityFilename(ctx2.arena, p.ns, p.policyNs),
                       alg.uri, p.description, target, prescriptions, converted.0);
      Ok((x, ctx2))
  }

  /** The first anonymous policy of namespace `main` converts with file
      name `main.policy_0.xml` and identifier `<base>main/policy_0`. */
  lemma MinimalPolicyConverts(ctx: Context, p: Policy, k: SlotId, uuid: string)
    requires p.id == PolicyNoName && p.ns == ["main"] && p.policyNs == [k]
    requires Slot(ctx.arena, k).None?
    requires "main" !in ctx.policyIds && ctx.policies.elements == map[]
    requires PolicyToX(ctx, p, uuid).Ok?
    ensures PolicyToX(ctx, p, uuid).value.0.filename == Some("main.policy_0.xml")
    ensures PolicyToX(ctx, p, uuid).value.0.id == BaseNamespace(ctx.config) + "main/policy_0"
  {
    MinimalPolicyNames(ctx, p, k, uuid);
    var ctx1 := FinalizePolicyId(ctx, p).value;
    var r := PolicyToX(ctx, p, uuid).value;
    assert r.1.arena == ctx1.arena && r.1.config == ctx.config == ctx1.config;
    assert r.0.filename == EntityFilename(ctx1.arena, p.ns, p.policyNs);
    assert r.0.id == EntityId(ctx1.arena, BaseNamespace(ctx1.config), p.id, p.ns, p.policyNs, uuid);
  }

  // ----------------------------------------------------------------------
  // The size that conversion decreases

  /** A weight that every step of conversion decreases: a rewrite trades an
      entity with a condition (weight 4 beyond its children) for a
      container, a `cond` policy and an `orig` entity without conditions
      (weight 3 beyond the same children). */
  function PolicyWeight(p: Policy): nat
  {
    if p.condition.Some? then 4 else 1
  }

  function SetWeight(s: PolicySet): (r: nat)
    ensures r >= 1
    decreases s, 1
  {
    (if s.condition.Some? then 4 else 1) + EntriesWeight(s.policies)
  }

  function EntriesWeight(es: seq<PolicyEntry>): nat
    decreases es, 1
  {
    if |es| == 0 then 0 else EntryWeight(es[0]) + EntriesWeight(es[1..])
  }

  function EntryWeight(e: PolicyEntry): (r: nat)
    ensures r >= 1
    decreases e, 0
  {
    match e
    case PRef(_) => 1
    case PPolicy(p) => PolicyWeight(p)
    case PPolicySet(c) => SetWeight(c)
  }

  /** Inserting a name slot changes paths only, so no weight changes. */
  lemma InsertSetNsWeight(s: PolicySet, k: SlotId, idx: nat)
    requires InsertSetNs(s, k, idx).Ok?
    ensures SetWeight(InsertSetNs(s, k, idx).value) == SetWeight(s)
    decreases s, 1
  {
    InsertEntriesNsWeight(s.policies, k, idx, NESTED_REF);
  }

  lemma InsertEntriesNsWeight(es: seq<PolicyEntry>, k: SlotId, idx: nat, onRef: ParseError)
    requires InsertEntriesNs(es, k, idx, onRef).Ok?
    ensures EntriesWeight(InsertEntriesNs(es, k, idx, onRef).value) == EntriesWeight(es)
    decreases es, 1
  {
    if |es| > 0 {
      InsertEntryNsWeight(es[0], k, idx, onRef);
      InsertEntriesNsWeight(es[1..], k, idx, onRef);
      var r := InsertEntriesNs(es, k, idx, onRef).value;
      assert r[0] == InsertEntryNs(es[0], k, idx, onRef).value;
      assert r[1..] == InsertEntriesNs(es[1..], k, idx, onRef).value;
    }
  }

  lemma InsertEntryNsWeight(e: PolicyEntry, k: SlotId, idx: nat, onRef: ParseError)
    requires InsertEntryNs(e, k, idx, onRef).Ok?
    ensures EntryWeight(InsertEntryNs(e, k, idx, onRef).value) == EntryWeight(e)
    decreases e, 0
  {
    match e
    case PRef(_) =>
    case PPolicy(p) =>
    case PPolicySet(c) => InsertSetNsWeight(c, k, idx);
  }

  /** The rewritten policyset weighs less than the original. */
  lemma DeconditionSetLighter(a: Arena, s: PolicySet)
    requires DeconditionPolicySet(a, s).Ok?
    ensures SetWeight(DeconditionPolicySet(a, s).value.container) < SetWeight(s)
  {
    var (a1, condSlot) := Alloc(a, Some("cond"));
    var (a2, origSlot) := Alloc(a1, Some("orig"));
    var (a3, shared) := Alloc(a2, Some("orig"));
    var idx := PolicyLevel(PushName(s.policyNs, origSlot)) - 1;
    InsertEntriesNsWeight(s.policies, shared, idx, TOP_REF);
    var c := DeconditionPolicySet(a, s).value.container;
    var orig := c.policies[1].policySet;
    assert orig.policies == InsertEntriesNs(s.policies, shared, idx, TOP_REF).value;
    assert SetWeight(orig) == 1 + EntriesWeight(s.policies);
    assert c.policies[1..][1..] == [];
    assert EntriesWeight(c.policies[1..]) == SetWeight(orig) + EntriesWeight(c.policies[1..][1..]);
    assert EntriesWeight(c.policies) == 1 + EntriesWeight(c.policies[1..]);
  }

  /** The rewritten policy weighs less than the original. */
  lemma DeconditionPolicyLighter(a: Arena, p: Policy)
    requires DeconditionPolicy(a, p).Ok?
    ensures SetWeight(DeconditionPolicy(a, p).value.container) < PolicyWeight(p)
  {
    var c := DeconditionPolicy(a, p).value.container;
    assert c.policies[1..][1..] == [];
    assert EntriesWeight(c.policies[1..]) == 1 + EntriesWeight(c.policies[1..][1..]);
    assert EntriesWeight(c.policies) == 1 + EntriesWeight(c.policies[1..]);
  }

  // ----------------------------------------------------------------------
  // Policysets

  /** A reference among a policyset's children, resolved from the set's
      namespace: first as a policyset, then as a policy. A policy with a
      condition becomes a policyset, so it is referred to as one. Only the
      identifier is emitted. */
  function RefToX(ctx: Context, pr: PolicyReference, ns: seq<string>, uuid: string): (r: Res<XPolicyEntry>)
    ensures LookupPolicySet(ctx, PolicyRefFqn(pr), ns).Ok? ==>
              var s := LookupPolicySet(ctx, PolicyRefFqn(pr), ns).value;
              r == Ok(PolicySetIdRef(EntityIdIn(ctx, s.id, s.ns, s.policyNs, uuid)))
    ensures LookupPolicySet(ctx, PolicyRefFqn(pr), ns).Err? && LookupPolicy(ctx, PolicyRefFqn(pr), ns).Ok? ==>
              var p := LookupPolicy(ctx, PolicyRefFqn(pr), ns).value;
              && r.Ok?
              && (r.value.PolicySetIdRef? <==> p.condition.Some?)
              && (r.value.PolicyIdRef? <==> p.condition.None?)
              && (r.value.PolicyIdRef? || r.value.PolicySetIdRef?)
              && r.value.refId == EntityIdIn(ctx, p.id, p.ns, p.policyNs, uuid)
    ensures r.Err? <==> LookupPolicySet(ctx, PolicyRefFqn(pr), ns).Err? && LookupPolicy(ctx, PolicyRefFqn(pr), ns).Err?
    ensures r.Err? ==> r.error == UnexpectedRuleError("Could not find policy/policyset for policy reference")
  {
    var fqn := PolicyRefFqn(pr);
    match LookupPolicySet(ctx, fqn, ns)
    case Ok(s) => Ok(PolicySetIdRef(EntityIdIn(ctx, s.id, s.ns, s.policyNs, uuid)))
    case Err(_) =>
      match LookupPolicy(ctx, fqn, ns)
      case Ok(p) =>
        var id := EntityIdIn(ctx, p.id, p.ns, p.policyNs, uuid);
        if p.condition.None? then Ok(PolicyIdRef(id)) else Ok(PolicySetIdRef(id))
      case Err(_) => Err(UnexpectedRuleError("Could not find policy/policyset for policy reference"))
  }

  /** `TryFrom<&PolicySet> for XPolicySet`. A set with a condition is
      rewritten and the rewritten set converted instead. Otherwise the set
      is named if anonymous, its combining algorithm and target converted,
      its children converted one by one in order, then its prescriptions,
      and its identifier and file name read. */
  function SetToX(ctx: Context, s: PolicySet, uuid: string): (res: Res<(XPolicySet, Context)>)
    ensures res.Ok? ==> Grows(ctx.arena, res.value.1.arena)
    ensures res.Ok? ==> SameTables(ctx, res.value.1)
    ensures s.condition.Some? && DeconditionPolicySet(ctx.arena, s).Err? ==>
              res == Err(DeconditionPolicySet(ctx.arena, s).error)
    ensures s.condition.Some? && res.Ok? ==>
              var x := res.value.0;
              && |x.children| == 2 && x.children[0].EntryPolicy? && x.children[1].EntrySet?
              && x.description == s.description
              && LookupPolicyCombinator(ctx, ON_PERMIT_APPLY_SECOND_NAME, s.ns).Ok?
              && x.combiningAlg == LookupPolicyCombinator(ctx, ON_PERMIT_APPLY_SECOND_NAME, s.ns).value.uri
    ensures s.condition.None? && |s.policyNs| == 0 ==> res == Err(EmptyPathPanic(PolicySetKind))
    ensures s.condition.None? && res.Ok? ==>
              var x := res.value.0;
              var c := res.value.1;
              && |s.policyNs| > 0
              && (ValidArena(ctx.arena) ==> x.filename.Some?)
              && x.filename == EntityFilename(c.arena, s.ns, s.policyNs)
              && x.id == EntityIdIn(c, s.id, s.ns, s.policyNs, uuid)
              && x.description == s.description
              && LookupPolicyCombinator(ctx, s.apply, s.ns).Ok?
              && x.combiningAlg == LookupPolicyCombinator(ctx, s.apply, s.ns).value.uri
              && ChildrenMatch(ctx, s.policies, s.ns, x.children)
    decreases SetWeight(s), 0
  {
    if s.condition.Some? then
      var rw :- DeconditionPolicySet(ctx.arena, s);
      DeconditionSetLighter(ctx.arena, s);
      var ctx1 := ctx.(arena := rw.arena);
      SameTablesLookups(ctx, ctx1);
      SetToX(ctx1, rw.container, uuid)
    else
      var ctx1 :- FinalizePolicySetId(ctx, s);
      FinalizeGrows(ctx, PolicySetKind, s.ns, s.policyNs);
      SameTablesLookups(ctx, ctx1);
      var alg :- LookupPolicyCombinator(ctx1, s.apply, s.ns);
      var target :- OptTargetToX(ctx1, s.target);
      var kids :- EntriesToX(ctx1, s.policies, s.ns, uuid);
      SameTablesLookups(ctx, kids.1);
      var ctx2 := kids.1;
      var prescriptions :- PrescriptionsToX(ctx2, s.prescriptions);
      Ok((XPolicySet(EntityIdIn(ctx2, s.id, s.ns, s.policyNs, uuid), EntityFilename(ctx2.arena, s.ns, s.policyNs),
                     alg.uri, s.description, target, prescriptions, kids.0), ctx2))
  }

  /** Each converted child has the form its entry calls for: a reference
      stays a reference (to a policyset exactly when the reference names a
      policyset or a policy with a condition), an inline policyset becomes
      a policyset, and an inline policy a policy or, when it has a
      condition, a policyset. */
  predicate ChildrenMatch(ctx: Context, es: seq<PolicyEntry>, ns: seq<string>, xs: seq<XPolicyEntry>)
  {
    && |xs| == |es|
    && forall i :: 0 <= i < |es| ==>
         match es[i]
         case PRef(pr) =>
           && (xs[i].PolicyIdRef? || xs[i].PolicySetIdRef?)
           && (xs[i].PolicySetIdRef? <==>
                 LookupPolicySet(ctx, PolicyRefFqn(pr), ns).Ok?
                 || (LookupPolicy(ctx, PolicyRefFqn(pr), ns).Ok?
                     && LookupPolicy(ctx, PolicyRefFqn(pr), ns).value.condition.Some?))
         case PPolicySet(_) => xs[i].EntrySet?
         case PPolicy(p) => (xs[i].EntryPolicy? <==> p.condition.None?) && (xs[i].EntrySet? <==> p.condition.Some?)
  }

  /** Matching children, the first converted under `ctx` and the rest
      under a context with the same tables, match together. */
  lemma ChildrenMatchCons(ctx: Context, ctx1: Context, e: PolicyEntry, es: seq<PolicyEntry>, ns: seq<string>,
                          x: XPolicyEntry, xs: seq<XPolicyEntry>)
    requires SameTables(ctx, ctx1)
    requires ChildrenMatch(ctx, [e], ns, [x]) && ChildrenMatch(ctx1, es, ns, xs)
    ensures ChildrenMatch(ctx, [e] + es, ns, [x] + xs)
  {
    SameTablesLookups(ctx, ctx1);
    var all, xall := [e] + es, [x] + xs;
    forall i | 1 <= i < |all| ensures all[i] == es[i - 1] && xall[i] == xs[i - 1] {
    }
  }

  /** The children of a policyset, converted in declaration order. */
  function EntriesToX(ctx: Context, es: seq<PolicyEntry>, ns: seq<string>, uuid: string): (res: Res<(seq<XPolicyEntry>, Context)>)
    ensures res.Ok? ==> Grows(ctx.arena, res.value.1.arena)
    ensures res.Ok? ==> SameTables(ctx, res.value.1) && ChildrenMatch(ctx, es, ns, res.value.0)
    decreases EntriesWeight(es), 4
  {
    if |es| == 0 then Ok(([], ctx))
    else
      var first :- EntryToX(ctx, es[0], ns, uuid);
      var rest :- EntriesToX(first.1, es[1..], ns, uuid);
      ChildrenMatchCons(ctx, first.1, es[0], es[1..], ns, first.0, rest.0);
      assert [es[0]] + es[1..] == es;
      Ok(([first.0] + rest.0, rest.1))
  }

  function EntryToX(ctx: Context, e: PolicyEntry, ns: seq<string>, uuid: string): (res: Res<(XPolicyEntry, Context)>)
    ensures res.Ok? ==> Grows(ctx.arena, res.value.1.arena)
    ensures res.Ok? ==> SameTables(ctx, res.value.1) && ChildrenMatch(ctx, [e], ns, [res.value.0])
    decreases EntryWeight(e), 3
  {
    match e
    case PRef(pr) =>
      var x :- RefToX(ctx, pr, ns, uuid);
      Ok((x, ctx))
    case PPolicySet(c) =>
      var converted :- SetToX(ctx, c, uuid);
      Ok((EntrySet(converted.0), converted.1))
    case PPolicy(p) => PolicyEntryToX(ctx, p, uuid)
  }

  /** `TryFrom<&Policy> for XPolicyEntry`: a policy without a condition
      becomes a XACML policy, one with a condition a XACML policyset; the
      chosen conversion's error is passed on unchanged, and the result is
      never a reference. */
  function PolicyEntryToX(ctx: Context, p: Policy, uuid: string): (res: Res<(XPolicyEntry, Context)>)
    ensures res.Ok? ==> Grows(ctx.arena, res.value.1.arena)
    ensures res.Ok? ==> SameTables(ctx, res.value.1)
    ensures res.Ok? ==> !res.value.0.PolicyIdRef? && !res.value.0.PolicySetIdRef?
    ensures res.Ok? ==> (res.value.0.EntryPolicy? <==> p.condition.None?)
    ensures p.condition.None? ==>
              (res.Ok? <==> PolicyToX(ctx, p, uuid).Ok?)
              && (res.Ok? ==> res.value == (EntryPolicy(PolicyToX(ctx, p, uuid).value.0), PolicyToX(ctx, p, uuid).value.1))
              && (res.Err? ==> res.error == PolicyToX(ctx, p, uuid).error)
    ensures p.condition.Some? ==>
              (res.Ok? <==> PolicyAsSetToX(ctx, p, uuid).Ok?)
              && (res.Ok? ==> res.value == (EntrySet(PolicyAsSetToX(ctx, p, uuid).value.0), PolicyAsSetToX(ctx, p, uuid).value.1))
              && (res.Err? ==> res.error == PolicyAsSetToX(ctx, p, uuid).error)
    decreases PolicyWeight(p), 2
  {
    if p.condition.None? then
      var converted :- PolicyToX(ctx, p, uuid);
      Ok((EntryPolicy(converted.0), converted.1))
    else
      var converted :- PolicyAsSetToX(ctx, p, uuid);
      Ok((EntrySet(converted.0), converted.1))
  }

  /** `TryFrom<&Policy> for XPolicySet`: only a policy with a condition can
      become a policyset (the refusal uses the variant `PolicyHasCondition`,
      although the policy has none); it is rewritten and the result
      converted. */
  function PolicyAsSetToX(ctx: Context, p: Policy, uuid: string): (res: Res<(XPolicySet, Context)>)
    ensures res.Ok? ==> Grows(ctx.arena, res.value.1.arena)
    ensures p.condition.None? ==> res == Err(PolicyHasCondition)
    ensures res.Ok? ==> SameTables(ctx, res.value.1)
    ensures res.Ok? ==>
              var x := res.value.0;
              && |x.children| == 2 && x.children[0].EntryPolicy? && x.children[1].EntryPolicy?
              && x.description == p.description
    decreases PolicyWeight(p), 1
  {
    if p.condition.None? then Err(PolicyHasCondition)
    else
      var rw := DeconditionPolicy(ctx.arena, p).value;
      DeconditionPolicyLighter(ctx.arena, p);
      var ctx1 := ctx.(arena := rw.arena);
      SetToX(ctx1, rw.container, uuid)
  }

  // ----------------------------------------------------------------------
  // References agree with inline conversion

  /** A reference to a policy names it the way converting the policy in
      place would: as a policyset exactly when conversion produces one. */
  lemma RefKindMatchesEntryKind(ctx: Context, pr: PolicyReference, ns: seq<string>, uuid: string)
    requires LookupPolicySet(ctx, PolicyRefFqn(pr), ns).Err?
    requires LookupPolicy(ctx, PolicyRefFqn(pr), ns).Ok?
    requires PolicyEntryToX(ctx, LookupPolicy(ctx, PolicyRefFqn(pr), ns).value, uuid).Ok?
    ensures RefToX(ctx, pr, ns, uuid).Ok?
    ensures RefToX(ctx, pr, ns, uuid).value.PolicySetIdRef? <==>
            PolicyEntryToX(ctx, LookupPolicy(ctx, PolicyRefFqn(pr), ns).value, uuid).value.0.EntrySet?
  {
  }

  /** For a policy whose name is already settled, the identifier in a
      reference is the identifier its own conversion gives it. */
  lemma RefIdMatchesPolicyId(ctx: Context, pr: PolicyReference, ns: seq<string>, uuid: string)
    requires LookupPolicySet(ctx, PolicyRefFqn(pr), ns).Err?
    requires LookupPolicy(ctx, PolicyRefFqn(pr), ns).Ok?
    requires var p := LookupPolicy(ctx, PolicyRefFqn(pr), ns).value;
             |p.policyNs| > 0 && Slot(ctx.arena, p.policyNs[|p.policyNs| - 1]).Some?
    requires PolicyToX(ctx, LookupPolicy(ctx, PolicyRefFqn(pr), ns).value, uuid).Ok?
    ensures RefToX(ctx, pr, ns, uuid) ==
            Ok(PolicyIdRef(PolicyToX(ctx, LookupPolicy(ctx, PolicyRefFqn(pr), ns).value, uuid).value.0.id))
  {
    var p := LookupPolicy(ctx, PolicyRefFqn(pr), ns).value;
    var r := PolicyToX(ctx, p, uuid).value;
    assert FinalizePolicyId(ctx, p) == Ok(ctx);
    assert r.1.arena == ctx.arena && r.1.config == ctx.config;
  }
}
