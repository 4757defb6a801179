/** Choosing names and identifiers on demand: an anonymous policy or
    policyset gets `policy_<n>` / `policyset_<n>` when it is first needed
    (`finalize_id`), and a rule gets its XACML identifier from its
    namespace, the enclosing policies and either its name or a counter
    (`RuleDef::get_id`). */
module Identity {
  import opened Wrappers
  import opened Errors
  import opened Strings
  import opened Naming
  import opened Decls
  import opened Resolver
  import opened Ast
  import opened CompilerContext

  /** Which of the two `finalize_id`s: they differ in the counter drawn
      from and in the proposed name. */
  datatype IdKind = PolicyKind | PolicySetKind

  function GeneratedPrefix(kind: IdKind): string
  {
    match kind
    case PolicyKind => "policy_"
    case PolicySetKind => "policyset_"
  }

  /** The name proposed for counter value `n`. */
  function GeneratedName(kind: IdKind, n: nat): string
  {
    GeneratedPrefix(kind) + NatToString(n)
  }

  function KindCounters(ctx: Context, kind: IdKind): Counters
  {
    match kind
    case PolicyKind => ctx.policyIds
    case PolicySetKind => ctx.policysetIds
  }

  function WithCounters(ctx: Context, kind: IdKind, m: Counters): Context
  {
    match kind
    case PolicyKind => ctx.(policyIds := m)
    case PolicySetKind => ctx.(policysetIds := m)
  }

  /** The value the next draw for `key` returns. */
  function NextDraw(m: Counters, key: string): nat
  {
    if key in m then m[key] + 1 else 0
  }

  /** A bound on the length of every registered name. */
  ghost function MaxLen(keys: set<string>): (r: nat)
    ensures forall k :: k in keys ==> |k| <= r
  {
    if keys == {} then 0
    else
      var k :| k in keys;
      var m := MaxLen(keys - {k});
      if |k| > m then |k| else m
  }

  lemma ShortNumeralIsSmall(n: nat, k: nat)
    ensures |NatToString(n)| <= k ==> n < Pow10(k)
  {
    if n >= Pow10(k) { NatToStringLength(n, k); }
  }

  /** Whether a proposed name is already taken: lookup of it, from the
      entity's namespace and with that namespace's imports, succeeds. */
  predicate Taken(policies: Resolver<Policy>, imports: Option<seq<Import>>, ns: seq<string>, name: string)
  {
    Lookup(policies, name, ns, imports).Ok?
  }

  /** A proposed name that lookup finds is a suffix of a registered name,
      so its counter value is below a bound fixed by the registry: the
      search for a free name ends. */
  lemma TakenNameIsBounded(policies: Resolver<Policy>, imports: Option<seq<Import>>, ns: seq<string>, kind: IdKind, n: nat)
    requires Taken(policies, imports, ns, GeneratedName(kind, n))
    ensures n < Pow10(MaxLen(policies.elements.Keys))
  {
    var name := GeneratedName(kind, n);
    LookupKeyEndsWithSymbol(policies, name, ns, imports);
    var key := LookupKey(policies, name, ns, imports).value;
    assert |key| >= |name| > |NatToString(n)|;
    ShortNumeralIsSmall(n, MaxLen(policies.elements.Keys));
  }

  /** Every proposal with a counter value in `[lo, hi)` is taken. */
  predicate AllTaken(policies: Resolver<Policy>, imports: Option<seq<Import>>, ns: seq<string>, kind: IdKind, lo: nat, hi: nat)
  {
    forall j :: lo <= j < hi ==> Taken(policies, imports, ns, GeneratedName(kind, j))
  }

  lemma AllTakenExtend(policies: Resolver<Policy>, imports: Option<seq<Import>>, ns: seq<string>, kind: IdKind, lo: nat, hi: nat)
    requires Taken(policies, imports, ns, GeneratedName(kind, lo))
    requires AllTaken(policies, imports, ns, kind, lo + 1, hi)
    ensures AllTaken(policies, imports, ns, kind, lo, hi)
  {
  }

  /** The `loop` of `finalize_id`: draw counter values for the namespace
      until the proposed name is not taken. The answer is the first free
      value from the next draw on; every value skipped was taken. */
  function FreshCount(policies: Resolver<Policy>, imports: Option<seq<Import>>, ns: seq<string>,
                      kind: IdKind, m: Counters): (r: nat)
    ensures r >= NextDraw(m, Join(ns, "."))
    ensures !Taken(policies, imports, ns, GeneratedName(kind, r))
    ensures AllTaken(policies, imports, ns, kind, NextDraw(m, Join(ns, ".")), r)
    decreases Pow10(MaxLen(policies.elements.Keys)) - NextDraw(m, Join(ns, "."))
  {
    var key := Join(ns, ".");
    var n := NextDraw(m, key);
    if !Taken(policies, imports, ns, GeneratedName(kind, n)) then n
    else
      TakenNameIsBounded(policies, imports, ns, kind, n);
      assert NextDraw(m[key := n], key) == n + 1;
      var r := FreshCount(policies, imports, ns, kind, m[key := n]);
      AllTakenExtend(policies, imports, ns, kind, n, r);
      r
  }

  function EmptyPathPanic(kind: IdKind): ParseError
  {
    match kind
    case PolicyKind => Panic("policy with empty policy namespace")
    case PolicySetKind => Panic("policyset namespace was empty, should have at least itself as a member")
  }

  /** `finalize_id` for an entity with namespace `ns` and path `path`: a
      filled last slot is kept; an empty one is filled with the first
      proposed name that lookup cannot find; an empty path panics. Both
      kinds look for collisions among policies only. */
  function FinalizeId(ctx: Context, kind: IdKind, ns: seq<string>, path: GenName): (r: Res<Context>)
    ensures |path| == 0 <==> r.Err?
    ensures r.Err? ==> r.error == EmptyPathPanic(kind)
    ensures |path| > 0 && Slot(ctx.arena, path[|path| - 1]).Some? ==> r == Ok(ctx)
    ensures r.Ok? ==> Slot(r.value.arena, path[|path| - 1]).Some?
    ensures r.Ok? && Slot(ctx.arena, path[|path| - 1]).None? ==>
              Join(ns, ".") in KindCounters(r.value, kind) &&
              var n := KindCounters(r.value, kind)[Join(ns, ".")];
              && n >= NextDraw(KindCounters(ctx, kind), Join(ns, "."))
              && Slot(r.value.arena, path[|path| - 1]) == Some(GeneratedName(kind, n))
              && LookupPolicy(ctx, GeneratedName(kind, n), ns).Err?
              && (forall j :: NextDraw(KindCounters(ctx, kind), Join(ns, ".")) <= j < n ==>
                    LookupPolicy(ctx, GeneratedName(kind, j), ns).Ok?)
              && (forall k :: k != path[|path| - 1] ==> Slot(r.value.arena, k) == Slot(ctx.arena, k))
              && r.value == WithCounters(ctx, kind, KindCounters(ctx, kind)[Join(ns, ".") := n]).(arena := r.value.arena)
  {
    match LastElem(path)
    case None => Err(EmptyPathPanic(kind))
    case Some(last) =>
      if Slot(ctx.arena, last).Some? then Ok(ctx)
      else
        var key := Join(ns, ".");
        var n := FreshCount(ctx.policies, GetImports(ctx, ns), ns, kind, KindCounters(ctx, kind));
        var ctx1 := WithCounters(ctx, kind, KindCounters(ctx, kind)[key := n]);
        Ok(ctx1.(arena := Fill(ctx.arena, last, Some(GeneratedName(kind, n)))))
  }

  function FinalizePolicyId(ctx: Context, p: Policy): Res<Context>
  {
    FinalizeId(ctx, PolicyKind, p.ns, p.policyNs)
  }

  function FinalizePolicySetId(ctx: Context, s: PolicySet): Res<Context>
  {
    FinalizeId(ctx, PolicySetKind, s.ns, s.policyNs)
  }

  /** With a fresh counter and `<prefix>0` not taken, the name chosen is
      `<prefix>0` and the counter stands at 0. */
  lemma FinalizeFirstDraw(ctx: Context, kind: IdKind, ns: seq<string>, path: GenName)
    requires |path| > 0 && Slot(ctx.arena, path[|path| - 1]).None?
    requires Join(ns, ".") !in KindCounters(ctx, kind)
    requires LookupPolicy(ctx, GeneratedName(kind, 0), ns).Err?
    ensures FinalizeId(ctx, kind, ns, path).Ok?
    ensures Slot(FinalizeId(ctx, kind, ns, path).value.arena, path[|path| - 1]) == Some(GeneratedName(kind, 0))
    ensures KindCounters(FinalizeId(ctx, kind, ns, path).value, kind)[Join(ns, ".")] == 0
  {
    assert !Taken(ctx.policies, GetImports(ctx, ns), ns, GeneratedName(kind, 0));
  }

  lemma GeneratedNameInjective(kind: IdKind, a: nat, b: nat)
    ensures GeneratedName(kind, a) == GeneratedName(kind, b) ==> a == b
  {
    var p := GeneratedPrefix(kind);
    assert GeneratedName(kind, a)[|p|..] == NatToString(a);
    assert GeneratedName(kind, b)[|p|..] == NatToString(b);
    if GeneratedName(kind, a) == GeneratedName(kind, b) {
      NatToStringInjective(a, b);
    }
  }

  /** Two anonymous entities of one kind in one namespace, finalized one
      after the other, get different names even though the first name is
      never registered: the counter has moved on. */
  lemma FinalizedNamesDiffer(ctx: Context, kind: IdKind, ns: seq<string>, p: GenName, q: GenName)
    requires |p| > 0 && |q| > 0 && p[|p| - 1] != q[|q| - 1]
    requires Slot(ctx.arena, p[|p| - 1]).None? && Slot(ctx.arena, q[|q| - 1]).None?
    ensures FinalizeId(ctx, kind, ns, p).Ok?
    ensures var c1 := FinalizeId(ctx, kind, ns, p).value;
            FinalizeId(c1, kind, ns, q).Ok?
            && Slot(FinalizeId(c1, kind, ns, q).value.arena, q[|q| - 1]) != Slot(c1.arena, p[|p| - 1])
  {
    var key := Join(ns, ".");
    var c1 := FinalizeId(ctx, kind, ns, p).value;
    var n1 := KindCounters(c1, kind)[key];
    assert Slot(c1.arena, q[|q| - 1]).None?;
    var c2 := FinalizeId(c1, kind, ns, q).value;
    var n2 := KindCounters(c2, kind)[key];
    assert n2 >= NextDraw(KindCounters(c1, kind), key) == n1 + 1;
    GeneratedNameInjective(kind, n1, n2);
  }

  /** A `policyset_<n>` name is checked against policies only: a policyset
      already registered as `<ns>.policyset_0` does not stop a fresh
      anonymous policyset of the same namespace from being named
      `policyset_0`. */
  lemma PolicySetNameIgnoresPolicySets(ctx: Context, ns: seq<string>, path: GenName)
    requires |path| > 0 && Slot(ctx.arena, path[|path| - 1]).None?
    requires Join(ns, ".") !in ctx.policysetIds
    requires Join(ns, ".") + ".policyset_0" in ctx.policysets.elements
    requires ctx.policies.elements == map[]
    ensures FinalizeId(ctx, PolicySetKind, ns, path).Ok?
    ensures Slot(FinalizeId(ctx, PolicySetKind, ns, path).value.arena, path[|path| - 1]) == Some("policyset_0")
  {
    assert NatToString(0) == "0";
    assert GeneratedName(PolicySetKind, 0) == "policyset_0";
    FinalizeFirstDraw(ctx, PolicySetKind, ns, path);
  }

  /** The first anonymous policy of namespace `main` is given `policy_0`
      and the configuration is kept. */
  lemma MinimalPolicySlot(ctx: Context, p: Policy, k: SlotId)
    requires p.ns == ["main"] && p.policyNs == [k]
    requires Slot(ctx.arena, k).None?
    requires "main" !in ctx.policyIds && ctx.policies.elements == map[]
    ensures FinalizePolicyId(ctx, p).Ok?
    ensures Slot(FinalizePolicyId(ctx, p).value.arena, k) == Some("policy_0")
    ensures FinalizePolicyId(ctx, p).value.config == ctx.config
  {
    assert Join(["main"], ".") == "main";
    assert NatToString(0) == "0";
    assert GeneratedName(PolicyKind, 0) == "policy_0";
    FinalizeFirstDraw(ctx, PolicyKind, p.ns, p.policyNs);
  }

  /** The file of a policy of namespace `main` whose one path slot holds
      `policy_0`. */
  lemma MainPolicy0File(a: Arena, k: SlotId)
    requires Slot(a, k) == Some("policy_0")
    ensures EntityFilename(a, ["main"], [k]) == Some("main.policy_0.xml")
  {
    assert Join(["main"], ".") == "main";
    assert "main" + "." + "policy_0" + ".xml" == "main.policy_0.xml";
  }

  /** The identifier of an anonymous policy of namespace `main` whose one
      path slot holds `policy_0`. */
  lemma MainPolicy0Id(a: Arena, base: string, k: SlotId, uuid: string)
    requires Slot(a, k) == Some("policy_0")
    ensures EntityId(a, base, PolicyNoName, ["main"], [k], uuid) == base + "main/policy_0"
  {
    assert Join(["main"], "/") == "main";
    assert BuildPath(a, [k], "/") == Some("policy_0") by {
      assert IsResolvable(a, [k]);
      assert SlotNames(a, [k]) == ["policy_0"];
      assert Join(["policy_0"], "/") == "policy_0";
    }
    assert "main" + "/" + "policy_0" == "main/policy_0";
  }

  /** The first anonymous policy of namespace `main` (the repository's
      `minimal_policy` case): file `main.policy_0.xml` and identifier
      `<base>main/policy_0`. */
  lemma MinimalPolicyNames(ctx: Context, p: Policy, k: SlotId, uuid: string)
    requires p.id == PolicyNoName && p.ns == ["main"] && p.policyNs == [k]
    requires Slot(ctx.arena, k).None?
    requires "main" !in ctx.policyIds && ctx.policies.elements == map[]
    ensures FinalizePolicyId(ctx, p).Ok?
    ensures var c := FinalizePolicyId(ctx, p).value;
            && EntityFilename(c.arena, p.ns, p.policyNs) == Some("main.policy_0.xml")
            && EntityId(c.arena, BaseNamespace(c.config), p.id, p.ns, p.policyNs, uuid)
               == BaseNamespace(ctx.config) + "main/policy_0"
  {
    MinimalPolicySlot(ctx, p, k);
    var c := FinalizePolicyId(ctx, p).value;
    MainPolicy0File(c.arena, k);
    MainPolicy0Id(c.arena, BaseNamespace(c.config), k, uuid);
  }

  /** The part of a rule identifier before the rule's own name: the base
      prefix and the namespace joined by "/", then "/" and the enclosing
      policies' path when that text is non-empty. */
  function RuleParent(a: Arena, base: string, ns: seq<string>, path: GenName): (r: Option<string>)
    ensures r.Some? <==> IsResolvable(a, path)
    ensures r.Some? ==> StartsWith(r.value, base + Join(ns, "/"))
  {
    match BuildPath(a, path, "/")
    case None => None
    case Some(pp) =>
      var pn := base + Join(ns, "/") + (if |pp| > 0 then "/" + pp else "");
      assert pn[..|base + Join(ns, "/")|] == base + Join(ns, "/");
      Some(pn)
  }

  /** A rule's identifier continues the identifier of the policy whose path
      it carries, as long as that policy is not given an explicit
      identifier and the innermost name is not empty. */
  lemma RuleParentIsPolicyId(a: Arena, base: string, p: Policy, uuid: string)
    requires IsResolvable(a, p.policyNs) && |p.policyNs| > 0
    requires !p.id.PolicyNameAndId?
    requires Slot(a, p.policyNs[|p.policyNs| - 1]).value != ""
    ensures RuleParent(a, base, p.ns, p.policyNs) == Some(EntityId(a, base, p.id, p.ns, p.policyNs, uuid))
  {
    var names := SlotNames(a, p.policyNs);
    JoinEndsWithLast(names, "/");
    assert names[|names| - 1] == Slot(a, p.policyNs[|p.policyNs| - 1]).value;
    var pp := Join(names, "/");
    assert |pp| > 0;
    assert BuildPath(a, p.policyNs, "/") == Some(pp);
    assert base + Join(p.ns, "/") + ("/" + pp) == base + Join(p.ns, "/") + "/" + pp;
  }

  /** `RuleDef::get_id`: the rule's name after "/", or `#rule_<n>` with `n`
      drawn from the rule counter of the namespace for an anonymous rule.
      An unresolvable policy path panics. */
  function RuleId(ctx: Context, r: RuleDef): (res: Res<(string, Context)>)
    ensures res.Err? <==> !IsResolvable(ctx.arena, r.policyNs)
    ensures res.Err? ==> res.error == Panic("Trying to name a rule that has no policy_ns set")
    ensures res.Ok? ==> StartsWith(res.value.0, BaseNamespace(ctx.config) + Join(r.ns, "/"))
    ensures res.Ok? && r.id.Some? ==>
              && res.value.1 == ctx
              && res.value.0 == RuleParent(ctx.arena, BaseNamespace(ctx.config), r.ns, r.policyNs).value + "/" + r.id.value
    ensures res.Ok? && r.id.None? ==>
              var n := NextDraw(ctx.ruleIds, Join(r.ns, "."));
              && res.value.0 == RuleParent(ctx.arena, BaseNamespace(ctx.config), r.ns, r.policyNs).value + "#rule_" + NatToString(n)
              && res.value.1 == ctx.(ruleIds := ctx.ruleIds[Join(r.ns, ".") := n])
  {
    var prefix := BaseNamespace(ctx.config) + Join(r.ns, "/");
    match RuleParent(ctx.arena, BaseNamespace(ctx.config), r.ns, r.policyNs)
    case None => Err(Panic("Trying to name a rule that has no policy_ns set"))
    case Some(pn) =>
      match r.id
      case None =>
        var (n, ctx1) := NextRuleId(ctx, Join(r.ns, "."));
        var id := pn + "#rule_" + NatToString(n);
        assert id[..|prefix|] == pn[..|prefix|];
        Ok((id, ctx1))
      case Some(name) =>
        var id := pn + "/" + name;
        assert id[..|prefix|] == pn[..|prefix|];
        Ok((id, ctx))
  }

  lemma PrefixedNumeralInjective(p: string, a: nat, b: nat)
    ensures p + NatToString(a) == p + NatToString(b) ==> a == b
  {
    assert (p + NatToString(a))[|p|..] == NatToString(a);
    assert (p + NatToString(b))[|p|..] == NatToString(b);
    if p + NatToString(a) == p + NatToString(b) {
      NatToStringInjective(a, b);
    }
  }

  /** Asking twice for the identifier of the same anonymous rule gives two
      different identifiers: each call draws a new counter value. */
  lemma AnonymousRuleIdsDiffer(ctx: Context, r: RuleDef)
    requires r.id.None? && IsResolvable(ctx.arena, r.policyNs)
    ensures RuleId(ctx, r).Ok?
    ensures var c1 := RuleId(ctx, r).value.1;
            RuleId(c1, r).Ok? && RuleId(c1, r).value.0 != RuleId(ctx, r).value.0
  {
    var key := Join(r.ns, ".");
    var n1 := NextDraw(ctx.ruleIds, key);
    var c1 := ctx.(ruleIds := ctx.ruleIds[key := n1]);
    var n2 := NextDraw(c1.ruleIds, key);
    var pn := RuleParent(ctx.arena, BaseNamespace(ctx.config), r.ns, r.policyNs).value + "#rule_";
    assert RuleId(ctx, r) == Ok((pn + NatToString(n1), c1));
    assert RuleId(c1, r).value.0 == pn + NatToString(n2);
    PrefixedNumeralInjective(pn, n1, n2);
  }

  /** A named rule in a named policy (the repository's full-prescription
      case): `<base>main/ps/p/r`. */
  lemma NamedRuleIdExample(ctx: Context, r: RuleDef, k1: SlotId, k2: SlotId)
    requires r.id == Some("r") && r.ns == ["main"] && r.policyNs == [k1, k2]
    requires Slot(ctx.arena, k1) == Some("ps") && Slot(ctx.arena, k2) == Some("p")
    ensures RuleId(ctx, r) == Ok((BaseNamespace(ctx.config) + "main/ps/p/r", ctx))
  {
    assert Join(["main"], "/") == "main";
    assert SlotNames(ctx.arena, [k1, k2]) == ["ps", "p"];
    assert Join(["ps", "p"], "/") == "ps/p" by {
      assert ["ps", "p"][..1] == ["ps"];
    }
    var base := BaseNamespace(ctx.config);
    assert BuildPath(ctx.arena, r.policyNs, "/") == Some("ps/p");
    assert RuleParent(ctx.arena, base, r.ns, r.policyNs) == Some(base + "main" + ("/" + "ps/p"));
    assert base + "main" + ("/" + "ps/p") + "/" + "r" == base + "main/ps/p/r";
  }
}
