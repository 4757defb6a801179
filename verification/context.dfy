/** The compiler's shared state (`Context`): configuration, the import
    lists of every namespace, per-namespace id counters, one registry per
    declaration kind, the set of explicit policy URIs already used, and
    (in this model) the store of name slots. Every operation returns the
    new state instead of mutating it. */
module CompilerContext {
  import opened Wrappers
  import opened Errors
  import opened Strings
  import opened Decls
  import opened Naming
  import opened Resolver
  import opened Ast

  const DEFAULT_BASE_NAMESPACE: string := "https://sr.ht/~gheartsfield/a2x/alfa/ident/"

  datatype Config = Config(baseNamespace: Option<string>, enableBuiltins: bool)

  /** The default configuration: no base namespace, built-ins enabled. */
  function DefaultConfig(): Config
  {
    Config(None, true)
  }

  /** `get_base_namespace`: the configured prefix, or the default one. */
  function BaseNamespace(c: Config): (r: string)
    ensures c.baseNamespace.Some? ==> r == c.baseNamespace.value
    ensures c.baseNamespace.None? ==> r == DEFAULT_BASE_NAMESPACE
  {
    match c.baseNamespace
    case Some(b) => b
    case None => DEFAULT_BASE_NAMESPACE
  }

  /** A literal with its XACML data-type URI. */
  datatype TypedLiteral = TypedLiteral(typeUri: string, value: string)

  type Counters = map<string, nat>

  datatype Context = Context(
    config: Config,
    imports: map<string, seq<Import>>,
    policysetIds: Counters,
    policyIds: Counters,
    ruleIds: Counters,
    policysets: Resolver<PolicySet>,
    policies: Resolver<Policy>,
    rules: Resolver<RuleDef>,
    ruleCombinators: Resolver<RuleCombinator>,
    policyCombinators: Resolver<PolicyCombinator>,
    functions: Resolver<Function>,
    infixes: Resolver<Infix>,
    attributes: Resolver<Attribute>,
    types: Resolver<TypeDef>,
    advice: Resolver<AdviceDef>,
    obligations: Resolver<ObligationDef>,
    categories: Resolver<Category>,
    usedUris: set<string>,
    arena: Arena)

  /** A context with nothing registered. */
  function EmptyContext(cfg: Config): Context
  {
    Context(cfg, map[], map[], map[], map[],
            Empty("PolicySet"), Empty("Policy"), Empty("RuleDef"), Empty("RuleCombinator"),
            Empty("PolicyCombinator"), Empty("Function"), Empty("Infix"), Empty("Attribute"),
            Empty("TypeDef"), Empty("AdviceDef"), Empty("ObligationDef"), Empty("Category"),
            {}, Arena(map[], 0))
  }

  /** One counter draw: 0 the first time a namespace is seen, then one more
      than the previous draw. Only that namespace's entry changes. */
  function NextId(m: Counters, ns: string): (r: (nat, Counters))
    ensures r.1.Keys == m.Keys + {ns} && r.1[ns] == r.0
    ensures forall n :: n in m && n != ns ==> r.1[n] == m[n]
  {
    var v := if ns in m then m[ns] + 1 else 0;
    (v, m[ns := v])
  }

  /** `k` successive draws for one namespace. */
  function Draws(m: Counters, ns: string, k: nat): (r: (seq<nat>, Counters))
    ensures |r.0| == k
  {
    if k == 0 then ([], m)
    else
      var (vs, m1) := Draws(m, ns, k - 1);
      var (v, m2) := NextId(m1, ns);
      (vs + [v], m2)
  }

  /** A fresh namespace's draws are 0, 1, 2, ... and its counter then
      holds the last draw. */
  lemma {:induction false} DrawsCountUp(m: Counters, ns: string, k: nat)
    requires ns !in m
    ensures forall i :: 0 <= i < k ==> Draws(m, ns, k).0[i] == i
    ensures k > 0 ==> ns in Draws(m, ns, k).1 && Draws(m, ns, k).1[ns] == k - 1
    ensures k == 0 ==> ns !in Draws(m, ns, k).1
  {
    if k > 0 {
      DrawsCountUp(m, ns, k - 1);
    }
  }

  /** Drawing for one namespace leaves every other namespace's next draw
      unchanged. */
  lemma CountersIndependent(m: Counters, ns: string, other: string)
    requires ns != other
    ensures NextId(NextId(m, ns).1, other).0 == NextId(m, other).0
  {
  }

  /** `get_next_rule_id`, `get_next_policy_id`, `get_next_policyset_id`:
      each kind has its own counters, keyed by the dotted namespace. */
  function NextRuleId(ctx: Context, ns: string): (r: (nat, Context))
    ensures r.1 == ctx.(ruleIds := NextId(ctx.ruleIds, ns).1) && r.0 == NextId(ctx.ruleIds, ns).0
  {
    var (v, m) := NextId(ctx.ruleIds, ns);
    (v, ctx.(ruleIds := m))
  }

  function NextPolicyId(ctx: Context, ns: string): (r: (nat, Context))
    ensures r.1 == ctx.(policyIds := NextId(ctx.policyIds, ns).1) && r.0 == NextId(ctx.policyIds, ns).0
  {
    var (v, m) := NextId(ctx.policyIds, ns);
    (v, ctx.(policyIds := m))
  }

  function NextPolicySetId(ctx: Context, ns: string): (r: (nat, Context))
    ensures r.1 == ctx.(policysetIds := NextId(ctx.policysetIds, ns).1) && r.0 == NextId(ctx.policysetIds, ns).0
  {
    var (v, m) := NextId(ctx.policysetIds, ns);
    (v, ctx.(policysetIds := m))
  }

  /** Drawing a policy id does not disturb the rule or policyset counters,
      and a fresh namespace starts at 0 for every kind. */
  lemma CounterKindsIndependent(ctx: Context, ns: string)
    requires ns !in ctx.ruleIds && ns !in ctx.policyIds && ns !in ctx.policysetIds
    ensures NextPolicyId(ctx, ns).0 == 0
    ensures NextRuleId(NextPolicyId(ctx, ns).1, ns).0 == 0
    ensures NextPolicySetId(NextRuleId(NextPolicyId(ctx, ns).1, ns).1, ns).0 == 0
    ensures NextPolicyId(NextPolicyId(ctx, ns).1, ns).0 == 1
  {
  }

  /** `register_import`: append to the list of the namespace's dotted
      name. */
  function RegisterImport(ctx: Context, ns: seq<string>, i: Import): (r: Context)
    ensures r == ctx.(imports := r.imports)
    ensures var key := Join(ns, ".");
            key in r.imports && r.imports[key] == (if key in ctx.imports then ctx.imports[key] else []) + [i]
    ensures forall k :: k in ctx.imports && k != Join(ns, ".") ==> k in r.imports && r.imports[k] == ctx.imports[k]
    ensures r.imports.Keys == ctx.imports.Keys + {Join(ns, ".")}
  {
    var key := Join(ns, ".");
    var old_ := if key in ctx.imports then ctx.imports[key] else [];
    ctx.(imports := ctx.imports[key := old_ + [i]])
  }

  /** `get_imports`: the namespace's own imports followed by those of
      `_A2X`; only the latter when the namespace has none; nothing when
      neither exists. */
  function GetImports(ctx: Context, sourceNs: seq<string>): (r: Option<seq<Import>>)
    ensures r.None? <==> Join(sourceNs, ".") !in ctx.imports && SYSTEM_NS !in ctx.imports
    ensures Join(sourceNs, ".") !in ctx.imports && SYSTEM_NS in ctx.imports ==> r == Some(ctx.imports[SYSTEM_NS])
    ensures Join(sourceNs, ".") in ctx.imports ==>
              r.Some? && ctx.imports[Join(sourceNs, ".")] <= r.value
  {
    var default := if SYSTEM_NS in ctx.imports then Some(ctx.imports[SYSTEM_NS]) else None;
    var key := Join(sourceNs, ".");
    if key in ctx.imports then
      var local := ctx.imports[key];
      Some(local + (if default.Some? then default.value else []))
    else default
  }

  /** An import registered for a namespace other than `_A2X` is active
      there after all earlier ones and before the `_A2X` imports. */
  lemma RegisteredImportIsActive(ctx: Context, ns: seq<string>, i: Import)
    requires Join(ns, ".") != SYSTEM_NS
    ensures var local := if Join(ns, ".") in ctx.imports then ctx.imports[Join(ns, ".")] else [];
            var sys := if SYSTEM_NS in ctx.imports then ctx.imports[SYSTEM_NS] else [];
            GetImports(RegisterImport(ctx, ns, i), ns) == Some(local + [i] + sys)
  {
  }

  /** The typed lookups: each kind's registry, searched with the active
      imports of the source namespace. */
  function LookupPolicy(ctx: Context, symbol: string, sourceNs: seq<string>): Res<Policy>
  {
    Lookup(ctx.policies, symbol, sourceNs, GetImports(ctx, sourceNs))
  }

  function LookupPolicySet(ctx: Context, symbol: string, sourceNs: seq<string>): Res<PolicySet>
  {
    Lookup(ctx.policysets, symbol, sourceNs, GetImports(ctx, sourceNs))
  }

  function LookupRule(ctx: Context, symbol: string, sourceNs: seq<string>): Res<RuleDef>
  {
    Lookup(ctx.rules, symbol, sourceNs, GetImports(ctx, sourceNs))
  }

  function LookupRuleCombinator(ctx: Context, symbol: string, sourceNs: seq<string>): Res<RuleCombinator>
  {
    Lookup(ctx.ruleCombinators, symbol, sourceNs, GetImports(ctx, sourceNs))
  }

  function LookupPolicyCombinator(ctx: Context, symbol: string, sourceNs: seq<string>): Res<PolicyCombinator>
  {
    Lookup(ctx.policyCombinators, symbol, sourceNs, GetImports(ctx, sourceNs))
  }

  function LookupFunction(ctx: Context, symbol: string, sourceNs: seq<string>): Res<Function>
  {
    Lookup(ctx.functions, symbol, sourceNs, GetImports(ctx, sourceNs))
  }

  function LookupInfix(ctx: Context, symbol: string, sourceNs: seq<string>): Res<Infix>
  {
    Lookup(ctx.infixes, symbol, sourceNs, GetImports(ctx, sourceNs))
  }

  function LookupAttribute(ctx: Context, symbol: string, sourceNs: seq<string>): Res<Attribute>
  {
    Lookup(ctx.attributes, symbol, sourceNs, GetImports(ctx, sourceNs))
  }

  function LookupType(ctx: Context, symbol: string, sourceNs: seq<string>): Res<TypeDef>
  {
    Lookup(ctx.types, symbol, sourceNs, GetImports(ctx, sourceNs))
  }

  function LookupAdvice(ctx: Context, symbol: string, sourceNs: seq<string>): Res<AdviceDef>
  {
    Lookup(ctx.advice, symbol, sourceNs, GetImports(ctx, sourceNs))
  }

  function LookupObligation(ctx: Context, symbol: string, sourceNs: seq<string>): Res<ObligationDef>
  {
    Lookup(ctx.obligations, symbol, sourceNs, GetImports(ctx, sourceNs))
  }

  function LookupCategory(ctx: Context, symbol: string, sourceNs: seq<string>): Res<Category>
  {
    Lookup(ctx.categories, symbol, sourceNs, GetImports(ctx, sourceNs))
  }

  /** `lookup_infix_inverse`: find the operator, then its declared inverse
      from the same source namespace. */
  function LookupInfixInverse(ctx: Context, symbol: string, sourceNs: seq<string>): (r: Res<Infix>)
    ensures LookupInfix(ctx, symbol, sourceNs).Err? ==> r == Err(LookupInfix(ctx, symbol, sourceNs).error)
    ensures LookupInfix(ctx, symbol, sourceNs).Ok? && LookupInfix(ctx, symbol, sourceNs).value.inverse.None? ==>
              r == Err(InverseInfixNotFound)
    ensures r.Ok? ==> LookupInfix(ctx, symbol, sourceNs).Ok?
                      && LookupInfix(ctx, symbol, sourceNs).value.inverse.Some?
                      && r == LookupInfix(ctx, LookupInfix(ctx, symbol, sourceNs).value.inverse.value, sourceNs)
  {
    var i :- LookupInfix(ctx, symbol, sourceNs);
    match i.inverse
    case Some(inv) => LookupInfix(ctx, inv, sourceNs)
    case None => Err(InverseInfixNotFound)
  }

  /** `constant_to_typedliteral`: the four primitive literals get the fixed
      XML Schema types with their text kept verbatim; a custom literal gets
      the URI of its type looked up from the source namespace; an undefined
      constant has no type. */
  function ConstantToTypedLiteral(ctx: Context, c: Constant, sourceNs: seq<string>): (r: Res<TypedLiteral>)
    ensures c.CString? ==> r == Ok(TypedLiteral(STRING_URI, c.s))
    ensures c.CInteger? ==> r == Ok(TypedLiteral(INTEGER_URI, c.digits))
    ensures c.CDouble? ==> r == Ok(TypedLiteral(DOUBLE_URI, c.digits))
    ensures c.CBoolean? ==> r.Ok? && r.value.typeUri == BOOLEAN_URI
                            && r.value.value == (if c.b then "true" else "false")
    ensures c.CCustom? ==>
              (r.Ok? <==> LookupType(ctx, c.ct.name, sourceNs).Ok?)
              && (r.Ok? ==> r.value == TypedLiteral(LookupType(ctx, c.ct.name, sourceNs).value.uri, c.s))
    ensures c.Undefined? ==> r == Err(AstConvertError)
  {
    match c
    case CString(s) => Ok(TypedLiteral(STRING_URI, s))
    case CInteger(s) => Ok(TypedLiteral(INTEGER_URI, s))
    case CDouble(s) => Ok(TypedLiteral(DOUBLE_URI, s))
    case CBoolean(b) => Ok(TypedLiteral(BOOLEAN_URI, if b then "true" else "false"))
    case CCustom(ct, s) =>
      var t :- LookupType(ctx, ct.name, sourceNs);
      Ok(TypedLiteral(t.uri, s))
    case Undefined => Err(AstConvertError)
  }

  /** Record an explicit URI; using one twice, in any namespace, is an
      error. */
  function RecordUri(ctx: Context, id: PolicyId): (r: Res<Context>)
    ensures id.PolicyNameAndId? && id.uri in ctx.usedUris ==> r == Err(DuplicateURI(id.uri))
    ensures id.PolicyNameAndId? && id.uri !in ctx.usedUris ==> r == Ok(ctx.(usedUris := ctx.usedUris + {id.uri}))
    ensures !id.PolicyNameAndId? ==> r == Ok(ctx)
  {
    if id.PolicyNameAndId? then
      if id.uri in ctx.usedUris then Err(DuplicateURI(id.uri))
      else Ok(ctx.(usedUris := ctx.usedUris + {id.uri}))
    else Ok(ctx)
  }

  /** No qualified name is both a policy and a policyset. */
  predicate PolicyKindsDisjoint(ctx: Context)
  {
    forall k :: k in ctx.policies.elements ==> k !in ctx.policysets.elements
  }

  /** Registration only ever adds: existing entries, used URIs and all
      state not about policies stay as they were. */
  predicate Extends(ctx: Context, ctx': Context)
  {
    ctx' == ctx.(policies := ctx'.policies, policysets := ctx'.policysets, usedUris := ctx'.usedUris)
    && ctx'.policies.kind == ctx.policies.kind && ctx'.policysets.kind == ctx.policysets.kind
    && (forall k :: k in ctx.policies.elements ==> k in ctx'.policies.elements && ctx'.policies.elements[k] == ctx.policies.elements[k])
    && (forall k :: k in ctx.policysets.elements ==> k in ctx'.policysets.elements && ctx'.policysets.elements[k] == ctx.policysets.elements[k])
    && ctx.usedUris <= ctx'.usedUris
  }

  lemma ExtendsTransitive(a: Context, b: Context, c: Context)
    requires Extends(a, b) && Extends(b, c)
    ensures Extends(a, c)
  {
  }

  /** `register_policy`: an explicit URI must be new, the qualified name
      must not be a policyset, and must not already be a policy, checked in
      that order. */
  function RegisterPolicy(ctx: Context, p: Policy): (r: Res<Context>)
    ensures p.id.PolicyNameAndId? && p.id.uri in ctx.usedUris ==> r == Err(DuplicateURI(p.id.uri))
    ensures !(p.id.PolicyNameAndId? && p.id.uri in ctx.usedUris) && PolicyFqn(ctx.arena, p).Some?
            && PolicyFqn(ctx.arena, p).value in ctx.policysets.elements ==>
              r == Err(DuplicatePolicyEntity(PolicyFqn(ctx.arena, p).value))
    ensures r.Ok? <==> !(p.id.PolicyNameAndId? && p.id.uri in ctx.usedUris)
                       && (PolicyFqn(ctx.arena, p).Some? ==>
                             PolicyFqn(ctx.arena, p).value !in ctx.policysets.elements
                             && PolicyFqn(ctx.arena, p).value !in ctx.policies.elements)
    ensures r.Ok? ==> Extends(ctx, r.value) && r.value.policysets == ctx.policysets
    ensures r.Ok? && PolicyFqn(ctx.arena, p).Some? ==>
              r.value.policies.elements == ctx.policies.elements[PolicyFqn(ctx.arena, p).value := p]
    ensures r.Ok? && PolicyFqn(ctx.arena, p).None? ==> r.value.policies == ctx.policies
    ensures r.Ok? && p.id.PolicyNameAndId? ==> r.value.usedUris == ctx.usedUris + {p.id.uri}
    ensures r.Ok? && PolicyKindsDisjoint(ctx) ==> PolicyKindsDisjoint(r.value)
  {
    var c1 :- RecordUri(ctx, p.id);
    var fq := PolicyFqn(ctx.arena, p);
    if fq.Some? && fq.value in c1.policysets.elements then Err(DuplicatePolicyEntity(fq.value))
    else
      var ps :- Register(c1.policies, fq, p);
      Ok(c1.(policies := ps))
  }

  /** `register_policyset`: the inline children first, in order (a
      reference is skipped), then the same three checks as for a policy,
      against the policy registry. */
  function RegisterPolicySet(ctx: Context, s: PolicySet): (r: Res<Context>)
    ensures r.Ok? ==> Extends(ctx, r.value)
    ensures r.Ok? && PolicyKindsDisjoint(ctx) ==> PolicyKindsDisjoint(r.value)
    ensures r.Ok? && PolicySetFqn(ctx.arena, s).Some? ==>
              PolicySetFqn(ctx.arena, s).value in r.value.policysets.elements
              && r.value.policysets.elements[PolicySetFqn(ctx.arena, s).value] == s
              && PolicySetFqn(ctx.arena, s).value !in ctx.policysets.elements
              && PolicySetFqn(ctx.arena, s).value !in ctx.policies.elements
    ensures r.Ok? && s.id.PolicyNameAndId? ==> s.id.uri !in ctx.usedUris && s.id.uri in r.value.usedUris
    decreases s, 1
  {
    var c1 :- RegisterEntries(ctx, s.policies, 0);
    var c2 :- RecordUri(c1, s.id);
    var fq := PolicySetFqn(ctx.arena, s);
    if fq.Some? && fq.value in c2.policies.elements then Err(DuplicatePolicyEntity(fq.value))
    else
      var ss :- Register(c2.policysets, fq, s);
      Ok(c2.(policysets := ss))
  }

  /** The children `entries[pos..]` of a policyset, registered in order. */
  function RegisterEntries(ctx: Context, entries: seq<PolicyEntry>, pos: nat): (r: Res<Context>)
    requires pos <= |entries|
    ensures r.Ok? ==> Extends(ctx, r.value)
    ensures r.Ok? && PolicyKindsDisjoint(ctx) ==> PolicyKindsDisjoint(r.value)
    decreases entries, |entries| - pos, 2
  {
    if pos == |entries| then Ok(ctx)
    else
      var c1 :- RegisterEntry(ctx, entries, pos);
      RegisterEntries(c1, entries, pos + 1)
  }

  function RegisterEntry(ctx: Context, entries: seq<PolicyEntry>, pos: nat): (r: Res<Context>)
    requires pos < |entries|
    ensures r.Ok? ==> Extends(ctx, r.value)
    ensures r.Ok? && PolicyKindsDisjoint(ctx) ==> PolicyKindsDisjoint(r.value)
    decreases entries, |entries| - pos, 1
  {
    match entries[pos]
    case PRef(_) => Ok(ctx)
    case PPolicy(p) => RegisterPolicy(ctx, p)
    case PPolicySet(child) =>
      assert child < entries[pos];
      RegisterPolicySet(ctx, child)
  }

  /** The same explicit URI on two policies fails the second registration
      whatever the namespaces. */
  lemma UriIsGlobal(ctx: Context, p: Policy, q: Policy)
    requires p.id.PolicyNameAndId? && q.id.PolicyNameAndId? && p.id.uri == q.id.uri
    requires RegisterPolicy(ctx, p).Ok?
    ensures RegisterPolicy(RegisterPolicy(ctx, p).value, q) == Err(DuplicateURI(q.id.uri))
  {
  }

  /** A policy and a policyset with the same qualified name cannot both be
      registered, in either order. */
  lemma PolicyThenPolicySetClash(ctx: Context, p: Policy, s: PolicySet)
    requires PolicyFqn(ctx.arena, p).Some? && PolicyFqn(ctx.arena, p) == PolicySetFqn(ctx.arena, s)
    requires !s.id.PolicyNameAndId?
    requires |s.policies| == 0
    requires RegisterPolicy(ctx, p).Ok?
    ensures RegisterPolicySet(RegisterPolicy(ctx, p).value, s)
            == Err(DuplicatePolicyEntity(PolicyFqn(ctx.arena, p).value))
  {
  }

  lemma PolicySetThenPolicyClash(ctx: Context, s: PolicySet, p: Policy)
    requires PolicySetFqn(ctx.arena, s).Some? && PolicyFqn(ctx.arena, p) == PolicySetFqn(ctx.arena, s)
    requires !p.id.PolicyNameAndId?
    requires RegisterPolicySet(ctx, s).Ok?
    ensures RegisterPolicy(RegisterPolicySet(ctx, s).value, p)
            == Err(DuplicatePolicyEntity(PolicyFqn(ctx.arena, p).value))
  {
  }

  /** Every named inline child of a registered policyset is registered too,
      under its own qualified name. */
  lemma {:induction false} ChildrenRegistered(ctx: Context, entries: seq<PolicyEntry>, pos: nat, i: nat)
    requires pos <= i < |entries|
    requires RegisterEntries(ctx, entries, pos).Ok?
    ensures entries[i].PPolicy? && PolicyFqn(ctx.arena, entries[i].policy).Some? ==>
              PolicyFqn(ctx.arena, entries[i].policy).value in RegisterEntries(ctx, entries, pos).value.policies.elements
    ensures entries[i].PPolicySet? && PolicySetFqn(ctx.arena, entries[i].policySet).Some? ==>
              PolicySetFqn(ctx.arena, entries[i].policySet).value in RegisterEntries(ctx, entries, pos).value.policysets.elements
    decreases |entries| - pos
  {
    var c1 := RegisterEntry(ctx, entries, pos).value;
    var rest := RegisterEntries(c1, entries, pos + 1);
    assert RegisterEntries(ctx, entries, pos) == rest;
    assert c1.arena == ctx.arena;
    if i == pos {
      assert Extends(c1, rest.value);
    } else {
      ChildrenRegistered(c1, entries, pos + 1, i);
    }
  }
}
