/** A namespace of an ALFA document (`Namespace`): its path, child
    namespaces, imports and the declarations made directly inside it.
    Adding a declaration keeps it locally and registers it in the
    context's registry of its kind; here the context is passed in and
    returned instead of being shared. */
module Namespaces {
  import opened Wrappers
  import opened Errors
  import opened Strings
  import opened Decls
  import opened Resolver
  import opened Ast
  import opened CompilerContext

  datatype Namespace = Namespace(
    path: seq<string>,
    namespaces: seq<Namespace>,
    imports: seq<Import>,
    policysets: seq<PolicySet>,
    policies: seq<Policy>,
    rules: seq<RuleDef>,
    ruleCombinators: seq<RuleCombinator>,
    policyCombinators: seq<PolicyCombinator>,
    types: seq<TypeDef>,
    categories: seq<Category>,
    attributes: seq<Attribute>,
    functions: seq<Function>,
    infixes: seq<Infix>,
    advice: seq<AdviceDef>,
    obligations: seq<ObligationDef>)

  /** One declaration of any kind a namespace can hold. */
  datatype Decl =
    | DTypeDef(t: TypeDef)
    | DCategory(c: Category)
    | DAttribute(a: Attribute)
    | DPolicySet(s: PolicySet)
    | DPolicy(p: Policy)
    | DRule(r: RuleDef)
    | DRuleCombinator(rc: RuleCombinator)
    | DPolicyCombinator(pc: PolicyCombinator)
    | DFunction(f: Function)
    | DInfix(i: Infix)
    | DAdvice(ad: AdviceDef)
    | DObligation(o: ObligationDef)

  /** The kinds of declaration, one per list a namespace keeps. */
  datatype DeclKind =
    | KTypeDef | KCategory | KAttribute | KPolicySet | KPolicy | KRule
    | KRuleCombinator | KPolicyCombinator | KFunction | KInfix | KAdvice | KObligation

  function KindOf(d: Decl): DeclKind
  {
    match d
    case DTypeDef(_) => KTypeDef
    case DCategory(_) => KCategory
    case DAttribute(_) => KAttribute
    case DPolicySet(_) => KPolicySet
    case DPolicy(_) => KPolicy
    case DRule(_) => KRule
    case DRuleCombinator(_) => KRuleCombinator
    case DPolicyCombinator(_) => KPolicyCombinator
    case DFunction(_) => KFunction
    case DInfix(_) => KInfix
    case DAdvice(_) => KAdvice
    case DObligation(_) => KObligation
  }

  /** The declarations of one kind held directly, in the order added. */
  function Listed(n: Namespace, k: DeclKind): (r: seq<Decl>)
    ensures forall i :: 0 <= i < |r| ==> KindOf(r[i]) == k
  {
    match k
    case KTypeDef => seq(|n.types|, i requires 0 <= i < |n.types| => DTypeDef(n.types[i]))
    case KCategory => seq(|n.categories|, i requires 0 <= i < |n.categories| => DCategory(n.categories[i]))
    case KAttribute => seq(|n.attributes|, i requires 0 <= i < |n.attributes| => DAttribute(n.attributes[i]))
    case KPolicySet => seq(|n.policysets|, i requires 0 <= i < |n.policysets| => DPolicySet(n.policysets[i]))
    case KPolicy => seq(|n.policies|, i requires 0 <= i < |n.policies| => DPolicy(n.policies[i]))
    case KRule => seq(|n.rules|, i requires 0 <= i < |n.rules| => DRule(n.rules[i]))
    case KRuleCombinator =>
      seq(|n.ruleCombinators|, i requires 0 <= i < |n.ruleCombinators| => DRuleCombinator(n.ruleCombinators[i]))
    case KPolicyCombinator =>
      seq(|n.policyCombinators|, i requires 0 <= i < |n.policyCombinators| => DPolicyCombinator(n.policyCombinators[i]))
    case KFunction => seq(|n.functions|, i requires 0 <= i < |n.functions| => DFunction(n.functions[i]))
    case KInfix => seq(|n.infixes|, i requires 0 <= i < |n.infixes| => DInfix(n.infixes[i]))
    case KAdvice => seq(|n.advice|, i requires 0 <= i < |n.advice| => DAdvice(n.advice[i]))
    case KObligation => seq(|n.obligations|, i requires 0 <= i < |n.obligations| => DObligation(n.obligations[i]))
  }

  /** `from_components`: an empty namespace at `path`; `new_root` is the
      one-component case. */
  function FromComponents(path: seq<string>): (n: Namespace)
    ensures n.path == path && n.namespaces == [] && n.imports == []
    ensures forall k :: Listed(n, k) == []
  {
    Namespace(path, [], [], [], [], [], [], [], [], [], [], [], [], [], [])
  }

  /** The name a declaration is registered under; only a rule, policy or
      policyset can lack one. */
  function DeclName(ctx: Context, d: Decl): Option<string>
  {
    match d
    case DTypeDef(t) => Some(TypeDefName(t))
    case DCategory(c) => Some(CategoryName(c))
    case DAttribute(a) => Some(AttributeName(a))
    case DPolicySet(s) => PolicySetFqn(ctx.arena, s)
    case DPolicy(p) => PolicyFqn(ctx.arena, p)
    case DRule(r) => RuleFqn(ctx.arena, r)
    case DRuleCombinator(rc) => Some(RuleCombinatorName(rc))
    case DPolicyCombinator(pc) => Some(PolicyCombinatorName(pc))
    case DFunction(f) => Some(FunctionName(f))
    case DInfix(i) => Some(InfixName(i))
    case DAdvice(ad) => Some(AdviceName(ad))
    case DObligation(o) => Some(ObligationName(o))
  }

  /** The names taken in the registry of `d`'s kind. */
  function KindNames(ctx: Context, d: Decl): set<string>
  {
    match d
    case DTypeDef(_) => ctx.types.elements.Keys
    case DCategory(_) => ctx.categories.elements.Keys
    case DAttribute(_) => ctx.attributes.elements.Keys
    case DPolicySet(_) => ctx.policysets.elements.Keys
    case DPolicy(_) => ctx.policies.elements.Keys
    case DRule(_) => ctx.rules.elements.Keys
    case DRuleCombinator(_) => ctx.ruleCombinators.elements.Keys
    case DPolicyCombinator(_) => ctx.policyCombinators.elements.Keys
    case DFunction(_) => ctx.functions.elements.Keys
    case DInfix(_) => ctx.infixes.elements.Keys
    case DAdvice(_) => ctx.advice.elements.Keys
    case DObligation(_) => ctx.obligations.elements.Keys
  }

  /** The kind's registry's short name, used in duplicate messages. */
  function KindLabel(ctx: Context, d: Decl): string
  {
    match d
    case DTypeDef(_) => ctx.types.kind
    case DCategory(_) => ctx.categories.kind
    case DAttribute(_) => ctx.attributes.kind
    case DPolicySet(_) => ctx.policysets.kind
    case DPolicy(_) => ctx.policies.kind
    case DRule(_) => ctx.rules.kind
    case DRuleCombinator(_) => ctx.ruleCombinators.kind
    case DPolicyCombinator(_) => ctx.policyCombinators.kind
    case DFunction(_) => ctx.functions.kind
    case DInfix(_) => ctx.infixes.kind
    case DAdvice(_) => ctx.advice.kind
    case DObligation(_) => ctx.obligations.kind
  }

  /** `c` differs from `ctx` in the registry of `d`'s kind at most. */
  predicate OnlyKindChanged(ctx: Context, c: Context, d: Decl)
  {
    match d
    case DTypeDef(_) => c == ctx.(types := c.types)
    case DCategory(_) => c == ctx.(categories := c.categories)
    case DAttribute(_) => c == ctx.(attributes := c.attributes)
    case DRule(_) => c == ctx.(rules := c.rules)
    case DRuleCombinator(_) => c == ctx.(ruleCombinators := c.ruleCombinators)
    case DPolicyCombinator(_) => c == ctx.(policyCombinators := c.policyCombinators)
    case DFunction(_) => c == ctx.(functions := c.functions)
    case DInfix(_) => c == ctx.(infixes := c.infixes)
    case DAdvice(_) => c == ctx.(advice := c.advice)
    case DObligation(_) => c == ctx.(obligations := c.obligations)
    case DPolicySet(_) => Extends(ctx, c)
    case DPolicy(_) => Extends(ctx, c)
  }

  /** The `register_*` call of `d`'s kind. Policies and policysets have
      their own rules (explicit URIs, the policy/policyset clash, inline
      children); every other kind goes straight to its registry. */
  function RegisterDecl(ctx: Context, d: Decl): (r: Res<Context>)
    ensures r.Ok? ==> OnlyKindChanged(ctx, r.value, d)
    ensures !d.DPolicy? && !d.DPolicySet? ==>
              (r.Err? <==> DeclName(ctx, d).Some? && DeclName(ctx, d).value in KindNames(ctx, d))
    ensures !d.DPolicy? && !d.DPolicySet? && r.Err? ==>
              r.error == DuplicateSymbol("Duplicate " + KindLabel(ctx, d) + " definition: '" + DeclName(ctx, d).value + "'")
    ensures !d.DPolicySet? && r.Ok? ==>
              KindNames(r.value, d) == KindNames(ctx, d) + (if DeclName(ctx, d).Some? then {DeclName(ctx, d).value} else {})
    ensures d.DPolicySet? && r.Ok? && DeclName(ctx, d).Some? ==>
              DeclName(ctx, d).value !in KindNames(ctx, d) && DeclName(ctx, d).value in KindNames(r.value, d)
  {
    var name := DeclName(ctx, d);
    match d
    case DTypeDef(t) => var m :- Register(ctx.types, name, t); Ok(ctx.(types := m))
    case DCategory(c) => var m :- Register(ctx.categories, name, c); Ok(ctx.(categories := m))
    case DAttribute(a) => var m :- Register(ctx.attributes, name, a); Ok(ctx.(attributes := m))
    case DRule(rule) => var m :- Register(ctx.rules, name, rule); Ok(ctx.(rules := m))
    case DRuleCombinator(rc) => var m :- Register(ctx.ruleCombinators, name, rc); Ok(ctx.(ruleCombinators := m))
    case DPolicyCombinator(pc) => var m :- Register(ctx.policyCombinators, name, pc); Ok(ctx.(policyCombinators := m))
    case DFunction(f) => var m :- Register(ctx.functions, name, f); Ok(ctx.(functions := m))
    case DInfix(i) => var m :- Register(ctx.infixes, name, i); Ok(ctx.(infixes := m))
    case DAdvice(ad) => var m :- Register(ctx.advice, name, ad); Ok(ctx.(advice := m))
    case DObligation(o) => var m :- Register(ctx.obligations, name, o); Ok(ctx.(obligations := m))
    case DPolicy(p) => RegisterPolicy(ctx, p)
    case DPolicySet(s) => RegisterPolicySet(ctx, s)
  }

  /** The namespace with `d` appended to the list of its kind. */
  function Append(n: Namespace, d: Decl): Namespace
  {
    match d
    case DTypeDef(t) => n.(types := n.types + [t])
    case DCategory(c) => n.(categories := n.categories + [c])
    case DAttribute(a) => n.(attributes := n.attributes + [a])
    case DPolicySet(s) => n.(policysets := n.policysets + [s])
    case DPolicy(p) => n.(policies := n.policies + [p])
    case DRule(r) => n.(rules := n.rules + [r])
    case DRuleCombinator(rc) => n.(ruleCombinators := n.ruleCombinators + [rc])
    case DPolicyCombinator(pc) => n.(policyCombinators := n.policyCombinators + [pc])
    case DFunction(f) => n.(functions := n.functions + [f])
    case DInfix(i) => n.(infixes := n.infixes + [i])
    case DAdvice(ad) => n.(advice := n.advice + [ad])
    case DObligation(o) => n.(obligations := n.obligations + [o])
  }

  /** The `add_*` methods: keep the declaration locally and register it;
      a registration error is passed on unchanged. */
  function AddDecl(n: Namespace, ctx: Context, d: Decl): (r: Res<(Namespace, Context)>)
    ensures r.Err? <==> RegisterDecl(ctx, d).Err?
    ensures r.Err? ==> r.error == RegisterDecl(ctx, d).error
    ensures r.Ok? ==> r.value.1 == RegisterDecl(ctx, d).value
    ensures r.Ok? ==>
              && r.value.0.path == n.path && r.value.0.namespaces == n.namespaces && r.value.0.imports == n.imports
              && Listed(r.value.0, KindOf(d)) == Listed(n, KindOf(d)) + [d]
              && forall k :: k != KindOf(d) ==> Listed(r.value.0, k) == Listed(n, k)
  {
    var c :- RegisterDecl(ctx, d);
    AppendAddsOne(n, d);
    Ok((Append(n, d), c))
  }

  lemma AppendAddsOne(n: Namespace, d: Decl)
    ensures Listed(Append(n, d), KindOf(d)) == Listed(n, KindOf(d)) + [d]
    ensures forall k :: k != KindOf(d) ==> Listed(Append(n, d), k) == Listed(n, k)
  {
    var n' := Append(n, d);
    var xs := Listed(n', KindOf(d));
    var ys := Listed(n, KindOf(d)) + [d];
    assert |xs| == |ys|;
    forall i | 0 <= i < |xs| ensures xs[i] == ys[i] {
    }
  }

  /** Adding a named declaration of an ordinary kind twice fails the second
      time with the registry's duplicate message. */
  lemma AddTwiceFails(n: Namespace, ctx: Context, d: Decl)
    requires !d.DPolicy? && !d.DPolicySet? && !d.DRule?
    requires AddDecl(n, ctx, d).Ok?
    ensures var (n1, c1) := AddDecl(n, ctx, d).value;
            AddDecl(n1, c1, d) == Err(DuplicateSymbol("Duplicate " + KindLabel(c1, d) + " definition: '" + DeclName(c1, d).value + "'"))
  {
    var c1 := AddDecl(n, ctx, d).value.1;
    assert DeclName(c1, d) == DeclName(ctx, d);
  }

  /** `add_import`: kept locally and registered under this namespace's
      dotted name, where it then takes effect for lookups. */
  function AddImport(n: Namespace, ctx: Context, i: Import): (r: (Namespace, Context))
    ensures r.0 == n.(imports := n.imports + [i])
    ensures r.1 == ctx.(imports := r.1.imports)
    ensures DottedName(n) != SYSTEM_NS ==>
              var local := if DottedName(n) in ctx.imports then ctx.imports[DottedName(n)] else [];
              var sys := if SYSTEM_NS in ctx.imports then ctx.imports[SYSTEM_NS] else [];
              GetImports(r.1, n.path) == Some(local + [i] + sys)
  {
    var r := (n.(imports := n.imports + [i]), RegisterImport(ctx, n.path, i));
    if DottedName(n) != SYSTEM_NS then RegisteredImportIsActive(ctx, n.path, i); r else r
  }

  /** `add_namespace`. */
  function AddNamespace(n: Namespace, child: Namespace): (r: Namespace)
    ensures r.namespaces == n.namespaces + [child] && r.path == n.path
    ensures forall k :: Listed(r, k) == Listed(n, k)
  {
    n.(namespaces := n.namespaces + [child])
  }

  /** `policies`: this namespace's policies, then those of each child
      namespace, recursively and in order. */
  function AllPolicies(n: Namespace): (r: seq<Policy>)
    ensures n.policies <= r
    ensures forall p :: p in r <==>
              p in n.policies || exists j :: 0 <= j < |n.namespaces| && p in AllPolicies(n.namespaces[j])
    decreases n, 1
  {
    n.policies + ChildPolicies(n.namespaces)
  }

  function ChildPolicies(ns: seq<Namespace>): (r: seq<Policy>)
    ensures forall p :: p in r <==> exists j :: 0 <= j < |ns| && p in AllPolicies(ns[j])
    decreases ns, 0
  {
    if |ns| == 0 then []
    else
      var rest := ChildPolicies(ns[1..]);
      assert forall j :: 1 <= j < |ns| ==> ns[1..][j - 1] == ns[j];
      AllPolicies(ns[0]) + rest
  }

  /** `policysets`: this namespace's own policysets; child namespaces are
      not searched. */
  function PolicySets(n: Namespace): (r: seq<PolicySet>)
    ensures forall s :: s in r <==> s in n.policysets
  {
    n.policysets
  }

  /** A policyset declared only in a child namespace is not reported, while
      a policy declared there is. */
  lemma PolicySetsDoNotRecurse(root: Namespace, child: Namespace, p: Policy, s: PolicySet)
    requires root.policysets == [] && root.namespaces == [child]
    requires p in child.policies && s in child.policysets
    ensures s !in PolicySets(root)
    ensures p in AllPolicies(root)
  {
  }

  /** `is_root`: the path has exactly one component. */
  predicate IsRoot(n: Namespace)
  {
    |n.path| == 1
  }

  /** `dotted_name`. */
  function DottedName(n: Namespace): (r: string)
    ensures IsRoot(n) ==> r == n.path[0]
    ensures |n.path| == 0 ==> r == ""
  {
    Join(n.path, ".")
  }

  /** A child path's dotted name extends its parent's by one component. */
  lemma DottedNameOfChild(parent: Namespace, child: Namespace, x: string)
    requires |parent.path| > 0 && child.path == parent.path + [x]
    ensures DottedName(child) == DottedName(parent) + "." + x
  {
    JoinSnoc(parent.path, x, ".");
  }

  /** A policy added to a namespace is among its policies afterwards. */
  lemma AddedPolicyListed(n: Namespace, ctx: Context, p: Policy)
    requires AddDecl(n, ctx, DPolicy(p)).Ok?
    ensures p in AllPolicies(AddDecl(n, ctx, DPolicy(p)).value.0)
    ensures AllPolicies(AddDecl(n, ctx, DPolicy(p)).value.0)[..|n.policies| + 1] == n.policies + [p]
  {
    var n1 := AddDecl(n, ctx, DPolicy(p)).value.0;
    assert n1.policies == n.policies + [p];
  }
}
