/** Deconditioning. XACML has no condition on a policy or a policyset, so
    the compiler rewrites an entity `E` that has one into a policyset with
    E's identity and two children: `cond`, a policy with a single Permit
    rule carrying the condition, and `orig`, E itself without the
    condition. The container combines them with on-permit-apply-second, so
    E applies only where the condition holds.

    For a policyset, every inline descendant of `orig` also receives one
    shared "orig" name slot on its path (`insert_ns_entry`), so the paths
    of the descendants run through `orig`. */
module Decondition {
  import opened Wrappers
  import opened Errors
  import opened Strings
  import opened Naming
  import opened Decls
  import opened Conditions
  import opened Ast
  import opened StdDefs
  import opened CompilerContext
  import Builtins

  /** The combining algorithms the rewrite writes, as qualified names in the
      protected namespace. */
  const ON_PERMIT_APPLY_SECOND_NAME: string := PROTECTED_NS + ".onPermitApplySecond"
  const PERMIT_OVERRIDES_NAME: string := PROTECTED_NS + ".permitOverrides"

  /** `Vec::insert` past the end of the vector. */
  const INSERT_PAST_END: ParseError := Panic("insertion index should be <= len")
  /** `todo!` on a reference among the children of a nested policyset. */
  const NESTED_REF: ParseError := Panic("not yet implemented: unexpected type of policy entry")
  /** `todo!` on a reference among the children of the deconditioned
      policyset itself. */
  const TOP_REF: ParseError := Panic("not yet implemented: what happens if we call this with a Ref??")

  // ----------------------------------------------------------------------
  // The paths of a policy tree

  /** The paths of a policyset and of all its inline descendants, in
      preorder; references contribute none. */
  function SetPaths(s: PolicySet): (r: seq<GenName>)
    ensures |r| >= 1 && r[0] == s.policyNs
    decreases s, 1
  {
    [s.policyNs] + EntriesPaths(s.policies)
  }

  function EntriesPaths(es: seq<PolicyEntry>): seq<GenName>
    decreases es, 1
  {
    if |es| == 0 then [] else EntryPaths(es[0]) + EntriesPaths(es[1..])
  }

  function EntryPaths(e: PolicyEntry): seq<GenName>
    decreases e, 0
  {
    match e
    case PRef(_) => []
    case PPolicy(p) => [p.policyNs]
    case PPolicySet(c) => SetPaths(c)
  }

  /** No reference anywhere among the inline descendants. */
  predicate SetNoRefs(s: PolicySet)
    decreases s, 1
  {
    EntriesNoRefs(s.policies)
  }

  predicate EntriesNoRefs(es: seq<PolicyEntry>)
    decreases es, 1
  {
    |es| == 0 || (EntryNoRefs(es[0]) && EntriesNoRefs(es[1..]))
  }

  predicate EntryNoRefs(e: PolicyEntry)
    decreases e, 0
  {
    match e
    case PRef(_) => false
    case PPolicy(_) => true
    case PPolicySet(c) => SetNoRefs(c)
  }

  /** Every path is long enough to take an insertion at `idx`. */
  predicate AllReach(paths: seq<GenName>, idx: nat)
  {
    forall i :: 0 <= i < |paths| ==> idx <= |paths[i]|
  }

  /** Each path with slot `k` inserted at `idx`. */
  function InsertAll(paths: seq<GenName>, k: SlotId, idx: nat): (r: seq<GenName>)
    requires AllReach(paths, idx)
    ensures |r| == |paths|
    ensures forall i :: 0 <= i < |r| ==> r[i] == PushNameAtIndex(paths[i], k, idx)
  {
    seq(|paths|, i requires 0 <= i < |paths| => PushNameAtIndex(paths[i], k, idx))
  }

  lemma InsertAllConcat(a: seq<GenName>, b: seq<GenName>, k: SlotId, idx: nat)
    requires AllReach(a, idx) && AllReach(b, idx)
    ensures InsertAll(a + b, k, idx) == InsertAll(a, k, idx) + InsertAll(b, k, idx)
  {
    AllReachConcat(a, b, idx);
  }

  lemma AllReachConcat(a: seq<GenName>, b: seq<GenName>, idx: nat)
    ensures AllReach(a + b, idx) <==> AllReach(a, idx) && AllReach(b, idx)
  {
    if AllReach(a + b, idx) {
      assert forall i :: 0 <= i < |a| ==> a[i] == (a + b)[i];
      assert forall i :: 0 <= i < |b| ==> b[i] == (a + b)[|a| + i];
    }
  }

  // ----------------------------------------------------------------------
  // insert_ns_entry

  /** `Policy::insert_ns_entry`: one slot inserted into the policy's own
      path. The policy's rules keep their paths. */
  function InsertPolicyNs(p: Policy, k: SlotId, idx: nat): (r: Res<Policy>)
    ensures r.Ok? <==> idx <= |p.policyNs|
    ensures r.Err? ==> r.error == INSERT_PAST_END
    ensures r.Ok? ==> r.value.(policyNs := p.policyNs) == p
    ensures r.Ok? ==> |r.value.policyNs| == |p.policyNs| + 1 && r.value.policyNs[idx] == k
  {
    if idx <= |p.policyNs| then Ok(p.(policyNs := PushNameAtIndex(p.policyNs, k, idx)))
    else Err(INSERT_PAST_END)
  }

  /** `PolicySet::insert_ns_entry`: one slot inserted into the set's own
      path and, recursively, into the path of every inline descendant. It
      succeeds exactly when there is no reference anywhere below and every
      path reaches `idx`; then the paths are the old ones, each with `k`
      inserted at `idx`, and nothing but the paths changes. */
  function InsertSetNs(s: PolicySet, k: SlotId, idx: nat): (r: Res<PolicySet>)
    ensures r.Ok? <==> SetNoRefs(s) && AllReach(SetPaths(s), idx)
    ensures r.Err? ==> r.error in {INSERT_PAST_END, NESTED_REF}
    ensures r.Ok? ==> SetPaths(r.value) == InsertAll(SetPaths(s), k, idx)
    ensures r.Ok? ==> r.value.(policyNs := s.policyNs, policies := s.policies) == s
    decreases s, 1
  {
    AllReachConcat([s.policyNs], EntriesPaths(s.policies), idx);
    if idx > |s.policyNs| then Err(INSERT_PAST_END)
    else
      var children :- InsertEntriesNs(s.policies, k, idx, NESTED_REF);
      var r := s.(policyNs := PushNameAtIndex(s.policyNs, k, idx), policies := children);
      InsertAllConcat([s.policyNs], EntriesPaths(s.policies), k, idx);
      Ok(r)
  }

  /** The children `es`, each given the slot in order; `onRef` is the
      failure for a reference child. */
  function InsertEntriesNs(es: seq<PolicyEntry>, k: SlotId, idx: nat, onRef: ParseError): (r: Res<seq<PolicyEntry>>)
    ensures r.Ok? <==> EntriesNoRefs(es) && AllReach(EntriesPaths(es), idx)
    ensures r.Err? ==> r.error in {INSERT_PAST_END, onRef, NESTED_REF}
    ensures r.Ok? ==> EntriesPaths(r.value) == InsertAll(EntriesPaths(es), k, idx)
    ensures r.Ok? ==> |r.value| == |es|
    ensures r.Ok? ==> forall i :: 0 <= i < |es| && es[i].PPolicy? ==>
              && r.value[i].PPolicy? && idx <= |es[i].policy.policyNs|
              && r.value[i].policy == es[i].policy.(policyNs := PushNameAtIndex(es[i].policy.policyNs, k, idx))
    decreases es, 1
  {
    if |es| == 0 then Ok([])
    else
      AllReachConcat(EntryPaths(es[0]), EntriesPaths(es[1..]), idx);
      var e1 :- InsertEntryNs(es[0], k, idx, onRef);
      var rest :- InsertEntriesNs(es[1..], k, idx, onRef);
      assert ([e1] + rest)[0] == e1 && ([e1] + rest)[1..] == rest;
      assert forall i :: 1 <= i < |es| ==> ([e1] + rest)[i] == rest[i - 1] && es[i] == es[1..][i - 1];
      InsertAllConcat(EntryPaths(es[0]), EntriesPaths(es[1..]), k, idx);
      Ok([e1] + rest)
  }

  function InsertEntryNs(e: PolicyEntry, k: SlotId, idx: nat, onRef: ParseError): (r: Res<PolicyEntry>)
    ensures r.Ok? <==> EntryNoRefs(e) && AllReach(EntryPaths(e), idx)
    ensures r.Err? ==> r.error in {INSERT_PAST_END, onRef, NESTED_REF}
    ensures r.Ok? ==> EntryPaths(r.value) == InsertAll(EntryPaths(e), k, idx)
    decreases e, 0
  {
    match e
    case PRef(_) => Err(onRef)
    case PPolicy(p) =>
      assert [p.policyNs][0] == p.policyNs;
      var q :- InsertPolicyNs(p, k, idx);
      Ok(PPolicy(q))
    case PPolicySet(c) =>
      var d :- InsertSetNs(c, k, idx);
      Ok(PPolicySet(d))
  }

  // ----------------------------------------------------------------------
  // decondition

  /** The rewrite's result: the container and the arena with the new slots. */
  datatype Rewritten = Rewritten(container: PolicySet, arena: Arena)

  /** The `cond` policy: one anonymous Permit rule, with no target, holding
      `cond` as its condition; combined by permit-overrides. */
  function CondPolicy(ns: seq<string>, path: GenName, cond: Option<Condition>): Policy
  {
    var rule := RuleDef(None, ns, path, None, Permit, None, cond, []);
    Policy(PolicyName("cond"), ns, path, None, None, None, PERMIT_OVERRIDES_NAME, [RuleDefEntry(rule)], [])
  }

  /** The container: the entity's identity, namespace, path and description;
      no target, condition or prescriptions; on-permit-apply-second over
      `[cond, orig]`. */
  function Container(id: PolicyId, ns: seq<string>, path: GenName, description: Option<string>,
                     cond: Policy, orig: PolicyEntry): PolicySet
  {
    PolicySet(id, ns, path, description, None, None, ON_PERMIT_APPLY_SECOND_NAME, [PPolicy(cond), orig], [])
  }

  /** `Policy::decondition`. */
  function DeconditionPolicy(a: Arena, p: Policy): (r: Res<Rewritten>)
    ensures r.Err? <==> p.condition.None?
    ensures r.Err? ==> r.error == PolicyNoCondition
    ensures r.Ok? ==>
              var c := r.value.container;
              && c.id == p.id && c.ns == p.ns && c.policyNs == p.policyNs && c.description == p.description
              && c.target.None? && c.condition.None? && c.prescriptions == []
              && c.apply == ON_PERMIT_APPLY_SECOND_NAME
              && |c.policies| == 2 && c.policies[0].PPolicy? && c.policies[1].PPolicy?
    ensures r.Ok? ==>
              var cond := r.value.container.policies[0].policy;
              && cond.id == PolicyName("cond") && cond.ns == p.ns
              && cond.condition.None? && cond.target.None? && cond.apply == PERMIT_OVERRIDES_NAME
              && |cond.rules| == 1 && cond.rules[0].RuleDefEntry?
              && cond.rules[0].def.effect == Permit && cond.rules[0].def.id.None?
              && cond.rules[0].def.target.None? && cond.rules[0].def.condition == p.condition
              && cond.rules[0].def.policyNs == cond.policyNs
              && |cond.policyNs| == |p.policyNs| + 1 && cond.policyNs[..|p.policyNs|] == p.policyNs
              && Slot(r.value.arena, cond.policyNs[|p.policyNs|]) == Some("cond")
    ensures r.Ok? ==>
              var orig := r.value.container.policies[1].policy;
              && orig.id == PolicyName("orig") && orig.condition.None? && orig.description.None?
              && orig.(id := p.id, policyNs := p.policyNs, description := p.description, condition := p.condition) == p
              && |orig.policyNs| == |p.policyNs| + 1 && orig.policyNs[..|p.policyNs|] == p.policyNs
              && Slot(r.value.arena, orig.policyNs[|p.policyNs|]) == Some("orig")
    ensures r.Ok? && ValidArena(a) ==>
              ValidArena(r.value.arena) && forall k :: k in a.slots ==> Slot(r.value.arena, k) == Slot(a, k)
  {
    if p.condition.None? then Err(PolicyNoCondition)
    else
      var (a1, condSlot) := Alloc(a, Some("cond"));
      var (a2, origSlot) := Alloc(a1, Some("orig"));
      var cond := CondPolicy(p.ns, PushName(p.policyNs, condSlot), p.condition);
      var orig := p.(id := PolicyName("orig"), policyNs := PushName(p.policyNs, origSlot),
                     description := None, condition := None);
      Ok(Rewritten(Container(p.id, p.ns, p.policyNs, p.description, cond, PPolicy(orig)), a2))
  }

  /** `PolicySet::decondition`: as for a policy, with `orig` a policyset
      whose inline descendants all receive one shared, fresh "orig" slot
      right after the depth of the deconditioned set. */
  function DeconditionPolicySet(a: Arena, s: PolicySet): (r: Res<Rewritten>)
    ensures s.condition.None? ==> r == Err(PolicySetNoCondition)
    ensures s.condition.Some? ==>
              (r.Ok? <==> EntriesNoRefs(s.policies) && AllReach(EntriesPaths(s.policies), |s.policyNs|))
    ensures r.Err? && s.condition.Some? ==> r.error in {INSERT_PAST_END, TOP_REF, NESTED_REF}
    ensures r.Ok? ==>
              var c := r.value.container;
              && c.id == s.id && c.ns == s.ns && c.policyNs == s.policyNs && c.description == s.description
              && c.target.None? && c.condition.None? && c.prescriptions == []
              && c.apply == ON_PERMIT_APPLY_SECOND_NAME
              && |c.policies| == 2 && c.policies[0].PPolicy? && c.policies[1].PPolicySet?
    ensures r.Ok? ==>
              var cond := r.value.container.policies[0].policy;
              && cond.id == PolicyName("cond") && cond.apply == PERMIT_OVERRIDES_NAME
              && cond.condition.None? && cond.target.None?
              && |cond.rules| == 1 && cond.rules[0].RuleDefEntry?
              && cond.rules[0].def.effect == Permit && cond.rules[0].def.condition == s.condition
              && |cond.policyNs| == |s.policyNs| + 1 && cond.policyNs[..|s.policyNs|] == s.policyNs
              && Slot(r.value.arena, cond.policyNs[|s.policyNs|]) == Some("cond")
    ensures r.Ok? ==>
              var orig := r.value.container.policies[1].policySet;
              && orig.id == PolicyName("orig") && orig.condition.None? && orig.description.None?
              && orig.(id := s.id, policyNs := s.policyNs, description := s.description,
                       condition := s.condition, policies := s.policies) == s
              && |orig.policyNs| == |s.policyNs| + 1 && orig.policyNs[..|s.policyNs|] == s.policyNs
              && Slot(r.value.arena, orig.policyNs[|s.policyNs|]) == Some("orig")
              && |orig.policies| == |s.policies|
              && exists k :: Slot(r.value.arena, k) == Some("orig") && (ValidArena(a) ==> k !in a.slots)
                   && EntriesPaths(orig.policies) == InsertAll(EntriesPaths(s.policies), k, |s.policyNs|)
    ensures r.Ok? && ValidArena(a) ==>
              ValidArena(r.value.arena) && forall k :: k in a.slots ==> Slot(r.value.arena, k) == Slot(a, k)
  {
    if s.condition.None? then Err(PolicySetNoCondition)
    else
      var (a1, condSlot) := Alloc(a, Some("cond"));
      var (a2, origSlot) := Alloc(a1, Some("orig"));
      var (a3, shared) := Alloc(a2, Some("orig"));
      var origNs := PushName(s.policyNs, origSlot);
      var idx := PolicyLevel(origNs) - 1;
      match InsertEntriesNs(s.policies, shared, idx, TOP_REF)
      case Err(e) => Err(e)
      case Ok(children) =>
        var cond := CondPolicy(s.ns, PushName(s.policyNs, condSlot), s.condition);
        var orig := s.(id := PolicyName("orig"), policyNs := origNs, description := None,
                       condition := None, policies := children);
        Ok(Rewritten(Container(s.id, s.ns, s.policyNs, s.description, cond, PPolicySet(orig)), a3))
  }

  // ----------------------------------------------------------------------
  // What the rewrite means for names and combinators

  /** A path whose slots were all filled keeps its text when only slots
      outside it change. */
  lemma PathKeepsNames(a: Arena, b: Arena, path: GenName, sep: string)
    requires IsResolvable(a, path)
    requires forall k :: k in a.slots ==> Slot(b, k) == Slot(a, k)
    ensures BuildPath(b, path, sep) == BuildPath(a, path, sep)
  {
    assert forall i :: 0 <= i < |path| ==> path[i] in a.slots;
    assert IsResolvable(b, path);
    assert SlotNames(b, path) == SlotNames(a, path);
  }

  /** Naming a child one slot below a named parent adds "." and the slot's
      name to the parent's qualified name. */
  lemma ChildFqn(a: Arena, id: PolicyId, childId: PolicyId, ns: seq<string>, path: GenName, k: SlotId)
    requires !id.PolicyNoName? && !childId.PolicyNoName?
    requires IsResolvable(a, path) && |path| > 0 && Slot(a, k).Some?
    ensures EntityFqn(a, childId, ns, PushName(path, k)) == Some(EntityFqn(a, id, ns, path).value + "." + Slot(a, k).value)
  {
    PushNameResolvable(a, path, k, ".");
    var pp := BuildPath(a, path, ".").value;
    assert Join(ns, ".") + "." + (pp + "." + Slot(a, k).value) == Join(ns, ".") + "." + pp + "." + Slot(a, k).value;
  }

  /** The same, across an arena that only gained slots. */
  lemma ChildFqnAfter(a: Arena, b: Arena, id: PolicyId, childId: PolicyId, ns: seq<string>, path: GenName, k: SlotId)
    requires !id.PolicyNoName? && !childId.PolicyNoName?
    requires IsResolvable(a, path) && |path| > 0 && Slot(b, k).Some?
    requires forall j :: j in a.slots ==> Slot(b, j) == Slot(a, j)
    ensures EntityFqn(b, id, ns, path) == EntityFqn(a, id, ns, path)
    ensures EntityFqn(b, childId, ns, PushName(path, k)) == Some(EntityFqn(a, id, ns, path).value + "." + Slot(b, k).value)
  {
    PathKeepsNames(a, b, path, ".");
    ChildFqn(b, id, childId, ns, path, k);
  }

  /** A named, deconditioned policy keeps its qualified name on the
      container, and its two children are named `<name>.cond` and
      `<name>.orig`. */
  lemma DeconditionedPolicyNames(a: Arena, p: Policy)
    requires ValidArena(a) && p.condition.Some? && !p.id.PolicyNoName?
    requires IsResolvable(a, p.policyNs) && |p.policyNs| > 0
    ensures DeconditionPolicy(a, p).Ok?
    ensures var rw := DeconditionPolicy(a, p).value;
            && PolicySetFqn(rw.arena, rw.container) == PolicyFqn(a, p)
            && PolicyFqn(rw.arena, rw.container.policies[0].policy) == Some(PolicyFqn(a, p).value + ".cond")
            && PolicyFqn(rw.arena, rw.container.policies[1].policy) == Some(PolicyFqn(a, p).value + ".orig")
  {
    var (a1, condSlot) := Alloc(a, Some("cond"));
    var (a2, origSlot) := Alloc(a1, Some("orig"));
    var rw := DeconditionPolicy(a, p).value;
    assert rw.arena == a2;
    assert condSlot != origSlot && condSlot !in a.slots && origSlot !in a.slots;
    assert Slot(a2, condSlot) == Some("cond") && Slot(a2, origSlot) == Some("orig");
    assert forall j :: j in a.slots ==> Slot(a2, j) == Slot(a, j);
    assert rw.container.policies[0].policy.policyNs == PushName(p.policyNs, condSlot);
    assert rw.container.policies[1].policy.policyNs == PushName(p.policyNs, origSlot);
    ChildFqnAfter(a, a2, p.id, PolicyName("cond"), p.ns, p.policyNs, condSlot);
    ChildFqnAfter(a, a2, p.id, PolicyName("orig"), p.ns, p.policyNs, origSlot);
    assert rw.container.policies[0].policy.id == PolicyName("cond") && rw.container.policies[0].policy.ns == p.ns;
    assert PolicyFqn(a, p).value + "." + "cond" == PolicyFqn(a, p).value + ".cond";
    assert PolicyFqn(a, p).value + "." + "orig" == PolicyFqn(a, p).value + ".orig";
    assert rw.container.policies[1].policy.id == PolicyName("orig") && rw.container.policies[1].policy.ns == p.ns;
  }

  /** The algorithms the rewrite writes resolve, through the protected
      declarations, to on-permit-apply-second for the container and to
      rule-combining permit-overrides for `cond`. */
  lemma DeconditionedCombinatorsResolve(ctx: Context, a: Arena, p: Policy)
    requires Builtins.ProtectedReady(ctx) && p.condition.Some?
    ensures DeconditionPolicy(a, p).Ok?
    ensures var c := DeconditionPolicy(a, p).value.container;
            && LookupPolicyCombinator(ctx, c.apply, c.ns).Ok?
            && LookupPolicyCombinator(ctx, c.apply, c.ns).value.uri == ON_PERMIT_APPLY_SECOND
            && LookupRuleCombinator(ctx, c.policies[0].policy.apply, c.ns).Ok?
            && LookupRuleCombinator(ctx, c.policies[0].policy.apply, c.ns).value.uri == RULE_PERMIT_OVERRIDES
  {
    Builtins.ProtectedCombinatorsResolve(ctx, p.ns);
  }

  /** After deconditioning a policyset, a direct child policy that sat one
      slot below the set now sits one slot below `orig`: its path reads as
      `orig`'s path followed by its own name. */
  lemma DeconditionedChildUnderOrig(a: Arena, s: PolicySet, i: nat, sep: string)
    requires ValidArena(a) && s.condition.Some? && DeconditionPolicySet(a, s).Ok?
    requires i < |s.policies| && s.policies[i].PPolicy?
    requires var q := s.policies[i].policy.policyNs;
             |q| == |s.policyNs| + 1 && q[..|s.policyNs|] == s.policyNs && IsResolvable(a, q)
    ensures var rw := DeconditionPolicySet(a, s).value;
            var orig := rw.container.policies[1].policySet;
            var q := s.policies[i].policy.policyNs;
            && i < |orig.policies| && orig.policies[i].PPolicy?
            && BuildPath(rw.arena, orig.policies[i].policy.policyNs, sep)
               == BuildPath(rw.arena, PushName(orig.policyNs, q[|s.policyNs|]), sep)
  {
    var rw := DeconditionPolicySet(a, s).value;
    var orig := rw.container.policies[1].policySet;
    var q := s.policies[i].policy.policyNs;
    var n := |s.policyNs|;
    var (a1, condSlot) := Alloc(a, Some("cond"));
    var (a2, origSlot) := Alloc(a1, Some("orig"));
    var (a3, shared) := Alloc(a2, Some("orig"));
    var children := InsertEntriesNs(s.policies, shared, n, TOP_REF).value;
    assert rw.arena == a3 && orig.policies == children && orig.policyNs == PushName(s.policyNs, origSlot);
    var moved := children[i].policy.policyNs;
    assert moved == PushNameAtIndex(q, shared, n);
    var viaOrig := PushName(orig.policyNs, q[n]);
    assert |moved| == |viaOrig| == n + 2;
    assert q[n] in a.slots;
    forall j | 0 <= j < n + 2
      ensures Slot(a3, moved[j]) == Slot(a3, viaOrig[j])
    {
      if j < n {
        assert moved[j] == q[j] == s.policyNs[j] == viaOrig[j];
      }
    }
    assert IsResolvable(a3, moved) by {
      forall j | 0 <= j < n + 2 ensures Slot(a3, moved[j]).Some? {
        if j < n { assert moved[j] == q[j] && q[j] in a.slots; }
        else if j > n { assert moved[j] == q[n]; }
      }
    }
    assert SlotNames(a3, moved) == SlotNames(a3, viaOrig);
  }
}
