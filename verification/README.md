# a2x core model in Dafny

This project models the semantic core of a2x, a compiler from ALFA (the Abbreviated Language For
Authorization) to XACML 3.0 policies. The model covers the layer between the parse tree and the
XML writers. Every operation is a pure function over immutable datatypes. The compiler's shared
`Context` is an explicit record threaded through the functions, and each failure is an explicit
`Res` value. Rust panics (`panic!`, `todo!`, `unwrap`, `expect`, out-of-range `Vec::insert`)
become the `Panic` error, which every caller propagates.

The modules follow the program's structure:

| module | file | models |
|---|---|---|
| `Wrappers`, `Errors` | wrappers.dfy, errors.dfy | `Option`/`Result`, and the `ParseError` variants the core raises |
| `Strings` | strings.dfy | joining, splitting, trimming, decimal counters, and Rust debug quoting of strings |
| `Naming` | naming.dfy | `GenName` paths of shared name slots. Slots live in an arena (`map<nat, Option<string>>`) and a path is a `seq<nat>` of slot keys, so filling a slot is seen through every path holding it |
| `Decls` | decls.dfy | the declaration kinds and their fully qualified names |
| `StdDefs` | stddefs.dfy | the standard types, combining algorithms, categories and infix operators, plus the built-in functions and attributes the tests rely on |
| `Resolver` | resolver.dfy | `Resolver::register` and the six ordered lookup rules (child, root, static import relative and absolute, wildcard import relative and absolute), with per-import ambiguity |
| `CompilerContext` | context.dfy | the compiler context: resolvers, imports, per-namespace counters, used URIs, policy/policyset registration, typed literals, infix inverses |
| `Builtins` | builtins.dfy | `Context::new`, which registers the standard definitions and the protected combinators |
| `Conditions` | condition.dfy | the Pratt parser for condition expressions and its binding-power table |
| `Ast` | ast.dfy | policies, policysets, rules and references, with their qualified names, file names and ids |
| `Identity` | identity.dfy | deferred naming: `finalize_id` for anonymous policies and policysets, and rule ids |
| `Decondition` | decondition.dfy | rewriting a policy or policyset that has a condition into a condition-free policyset |
| `Namespaces` | namespace.dfy | the `Namespace` tree: `add_*`, `policies()`, `policysets()`, `dotted_name` |
| `ParseRules` | parserules.dfy | the rules the parser applies beyond the grammar: comment cleanup, dotted-name splitting, numeric literals, operators, and the duplicate and missing checks on infix, rule, policy and policyset bodies |
| `XConditions` | xcondition.dfy | typing of condition expressions, infix overload choice, bag lifting to any-of-any, and conversion to XACML |
| `XTargets` | xtarget.dfy | conversion of targets and matches, including operand reversal and signature choice |
| `XPrescriptions` | xprescription.dfy | conversion of obligations and advice, and the split by kind |
| `XPolicies` | xpolicy.dfy | conversion of rules, policies, policysets and policy entries, with deconditioning and reference resolution |
| `Render`, `RenderExamples` | render.dfy, render_examples.dfy | the ALFA text (`to_alfa`) and `Display` forms of constants, designators, conditions, functions, infix operators and declarations |

A `Policy`'s `apply` is modelled as an identifier string. The struct in `src/ast/policy.rs` declares
`apply: String`, but the parser and the converter use `apply.id` and `apply.src_loc`
(`src/ast/mod.rs:1699`, `src/xacml/xpolicy.rs:121`).

The parser uses the binding-power table with the `*` group binding tightest. That is the opposite
of the source's table; see "## Findings". The as-written table stays available, and the lemmas
listed there compare the two tables.

## Model

| member | source | states |
|---|---|---|
| Naming.Alloc | src/ast/naming.rs:16 | a new slot holds the given content, every other slot keeps its content, and in a valid arena the new slot was never allocated before |
| Naming.Fill | src/ast/naming.rs:90-97 | filling a slot changes that slot only, so the new name is seen through every path holding it |
| Naming.PushName | src/ast/naming.rs:24-26 | the path grows by one slot at the end and its earlier slots are unchanged |
| Naming.PushNameAtIndex | src/ast/naming.rs:38-40 | inserting at `idx <= len` puts the slot at `idx`, keeps the slots before it, and shifts the later ones one place right |
| Naming.CollectNames | src/ast/naming.rs:43-45 | collecting the slot contents succeeds exactly when every slot on the path is filled |
| Naming.BuildPath | src/ast/naming.rs:48-54 | the built path is present exactly when the path is resolvable, and is then the slot contents joined by the separator |
| Naming.LastElem | src/ast/naming.rs:58-60 | the last slot is absent exactly for the empty path, and is otherwise the final slot |
| Naming.PushNameResolvable | src/ast/naming.rs:24-54 | after a push the path is resolvable iff it was before and the pushed slot is filled, and the built path then gains the new name after one more separator |
| Naming.PushNameAtIndexNames | src/ast/naming.rs:38-54 | inserting a slot keeps resolvability iff the inserted slot is filled, and the names then appear with the new one at `idx` |
| Naming.FillIsShared | src/ast/naming.rs:16 | two paths sharing a slot both see the name written into it, and slots that differ from it keep their content |
| Naming.ResolvableScenario | src/ast/naming.rs:85-98 | an empty path is resolvable; pushing an empty slot makes it unresolvable; filling that slot makes it resolvable again |
| Decls.DottedName | src/ast/typedef.rs:33-40 | the qualified name starts with the joined namespace and a dot and ends with the id; for dot-free parts it splits back into the namespace (one empty part for the empty namespace) and the id |
| Decls.OptionallyDottedName | src/ast/function.rs:100-109 | with an empty namespace the name is the id alone; for dot-free parts it splits back into exactly the namespace and the id |
| Decls.QualifiedNameExamples | src/ast/operator.rs:37-54 | an operator with no namespace is qualified as itself, and `++` under `foo.bar` as `foo.bar.++` |
| Decls.DesignatorName | src/ast/designator.rs:15-19 | the designator's name splits back into its attribute components when they are dot-free |
| Decls.FunctionEqIsEquality | src/ast/function.rs:89-97 | comparing id, namespace, URI, inputs and output is exactly equality of function declarations |
| StdDefs.StandardTypeIdsDistinct | src/ast/typedef.rs:65-124 | the standard type ids are pairwise distinct |
| StdDefs.StandardTypesFacts | src/ast/typedef.rs:56-70 | every standard type lives in `_A2X`, and the first four are string, boolean, integer and double with their fixed URIs |
| StdDefs.ProtectedCombinatorFacts | src/ast/policycombinator.rs:69-90 | the protected policy-combining algorithms are exactly permitOverrides and onPermitApplySecond, the protected rule-combining algorithm is permitOverrides, and all live in the protected namespace |
| StdDefs.StandardCombinatorFacts | src/ast/policycombinator.rs:92-136 | there are nine distinct standard policy-combining algorithms and seven distinct rule-combining ones, all in `_A2X` |
| StdDefs.ProtectedNamesAreQualified | src/ast/policyset.rs:192 | the combining-algorithm names that deconditioning writes are the qualified names of the protected combinators |
| StdDefs.StandardCategoriesFacts | src/ast/category.rs:50-94 | there are eight distinct standard categories, all in `_A2X` |
| StdDefs.StandardInfixDistinct | src/ast/std_infix.rs:22-424 | the standard operators have distinct symbols and all live in `_A2X` |
| StdDefs.StandardInfixCommXorInverse | src/ast/std_infix.rs:22-424 | no standard operator is both commutative and declares an inverse |
| StdDefs.StandardInfixBagsBoolean | src/ast/std_infix.rs:22-298 | every signature of an operator that allows bags returns boolean |
| StdDefs.StandardInfixOperandsAgree | src/ast/std_infix.rs:26-424 | in every standard signature both operand types are equal |
| StdDefs.StandardInfixInverses | src/ast/std_infix.rs:159-297 | declared inverses pair `<` with `>` and `<=` with `>=`, in both directions |
| StdDefs.StandardInfixBagsAndReversal | src/ast/std_infix.rs:300-424 | exactly `==`, `<`, `>=`, `<=` and `>` allow bags, and `-` and `/` are neither commutative nor have an inverse |
| Resolver.Register | src/context.rs:137-156 | an element without a qualified name is a successful no-op; a named one fails with the DuplicateSymbol message exactly when its name is present, and otherwise is added under that name |
| Resolver.MatchOneAndOnly | src/context.rs:165-182 | no match falls through, exactly one match is returned, two or more give AmbiguousImport naming the first |
| Resolver.WildcardImports | src/context.rs:417-418 | the wildcard part of the partition holds only wildcard imports from the list |
| Resolver.StaticImports | src/context.rs:417-418 | the static part of the partition holds only non-wildcard imports from the list |
| Resolver.ImportsPartitionMembers | src/context.rs:417-418 | an import is in the static part iff it is in the list and is not a wildcard, and in the wildcard part iff it is in the list and is a wildcard |
| Resolver.ImportsPartition | src/context.rs:417-418 | the two parts together hold every import exactly as often as the list does (equal multisets, lengths adding up) |
| Resolver.ImportsPartitionConcat | src/context.rs:417-418 | both parts keep the list's order: partitioning a concatenation concatenates the partitions |
| Resolver.RuleMatches | src/context.rs:230-383 | the matches of one import rule are registered names, at most one per import |
| Resolver.RuleMatchesMembers | src/context.rs:230-383 | a name is a match of a rule iff it is registered and the rule's candidate for some import is that name |
| Resolver.RuleMatchesConcat | src/context.rs:230-383 | matches are collected in import order: the matches of a concatenation are the matches of its parts, in turn |
| Resolver.RuleMatchesSingle | src/context.rs:243-266 | one import contributes its candidate exactly when the candidate is registered |
| Resolver.LookupKey | src/context.rs:385-459 | a result is always a registered name; a child match wins, then a root match; with no imports an unresolved symbol is the not-found error |
| Resolver.LookupImports | src/context.rs:230-377 | rules 3 to 6 (static imports, then wildcards) answer only with a registered name |
| Resolver.Lookup | src/context.rs:385-459 | lookup succeeds exactly when a name is resolved, and returns the element registered under it |
| Resolver.RegisteredNameResolves | src/context.rs:137-459 | a name just registered is found again from any namespace, and resolves to the registered element unless a child match shadows it |
| Resolver.RegisterTwiceFails | src/context.rs:137-156 | registering the same qualified name a second time fails |
| Resolver.LookupKeyEndsWithSymbol | src/context.rs:184-383 | every resolution rule answers with a registered name that ends with the looked-up symbol |
| Resolver.StaticChildRuleDecides | src/context.rs:430-432 | when rules 1 and 2 miss and rule 3 has a match, rule 3 decides: one match is returned, more are ambiguous |
| Resolver.StaticQualifiedRuleDecides | src/context.rs:436-440 | when rules 1 to 3 miss and rule 4 has a match, rule 4 decides: one match is returned, more are ambiguous |
| Resolver.WildcardChildRuleDecides | src/context.rs:440-444 | when rules 1 to 4 miss and rule 5 has a match, rule 5 decides: one match is returned, more are ambiguous |
| Resolver.WildcardQualifiedRuleDecides | src/context.rs:444-448 | when rules 1 to 5 miss and rule 6 has a match, rule 6 decides: one match is returned, more are ambiguous |
| Resolver.NoRuleMatchesNotFound | src/context.rs:405-459 | with imports present and rules 1 and 2 missing, the lookup ends in the not-found error iff rules 3 to 6 all have no match |
| Resolver.TwoStaticImportsAreAmbiguous | src/context.rs:165-179 | two static imports that both name a registered child candidate make the lookup ambiguous, reporting the first candidate |
| Resolver.NoImportsOnlyDirectRules | src/context.rs:405-455 | without imports a lookup succeeds iff the child candidate or the symbol itself is registered |
| CompilerContext.BaseNamespace | src/context.rs:70-75 | the configured prefix when there is one, else the default identifier prefix |
| CompilerContext.NextId | src/context.rs:592-606 | one draw returns 0 for an unseen namespace and one more than the last value otherwise, and touches no other namespace |
| CompilerContext.DrawsCountUp | src/context.rs:592-606 | successive draws for a fresh namespace return 0, 1, 2, … and leave the counter at the last value drawn |
| CompilerContext.CountersIndependent | src/context.rs:601-605 | drawing for one namespace does not change the next draw for another |
| CompilerContext.NextRuleId | src/context.rs:592-606 | a rule id draw changes only the rule counters |
| CompilerContext.NextPolicyId | src/context.rs:609-615 | a policy id draw changes only the policy counters |
| CompilerContext.NextPolicySetId | src/context.rs:618-624 | a policyset id draw changes only the policyset counters |
| CompilerContext.CounterKindsIndependent | src/context.rs:592-624 | the rule, policy and policyset counters of one namespace start at 0 independently, and a second policy draw gives 1 |
| CompilerContext.RegisterImport | src/context.rs:740-750 | the import is appended to the list of the namespace's dotted name, a new list is created when there was none, and no other list changes |
| CompilerContext.GetImports | src/context.rs:753-769 | no imports at all gives none; without local imports the `_A2X` imports are active; local imports come first when present |
| CompilerContext.RegisteredImportIsActive | src/context.rs:740-769 | after registering an import, the active list is the earlier local imports, the new one, then the `_A2X` imports |
| CompilerContext.LookupInfixInverse | src/context.rs:972-1001 | a failed operator lookup is passed on; an operator without inverse gives InverseInfixNotFound; otherwise the inverse symbol is looked up from the same namespace |
| CompilerContext.ConstantToTypedLiteral | src/context.rs:1216-1254 | strings, integers, doubles and booleans get the fixed XSD URIs with the value verbatim (booleans as `true`/`false`), a custom literal takes its looked-up type's URI, and an undefined one is an AstConvertError |
| CompilerContext.RecordUri | src/context.rs:1085-1091 | an explicit URI already used anywhere is a DuplicateURI; a new one is recorded; a policy without explicit URI records nothing |
| CompilerContext.RegisterPolicy | src/context.rs:1075-1100 | a reused URI gives DuplicateURI, then a policyset of the same name gives DuplicatePolicyEntity; success adds the policy under its name and keeps policy and policyset names disjoint |
| CompilerContext.RegisterPolicySet | src/context.rs:1008-1049 | a successful registration only adds, records the URI, adds the policyset under a name that was neither a policy nor a policyset, and keeps the two kinds disjoint |
| CompilerContext.RegisterEntries | src/context.rs:1015-1028 | registering the inline children in order only adds to the context and keeps policy and policyset names disjoint |
| CompilerContext.UriIsGlobal | src/context.rs:1085-1091 | a second policy with the same explicit URI is refused with DuplicateURI |
| CompilerContext.PolicyThenPolicySetClash | src/context.rs:1040-1046 | a policyset whose name is already a policy is refused with DuplicatePolicyEntity |
| CompilerContext.PolicySetThenPolicyClash | src/context.rs:1092-1098 | a policy whose name is already a policyset is refused with DuplicatePolicyEntity |
| CompilerContext.ChildrenRegistered | src/context.rs:1015-1028 | every named inline policy or policyset child of a registered policyset is registered too |
| Namespaces.FromComponents | src/ast/namespace.rs:107-126 | a namespace built from its components has that path and no children, imports or declarations |
| Namespaces.RegisterDecl | src/ast/namespace.rs:145-296 | registering a declaration changes only its own kind's registry; for the non-policy kinds it fails with the DuplicateSymbol message exactly when the qualified name is taken, and otherwise adds that name |
| Namespaces.AddDecl | src/ast/namespace.rs:145-296 | an `add_*` fails exactly when registration fails, with the same error; on success the declaration is appended to its own kind's list and every other list, the path, children and imports are unchanged |
| Namespaces.AddTwiceFails | src/ast/namespace.rs:145-150 | adding the same named non-policy declaration twice fails the second time with DuplicateSymbol |
| Namespaces.AddImport | src/ast/namespace.rs:134-139 | the import is appended to the namespace's list and becomes active for lookups from it, after the earlier local imports and before the `_A2X` ones |
| Namespaces.AddNamespace | src/ast/namespace.rs:129-131 | a child namespace is appended and nothing else changes |
| Namespaces.AllPolicies | src/ast/namespace.rs:301-314 | the result starts with this level's policies, and a policy is in it iff it is at this level or in some child namespace's result |
| Namespaces.PolicySets | src/ast/namespace.rs:318-322 | a policyset is listed iff it is declared at this level |
| Namespaces.PolicySetsDoNotRecurse | src/ast/namespace.rs:301-322 | a policyset of a child namespace is not listed by its parent, although a policy of that child is |
| Namespaces.DottedName | src/ast/namespace.rs:325-332 | a root namespace's dotted name is its only component, and the empty path gives the empty name |
| Namespaces.DottedNameOfChild | src/ast/namespace.rs:330-332 | a child's dotted name is its parent's, a dot, and its own component |
| Namespaces.AddedPolicyListed | src/ast/namespace.rs:198-208 | an added policy is listed by `policies()`, right after the policies already at this level |
| Ast.EntityFqn | src/ast/policy.rs:68-85 | a policy's qualified name exists iff it is named and its path is resolvable, and is then the namespace and the path's names joined by dots |
| Ast.EntityFilename | src/ast/policy.rs:111-121 | the file name exists iff the last slot is filled, and is then the namespace, a dot, the last name and `.xml` |
| Ast.EntityId | src/ast/policy.rs:166-188 | with a resolvable path the id is the explicit URI if given, else the base prefix followed by the namespace and the path joined by `/`; with an unresolvable path it is a `urn:uuid:` id |
| Ast.RuleFqn | src/ast/rule.rs:155-174 | a rule's qualified name exists iff the rule has an id, ends with that id, and without a usable policy path is just the optionally dotted id |
| Ast.RuleRefFqn | src/ast/rule.rs:203-212 | a rule reference always has a qualified name, ending with its id |
| Ast.PolicyRefFqn | src/ast/policyset.rs:373-383 | a policy reference's name is the dotted namespace and id, with no dot when the joined namespace is empty |
| Ast.RuleDefEqIgnoresPath | src/ast/rule.rs:139-146 | two rules differing only in policy path and description are equal although their qualified names differ |
| Ast.TopLevelFqn | src/ast/policy.rs:68-85 | a named top-level policy with a filled slot is qualified as its namespace, a dot and its name |
| Ast.EntityFqnSplits | src/ast/policy.rs:68-85 | a qualified name splits at its dots back into the namespace and the path's names |
| Ast.EntityIdMirrorsFqn | src/ast/policy.rs:166-188 | for a named policy the generated id after the prefix has the same components, split at `/`, as its qualified name split at dots |
| Ast.FilenameIgnoresAncestors | src/ast/policy.rs:111-121 | the file name depends only on the last slot of the path |
| Ast.RuleFqnWithPath | src/ast/rule.rs:157-170 | with a resolvable non-empty policy path the name is the namespace, a dot when it is non-empty, the path, a dot and the id |
| Ast.RuleFqnExtendsPolicyFqn | src/ast/rule.rs:155-174 | in a non-empty namespace a rule's name is its policy's qualified name, a dot and the rule id |
| Ast.RuleFqnInEmptyNamespace | src/ast/rule.rs:155-174 | in the empty namespace a rule's name drops the leading dot its policy's name has |
| Ast.RuleRefNamesTopLevelRule | src/ast/rule.rs:203-212 | a reference by namespace and id names the same thing as a top-level rule with that id |
| Ast.PolicyRefNamesTopLevelPolicy | src/ast/policyset.rs:373-383 | a reference by namespace and name gives the qualified name of the top-level policy it refers to |
| Ast.PolicyRefEmptyComponent | src/ast/policyset.rs:373-383 | with a namespace of one empty component a policy's name has a leading dot but a reference's does not |
| Identity.FreshCount | src/ast/policy.rs:145-157 | the retry loop stops at a counter value at or after the next draw whose generated name is free, and every value skipped names a taken policy |
| Identity.FinalizeId | src/ast/policy.rs:138-162 | an empty path panics; a filled last slot changes nothing; otherwise the last slot gets the first generated name that the policy lookup cannot find, only that slot changes, and the kind's counter records the value used |
| Identity.FinalizeFirstDraw | src/ast/policy.rs:138-162 | a fresh namespace whose `policy_0` is free gets that name and leaves its counter at 0 |
| Identity.GeneratedNameInjective | src/ast/policy.rs:147 | different counter values give different generated names |
| Identity.FinalizedNamesDiffer | src/ast/policy.rs:138-162 | two anonymous policies finalised one after the other in the same namespace receive different names |
| Identity.PolicySetNameIgnoresPolicySets | src/ast/policyset.rs:104-129 | a policyset's generated name is checked against policies only, so `policyset_0` is chosen even when a policyset already has that name |
| Identity.MinimalPolicyNames | tests/policy.rs:19-57 | the first anonymous policy in `main` is named `policy_0`, with file name `main.policy_0.xml` and id prefix + `main/policy_0` |
| Identity.RuleParent | src/ast/rule.rs:100-107 | the rule's parent id exists iff the policy path is resolvable, and starts with the base prefix and the namespace joined by `/` |
| Identity.RuleParentIsPolicyId | src/ast/rule.rs:100-107 | the parent part of a rule's id is the id of the policy it sits in, when that policy has no explicit URI |
| Identity.RuleId | src/ast/rule.rs:77-135 | an unresolvable policy path panics; a named rule's id is the parent id, `/` and the name; an anonymous rule's id is the parent id and `#rule_<n>` with n drawn from the rule counter of its namespace |
| Identity.AnonymousRuleIdsDiffer | src/ast/rule.rs:108-117 | two id requests for the same anonymous rule give different ids |
| Identity.NamedRuleIdExample | src/ast/rule.rs:118-122 | a rule `r` under `ps` and `p` in `main` gets the id prefix + `main/ps/p/r` and draws nothing |
| Conditions.BindingPowerByGroup | src/ast/condition.rs:269-295 | the written table gives each operator group the powers of the mirrored rank: `\|` binds tightest and `*` loosest, the reverse of the corrected table; unknown symbols get (0, 0) in both |
| Conditions.ParseArgs | src/ast/condition.rs:186-200 | converting a call's argument list keeps one expression per argument, or fails |
| Conditions.ExprBp | src/ast/condition.rs:136-170 | a successful Pratt parse starts with an atom and consumes at least one item, never running past the end |
| Conditions.ExprLoop | src/ast/condition.rs:146-168 | the operator loop only moves forward through the items |
| Conditions.ParseCondition | src/ast/condition.rs:114-133 | with the corrected binding-power table (see "## Findings"): a condition converts iff its expression parses, keeps its namespace, and its tree walks through exactly the items it was given |
| Conditions.ParseConditionAsWritten | src/ast/condition.rs:114-133 | with the compiler's own table `operator_bp`: a condition converts iff its expression parses, keeps its namespace, and its tree walks through exactly the items it was given |
| Conditions.ParseConditionPlusTimes | src/ast/condition.rs:114-133 | `1 + 2 * 3` converts to `(1 + 2) * 3` with the compiler's table and to `1 + (2 * 3)` with the corrected one |
| Conditions.AtomToExprYield | src/ast/condition.rs:172-184 | converting an atom keeps its tokens in order |
| Conditions.ParseExprYield | src/ast/condition.rs:128-170 | a parsed expression reads back, left to right, as exactly the item sequence it came from, and the parse consumed every item |
| Conditions.ExprBpYield | src/ast/condition.rs:136-170 | each recursive parse yields exactly the items it consumed, and at power 0 it consumes them all |
| Conditions.ExprLoopYield | src/ast/condition.rs:146-168 | each loop step appends an operator and its right operand to the tree's yield in item order |
| Conditions.ThreeOperands | src/ast/condition.rs:136-170 | `a o1 b o2 c` groups to the left iff the second operator's left power is below the first's right power |
| Conditions.CorrectedPrecedence | src/ast/condition.rs:269-295 | with the corrected table, the operator of the tighter group binds first, and equal groups associate as the table's comments say |
| Conditions.AsWrittenPrecedence | src/ast/condition.rs:269-295 | with the table as written, the operator of the looser group binds first |
| Conditions.PlusTimesCounterexample | src/ast/condition.rs:285-292 | as written `1 + 2 * 3` parses as `(1 + 2) * 3`; corrected it parses as `1 + (2 * 3)` |
| Conditions.EqualsAndCounterexample | src/ast/condition.rs:273-284 | as written `1 == 2 && 3` parses as `1 == (2 && 3)`; corrected as `(1 == 2) && 3` |
| Conditions.AssociativityExamples | src/ast/condition.rs:269-295 | `+` chains associate to the left and `\|` chains to the right under both tables |
| Conditions.AmpersandChain | src/ast/condition.rs:273-275 | a chain of `&` nests to the right |
| Conditions.MalformedItems | src/ast/condition.rs:140-156 | an empty item list, a leading operator, two adjacent atoms and an atom followed by an empty item each fail with AstConvertError |
| Conditions.ParenthesisedGroup | src/ast/condition.rs:176 | a parenthesised group converts to the same tree as its contents |
| Decondition.InsertPolicyNs | src/ast/policy.rs:127-129 | inserting a slot into a policy's path fails iff the index is past the end; otherwise the path grows by one with the slot at that index, and nothing else changes |
| Decondition.InsertSetNs | src/ast/policyset.rs:61-81 | inserting into a policyset fails iff some nested entry is a reference or some path is too short; otherwise every path in the tree gets the slot at the same index |
| Decondition.InsertEntriesNs | src/ast/policyset.rs:66-80 | the children keep their count and kinds, and each inline policy's path gets the slot inserted |
| Decondition.InsertEntryNs | src/ast/policyset.rs:67-79 | one child entry fails on a reference and otherwise gets the slot in every path it contains |
| Decondition.DeconditionPolicy | src/ast/policy.rs:195-268 | a policy without a condition fails; otherwise the result is a policyset that keeps the policy's id, namespace, path and description, applies onPermitApplySecond, and holds a `cond` policy with one permit rule carrying the condition, followed by the original policy renamed `orig` without its condition, both one level below the container |
| Decondition.DeconditionPolicySet | src/ast/policyset.rs:160-289 | the same rewriting for a policyset, where every policy below the original also gets the `orig` slot inserted at the container's depth; it fails on a missing condition, a reference child or a too-short path |
| Decondition.DeconditionedPolicyNames | src/ast/policy.rs:195-268 | after deconditioning, the container keeps the policy's qualified name and its children are named `<name>.cond` and `<name>.orig` |
| Decondition.DeconditionedCombinatorsResolve | src/ast/policy.rs:218-250 | the container's and the `cond` policy's combining algorithms resolve to on-permit-apply-second and permit-overrides |
| Decondition.DeconditionedChildUnderOrig | src/ast/policyset.rs:263-285 | a direct child policy of the deconditioned policyset is placed one level under `orig` |
| XConditions.ResolveLiteralType | src/xacml/xcondition.rs:521-549 | a literal's type resolves for every built-in kind; a custom literal whose type exists hits the unimplemented panic |
| XConditions.FnOutputToResolved | src/xacml/xcondition.rs:497-519 | a function's declared output becomes an atomic or bag type with the looked-up URI, or the `anyAtomic` forms, and is a bag exactly for the bag forms |
| XConditions.CheckCompat | src/xacml/xcondition.rs:553-594 | an `anyAtomic` first operand panics; otherwise an operand is compatible iff, when atomic, its URI is the signature's |
| XConditions.SigCheck | src/xacml/xcondition.rs:305-335 | a signature check fails iff one of its three types cannot be looked up or the first operand is not concrete, and otherwise is the compatibility test |
| XConditions.FirstCompatible | src/xacml/xcondition.rs:305-335 | the search returns the first compatible signature after rejecting all earlier ones, or the first lookup error in order |
| XConditions.TypeForExpr | src/xacml/xcondition.rs:73-136 | attributes have bag types, infix expressions and literals atomic ones, and function references and empty expressions have no type |
| XConditions.SigAndTypeForInfix | src/xacml/xcondition.rs:141-205 | an infix expression's type comes from one of its operator's signatures, as the atomic looked-up output type |
| XConditions.ResolveInfixSignature | src/xacml/xcondition.rs:305-335 | the chosen signature is the first compatible one, and if none is compatible the result is InfixNoMatchingSignature |
| XConditions.CreateInfixApply | src/xacml/xcondition.rs:342-386 | atomic operands call the signature's function directly; a bag operand is lifted through any-of-any, only for operators allowing bags and with a boolean result, and otherwise fails with the matching error |
| XConditions.BagLift | src/xacml/xcondition.rs:358-378 | a permitted bag comparison becomes any-of-any over the signature's function and the operands, returning a boolean |
| XConditions.ExprToX | src/xacml/xcondition.rs:209-402 | literals become typed values, function references and calls use the looked-up URI with one argument per argument, attributes keep their flags, infix expressions become applies with two or three arguments, and empty expressions fail |
| XConditions.ArgsToX | src/xacml/xcondition.rs:234-253 | arguments convert one by one; the first failing one gives the error |
| XConditions.ConditionToX | src/xacml/xcondition.rs:38-63 | a condition converts iff its type is the atomic boolean and its expression converts; a non-boolean atomic type and a non-atomic type give the two source-located error messages |
| XConditions.LiteralTypeMatchesValue | src/xacml/xcondition.rs:73-136 | the type inferred for a literal is the type URI of the value it converts to |
| XConditions.SearchesAgree | src/xacml/xcondition.rs:141-205 | typing and conversion pick the same signature for an infix expression |
| XConditions.ConversionAgreesWithTyping | src/xacml/xcondition.rs:275-303 | a converted apply's return type is the type typing infers for the expression |
| XConditions.ConvertedConditionIsBoolean | src/xacml/xcondition.rs:38-63 | a converted condition is a boolean apply or a boolean value |
| XConditions.NonBooleanConditionRejected | src/xacml/xcondition.rs:43-56 | a string literal condition is refused with the type named in the message |
| XConditions.StringConditionRejected | src/xacml/xcondition.rs:43-56 | every string literal used as a condition is refused with "Conditions must evaluate to booleans" and the string type named |
| XConditions.BagConditionRejected | src/xacml/xcondition.rs:57-62 | a bag-valued condition is refused as non-atomic |
| XConditions.InfixBagConditionConverts | src/xacml/xcondition.rs:342-386 | `resourceId == stringBag("foo","bar")` converts to any-of-any over string-equal |
| XConditions.EqualsBagSearch | src/xacml/xcondition.rs:305-335 | for two string bags the first `==` signature, string-equal, is chosen |
| XConditions.EqualsBagTyped | src/xacml/xcondition.rs:141-205 | that comparison is typed as an atomic boolean |
| XConditions.EqualsBagConverted | src/xacml/xcondition.rs:275-303 | that comparison converts to the any-of-any apply with the attribute and the bag call |
| XConditions.InfixConversionSteps | src/xacml/xcondition.rs:275-303 | converting an infix expression is creating the apply from the resolved signature and the two converted operands |
| XConditions.ResourceIdOperand | src/xacml/xcondition.rs:255-273 | the `resourceId` attribute is a string bag and converts to its designator |
| XConditions.StringBagOperand | src/xacml/xcondition.rs:234-253 | `stringBag("foo","bar")` is a string bag and converts to the string-bag apply |
| XConditions.BooleanBagComparedAsString | src/xacml/xcondition.rs:553-594 | a boolean bag is accepted against a string signature, because bag operands are not compared by type |
| XTargets.InfixForMatch | src/xacml/xtarget.rs:176-193 | a normal match uses the operator found; a reversed one uses it when commutative, its inverse when it has one, and fails with ReversedInfixArgsNotCommutativeError exactly when it has neither |
| XTargets.SigFits | src/xacml/xtarget.rs:215-222 | a signature fits iff its first argument is the literal's type, its second the attribute's and its output boolean |
| XTargets.FirstFit | src/xacml/xtarget.rs:215-236 | the match uses the first fitting signature after all earlier ones are rejected, or the first lookup error in order |
| XTargets.AttributeType | src/xacml/xtarget.rs:197-200 | an attribute's type resolves iff the attribute and its type can be looked up |
| XTargets.MatchToXMatch | src/xacml/xtarget.rs:136-239 | a converted match carries the literal, the attribute's designator and the flags; a function match uses the function's URI, an operator match the chosen signature's; a reversal error and a missing signature give their errors |
| XTargets.AllOfToX | src/xacml/xtarget.rs:254-259 | every match converts, in order, or the first failure is the error |
| XTargets.AnyOfToX | src/xacml/xtarget.rs:251-261 | every conjunction converts, in order, or the first failure is the error |
| XTargets.ClausesToX | src/xacml/xtarget.rs:249-263 | every clause converts, in order, or the first failure is the error |
| XTargets.TargetToX | src/xacml/xtarget.rs:243-265 | the XACML target has the same nested shape as the source target, each match converted in the target's namespace, and any failure comes from some match |
| XTargets.TargetConverts | src/xacml/xtarget.rs:243-265 | a target whose matches all convert converts |
| XTargets.CommutativeReversalIgnored | src/xacml/xtarget.rs:180-181 | reversing a commutative operator's operands changes nothing |
| XTargets.ReversalUsesInverse | src/xacml/xtarget.rs:182-184 | a reversed non-commutative operator converts as its inverse in normal order |
| XTargets.ReversalWithoutInverseRejected | src/xacml/xtarget.rs:185-192 | a reversed operator with neither property is refused |
| XTargets.MinusCannotBeReversed | src/xacml/xtarget.rs:185-192 | with the standard operators, a reversed `-` match is refused |
| XTargets.ResourceIdMatchConverts | src/xacml/xtarget.rs:201-236 | `resourceId == "foo"` converts to a string-equal match on the resource-id designator |
| XTargets.ResourceIdTargetConverts | src/xacml/xtarget.rs:243-265 | a target with that single match converts to one AnyOf of one AllOf of that match |
| XPrescriptions.ByType | src/xacml/xprescription.rs:59-74 | the obligations are exactly the obligation entries and the advice exactly the advice entries, each in original order |
| XPrescriptions.OfTypeHasType | src/xacml/xprescription.rs:59-74 | every entry kept by a partition has that kind |
| XPrescriptions.PartitionIsPermutation | src/xacml/xprescription.rs:59-74 | the two partitions together are a permutation of the input |
| XPrescriptions.PrescriptionId | src/xacml/xprescription.rs:165-168 | an advice id is looked up as advice and an obligation id as an obligation, giving its URI |
| XPrescriptions.DesignatorToX | src/xacml/xprescription.rs:187-201 | an attribute source becomes a designator with the attribute's URI, category and type, and its flags |
| XPrescriptions.AssignmentToX | src/xacml/xprescription.rs:179-214 | an assignment names the destination attribute's URI and category, and carries a typed value or a designator for its source |
| XPrescriptions.AssignmentsToX | src/xacml/xprescription.rs:179-214 | assignments convert in order, or the first failure is the error |
| XPrescriptions.ExprToX | src/xacml/xprescription.rs:160-221 | an expression keeps its kind, takes the prescription's effect, its id and its assignments |
| XPrescriptions.PrescriptionToX | src/xacml/xprescription.rs:156-224 | one converted expression per source expression, in order, each with the prescription's effect |
| XPrescriptions.ExprsToX | src/xacml/xprescription.rs:160-221 | expressions convert in order, or the first failure is the error |
| XPrescriptions.SplitKeepsTypes | src/xacml/xprescription.rs:59-74 | after conversion the obligation and advice partitions have as many entries as the source had of each kind |
| XPolicies.EffectDisplay | src/ast/rule.rs:42-50 | the effect is written `Permit` exactly for permit and `Deny` exactly for deny |
| XPolicies.FinalizeGrows | src/ast/policy.rs:138-162 | finalising a name only fills slots and leaves the symbol tables alone |
| XPolicies.OptTargetToX | src/xacml/xrule.rs:34-39 | a missing target becomes the empty XACML target and a present one is converted |
| XPolicies.PrescriptionsToX | src/xacml/xrule.rs:44-55 | the converted prescriptions are flattened into one list with one entry per source expression, or the first failing prescription gives the error |
| XPolicies.RuleToX | src/xacml/xrule.rs:30-67 | a converted rule has the displayed effect, the description, the converted target and condition, and the rule's id; a failing condition is the error |
| XPolicies.RuleEntryToX | src/xacml/xpolicy.rs:133-154 | a rule definition converts in place; a rule reference is looked up by qualified name from the policy's namespace and gets a fresh `#rule_<n>` suffix |
| XPolicies.RulesToX | src/xacml/xpolicy.rs:132-157 | one XACML rule per entry, in order, each matching its entry |
| XPolicies.PolicyToX | src/xacml/xpolicy.rs:103-180 | a policy with a condition is refused and an empty path panics; otherwise the result has a file name, the finalised id, the description, the resolved rule-combining URI and one rule per entry, and the name slots only grow |
| XPolicies.MinimalPolicyConverts | tests/policy.rs:19-57 | the anonymous policy of a one-policy file converts to `main.policy_0.xml` with id prefix + `main/policy_0` |
| XPolicies.DeconditionSetLighter | src/xacml/xpolicyset.rs:118-124 | deconditioning a policyset yields a strictly smaller tree, so converting the result terminates |
| XPolicies.DeconditionPolicyLighter | src/xacml/xpolicyset.rs:223-232 | deconditioning a policy yields a strictly smaller tree |
| XPolicies.RefToX | src/xacml/xpolicyset.rs:149-177 | a reference resolves to a policyset first and to a policy otherwise, and refers to that entity's id as a policyset when it is one or has a condition; if neither is found the result is the "Could not find" error |
| XPolicies.SetToX | src/xacml/xpolicyset.rs:112-210 | a policyset with a condition is deconditioned and converted into two children under on-permit-apply-second; otherwise it gets a file name, its id, the resolved combining URI and one converted child per entry |
| XPolicies.EntriesToX | src/xacml/xpolicyset.rs:146-198 | children convert in order, each matching its entry |
| XPolicies.EntryToX | src/xacml/xpolicyset.rs:147-197 | a child converts as a reference, a policyset or a policy entry |
| XPolicies.PolicyEntryToX | src/xacml/xpolicyentry.rs:22-33 | a policy becomes a policy entry without a condition and a policyset entry with one |
| XPolicies.PolicyAsSetToX | src/xacml/xpolicyset.rs:223-232 | a policy without a condition is refused; with one it becomes a policyset of two policies |
| XPolicies.RefKindMatchesEntryKind | src/xacml/xpolicyset.rs:163-171 | a reference to a policy is a policyset reference exactly when that policy itself converts to a policyset |
| XPolicies.RefIdMatchesPolicyId | src/xacml/xpolicyset.rs:163-168 | a reference to a finalised condition-free policy carries the id that policy converts with |
| ParseRules.LineComment | src/ast/mod.rs:217-224 | a `//` comment cleans up iff it ends in a newline, to its text with surrounding whitespace removed; otherwise the unwrap panics |
| ParseRules.BlockComment | src/ast/mod.rs:225-233 | a `/* */` comment cleans up to its text with the stars and then the whitespace stripped from both ends |
| ParseRules.CommentCleanup | src/ast/mod.rs:217-234 | line comments and block comments are cleaned by their rule, and other text is kept |
| ParseRules.LineCommentExample | src/ast/tests.rs:14-18 | `// foo\n` cleans up to `foo` |
| ParseRules.UnterminatedLineCommentAborts | src/ast/mod.rs:219-223 | a line comment without a newline panics |
| ParseRules.BlockCommentExample | src/ast/tests.rs:20-24 | `/* foo bar */` cleans up to `foo bar` |
| ParseRules.StarredCommentExample | src/ast/tests.rs:32-36 | `/**** foo ********/` cleans up to `foo` |
| ParseRules.SplitDotted | src/ast/mod.rs:1742-1757 | the text splits into dot-free components whose dotted rejoining is the input; with no dot the path is empty |
| ParseRules.SplitDottedRoundTrip | src/ast/mod.rs:1742-1757 | splitting a dotted name gives back its components, the last one as the name |
| ParseRules.PolicyRefOf | src/ast/mod.rs:1456-1463 | a policy reference built from text rejoins to that text, and its qualified name is the text unless it starts with a dot |
| ParseRules.RuleRefOf | src/ast/mod.rs:1660-1677 | a rule reference built from text has that text as its qualified name |
| ParseRules.NumericLiteral | src/ast/mod.rs:917-926 | a numeric literal is a double iff it contains a dot, otherwise an integer, keeping its text |
| ParseRules.NumericLiteralExamples | src/ast/tests.rs:99-129 | `42` and `-42` are integers, `0.42` and `-.42` doubles |
| ParseRules.ProcessOperator | src/ast/mod.rs:629-644 | an operator identifier splits into a namespace and an operator without dots, and its qualified name is the text |
| ParseRules.ProcessOperatorExample | src/ast/tests.rs:350-363 | `main.foo.bar.+/` gives namespace main.foo.bar and operator `+/` |
| ParseRules.ScanInfix | src/ast/mod.rs:1113-1150 | the infix body scan succeeds iff no modifier and no operator name occurs twice; a repeated modifier is DuplicateInfixModifier, a repeated name the assert; the result holds the flags, the name, all signatures in order and the last inverse |
| ParseRules.ProcessInfix | src/ast/mod.rs:1113-1171 | an infix is never both commutative and inverted; a commutative one with an inverse is refused, one without a name is AstConvertError, and otherwise the modifiers become flags |
| ParseRules.CommutativeInverseExample | src/ast/mod.rs:1152-1157 | a commutative `<` with inverse `>` is refused |
| ParseRules.ScanRule | src/ast/mod.rs:528-568 | the rule body scan succeeds iff at most one effect, target and condition appear and nothing else unexpected; each duplicate has its own error; the result holds the items found and all prescriptions |
| ParseRules.ProcessRule | src/ast/mod.rs:487-586 | a rule is built iff the body scans and has exactly one effect, keeping its id, namespaces and description; a missing effect is AstConvertError |
| ParseRules.TwoEffectsRefused | src/ast/mod.rs:530-541 | a rule with both permit and deny is refused |
| ParseRules.EnterPolicy | src/ast/mod.rs:1523-1531 | entering a policy extends the path by one new slot, filled with its name or left empty when anonymous, touching no other slot, and registration is on only for named policies under registering parents |
| ParseRules.EnterChain | src/ast/mod.rs:1523-1531 | entering a chain of policies extends the path by one slot per policy |
| ParseRules.EnterChainRegisters | src/ast/mod.rs:1369-1377 | registration stays on only if every policy in the chain is named, and the path stays resolvable exactly then |
| ParseRules.ScanPolicy | src/ast/mod.rs:1587-1690 | the policy body scan keeps the last apply and one rule per rule item, each placed in the policy's namespace and path; a second target or condition is DuplicateCondition |
| ParseRules.ScanPolicyItem | src/ast/mod.rs:1587-1690 | one body item: an apply replaces the earlier one, a second target or condition is DuplicateCondition, a rule is appended with this policy's namespace and path, a misplaced rule name is an UnexpectedRuleError; the rules so far are kept |
| ParseRules.ProcessPolicy | src/ast/mod.rs:1491-1713 | a policy keeps its id, namespace and description, sits one slot below its parent, uses the last apply, has one rule per rule item, and is refused with the apply help text when no apply is given |
| ParseRules.DuplicatePolicyTarget | src/ast/mod.rs:1602-1608 | a policy with two targets is refused as DuplicateCondition |
| ParseRules.Children | src/ast/mod.rs:1422-1464 | one child entry per policy, policyset or reference item |
| ParseRules.ScanPolicySet | src/ast/mod.rs:1385-1475 | the policyset body scan succeeds iff at most one condition appears and nothing unexpected; it keeps the last apply, the last target and the children in order |
| ParseRules.ProcessPolicySet | src/ast/mod.rs:1341-1489 | a policyset is built iff the body scans and has an apply, keeping its id, namespace and description one slot below its parent; without an apply the help error is returned |
| ParseRules.PolicySetTargetReplaced | src/ast/mod.rs:1407-1410 | a second policyset target silently replaces the first |
| ParseRules.WithStartEnd | src/ast/mod.rs:148-155 | a span covers from start to end, and an end before the start overflows |
| Builtins.RegisterEach | src/context.rs:655-686 | registering a list keeps the registry's kind |
| Builtins.RegisterEachOk | src/context.rs:655-686 | registering distinct fresh names always succeeds, adds exactly those names with their entries, and keeps every earlier entry |
| Builtins.SystemSymbolResolves | src/context.rs:753-769 | a bare symbol registered under `_A2X` resolves from `_A2X` itself or from any namespace that has the default `_A2X.*` import |
| Builtins.ProtectedNameResolves | src/context.rs:631-642 | a fully qualified `_A2X.PROTECTED` name resolves to itself from any namespace, whatever the imports |
| Builtins.SystemNamesDistinct | src/ast/typedef.rs:56-64 | distinct ids give distinct `_A2X` qualified names |
| Builtins.SystemEntriesRegister | src/context.rs:655-686 | a list of distinct dot-free ids registers under `_A2X` without a clash and every entry is found under its name |
| Builtins.ProtectedEntriesRegister | src/context.rs:631-642 | the protected combinators register next to the standard ones without a clash and leave them in place |
| Builtins.StandardTypesRegister | src/context.rs:656-659 | every standard type registers |
| Builtins.StandardRuleCombinatorsRegister | src/context.rs:660-663 | every standard rule combinator registers |
| Builtins.StandardPolicyCombinatorsRegister | src/context.rs:664-667 | every standard policy combinator registers |
| Builtins.StandardCategoriesRegister | src/context.rs:668-671 | every standard category registers |
| Builtins.StandardInfixRegister | src/context.rs:672-675 | every standard operator registers |
| Builtins.StandardAttributesRegister | src/context.rs:676-679 | every built-in attribute registers |
| Builtins.StandardFunctionsRegister | src/context.rs:680-683 | every built-in function registers |
| Builtins.AddStandardDefsReady | src/context.rs:644-687 | adding the standard definitions to an empty context never fails, so the `expect` never fires |
| Builtins.AddStandardDefsTouchesTables | src/context.rs:644-687 | adding the standard definitions changes only the imports and the eight built-in tables |
| Builtins.AddProtectedDefsReady | src/context.rs:631-642 | adding the protected combinators never fails and keeps every earlier combinator |
| Builtins.NewContextWithBuiltins | src/context.rs:544-582 | a new context with built-ins enabled always builds, with the built-ins and the protected combinators |
| Builtins.NewContextWithoutBuiltins | src/context.rs:566-581 | with built-ins disabled the context still has the protected combinators and nothing else |
| Builtins.NewContextIsFresh | src/context.rs:544-565 | a new context keeps its configuration and has no policies, rules, used URIs or counters |
| Builtins.SystemEntryResolves | src/context.rs:753-769 | a built-in resolves by its bare name from any namespace |
| Builtins.BuiltinTypeResolves | src/ast/typedef.rs:66-80 | every standard type is found by its bare id |
| Builtins.BuiltinInfixResolves | src/ast/std_infix.rs:20-426 | every standard operator is found by its symbol |
| Builtins.BuiltinCategoryResolves | src/ast/category.rs:60-94 | every standard category is found by its bare id |
| Builtins.BuiltinFunctionResolves | src/ast/std_functions.rs:620-630 | every modelled built-in function, such as `stringBag`, is found by its bare id |
| Builtins.BuiltinAttributeResolves | src/ast/std_attributes.rs:101-106 | every modelled built-in attribute, such as `resourceId`, is found by its bare id |
| Builtins.BuiltinInverses | src/context.rs:972-1001 | `<` and `>`, `<=` and `>=` are each other's inverses, and `==` has none |
| Builtins.ProtectedCombinatorsResolve | src/context.rs:631-642 | the protected onPermitApplySecond and permitOverrides names resolve to their XACML URIs |
| Builtins.NoBuiltinTypes | src/context.rs:566-572 | with built-ins disabled no type can be found |
| Builtins.PrimitiveTypesResolve | src/ast/typedef.rs:66-80 | `string` and `boolean` resolve to the XML Schema URIs |
| Builtins.EqualsOperatorResolves | src/ast/std_infix.rs:20-30 | `==` is commutative, allows bags, and its first signature is string-equal |
| Builtins.ResourceIdResolves | src/ast/std_attributes.rs:101-106 | `resourceId` resolves to the XACML resource-id attribute in the resource category |
| Builtins.StringBagResolves | src/ast/std_functions.rs:620-630 | `stringBag` resolves to the string-bag function returning a string bag |
| Render.Indent | src/ast/category.rs:21 | indentation is two spaces per level and has no line break |
| Render.ConstantDisplay | src/ast/constant.rs:22-32 | a string is shown quoted so that unquoting gives it back, numbers as their digits, booleans as `true`/`false`, and other kinds as `unhandled` |
| Render.NumericDisplayRoundTrip | src/ast/constant.rs:22-32 | a displayed number reads back, through the literal rule, as the same constant |
| Render.DesignatorDisplay | src/ast/designator.rs:15-35 | a designator shows its dotted name, followed by its options in brackets only when it has any |
| Render.ReadOptionsRoundTrip | src/ast/designator.rs:21-33 | the displayed options read back as the mustbepresent flag and the issuer |
| Render.ExprDisplay | src/ast/condition.rs:60-82 | an expression displays iff it contains no empty node, whose display panics; literals and attributes show as themselves |
| Render.ArgsDisplay | src/ast/condition.rs:100-110 | the arguments display one by one, failing on an empty node |
| Render.ConditionDisplay | src/ast/condition.rs:29-39 | a condition displays iff its expression does, after `Condition: ` |
| Render.ParenthesesCountInfixNodes | src/ast/condition.rs:60-82 | a displayed literal tree has exactly one pair of parentheses per infix node |
| Render.InfixDisplayStep | src/ast/condition.rs:63-65 | an infix node shows as its operands around the operator's qualified name in parentheses |
| Render.LiteralConditionDisplay | src/ast/condition.rs:29-39 | a literal condition shows as `Condition: ` and the constant |
| Render.ReadInputArgRoundTrip | src/ast/function.rs:144-166 | an input argument reads back from its display exactly when its display is not also another argument's: it is not an atomic type named `anyAtomic`, `bag[anyAtomic]`, `anyAtomicOrBag`, `function` or `bag[...]`, and not a bag of a type named `anyAtomic` |
| Render.BagDisplayCollision | src/ast/function.rs:144-166 | a bag of a type named `anyAtomic` displays the same as the any-atomic bag |
| Render.ArgDisplays | src/ast/function.rs:70-76 | one display per argument, in order |
| Render.FunctionToAlfa | src/ast/function.rs:64-86 | an ALFA function line starts with the indent, the id and the quoted URI and ends with `-> ` and the output |
| Render.ArgsTextRoundTrip | src/ast/function.rs:70-76 | the argument text splits at spaces back into the arguments |
| Render.FunctionToAlfaPieces | src/ast/function.rs:64-86 | the line is the header, the arguments, `* ` for a wildcard and the output, in that order |
| Render.FunctionDisplay | src/ast/function.rs:123-141 | the debug display starts with `fn`, the id and the URI, ends with `==>` and the output, and between them holds the argument displays joined by `, `, followed by `*` exactly when the function takes a wildcard |
| Render.InfixToAlfa | src/ast/infix.rs:42-60 | an infix block starts with its header and ends with `}` and the inverse clause when there is one |
| Render.ReadInfixHeaderRoundTrip | src/ast/infix.rs:42-50 | the header reads back as the allowbags and comm flags and the operator |
| Render.InfixLineCount | src/ast/infix.rs:42-93 | an infix block is one line per signature plus the header and the footer |
| Render.DeclDisplayRoundTrip | src/ast/category.rs:43-48 | a `Kind: "id" => uri` display starts with the kind and the quoted id, and the URI can be read back from it |
| Render.CategoryDisplay | src/ast/category.rs:43-48 | a category's display starts `Category: "id" => ` and the URI reads back from the rest |
| Render.AttributeDisplay | src/ast/attribute.rs:53-58 | an attribute's display starts `Attribute: "id" => ` and the URI reads back from the rest |
| Render.AdviceDisplay | src/ast/advice.rs:43-48 | an advice's display starts `Advice: "id" => ` and the URI reads back from the rest |
| Render.ObligationDisplay | src/ast/obligation.rs:33-38 | an obligation's display starts `Obligation: "id" => ` and the URI reads back from the rest |
| Render.CategoryToAlfa | src/ast/category.rs:19-25 | a category is exactly one line |
| Render.AttributeToAlfa | src/ast/attribute.rs:22-35 | an attribute is exactly five lines: the opening, id, type, category and the closing brace |
| RenderExamples.DesignatorDisplayExample | src/ast/tests.rs:505-551 | `main.subjectName` with mustbepresent and issuer `foo` shows as `main.subjectName[mustbepresent issuer="foo"]` |
| RenderExamples.StringConditionExample | src/ast/tests.rs:365-400 | a string literal condition shows as `Condition: "foo"` |
| RenderExamples.NumberConditionExamples | src/ast/tests.rs:365-400 | integer, double and boolean literal conditions show as their text |
| RenderExamples.FunctionToAlfaExample | src/ast/function.rs:172-200 | the sample function with all six argument kinds, a wildcard and a string-bag output renders as the expected line |
| Strings.SplitJoin | src/ast/mod.rs:1742-1757 | splitting at a character and joining with it gives the text back |
| Strings.JoinSplit | src/ast/mod.rs:1742-1757 | joining parts free of the separator and splitting again gives the parts back |
| Strings.NatToStringRoundTrip | src/ast/rule.rs:125 | the decimal text of a counter reads back as that counter |
| Strings.NatToStringInjective | src/ast/policy.rs:147 | different counters give different decimal texts |
| Strings.DebugQuoteRoundTrip | src/ast/constant.rs:25 | a string shown with Rust debug quoting unquotes back to itself |

## Left out

- Pest parsing: the grammar and the `Pairs` walking in `src/ast/mod.rs` are not modelled. The body scans (`ScanRule`, `ScanPolicy`, `ScanPolicySet`, `ScanInfix`) take an abstract list of already-parsed body items.
- Parsing of child policies and rules inside bodies: children arrive already built, and the model covers only the path threading and the registration flag.
- Comments inside bodies are dropped by the grammar walk, so they are not item kinds.
- XML emission: every `write_xml` and the `xml-rs` writers are out. The XACML side exists only as datatypes.
- `src/lib.rs`, `src/main.rs`, `src/args.rs`, `Context::serialize_builtins` and the `a2x-derive` macro are out: these are I/O and orchestration.
- Source locations and logging: `SrcLoc` is opaque. Located errors keep their help text and label only. `WithStartEnd` models only the span arithmetic.
- UUID ids: `Uuid::now_v7()` is nondeterministic, so its value is an explicit `uuid` parameter. It is only reached when a path cannot be resolved.
- `std_functions.rs` and `std_attributes.rs` are large data tables. Only the entries the tests use are modelled: stringBag, booleanOneAndOnly, booleanBag, anyOf, anyOfAny, subjectId and resourceId.
- `ContextMissing`: upgrading the `Weak` context reference cannot fail here, because the context is passed explicitly.
- `Context::get_fresh_id` is out: it is deprecated and the core does not call it.
- The `pretty_print` debugging helpers are out.
- The Debug form of `Option<String>` inside the AmbiguousImport message is out: the error carries the key of the first match.
- Rust's debug escaping of control characters as `\u{..}` is out. `Strings.DebugQuote` escapes quotes, backslashes and the common control characters only.
- Partial state on error: the source may push an entity into a namespace list, or register a policyset's children, before a later step fails. The model returns only the error. The compiler aborts on any such error, so the partial state is never observed.
- The lemmas about deconditioning and name growth assume `ValidArena`: every slot key in use is below the arena's next key. Every arena the model builds satisfies this; it is not a condition in the source.
- `Condition` equality ignores the context. The context is not part of the model's `Condition`, so plain datatype equality is that comparison.
- `FunctionTypeResolved::is_atomic` is the negation of `XConditions.IsBag`, so it is not defined separately.
- Termination: the conversion of policysets recurses through deconditioning. Termination rests on a weight that deconditioning strictly lowers (`XPolicies.DeconditionSetLighter`), not on a fuel bound.
- Conditions.ParseCondition: uses the corrected binding-power table, not the compiler's `operator_bp`, so it does not promise the compiler's grouping. `Conditions.ParseConditionAsWritten` is the conversion as written; the two differ on mixed operator groups such as `1 + 2 * 3` (see "## Findings").
- Integer width: `ParseRules.WithStartEnd` fails where `end_pos - start_pos` would underflow, as a debug build panics; a release build would wrap that `usize` subtraction (`src/ast/mod.rs:151`). The `usize` rule, policy and policyset id counters of `src/context.rs:592-624` are unbounded naturals, so their overflow is not modelled.
- ParseRules.PolicyRefOf: for text that starts with a dot, it states only that the reference rejoins to the text, not the qualified name. That qualified name drops the leading empty component.

## Findings

| source | as written | input that shows it | evidently intended | confidence | as-written member | corrected member |
|---|---|---|---|---|---|---|
| src/ast/condition.rs:269-295 | `operator_bp` gives `\|` the highest binding power (12, 11) and `*`, `/`, `%` the lowest (1, 2). In a Pratt parser a higher power binds tighter, so multiplication binds more loosely than addition, and `==` more loosely than `&&` | `1 + 2 * 3` parses as `(1 + 2) * 3`, and `1 == 2 && 3` as `1 == (2 && 3)` | the groups bind in the opposite order: `*` tightest, then `+`, `@`/`^`, comparisons, `&`, and `\|` loosest, each group keeping the associativity its comment states | not executed; the counterexample parses are proved | Conditions.AsWrittenPrecedence, Conditions.PlusTimesCounterexample | Conditions.CorrectedPrecedence |
