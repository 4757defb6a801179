/** Creating a context (`Context::new`): the `_A2X` wildcard import and
    the standard declarations when built-ins are enabled, then the
    protected combining algorithms. Registration of these tables cannot
    fail, and afterwards every built-in is found by its bare name from any
    namespace, and the protected combinators by their qualified names. */
module Builtins {
  import opened Wrappers
  import opened Errors
  import opened Strings
  import opened Decls
  import opened Resolver
  import opened StdDefs
  import opened CompilerContext

  /** Register named elements in order, stopping at the first failure. */
  function RegisterEach<T>(r: Resolver<T>, named: seq<(string, T)>): (res: Res<Resolver<T>>)
    ensures res.Ok? ==> res.value.kind == r.kind
    decreases |named|
  {
    if |named| == 0 then Ok(r)
    else
      var r1 :- RegisterEach(r, named[..|named| - 1]);
      Register(r1, Some(named[|named| - 1].0), named[|named| - 1].1)
  }

  function Names<T>(named: seq<(string, T)>): (r: seq<string>)
    ensures |r| == |named| && forall i :: 0 <= i < |named| ==> r[i] == named[i].0
  {
    seq(|named|, i requires 0 <= i < |named| => named[i].0)
  }

  /** Distinct new names all register, each to its element, and nothing
      registered before changes. */
  lemma {:induction false} RegisterEachOk<T>(r: Resolver<T>, named: seq<(string, T)>)
    requires Distinct(Names(named))
    requires forall i :: 0 <= i < |named| ==> named[i].0 !in r.elements
    ensures RegisterEach(r, named).Ok?
    ensures forall k :: k in RegisterEach(r, named).value.elements <==> k in r.elements || k in Names(named)
    ensures forall i :: 0 <= i < |named| ==> RegisterEach(r, named).value.elements[named[i].0] == named[i].1
    ensures forall k :: k in r.elements ==> RegisterEach(r, named).value.elements[k] == r.elements[k]
    decreases |named|
  {
    if |named| > 0 {
      var init := named[..|named| - 1];
      var last := named[|named| - 1];
      var ns := Names(named);
      assert Names(init) == ns[..|named| - 1];
      RegisterEachOk(r, init);
      var r1 := RegisterEach(r, init).value;
      assert last.0 !in Names(init) by {
        forall j | 0 <= j < |init| ensures Names(init)[j] != last.0 {
          assert ns[j] != ns[|named| - 1];
        }
      }
      var m := r1.elements[last.0 := last.1];
      assert RegisterEach(r, named) == Ok(Resolver(r1.kind, m));
      assert ns == Names(init) + [last.0];
      assert forall k :: k in ns <==> k in Names(init) || k == last.0;
      forall i | 0 <= i < |named| ensures m[named[i].0] == named[i].1 {
        if i < |named| - 1 {
          assert ns[i] != ns[|named| - 1];
          assert init[i] == named[i];
        }
      }
    }
  }

  /** A name in `_A2X`: the namespace, ".", one dot-free component. */
  predicate SystemKey(k: string)
  {
    |k| >= 5 && k[..5] == SYSTEM_NS + "." && '.' !in k[5..]
  }

  /** A name in `_A2X.PROTECTED`: the namespace, ".", one dot-free
      component. */
  predicate ProtectedKey(k: string)
  {
    |k| >= 15 && k[..15] == PROTECTED_NS + "." && '.' !in k[15..]
  }

  /** The characters after the last "." of `x + "." + s` are those of a
      dot-free `s`. */
  lemma DotFreeSuffix(w: string, x: string, s: string)
    requires w == x + "." + s && '.' !in s
    ensures |w| > |s| && w[|w| - |s| - 1] == '.' && w[|w| - |s|..] == s
    ensures forall i :: |w| - |s| <= i < |w| ==> w[i] != '.'
  {
    forall i | |w| - |s| <= i < |w| ensures w[i] != '.' {
      assert w[i] == s[i - (|w| - |s|)];
    }
  }

  /** Two texts ending in a "." and a dot-free last component agree on
      both parts. */
  lemma LastSegment(x: string, s: string, y: string, t: string)
    requires x + "." + s == y + "." + t
    requires '.' !in s && '.' !in t
    ensures s == t && x == y
  {
    var w := x + "." + s;
    DotFreeSuffix(w, x, s);
    DotFreeSuffix(w, y, t);
    assert |s| == |t|;
    assert x == w[..|x|] == y;
  }

  lemma SystemKeySplit(k: string)
    requires SystemKey(k)
    ensures k == SYSTEM_NS + "." + k[5..]
  {
    assert k == k[..5] + k[5..];
  }

  lemma ProtectedKeySplit(k: string)
    requires ProtectedKey(k)
    ensures k == PROTECTED_NS + "." + k[15..]
  {
    assert k == k[..15] + k[15..];
  }

  /** The `_A2X` wildcard import on its own. */
  function SystemImports(): seq<Import>
  {
    [Import([SYSTEM_NS], true)]
  }

  /** In a registry of `_A2X` names, a dot-free symbol declared in `_A2X`
      resolves to that declaration from every namespace whose active
      imports are just the `_A2X` wildcard, and also from `_A2X` itself
      (where the child rule finds it first). */
  lemma {:induction false} SystemSymbolResolves<T>(r: Resolver<T>, symbol: string, sourceNs: seq<string>, imports: Option<seq<Import>>)
    requires '.' !in symbol
    requires forall k :: k in r.elements ==> SystemKey(k)
    requires SYSTEM_NS + "." + symbol in r.elements
    requires Join(sourceNs, ".") == SYSTEM_NS || imports == Some(SystemImports())
    ensures LookupKey(r, symbol, sourceNs, imports) == Ok(SYSTEM_NS + "." + symbol)
  {
    var j := Join(sourceNs, ".");
    var c1 := ChildCandidate(symbol, sourceNs);
    if c1 in r.elements {
      SystemKeySplit(c1);
      LastSegment(j, symbol, SYSTEM_NS, c1[5..]);
    } else {
      assert j != SYSTEM_NS;
      assert symbol !in r.elements by {
        assert forall k :: k in r.elements ==> k[4] == '.';
        assert forall i :: 0 <= i < |symbol| ==> symbol[i] != '.';
      }
      var i := Import([SYSTEM_NS], true);
      assert StaticImports([i]) == [] by {
        assert [i][..0] == [];
      }
      assert WildcardImports([i]) == [i] by {
        assert [i][..0] == [];
      }
      assert RuleMatches(r, 3, symbol, sourceNs, []) == [];
      assert RuleMatches(r, 4, symbol, sourceNs, []) == [];
      assert Join(i.components, ".") == SYSTEM_NS;
      var c5 := j + "." + SYSTEM_NS + "." + symbol;
      assert ImportCandidate(5, symbol, sourceNs, i) == Some(c5);
      if c5 in r.elements {
        SystemKeySplit(c5);
        LastSegment(j + "." + SYSTEM_NS, symbol, SYSTEM_NS, c5[5..]);
        assert false;
      }
      assert [i][..0] == [];
      assert RuleMatches(r, 5, symbol, sourceNs, [i]) == [];
      assert ImportCandidate(6, symbol, sourceNs, i) == Some(SYSTEM_NS + "." + symbol);
      assert RuleMatches(r, 6, symbol, sourceNs, [i]) == [SYSTEM_NS + "." + symbol];
    }
  }

  /** In a registry of `_A2X` and `_A2X.PROTECTED` names, a protected name
      written in full resolves to itself from every namespace, by the root
      rule. */
  lemma ProtectedNameResolves<T>(r: Resolver<T>, id: string, sourceNs: seq<string>, imports: Option<seq<Import>>)
    requires '.' !in id
    requires forall k :: k in r.elements ==> SystemKey(k) || ProtectedKey(k)
    requires PROTECTED_NS + "." + id in r.elements
    ensures LookupKey(r, PROTECTED_NS + "." + id, sourceNs, imports) == Ok(PROTECTED_NS + "." + id)
  {
    var symbol := PROTECTED_NS + "." + id;
    var j := Join(sourceNs, ".");
    var c1 := ChildCandidate(symbol, sourceNs);
    assert c1 == (j + "." + PROTECTED_NS) + "." + id;
    if c1 in r.elements {
      if SystemKey(c1) {
        SystemKeySplit(c1);
        LastSegment(j + "." + PROTECTED_NS, id, SYSTEM_NS, c1[5..]);
      } else {
        ProtectedKeySplit(c1);
        LastSegment(j + "." + PROTECTED_NS, id, PROTECTED_NS, c1[15..]);
      }
      assert false;
    }
  }

  /** The entries each standard table is registered with. */
  function TypeEntries(ts: seq<TypeDef>): (r: seq<(string, TypeDef)>)
    ensures |r| == |ts| && forall i :: 0 <= i < |ts| ==> r[i] == (TypeDefName(ts[i]), ts[i])
  {
    seq(|ts|, i requires 0 <= i < |ts| => (TypeDefName(ts[i]), ts[i]))
  }

  function RuleCombEntries(cs: seq<RuleCombinator>): (r: seq<(string, RuleCombinator)>)
    ensures |r| == |cs| && forall i :: 0 <= i < |cs| ==> r[i] == (RuleCombinatorName(cs[i]), cs[i])
  {
    seq(|cs|, i requires 0 <= i < |cs| => (RuleCombinatorName(cs[i]), cs[i]))
  }

  function PolicyCombEntries(cs: seq<PolicyCombinator>): (r: seq<(string, PolicyCombinator)>)
    ensures |r| == |cs| && forall i :: 0 <= i < |cs| ==> r[i] == (PolicyCombinatorName(cs[i]), cs[i])
  {
    seq(|cs|, i requires 0 <= i < |cs| => (PolicyCombinatorName(cs[i]), cs[i]))
  }

  function CategoryEntries(cs: seq<Category>): (r: seq<(string, Category)>)
    ensures |r| == |cs| && forall i :: 0 <= i < |cs| ==> r[i] == (CategoryName(cs[i]), cs[i])
  {
    seq(|cs|, i requires 0 <= i < |cs| => (CategoryName(cs[i]), cs[i]))
  }

  function InfixEntries(os: seq<Infix>): (r: seq<(string, Infix)>)
    ensures |r| == |os| && forall i :: 0 <= i < |os| ==> r[i] == (InfixName(os[i]), os[i])
  {
    seq(|os|, i requires 0 <= i < |os| => (InfixName(os[i]), os[i]))
  }

  function AttributeEntries(as_: seq<Attribute>): (r: seq<(string, Attribute)>)
    ensures |r| == |as_| && forall i :: 0 <= i < |as_| ==> r[i] == (AttributeName(as_[i]), as_[i])
  {
    seq(|as_|, i requires 0 <= i < |as_| => (AttributeName(as_[i]), as_[i]))
  }

  function FunctionEntries(fs: seq<Function>): (r: seq<(string, Function)>)
    ensures |r| == |fs| && forall i :: 0 <= i < |fs| ==> r[i] == (FunctionName(fs[i]), fs[i])
  {
    seq(|fs|, i requires 0 <= i < |fs| => (FunctionName(fs[i]), fs[i]))
  }

  /** `add_standard_defs`: the `_A2X` wildcard import, then types, rule
      combinators, policy combinators, categories, operators, attributes
      and functions, in that order. */
  function AddStandardDefs(c: Context): Res<Context>
  {
    var c1 := RegisterImport(c, [SYSTEM_NS], Import([SYSTEM_NS], true));
    var types :- RegisterEach(c1.types, TypeEntries(StandardTypes()));
    var rcs :- RegisterEach(c1.ruleCombinators, RuleCombEntries(StandardRuleCombinators()));
    var pcs :- RegisterEach(c1.policyCombinators, PolicyCombEntries(StandardPolicyCombinators()));
    var cats :- RegisterEach(c1.categories, CategoryEntries(StandardCategories()));
    var ops :- RegisterEach(c1.infixes, InfixEntries(StandardInfix()));
    var attrs :- RegisterEach(c1.attributes, AttributeEntries(FixtureAttributes()));
    var fns :- RegisterEach(c1.functions, FunctionEntries(FixtureFunctions()));
    Ok(c1.(types := types, ruleCombinators := rcs, policyCombinators := pcs, categories := cats,
           infixes := ops, attributes := attrs, functions := fns))
  }

  /** `add_protected_defs`. */
  function AddProtectedDefs(c: Context): Res<Context>
  {
    var pcs :- RegisterEach(c.policyCombinators, PolicyCombEntries(ProtectedPolicyCombinators()));
    var rcs :- RegisterEach(c.ruleCombinators, RuleCombEntries(ProtectedRuleCombinators()));
    Ok(c.(policyCombinators := pcs, ruleCombinators := rcs))
  }

  /** `Context::new`; a failure to add the tables is a panic (`expect`). */
  function NewContext(cfg: Config): Res<Context>
  {
    var c := EmptyContext(cfg);
    var c1 :-
      if cfg.enableBuiltins then
        match AddStandardDefs(c)
        case Ok(x) => Ok(x)
        case Err(_) => Err(Panic("adding standard imports failed"))
      else Ok(c);
    match AddProtectedDefs(c1)
    case Ok(x) => Ok(x)
    case Err(_) => Err(Panic("adding protected imports failed"))
  }

  function SysName(id: string): string
  {
    SYSTEM_NS + "." + id
  }

  lemma SysNameInjective(a: string, b: string)
    requires SysName(a) == SysName(b)
    ensures a == b
  {
    assert a == SysName(a)[5..];
  }

  lemma SysNameIsSystemKey(id: string)
    requires '.' !in id
    ensures SystemKey(SysName(id)) && SysName(id)[5..] == id
  {
  }

  /** Names of distinct dot-free ids declared in `_A2X` are distinct
      `_A2X` names. */
  lemma SystemNamesDistinct(ids: seq<string>, names: seq<string>)
    requires |names| == |ids| && Distinct(ids)
    requires forall i :: 0 <= i < |ids| ==> names[i] == SysName(ids[i])
    ensures Distinct(names)
  {
    forall i, j | 0 <= i < j < |names| ensures names[i] != names[j] {
      if names[i] == names[j] { SysNameInjective(ids[i], ids[j]); }
    }
  }

  lemma SystemDottedName(ns: seq<string>, id: string)
    requires ns == [SYSTEM_NS]
    ensures DottedName(ns, id) == SysName(id) && OptionallyDottedName(ns, id) == SysName(id)
  {
  }

  /** Every key of the registry is an `_A2X` name. */
  predicate SystemRegistry<T>(r: Resolver<T>)
  {
    forall k :: k in r.elements ==> SystemKey(k)
  }

  /** Every key of the registry is an `_A2X` or an `_A2X.PROTECTED` name. */
  predicate SystemOrProtectedRegistry<T>(r: Resolver<T>)
  {
    forall k :: k in r.elements ==> SystemKey(k) || ProtectedKey(k)
  }

  /** Each entry is registered under its name. */
  ghost predicate RegistersAll<T>(r: Resolver<T>, named: seq<(string, T)>)
  {
    forall i :: 0 <= i < |named| ==> named[i].0 in r.elements && r.elements[named[i].0] == named[i].1
  }

  function ProtName(id: string): string
  {
    PROTECTED_NS + "." + id
  }

  /** A table of `_A2X` declarations with distinct dot-free ids registers
      into an empty registry, each under its name, and leaves only `_A2X`
      names there. */
  lemma SystemEntriesRegister<T>(kind: string, named: seq<(string, T)>, ids: seq<string>)
    requires |ids| == |named| && Distinct(ids) && DotFree(ids)
    requires forall i :: 0 <= i < |named| ==> named[i].0 == SysName(ids[i])
    ensures RegisterEach(Empty(kind), named).Ok?
    ensures SystemRegistry(RegisterEach(Empty(kind), named).value)
    ensures RegistersAll(RegisterEach(Empty(kind), named).value, named)
  {
    SystemNamesDistinct(ids, Names(named));
    RegisterEachOk(Empty(kind), named);
    var r := RegisterEach(Empty(kind), named).value;
    forall k | k in r.elements ensures SystemKey(k) {
      var i :| 0 <= i < |named| && Names(named)[i] == k;
      SysNameIsSystemKey(ids[i]);
    }
  }

  lemma ProtNameInjective(a: string, b: string)
    ensures ProtName(a) == ProtName(b) ==> a == b
  {
    assert ProtName(a)[15..] == a && ProtName(b)[15..] == b;
  }

  lemma ProtNameIsNotSystemKey(id: string)
    ensures ProtectedKey(ProtName(id)) <==> '.' !in id
    ensures !SystemKey(ProtName(id))
  {
    var k := ProtName(id);
    assert k[..15] == PROTECTED_NS + ".";
    assert k[15..] == id;
    assert k[5..][9] == '.';
  }

  /** The protected table registers next to `_A2X` names, each under its
      qualified name, leaving only `_A2X` and `_A2X.PROTECTED` names. */
  lemma ProtectedEntriesRegister<T>(r: Resolver<T>, named: seq<(string, T)>, ids: seq<string>)
    requires SystemOrProtectedRegistry(r) && forall k :: k in r.elements ==> !ProtectedKey(k)
    requires |ids| == |named| && Distinct(ids) && DotFree(ids)
    requires forall i :: 0 <= i < |named| ==> named[i].0 == ProtName(ids[i])
    ensures RegisterEach(r, named).Ok?
    ensures SystemOrProtectedRegistry(RegisterEach(r, named).value)
    ensures RegistersAll(RegisterEach(r, named).value, named)
    ensures forall k :: k in r.elements ==>
              k in RegisterEach(r, named).value.elements && RegisterEach(r, named).value.elements[k] == r.elements[k]
  {
    forall i, j | 0 <= i < j < |named| ensures Names(named)[i] != Names(named)[j] {
      ProtNameInjective(ids[i], ids[j]);
    }
    forall i | 0 <= i < |named| ensures named[i].0 !in r.elements {
      ProtNameIsNotSystemKey(ids[i]);
    }
    RegisterEachOk(r, named);
    var r1 := RegisterEach(r, named).value;
    forall k | k in r1.elements ensures SystemKey(k) || ProtectedKey(k) {
      if k !in r.elements {
        var i :| 0 <= i < |named| && Names(named)[i] == k;
        ProtNameIsNotSystemKey(ids[i]);
      }
    }
  }

  /** The ids of the standard tables, written out. */
  const TYPE_IDS: seq<string> :=
    ["string", "boolean", "integer", "double", "anyURI", "base64Binary", "date", "dateTime",
     "dayTimeDuration", "hexBinary", "rfc822Name", "time", "x500Name", "xpath",
     "yearMonthDuration", "dnsName", "ipAddress"]
  const RULE_COMB_IDS: seq<string> :=
    ["denyOverrides", "denyUnlessPermit", "firstApplicable", "orderedDenyOverrides",
     "orderedPermitOverrides", "permitUnlessDeny", "permitOverrides"]
  const POLICY_COMB_IDS: seq<string> :=
    ["denyOverrides", "denyUnlessPermit", "firstApplicable", "onlyOneApplicable", "orderedDenyOverrides",
     "orderedPermitOverrides", "permitOverrides", "permitUnlessDeny", "onPermitApplySecond"]

  lemma StandardIdsWrittenOut()
    ensures TypeIds(StandardTypes()) == TYPE_IDS
    ensures RuleCombIds(StandardRuleCombinators()) == RULE_COMB_IDS
    ensures PolicyCombIds(StandardPolicyCombinators()) == POLICY_COMB_IDS
  {
    assert |TypeIds(StandardTypes())| == 17;
    assert |RuleCombIds(StandardRuleCombinators())| == 7;
    assert |PolicyCombIds(StandardPolicyCombinators())| == 9;
  }

  lemma WrittenOutIdsDotFree()
    ensures DotFree(TYPE_IDS) && DotFree(RULE_COMB_IDS) && DotFree(POLICY_COMB_IDS)
  {
    TypeIdsDotFree();
    CombIdsDotFree();
  }

  lemma TypeIdsDotFree()
    ensures DotFree(TYPE_IDS)
  {
    DotFreeSplit(TYPE_IDS, 9);
  }

  lemma CombIdsDotFree()
    ensures DotFree(RULE_COMB_IDS) && DotFree(POLICY_COMB_IDS)
  {
  }

  /** A list is dot-free when both of its halves are. */
  lemma DotFreeSplit(parts: seq<string>, n: nat)
    requires n <= |parts| && DotFree(parts[..n]) && DotFree(parts[n..])
    ensures DotFree(parts)
  {
    forall i | 0 <= i < |parts| ensures '.' !in parts[i] {
      if i < n { assert parts[i] == parts[..n][i]; } else { assert parts[i] == parts[n..][i - n]; }
    }
  }

  /** The ids of the standard tables contain no ".". */
  lemma StandardIdsDotFree()
    ensures DotFree(TypeIds(StandardTypes()))
    ensures DotFree(RuleCombIds(StandardRuleCombinators()))
    ensures DotFree(PolicyCombIds(StandardPolicyCombinators()))
    ensures DotFree(RuleCombIds(ProtectedRuleCombinators()))
    ensures DotFree(PolicyCombIds(ProtectedPolicyCombinators()))
  {
    StandardIdsWrittenOut();
    WrittenOutIdsDotFree();
    assert RuleCombIds(ProtectedRuleCombinators()) == ["permitOverrides"];
    assert PolicyCombIds(ProtectedPolicyCombinators()) == ["permitOverrides", "onPermitApplySecond"];
  }

  const CATEGORY_IDS: seq<string> :=
    ["subjectCat", "codebaseCat", "intermediarySubjectCat", "recipientSubjectCat",
     "requestingMachineCat", "resourceCat", "actionCat", "environmentCat"]
  const INFIX_OPERATORS: seq<string> := ["==", "<", ">=", "<=", ">", "&&", "||", "+", "-", "*", "/"]
  const FUNCTION_IDS: seq<string> := ["stringBag", "booleanOneAndOnly", "booleanBag", "anyOf", "anyOfAny"]
  const ATTRIBUTE_IDS: seq<string> := ["subjectId", "resourceId"]

  function FunctionIds(fs: seq<Function>): (r: seq<string>)
    ensures |r| == |fs| && forall i :: 0 <= i < |fs| ==> r[i] == fs[i].id
  {
    seq(|fs|, i requires 0 <= i < |fs| => fs[i].id)
  }

  function AttributeIds(as_: seq<Attribute>): (r: seq<string>)
    ensures |r| == |as_| && forall i :: 0 <= i < |as_| ==> r[i] == as_[i].id
  {
    seq(|as_|, i requires 0 <= i < |as_| => as_[i].id)
  }

  lemma OtherIdsWrittenOut()
    ensures CategoryIds(StandardCategories()) == CATEGORY_IDS
    ensures InfixOperators(StandardInfix()) == INFIX_OPERATORS
    ensures FunctionIds(FixtureFunctions()) == FUNCTION_IDS
    ensures AttributeIds(FixtureAttributes()) == ATTRIBUTE_IDS
  {
    assert |CategoryIds(StandardCategories())| == 8;
    assert |InfixOperators(StandardInfix())| == 11;
    assert |FunctionIds(FixtureFunctions())| == 5;
  }

  lemma OtherWrittenOutIdsFacts()
    ensures DotFree(CATEGORY_IDS) && DotFree(INFIX_OPERATORS) && DotFree(FUNCTION_IDS) && DotFree(ATTRIBUTE_IDS)
    ensures Distinct(FUNCTION_IDS) && Distinct(ATTRIBUTE_IDS)
  {
  }

  /** The state `Context::new` leaves when built-ins are enabled: the
      `_A2X` wildcard is the only import, and every standard table is
      registered under `_A2X` names (the combining algorithms next to the
      protected ones). */
  ghost predicate BuiltinsReady(ctx: Context)
  {
    && ctx.imports == map[SYSTEM_NS := SystemImports()]
    && SystemRegistry(ctx.types) && RegistersAll(ctx.types, TypeEntries(StandardTypes()))
    && SystemRegistry(ctx.categories) && RegistersAll(ctx.categories, CategoryEntries(StandardCategories()))
    && SystemRegistry(ctx.infixes) && RegistersAll(ctx.infixes, InfixEntries(StandardInfix()))
    && SystemRegistry(ctx.attributes) && RegistersAll(ctx.attributes, AttributeEntries(FixtureAttributes()))
    && SystemRegistry(ctx.functions) && RegistersAll(ctx.functions, FunctionEntries(FixtureFunctions()))
    && RegistersAll(ctx.ruleCombinators, RuleCombEntries(StandardRuleCombinators()))
    && RegistersAll(ctx.policyCombinators, PolicyCombEntries(StandardPolicyCombinators()))
  }

  /** The protected combining algorithms are registered under their
      qualified names, next to `_A2X` names only. */
  ghost predicate ProtectedReady(ctx: Context)
  {
    && SystemOrProtectedRegistry(ctx.ruleCombinators)
    && RegistersAll(ctx.ruleCombinators, RuleCombEntries(ProtectedRuleCombinators()))
    && SystemOrProtectedRegistry(ctx.policyCombinators)
    && RegistersAll(ctx.policyCombinators, PolicyCombEntries(ProtectedPolicyCombinators()))
  }

  lemma StandardTypesRegister(kind: string)
    ensures RegisterEach(Empty(kind), TypeEntries(StandardTypes())).Ok?
    ensures SystemRegistry(RegisterEach(Empty(kind), TypeEntries(StandardTypes())).value)
    ensures RegistersAll(RegisterEach(Empty(kind), TypeEntries(StandardTypes())).value, TypeEntries(StandardTypes()))
  {
    StandardIdsWrittenOut();
    WrittenOutIdsDotFree();
    StandardTypeIdsDistinct();
    StandardTypesFacts();
    var xs := StandardTypes();
    forall i | 0 <= i < |xs| ensures TypeEntries(xs)[i].0 == SysName(xs[i].id) {
      assert xs[i] in xs;
      SystemDottedName(xs[i].ns, xs[i].id);
    }
    SystemEntriesRegister(kind, TypeEntries(xs), TypeIds(xs));
  }

  lemma StandardRuleCombinatorsRegister(kind: string)
    ensures RegisterEach(Empty(kind), RuleCombEntries(StandardRuleCombinators())).Ok?
    ensures SystemRegistry(RegisterEach(Empty(kind), RuleCombEntries(StandardRuleCombinators())).value)
    ensures RegistersAll(RegisterEach(Empty(kind), RuleCombEntries(StandardRuleCombinators())).value, RuleCombEntries(StandardRuleCombinators()))
  {
    StandardIdsWrittenOut();
    WrittenOutIdsDotFree();
    StandardCombinatorFacts();
    var xs := StandardRuleCombinators();
    forall i | 0 <= i < |xs| ensures RuleCombEntries(xs)[i].0 == SysName(xs[i].id) {
      assert xs[i] in xs;
      SystemDottedName(xs[i].ns, xs[i].id);
    }
    SystemEntriesRegister(kind, RuleCombEntries(xs), RuleCombIds(xs));
  }

  lemma StandardPolicyCombinatorsRegister(kind: string)
    ensures RegisterEach(Empty(kind), PolicyCombEntries(StandardPolicyCombinators())).Ok?
    ensures SystemRegistry(RegisterEach(Empty(kind), PolicyCombEntries(StandardPolicyCombinators())).value)
    ensures RegistersAll(RegisterEach(Empty(kind), PolicyCombEntries(StandardPolicyCombinators())).value, PolicyCombEntries(StandardPolicyCombinators()))
  {
    StandardIdsWrittenOut();
    WrittenOutIdsDotFree();
    StandardCombinatorFacts();
    var xs := StandardPolicyCombinators();
    forall i | 0 <= i < |xs| ensures PolicyCombEntries(xs)[i].0 == SysName(xs[i].id) {
      assert xs[i] in xs;
      SystemDottedName(xs[i].ns, xs[i].id);
    }
    SystemEntriesRegister(kind, PolicyCombEntries(xs), PolicyCombIds(xs));
  }

  lemma StandardCategoriesRegister(kind: string)
    ensures RegisterEach(Empty(kind), CategoryEntries(StandardCategories())).Ok?
    ensures SystemRegistry(RegisterEach(Empty(kind), CategoryEntries(StandardCategories())).value)
    ensures RegistersAll(RegisterEach(Empty(kind), CategoryEntries(StandardCategories())).value, CategoryEntries(StandardCategories()))
  {
    OtherIdsWrittenOut();
    OtherWrittenOutIdsFacts();
    StandardCategoriesFacts();
    var xs := StandardCategories();
    forall i | 0 <= i < |xs| ensures CategoryEntries(xs)[i].0 == SysName(xs[i].id) {
      assert xs[i] in xs;
      SystemDottedName(xs[i].ns, xs[i].id);
    }
    SystemEntriesRegister(kind, CategoryEntries(xs), CategoryIds(xs));
  }

  lemma StandardInfixRegister(kind: string)
    ensures RegisterEach(Empty(kind), InfixEntries(StandardInfix())).Ok?
    ensures SystemRegistry(RegisterEach(Empty(kind), InfixEntries(StandardInfix())).value)
    ensures RegistersAll(RegisterEach(Empty(kind), InfixEntries(StandardInfix())).value, InfixEntries(StandardInfix()))
  {
    OtherIdsWrittenOut();
    OtherWrittenOutIdsFacts();
    StandardInfixDistinct();
    var xs := StandardInfix();
    forall i | 0 <= i < |xs| ensures InfixEntries(xs)[i].0 == SysName(xs[i].operator) {
      assert xs[i] in xs;
      SystemDottedName(xs[i].ns, xs[i].operator);
    }
    SystemEntriesRegister(kind, InfixEntries(xs), InfixOperators(xs));
  }

  lemma StandardAttributesRegister(kind: string)
    ensures RegisterEach(Empty(kind), AttributeEntries(FixtureAttributes())).Ok?
    ensures SystemRegistry(RegisterEach(Empty(kind), AttributeEntries(FixtureAttributes())).value)
    ensures RegistersAll(RegisterEach(Empty(kind), AttributeEntries(FixtureAttributes())).value, AttributeEntries(FixtureAttributes()))
  {
    OtherIdsWrittenOut();
    OtherWrittenOutIdsFacts();
    var xs := FixtureAttributes();
    forall i | 0 <= i < |xs| ensures AttributeEntries(xs)[i].0 == SysName(xs[i].id) {
      SystemDottedName(xs[i].ns, xs[i].id);
    }
    SystemEntriesRegister(kind, AttributeEntries(xs), AttributeIds(xs));
  }

  lemma StandardFunctionsRegister(kind: string)
    ensures RegisterEach(Empty(kind), FunctionEntries(FixtureFunctions())).Ok?
    ensures SystemRegistry(RegisterEach(Empty(kind), FunctionEntries(FixtureFunctions())).value)
    ensures RegistersAll(RegisterEach(Empty(kind), FunctionEntries(FixtureFunctions())).value, FunctionEntries(FixtureFunctions()))
  {
    OtherIdsWrittenOut();
    OtherWrittenOutIdsFacts();
    var xs := FixtureFunctions();
    forall i | 0 <= i < |xs| ensures FunctionEntries(xs)[i].0 == SysName(xs[i].id) {
      SystemDottedName(xs[i].ns, xs[i].id);
    }
    SystemEntriesRegister(kind, FunctionEntries(xs), FunctionIds(xs));
  }

  /** `add_standard_defs` on a fresh context succeeds and leaves the
      built-ins registered and only the `_A2X` import. */
  lemma AddStandardDefsReady(cfg: Config)
    ensures AddStandardDefs(EmptyContext(cfg)).Ok?
    ensures BuiltinsReady(AddStandardDefs(EmptyContext(cfg)).value)
    ensures SystemRegistry(AddStandardDefs(EmptyContext(cfg)).value.ruleCombinators)
    ensures SystemRegistry(AddStandardDefs(EmptyContext(cfg)).value.policyCombinators)
  {
    var c1 := RegisterImport(EmptyContext(cfg), [SYSTEM_NS], Import([SYSTEM_NS], true));
    assert Join([SYSTEM_NS], ".") == SYSTEM_NS;
    assert [] + [Import([SYSTEM_NS], true)] == SystemImports();
    assert c1.imports == map[SYSTEM_NS := SystemImports()];
    StandardTypesRegister(c1.types.kind);
    StandardRuleCombinatorsRegister(c1.ruleCombinators.kind);
    StandardPolicyCombinatorsRegister(c1.policyCombinators.kind);
    StandardCategoriesRegister(c1.categories.kind);
    StandardInfixRegister(c1.infixes.kind);
    StandardAttributesRegister(c1.attributes.kind);
    StandardFunctionsRegister(c1.functions.kind);
  }

  lemma SystemKeyIsNotProtected(k: string)
    ensures SystemKey(k) ==> !ProtectedKey(k)
  {
    if ProtectedKey(k) {
      assert k[..15][14] == '.';
      assert k[5..][9] == k[14];
    }
  }

  /** `add_protected_defs` succeeds next to the `_A2X` combinators, keeps
      them, and changes nothing but the two combinator registries. */
  lemma AddProtectedDefsReady(c: Context)
    requires SystemRegistry(c.ruleCombinators) && SystemRegistry(c.policyCombinators)
    ensures AddProtectedDefs(c).Ok?
    ensures ProtectedReady(AddProtectedDefs(c).value)
    ensures AddProtectedDefs(c).value.(ruleCombinators := c.ruleCombinators, policyCombinators := c.policyCombinators) == c
    ensures forall k :: k in c.ruleCombinators.elements ==>
              k in AddProtectedDefs(c).value.ruleCombinators.elements
              && AddProtectedDefs(c).value.ruleCombinators.elements[k] == c.ruleCombinators.elements[k]
    ensures forall k :: k in c.policyCombinators.elements ==>
              k in AddProtectedDefs(c).value.policyCombinators.elements
              && AddProtectedDefs(c).value.policyCombinators.elements[k] == c.policyCombinators.elements[k]
  {
    CombinatorIdsFacts();
    assert Join([PROTECTED_NS], ".") == PROTECTED_NS;
    forall k | k in c.ruleCombinators.elements ensures !ProtectedKey(k) { SystemKeyIsNotProtected(k); }
    forall k | k in c.policyCombinators.elements ensures !ProtectedKey(k) { SystemKeyIsNotProtected(k); }
    var pcs := ProtectedPolicyCombinators();
    assert PolicyCombEntries(pcs)[0].0 == ProtName(pcs[0].id);
    assert PolicyCombEntries(pcs)[1].0 == ProtName(pcs[1].id);
    ProtectedEntriesRegister(c.policyCombinators, PolicyCombEntries(pcs), PolicyCombIds(pcs));
    var rcs := ProtectedRuleCombinators();
    assert RuleCombEntries(rcs)[0].0 == ProtName(rcs[0].id);
    ProtectedEntriesRegister(c.ruleCombinators, RuleCombEntries(rcs), RuleCombIds(rcs));
  }

  lemma CombinatorIdsFacts()
    ensures DotFree(RuleCombIds(ProtectedRuleCombinators())) && Distinct(RuleCombIds(ProtectedRuleCombinators()))
    ensures DotFree(PolicyCombIds(ProtectedPolicyCombinators())) && Distinct(PolicyCombIds(ProtectedPolicyCombinators()))
  {
    assert RuleCombIds(ProtectedRuleCombinators()) == ["permitOverrides"];
    assert PolicyCombIds(ProtectedPolicyCombinators()) == ["permitOverrides", "onPermitApplySecond"];
  }

  /** `add_standard_defs` changes only the imports and the tables it
      fills. */
  lemma AddStandardDefsTouchesTables(c: Context)
    ensures AddStandardDefs(c).Ok? ==>
              AddStandardDefs(c).value.(imports := c.imports, types := c.types, ruleCombinators := c.ruleCombinators,
                                        policyCombinators := c.policyCombinators, categories := c.categories,
                                        infixes := c.infixes, attributes := c.attributes, functions := c.functions) == c
  {
  }

  /** `Context::new` with built-ins: the `_A2X` wildcard import, every
      standard table and the protected combinators. */
  lemma NewContextWithBuiltins(cfg: Config)
    requires cfg.enableBuiltins
    ensures NewContext(cfg).Ok?
    ensures ProtectedReady(NewContext(cfg).value) && BuiltinsReady(NewContext(cfg).value)
  {
    AddStandardDefsReady(cfg);
    var c1 := AddStandardDefs(EmptyContext(cfg)).value;
    AddProtectedDefsReady(c1);
    var ctx := AddProtectedDefs(c1).value;
    assert NewContext(cfg) == Ok(ctx);
    assert ctx.(ruleCombinators := c1.ruleCombinators, policyCombinators := c1.policyCombinators) == c1;
  }

  /** `Context::new` without built-ins: no import and no declaration but
      the protected combinators. */
  lemma NewContextWithoutBuiltins(cfg: Config)
    requires !cfg.enableBuiltins
    ensures NewContext(cfg).Ok?
    ensures ProtectedReady(NewContext(cfg).value)
    ensures var ctx := NewContext(cfg).value;
            ctx.imports == map[] && ctx.types.elements == map[] && ctx.functions.elements == map[]
            && ctx.infixes.elements == map[] && ctx.attributes.elements == map[] && ctx.categories.elements == map[]
  {
    AddProtectedDefsReady(EmptyContext(cfg));
  }

  /** Whatever the configuration, a new context has no policy, rule or
      URI registered and no counter drawn. */
  lemma NewContextIsFresh(cfg: Config)
    ensures NewContext(cfg).Ok?
    ensures var ctx := NewContext(cfg).value;
            && ctx.config == cfg && ctx.policies.elements == map[] && ctx.policysets.elements == map[]
            && ctx.rules.elements == map[] && ctx.usedUris == {}
            && ctx.ruleIds == map[] && ctx.policyIds == map[] && ctx.policysetIds == map[]
  {
    var c := EmptyContext(cfg);
    if cfg.enableBuiltins {
      AddStandardDefsReady(cfg);
      AddStandardDefsTouchesTables(c);
      var c1 := AddStandardDefs(c).value;
      AddProtectedDefsReady(c1);
      assert NewContext(cfg) == AddProtectedDefs(c1);
    } else {
      AddProtectedDefsReady(EmptyContext(cfg));
    }
  }

  /** With only the `_A2X` wildcard import, an `_A2X` entry resolves by its
      bare id from every namespace. */
  lemma SystemEntryResolves<T>(ctx: Context, r: Resolver<T>, named: seq<(string, T)>, i: nat, id: string, sourceNs: seq<string>)
    requires ctx.imports == map[SYSTEM_NS := SystemImports()]
    requires SystemRegistry(r) && RegistersAll(r, named)
    requires i < |named| && named[i].0 == SysName(id) && '.' !in id
    ensures Lookup(r, id, sourceNs, GetImports(ctx, sourceNs)) == Ok(named[i].1)
  {
    SystemSymbolResolves(r, id, sourceNs, GetImports(ctx, sourceNs));
  }

  /** Every standard type is found by its bare name from every namespace
      of a context created with built-ins. */
  lemma BuiltinTypeResolves(ctx: Context, i: nat, sourceNs: seq<string>)
    requires BuiltinsReady(ctx) && i < |StandardTypes()|
    ensures LookupType(ctx, StandardTypes()[i].id, sourceNs) == Ok(StandardTypes()[i])
  {
    var t := StandardTypes()[i];
    StandardIdsWrittenOut();
    WrittenOutIdsDotFree();
    StandardTypesFacts();
    assert t in StandardTypes();
    assert TypeIds(StandardTypes())[i] == t.id;
    SystemDottedName(t.ns, t.id);
    SystemEntryResolves(ctx, ctx.types, TypeEntries(StandardTypes()), i, t.id, sourceNs);
  }

  /** Every standard infix operator is found by its symbol from every
      namespace of a context created with built-ins. */
  lemma BuiltinInfixResolves(ctx: Context, i: nat, sourceNs: seq<string>)
    requires BuiltinsReady(ctx) && i < |StandardInfix()|
    ensures LookupInfix(ctx, StandardInfix()[i].operator, sourceNs) == Ok(StandardInfix()[i])
  {
    var o := StandardInfix()[i];
    OtherIdsWrittenOut();
    OtherWrittenOutIdsFacts();
    StandardInfixDistinct();
    assert o in StandardInfix();
    assert InfixOperators(StandardInfix())[i] == o.operator;
    SystemDottedName(o.ns, o.operator);
    SystemEntryResolves(ctx, ctx.infixes, InfixEntries(StandardInfix()), i, o.operator, sourceNs);
  }

  /** Every standard category is found by its bare name. */
  lemma BuiltinCategoryResolves(ctx: Context, i: nat, sourceNs: seq<string>)
    requires BuiltinsReady(ctx) && i < |StandardCategories()|
    ensures LookupCategory(ctx, StandardCategories()[i].id, sourceNs) == Ok(StandardCategories()[i])
  {
    var c := StandardCategories()[i];
    OtherIdsWrittenOut();
    OtherWrittenOutIdsFacts();
    StandardCategoriesFacts();
    assert c in StandardCategories();
    assert CategoryIds(StandardCategories())[i] == c.id;
    SystemDottedName(c.ns, c.id);
    SystemEntryResolves(ctx, ctx.categories, CategoryEntries(StandardCategories()), i, c.id, sourceNs);
  }

  /** Every built-in function is found by its bare name. */
  lemma BuiltinFunctionResolves(ctx: Context, i: nat, sourceNs: seq<string>)
    requires BuiltinsReady(ctx) && i < |FixtureFunctions()|
    ensures LookupFunction(ctx, FixtureFunctions()[i].id, sourceNs) == Ok(FixtureFunctions()[i])
  {
    var f := FixtureFunctions()[i];
    OtherIdsWrittenOut();
    OtherWrittenOutIdsFacts();
    assert FunctionIds(FixtureFunctions())[i] == f.id;
    SystemDottedName(f.ns, f.id);
    SystemEntryResolves(ctx, ctx.functions, FunctionEntries(FixtureFunctions()), i, f.id, sourceNs);
  }

  /** Every built-in attribute is found by its bare name. */
  lemma BuiltinAttributeResolves(ctx: Context, i: nat, sourceNs: seq<string>)
    requires BuiltinsReady(ctx) && i < |FixtureAttributes()|
    ensures LookupAttribute(ctx, FixtureAttributes()[i].id, sourceNs) == Ok(FixtureAttributes()[i])
  {
    var a := FixtureAttributes()[i];
    OtherIdsWrittenOut();
    OtherWrittenOutIdsFacts();
    assert AttributeIds(FixtureAttributes())[i] == a.id;
    SystemDottedName(a.ns, a.id);
    SystemEntryResolves(ctx, ctx.attributes, AttributeEntries(FixtureAttributes()), i, a.id, sourceNs);
  }

  /** The comparison operators find their declared inverses: `<` with
      `>`, `>=` with `<=`, from every namespace. */
  lemma BuiltinInverses(ctx: Context, sourceNs: seq<string>)
    requires BuiltinsReady(ctx)
    ensures LookupInfixInverse(ctx, "<", sourceNs) == Ok(StandardInfix()[4])
    ensures LookupInfixInverse(ctx, ">", sourceNs) == Ok(StandardInfix()[1])
    ensures LookupInfixInverse(ctx, ">=", sourceNs) == Ok(StandardInfix()[3])
    ensures LookupInfixInverse(ctx, "<=", sourceNs) == Ok(StandardInfix()[2])
    ensures LookupInfixInverse(ctx, "==", sourceNs) == Err(InverseInfixNotFound)
  {
    StdDefs.ComparisonEntries();
    BuiltinInversePair(ctx, 1, 4, sourceNs);
    BuiltinInversePair(ctx, 4, 1, sourceNs);
    BuiltinInversePair(ctx, 2, 3, sourceNs);
    BuiltinInversePair(ctx, 3, 2, sourceNs);
    assert StandardInfix()[0].operator == "==" && StandardInfix()[0].inverse.None?;
    BuiltinInfixResolves(ctx, 0, sourceNs);
  }

  /** An operator whose declared inverse is the operator of another entry
      finds that entry as its inverse. */
  lemma BuiltinInversePair(ctx: Context, i: nat, j: nat, sourceNs: seq<string>)
    requires BuiltinsReady(ctx) && i < |StandardInfix()| && j < |StandardInfix()|
    requires StandardInfix()[i].inverse == Some(StandardInfix()[j].operator)
    ensures LookupInfixInverse(ctx, StandardInfix()[i].operator, sourceNs) == Ok(StandardInfix()[j])
  {
    BuiltinInfixResolves(ctx, i, sourceNs);
    BuiltinInfixResolves(ctx, j, sourceNs);
  }

  /** The combining algorithms deconditioning writes resolve, by the root
      rule, to the protected declarations and their XACML URIs. */
  lemma ProtectedCombinatorsResolve(ctx: Context, sourceNs: seq<string>)
    requires ProtectedReady(ctx)
    ensures LookupPolicyCombinator(ctx, PROTECTED_NS + ".onPermitApplySecond", sourceNs).Ok?
    ensures LookupPolicyCombinator(ctx, PROTECTED_NS + ".onPermitApplySecond", sourceNs).value.uri == ON_PERMIT_APPLY_SECOND
    ensures LookupPolicyCombinator(ctx, PROTECTED_NS + ".permitOverrides", sourceNs).Ok?
    ensures LookupPolicyCombinator(ctx, PROTECTED_NS + ".permitOverrides", sourceNs).value.uri == POLICY_PERMIT_OVERRIDES
    ensures LookupRuleCombinator(ctx, PROTECTED_NS + ".permitOverrides", sourceNs).Ok?
    ensures LookupRuleCombinator(ctx, PROTECTED_NS + ".permitOverrides", sourceNs).value.uri == RULE_PERMIT_OVERRIDES
  {
    ProtectedOnPermitApplySecond(ctx, sourceNs);
    ProtectedPolicyPermitOverrides(ctx, sourceNs);
    ProtectedRulePermitOverrides(ctx, sourceNs);
  }

  lemma ProtectedOnPermitApplySecond(ctx: Context, sourceNs: seq<string>)
    requires ProtectedReady(ctx)
    ensures LookupPolicyCombinator(ctx, PROTECTED_NS + ".onPermitApplySecond", sourceNs).Ok?
    ensures LookupPolicyCombinator(ctx, PROTECTED_NS + ".onPermitApplySecond", sourceNs).value.uri == ON_PERMIT_APPLY_SECOND
  {
    ProtectedPolicyCombNames();
    ProtectedNameResolves(ctx.policyCombinators, "onPermitApplySecond", sourceNs, GetImports(ctx, sourceNs));
  }

  /** The registered names of the two protected policy combinators. */
  lemma ProtectedPolicyCombNames()
    ensures PolicyCombEntries(ProtectedPolicyCombinators())[0].0 == PROTECTED_NS + ".permitOverrides"
    ensures PolicyCombEntries(ProtectedPolicyCombinators())[1].0 == PROTECTED_NS + ".onPermitApplySecond"
  {
    var cs := ProtectedPolicyCombinators();
    ProtectedDottedName("permitOverrides");
    ProtectedDottedName("onPermitApplySecond");
    assert PolicyCombinatorName(cs[0]) == DottedName([PROTECTED_NS], "permitOverrides");
    assert PolicyCombinatorName(cs[1]) == DottedName([PROTECTED_NS], "onPermitApplySecond");
  }

  /** A name in the protected namespace is that namespace, a dot and the id. */
  lemma ProtectedDottedName(id: string)
    ensures DottedName([PROTECTED_NS], id) == PROTECTED_NS + "." + id
  {
    assert Join([PROTECTED_NS], ".") == PROTECTED_NS;
  }

  lemma ProtectedPolicyPermitOverrides(ctx: Context, sourceNs: seq<string>)
    requires ProtectedReady(ctx)
    ensures LookupPolicyCombinator(ctx, PROTECTED_NS + ".permitOverrides", sourceNs).Ok?
    ensures LookupPolicyCombinator(ctx, PROTECTED_NS + ".permitOverrides", sourceNs).value.uri == POLICY_PERMIT_OVERRIDES
  {
    ProtectedPolicyCombNames();
    ProtectedNameResolves(ctx.policyCombinators, "permitOverrides", sourceNs, GetImports(ctx, sourceNs));
  }

  lemma ProtectedRulePermitOverrides(ctx: Context, sourceNs: seq<string>)
    requires ProtectedReady(ctx)
    ensures LookupRuleCombinator(ctx, PROTECTED_NS + ".permitOverrides", sourceNs).Ok?
    ensures LookupRuleCombinator(ctx, PROTECTED_NS + ".permitOverrides", sourceNs).value.uri == RULE_PERMIT_OVERRIDES
  {
    assert Join([PROTECTED_NS], ".") == PROTECTED_NS;
    assert RuleCombEntries(ProtectedRuleCombinators())[0].0 == PROTECTED_NS + ".permitOverrides";
    ProtectedNameResolves(ctx.ruleCombinators, "permitOverrides", sourceNs, GetImports(ctx, sourceNs));
  }

  /** Without built-ins nothing but a protected combinator resolves: a type
      name, for one, is not found from any namespace. */
  lemma NoBuiltinTypes(cfg: Config, symbol: string, sourceNs: seq<string>)
    requires !cfg.enableBuiltins
    ensures NewContext(cfg).Ok?
    ensures LookupType(NewContext(cfg).value, symbol, sourceNs) == Err(NotFound("TypeDef"))
  {
    NewContextWithoutBuiltins(cfg);
  }

  /** The built-in `string` and `boolean` types, as seen from `_A2X`. */
  lemma PrimitiveTypesResolve(ctx: Context)
    requires BuiltinsReady(ctx)
    ensures LookupType(ctx, "string", [SYSTEM_NS]) == Ok(TypeDef("string", STRING_URI, [SYSTEM_NS]))
    ensures LookupType(ctx, "boolean", [SYSTEM_NS]) == Ok(TypeDef("boolean", BOOLEAN_URI, [SYSTEM_NS]))
  {
    StandardTypesFacts();
    assert StandardTypes()[0] == StandardTypes()[..4][0];
    assert StandardTypes()[1] == StandardTypes()[..4][1];
    BuiltinTypeResolves(ctx, 0, [SYSTEM_NS]);
    BuiltinTypeResolves(ctx, 1, [SYSTEM_NS]);
  }

  /** The built-in `==`: found by its symbol, allows bags, is commutative, and tries
      `string-equal` first. */
  lemma EqualsOperatorResolves(ctx: Context, sourceNs: seq<string>)
    requires BuiltinsReady(ctx)
    ensures var o := LookupInfix(ctx, "==", sourceNs);
            o.Ok? && o.value.ns == [SYSTEM_NS] && o.value.allowBags && o.value.commutative
            && |o.value.signatures| > 0
            && o.value.signatures[0] == InfixSignature(F1 + "string-equal", "string", "string", "boolean")
  {
    BuiltinInfixResolves(ctx, 0, sourceNs);
  }

  /** The facts about the built-ins that the condition examples use, seen
      from namespace `main`. */
  ghost predicate Fixtures(ctx: Context)
  {
    && LookupType(ctx, "string", [SYSTEM_NS]) == Ok(TypeDef("string", STRING_URI, [SYSTEM_NS]))
    && LookupType(ctx, "boolean", [SYSTEM_NS]) == Ok(TypeDef("boolean", BOOLEAN_URI, [SYSTEM_NS]))
    && LookupInfix(ctx, "==", ["main"]).Ok?
    && LookupInfix(ctx, "==", ["main"]).value.ns == [SYSTEM_NS]
    && LookupInfix(ctx, "==", ["main"]).value.allowBags
    && LookupInfix(ctx, "==", ["main"]).value.commutative
    && |LookupInfix(ctx, "==", ["main"]).value.signatures| > 0
    && LookupInfix(ctx, "==", ["main"]).value.signatures[0]
       == InfixSignature(F1 + "string-equal", "string", "string", "boolean")
    && LookupAttribute(ctx, "resourceId", ["main"])
       == Ok(Attribute("resourceId", "urn:oasis:names:tc:xacml:1.0:resource:resource-id", "resourceCat", "string", [SYSTEM_NS]))
    && LookupCategory(ctx, "resourceCat", [SYSTEM_NS])
       == Ok(Category("resourceCat", "urn:oasis:names:tc:xacml:3.0:attribute-category:resource", [SYSTEM_NS]))
    && LookupFunction(ctx, "stringBag", ["main"]).Ok?
    && LookupFunction(ctx, "stringBag", ["main"]).value.functionUri == F1 + "string-bag"
    && LookupFunction(ctx, "stringBag", ["main"]).value.outputArg == OutAtomicBag("string")
    && LookupFunction(ctx, "stringBag", ["main"]).value.ns == [SYSTEM_NS]
  }

  /** A context with the built-ins has those facts. */
  lemma FixturesHold(ctx: Context)
    requires BuiltinsReady(ctx)
    ensures Fixtures(ctx)
  {
    PrimitiveTypesResolve(ctx);
    EqualsOperatorResolves(ctx, ["main"]);
    ResourceIdResolves(ctx, ["main"]);
    StringBagResolves(ctx, ["main"]);
  }

  /** The built-in `resourceId` attribute and its category. */
  lemma ResourceIdResolves(ctx: Context, sourceNs: seq<string>)
    requires BuiltinsReady(ctx)
    ensures LookupAttribute(ctx, "resourceId", sourceNs)
            == Ok(Attribute("resourceId", "urn:oasis:names:tc:xacml:1.0:resource:resource-id", "resourceCat", "string", [SYSTEM_NS]))
    ensures LookupCategory(ctx, "resourceCat", [SYSTEM_NS])
            == Ok(Category("resourceCat", "urn:oasis:names:tc:xacml:3.0:attribute-category:resource", [SYSTEM_NS]))
  {
    BuiltinAttributeResolves(ctx, 1, sourceNs);
    BuiltinCategoryResolves(ctx, 5, [SYSTEM_NS]);
  }

  /** The built-in `stringBag` function. */
  lemma StringBagResolves(ctx: Context, sourceNs: seq<string>)
    requires BuiltinsReady(ctx)
    ensures LookupFunction(ctx, "stringBag", sourceNs).Ok?
    ensures LookupFunction(ctx, "stringBag", sourceNs).value.functionUri == F1 + "string-bag"
    ensures LookupFunction(ctx, "stringBag", sourceNs).value.outputArg == OutAtomicBag("string")
    ensures LookupFunction(ctx, "stringBag", sourceNs).value.ns == [SYSTEM_NS]
  {
    BuiltinFunctionResolves(ctx, 0, sourceNs);
  }
}
