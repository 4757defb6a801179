/** One symbol registry (`Resolver<T>`): a map from fully-qualified name to
    declaration, duplicate-free registration, and the six ordered
    namespace-resolution rules of `lookup`. */
module Resolver {
  import opened Wrappers
  import opened Errors
  import opened Strings
  import opened Decls

  /** `kind` is the declaration kind's short name, used in messages. */
  datatype Resolver<T> = Resolver(kind: string, elements: map<string, T>)

  function Empty<T>(kind: string): Resolver<T>
  {
    Resolver(kind, map[])
  }

  /** `register`: an anonymous element is a successful no-op; a named one is
      added unless its name is already taken. */
  function Register<T>(r: Resolver<T>, fqn: Option<string>, elem: T): (res: Res<Resolver<T>>)
    ensures fqn.None? ==> res == Ok(r)
    ensures fqn.Some? ==> (res.Err? <==> fqn.value in r.elements)
    ensures res.Err? ==> res.error == DuplicateSymbol("Duplicate " + r.kind + " definition: '" + fqn.value + "'")
    ensures res.Ok? ==> res.value.kind == r.kind
    ensures res.Ok? && fqn.Some? ==>
              fqn.value !in r.elements && res.value.elements == r.elements[fqn.value := elem]
  {
    match fqn
    case None => Ok(r)
    case Some(n) =>
      if n in r.elements then Err(DuplicateSymbol("Duplicate " + r.kind + " definition: '" + n + "'"))
      else Ok(Resolver(r.kind, r.elements[n := elem]))
  }

  /** `exists_fq`. */
  predicate ExistsFq<T>(r: Resolver<T>, name: string)
  {
    name in r.elements
  }

  /** `match_one_and_only`: no match falls through, one match is the
      answer, more than one is ambiguous. */
  function MatchOneAndOnly(matches: seq<string>): (res: Res<Option<string>>)
    ensures |matches| == 0 <==> res == Ok(None)
    ensures |matches| == 1 <==> res.Ok? && res.value.Some?
    ensures res.Ok? && res.value.Some? ==> res.value.value == matches[0]
    ensures |matches| >= 2 <==> res.Err?
    ensures res.Err? ==> res.error == AmbiguousImport(matches[0])
  {
    if |matches| == 0 then Ok(None)
    else if |matches| == 1 then Ok(Some(matches[0]))
    else Err(AmbiguousImport(matches[0]))
  }

  /** The error when no rule resolves a symbol. */
  function NotFound(kind: string): ParseError
  {
    SrcError("All referenced symbols must be defined", "this " + kind + " could not be resolved")
  }

  /** Rule 1 (child match): the symbol inside the source namespace. */
  function ChildCandidate(symbol: string, sourceNs: seq<string>): string
  {
    Join(sourceNs, ".") + "." + symbol
  }

  /** A static import applies only when its last component is the symbol. */
  predicate StaticImportNames(i: Import, symbol: string)
  {
    |i.components| > 0 && i.components[|i.components| - 1] == symbol
  }

  /** The wildcard imports, in the order they were given. */
  function WildcardImports(imports: seq<Import>): (r: seq<Import>)
    ensures forall i :: i in r ==> i in imports && i.isWildcard
  {
    if |imports| == 0 then []
    else WildcardImports(imports[..|imports| - 1])
         + (if imports[|imports| - 1].isWildcard then [imports[|imports| - 1]] else [])
  }

  /** The static (non-wildcard) imports, in the order they were given. */
  function StaticImports(imports: seq<Import>): (r: seq<Import>)
    ensures forall i :: i in r ==> i in imports && !i.isWildcard
  {
    if |imports| == 0 then []
    else StaticImports(imports[..|imports| - 1])
         + (if !imports[|imports| - 1].isWildcard then [imports[|imports| - 1]] else [])
  }

  /** No import is lost by the partition: each one is in the part its
      wildcard flag selects. */
  lemma {:induction false} ImportsPartitionMembers(imports: seq<Import>, i: Import)
    ensures i in StaticImports(imports) <==> i in imports && !i.isWildcard
    ensures i in WildcardImports(imports) <==> i in imports && i.isWildcard
  {
    if |imports| > 0 {
      var init, last := imports[..|imports| - 1], imports[|imports| - 1];
      ImportsPartitionMembers(init, i);
      assert imports == init + [last];
    }
  }

  /** `partition(|n| n.is_wildcard)`: every import lands in exactly one of
      the two lists, each once. */
  lemma {:induction false} ImportsPartition(imports: seq<Import>)
    ensures |StaticImports(imports)| + |WildcardImports(imports)| == |imports|
    ensures multiset(StaticImports(imports)) + multiset(WildcardImports(imports)) == multiset(imports)
  {
    if |imports| > 0 {
      var init, last := imports[..|imports| - 1], imports[|imports| - 1];
      ImportsPartition(init);
      assert imports == init + [last];
      if last.isWildcard {
        assert StaticImports(imports) == StaticImports(init);
        assert WildcardImports(imports) == WildcardImports(init) + [last];
        PartitionAppend(WildcardImports(init), StaticImports(init), init, last);
      } else {
        assert StaticImports(imports) == StaticImports(init) + [last];
        assert WildcardImports(imports) == WildcardImports(init);
        PartitionAppend(StaticImports(init), WildcardImports(init), init, last);
      }
    }
  }

  /** Appending one element to one side of a split appends it to the whole. */
  lemma PartitionAppend<X>(grow: seq<X>, keep: seq<X>, whole: seq<X>, x: X)
    requires multiset(grow) + multiset(keep) == multiset(whole)
    ensures multiset(grow + [x]) + multiset(keep) == multiset(whole + [x])
  {
  }

  /** Both lists keep the given order: splitting a concatenation is
      concatenating the splits. */
  lemma ImportsPartitionConcat(xs: seq<Import>, ys: seq<Import>)
    ensures StaticImports(xs + ys) == StaticImports(xs) + StaticImports(ys)
    ensures WildcardImports(xs + ys) == WildcardImports(xs) + WildcardImports(ys)
  {
    StaticImportsConcat(xs, ys);
    WildcardImportsConcat(xs, ys);
  }

  lemma {:induction false} StaticImportsConcat(xs: seq<Import>, ys: seq<Import>)
    ensures StaticImports(xs + ys) == StaticImports(xs) + StaticImports(ys)
    decreases |ys|
  {
    if |ys| == 0 {
      assert xs + ys == xs;
    } else {
      var init, last := ys[..|ys| - 1], ys[|ys| - 1];
      assert (xs + ys)[..|xs + ys| - 1] == xs + init;
      assert (xs + ys)[|xs + ys| - 1] == last;
      StaticImportsConcat(xs, init);
    }
  }

  lemma {:induction false} WildcardImportsConcat(xs: seq<Import>, ys: seq<Import>)
    ensures WildcardImports(xs + ys) == WildcardImports(xs) + WildcardImports(ys)
    decreases |ys|
  {
    if |ys| == 0 {
      assert xs + ys == xs;
    } else {
      var init, last := ys[..|ys| - 1], ys[|ys| - 1];
      assert (xs + ys)[..|xs + ys| - 1] == xs + init;
      assert (xs + ys)[|xs + ys| - 1] == last;
      WildcardImportsConcat(xs, init);
    }
  }

  /** The candidate one import yields under rules 3 to 6 (rule numbers as
      in the compiler), if any. */
  function ImportCandidate(rule: nat, symbol: string, sourceNs: seq<string>, i: Import): Option<string>
  {
    var comps := Join(i.components, ".");
    if rule == 3 then
      if StaticImportNames(i, symbol) then Some(Join(sourceNs, ".") + "." + comps) else None
    else if rule == 4 then
      if StaticImportNames(i, symbol) then Some(comps) else None
    else if rule == 5 then Some(Join(sourceNs, ".") + "." + comps + "." + symbol)
    else Some(comps + "." + symbol)
  }

  /** The candidates of one rule that are registered, one per import, in
      import order: the same key twice when two imports produce it. */
  function RuleMatches<T>(r: Resolver<T>, rule: nat, symbol: string, sourceNs: seq<string>, imports: seq<Import>): (m: seq<string>)
    ensures forall k :: k in m ==> k in r.elements
    ensures |m| <= |imports|
  {
    if |imports| == 0 then []
    else
      var c := ImportCandidate(rule, symbol, sourceNs, imports[|imports| - 1]);
      RuleMatches(r, rule, symbol, sourceNs, imports[..|imports| - 1])
      + (if c.Some? && c.value in r.elements then [c.value] else [])
  }

  /** A rule's matches are exactly the registered candidates of the imports:
      a key is a match iff it is registered and some import yields it. */
  lemma {:induction false} RuleMatchesMembers<T>(r: Resolver<T>, rule: nat, symbol: string, sourceNs: seq<string>,
                                                 imports: seq<Import>, k: string)
    ensures k in RuleMatches(r, rule, symbol, sourceNs, imports) <==>
              k in r.elements && exists j :: 0 <= j < |imports| && ImportCandidate(rule, symbol, sourceNs, imports[j]) == Some(k)
    decreases |imports|
  {
    if |imports| > 0 {
      var init := imports[..|imports| - 1];
      var n := |imports| - 1;
      RuleMatchesMembers(r, rule, symbol, sourceNs, init, k);
      if exists j :: 0 <= j < |imports| && ImportCandidate(rule, symbol, sourceNs, imports[j]) == Some(k) {
        var j :| 0 <= j < |imports| && ImportCandidate(rule, symbol, sourceNs, imports[j]) == Some(k);
        if j < n {
          assert init[j] == imports[j];
        }
      }
      if exists j :: 0 <= j < |init| && ImportCandidate(rule, symbol, sourceNs, init[j]) == Some(k) {
        var j :| 0 <= j < |init| && ImportCandidate(rule, symbol, sourceNs, init[j]) == Some(k);
        assert imports[j] == init[j];
      }
    }
  }

  /** The matches keep import order: the matches of a concatenation are the
      matches of each part, one after the other. */
  lemma {:induction false} RuleMatchesConcat<T>(r: Resolver<T>, rule: nat, symbol: string, sourceNs: seq<string>,
                                                xs: seq<Import>, ys: seq<Import>)
    ensures RuleMatches(r, rule, symbol, sourceNs, xs + ys)
            == RuleMatches(r, rule, symbol, sourceNs, xs) + RuleMatches(r, rule, symbol, sourceNs, ys)
    decreases |ys|
  {
    if |ys| == 0 {
      assert xs + ys == xs;
    } else {
      var init := ys[..|ys| - 1];
      assert (xs + ys)[..|xs + ys| - 1] == xs + init;
      assert (xs + ys)[|xs + ys| - 1] == ys[|ys| - 1];
      RuleMatchesConcat(r, rule, symbol, sourceNs, xs, init);
    }
  }

  /** One import contributes its candidate exactly when that candidate is
      registered. */
  lemma RuleMatchesSingle<T>(r: Resolver<T>, rule: nat, symbol: string, sourceNs: seq<string>, i: Import)
    ensures var c := ImportCandidate(rule, symbol, sourceNs, i);
            RuleMatches(r, rule, symbol, sourceNs, [i]) == if c.Some? && c.value in r.elements then [c.value] else []
  {
    assert [i][..0] == [];
  }

  /** Rules 3 to 6 over the active imports, statics first, then
      wildcards. */
  function LookupImports<T>(r: Resolver<T>, symbol: string, sourceNs: seq<string>, imports: seq<Import>): (res: Res<Option<string>>)
    ensures res.Ok? && res.value.Some? ==> res.value.value in r.elements
  {
    var statics := StaticImports(imports);
    var wildcards := WildcardImports(imports);
    var m3 :- MatchOneAndOnly(RuleMatches(r, 3, symbol, sourceNs, statics));
    if m3.Some? then Ok(m3) else
    var m4 :- MatchOneAndOnly(RuleMatches(r, 4, symbol, sourceNs, statics));
    if m4.Some? then Ok(m4) else
    var m5 :- MatchOneAndOnly(RuleMatches(r, 5, symbol, sourceNs, wildcards));
    if m5.Some? then Ok(m5) else
    MatchOneAndOnly(RuleMatches(r, 6, symbol, sourceNs, wildcards))
  }

  /** `lookup`, answering with the registered name it resolved to. Rule 1
      and rule 2 win without consulting imports; with no imports at all an
      unresolved symbol is an error. */
  function LookupKey<T>(r: Resolver<T>, symbol: string, sourceNs: seq<string>, imports: Option<seq<Import>>): (res: Res<string>)
    ensures res.Ok? ==> res.value in r.elements
    ensures ChildCandidate(symbol, sourceNs) in r.elements ==> res == Ok(ChildCandidate(symbol, sourceNs))
    ensures ChildCandidate(symbol, sourceNs) !in r.elements && symbol in r.elements ==> res == Ok(symbol)
    ensures ChildCandidate(symbol, sourceNs) !in r.elements && symbol !in r.elements && imports.None? ==>
              res == Err(NotFound(r.kind))
  {
    var c1 := ChildCandidate(symbol, sourceNs);
    if c1 in r.elements then Ok(c1)
    else if symbol in r.elements then Ok(symbol)
    else if imports.None? then Err(NotFound(r.kind))
    else
      var m :- LookupImports(r, symbol, sourceNs, imports.value);
      if m.Some? then Ok(m.value) else Err(NotFound(r.kind))
  }

  /** `lookup`: the declaration registered under the resolved name. */
  function Lookup<T>(r: Resolver<T>, symbol: string, sourceNs: seq<string>, imports: Option<seq<Import>>): (res: Res<T>)
    ensures res.Ok? <==> LookupKey(r, symbol, sourceNs, imports).Ok?
    ensures res.Ok? ==> res.value == r.elements[LookupKey(r, symbol, sourceNs, imports).value]
    ensures res.Err? ==> res.error == LookupKey(r, symbol, sourceNs, imports).error
  {
    var k :- LookupKey(r, symbol, sourceNs, imports);
    Ok(r.elements[k])
  }

  /** A registered name resolves from any namespace: to the registered
      element itself unless the namespace has a child of the same name. */
  lemma RegisteredNameResolves<T>(r: Resolver<T>, fqn: string, elem: T, sourceNs: seq<string>, imports: Option<seq<Import>>)
    requires Register(r, Some(fqn), elem).Ok?
    ensures LookupKey(Register(r, Some(fqn), elem).value, fqn, sourceNs, imports).Ok?
    ensures ChildCandidate(fqn, sourceNs) !in Register(r, Some(fqn), elem).value.elements ==>
              Lookup(Register(r, Some(fqn), elem).value, fqn, sourceNs, imports) == Ok(elem)
  {
  }

  /** Registering the same name twice fails the second time. */
  lemma RegisterTwiceFails<T>(r: Resolver<T>, fqn: string, a: T, b: T)
    requires Register(r, Some(fqn), a).Ok?
    ensures Register(Register(r, Some(fqn), a).value, Some(fqn), b).Err?
  {
  }

  lemma ImportCandidateEndsWithSymbol(rule: nat, symbol: string, sourceNs: seq<string>, i: Import)
    requires ImportCandidate(rule, symbol, sourceNs, i).Some?
    ensures EndsWith(ImportCandidate(rule, symbol, sourceNs, i).value, symbol)
  {
    var comps := Join(i.components, ".");
    if rule == 3 || rule == 4 {
      JoinEndsWithLast(i.components, ".");
      assert EndsWith(comps, symbol);
      var pre := Join(sourceNs, ".") + ".";
      assert (pre + comps)[|pre + comps| - |symbol|..] == comps[|comps| - |symbol|..];
    }
  }

  lemma {:induction false} RuleMatchesEndWithSymbol<T>(r: Resolver<T>, rule: nat, symbol: string, sourceNs: seq<string>, imports: seq<Import>)
    ensures forall k :: k in RuleMatches(r, rule, symbol, sourceNs, imports) ==> EndsWith(k, symbol)
    decreases |imports|
  {
    if |imports| > 0 {
      RuleMatchesEndWithSymbol(r, rule, symbol, sourceNs, imports[..|imports| - 1]);
      var c := ImportCandidate(rule, symbol, sourceNs, imports[|imports| - 1]);
      if c.Some? {
        ImportCandidateEndsWithSymbol(rule, symbol, sourceNs, imports[|imports| - 1]);
      }
    }
  }

  /** Every rule resolves to a registered name that ends with the symbol
      as written. */
  lemma LookupKeyEndsWithSymbol<T>(r: Resolver<T>, symbol: string, sourceNs: seq<string>, imports: Option<seq<Import>>)
    requires LookupKey(r, symbol, sourceNs, imports).Ok?
    ensures EndsWith(LookupKey(r, symbol, sourceNs, imports).value, symbol)
  {
    var c1 := ChildCandidate(symbol, sourceNs);
    if c1 !in r.elements && symbol !in r.elements {
      var imps := imports.value;
      var statics := StaticImports(imps);
      var wildcards := WildcardImports(imps);
      RuleMatchesEndWithSymbol(r, 3, symbol, sourceNs, statics);
      RuleMatchesEndWithSymbol(r, 4, symbol, sourceNs, statics);
      RuleMatchesEndWithSymbol(r, 5, symbol, sourceNs, wildcards);
      RuleMatchesEndWithSymbol(r, 6, symbol, sourceNs, wildcards);
    }
  }

  /** When neither rule 1 nor rule 2 matches, rule 3 decides as soon as it
      has a match: one match is the answer, two or more are ambiguous, and
      later rules are not consulted. */
  lemma StaticChildRuleDecides<T>(r: Resolver<T>, symbol: string, sourceNs: seq<string>, imports: seq<Import>)
    requires ChildCandidate(symbol, sourceNs) !in r.elements && symbol !in r.elements
    requires |RuleMatches(r, 3, symbol, sourceNs, StaticImports(imports))| >= 1
    ensures var m := RuleMatches(r, 3, symbol, sourceNs, StaticImports(imports));
            LookupKey(r, symbol, sourceNs, Some(imports))
            == if |m| == 1 then Ok(m[0]) else Err(AmbiguousImport(m[0]))
  {
  }

  /** Rule 4 (a static import naming the symbol, taken as absolute)
      decides once rule 3 has no match. */
  lemma StaticQualifiedRuleDecides<T>(r: Resolver<T>, symbol: string, sourceNs: seq<string>, imports: seq<Import>)
    requires ChildCandidate(symbol, sourceNs) !in r.elements && symbol !in r.elements
    requires |RuleMatches(r, 3, symbol, sourceNs, StaticImports(imports))| == 0
    requires |RuleMatches(r, 4, symbol, sourceNs, StaticImports(imports))| >= 1
    ensures var m := RuleMatches(r, 4, symbol, sourceNs, StaticImports(imports));
            LookupKey(r, symbol, sourceNs, Some(imports))
            == if |m| == 1 then Ok(m[0]) else Err(AmbiguousImport(m[0]))
  {
  }

  /** Rule 5 (a child of a wildcard import's namespace relative to the
      source namespace) decides once neither static rule has a match. */
  lemma WildcardChildRuleDecides<T>(r: Resolver<T>, symbol: string, sourceNs: seq<string>, imports: seq<Import>)
    requires ChildCandidate(symbol, sourceNs) !in r.elements && symbol !in r.elements
    requires |RuleMatches(r, 3, symbol, sourceNs, StaticImports(imports))| == 0
    requires |RuleMatches(r, 4, symbol, sourceNs, StaticImports(imports))| == 0
    requires |RuleMatches(r, 5, symbol, sourceNs, WildcardImports(imports))| >= 1
    ensures var m := RuleMatches(r, 5, symbol, sourceNs, WildcardImports(imports));
            LookupKey(r, symbol, sourceNs, Some(imports))
            == if |m| == 1 then Ok(m[0]) else Err(AmbiguousImport(m[0]))
  {
  }

  /** Rule 6 (a child of a wildcard import's namespace taken as absolute)
      decides once rules 3 to 5 have no match. */
  lemma WildcardQualifiedRuleDecides<T>(r: Resolver<T>, symbol: string, sourceNs: seq<string>, imports: seq<Import>)
    requires ChildCandidate(symbol, sourceNs) !in r.elements && symbol !in r.elements
    requires |RuleMatches(r, 3, symbol, sourceNs, StaticImports(imports))| == 0
    requires |RuleMatches(r, 4, symbol, sourceNs, StaticImports(imports))| == 0
    requires |RuleMatches(r, 5, symbol, sourceNs, WildcardImports(imports))| == 0
    requires |RuleMatches(r, 6, symbol, sourceNs, WildcardImports(imports))| >= 1
    ensures var m := RuleMatches(r, 6, symbol, sourceNs, WildcardImports(imports));
            LookupKey(r, symbol, sourceNs, Some(imports))
            == if |m| == 1 then Ok(m[0]) else Err(AmbiguousImport(m[0]))
  {
  }

  /** With imports present, the symbol is unresolved exactly when rules 1
      to 6 all come up empty. */
  lemma NoRuleMatchesNotFound<T>(r: Resolver<T>, symbol: string, sourceNs: seq<string>, imports: seq<Import>)
    requires ChildCandidate(symbol, sourceNs) !in r.elements && symbol !in r.elements
    ensures LookupKey(r, symbol, sourceNs, Some(imports)) == Err(NotFound(r.kind)) <==>
              |RuleMatches(r, 3, symbol, sourceNs, StaticImports(imports))| == 0 &&
              |RuleMatches(r, 4, symbol, sourceNs, StaticImports(imports))| == 0 &&
              |RuleMatches(r, 5, symbol, sourceNs, WildcardImports(imports))| == 0 &&
              |RuleMatches(r, 6, symbol, sourceNs, WildcardImports(imports))| == 0
  {
  }

  /** Ambiguity is counted per import: two static imports naming the
      symbol whose relative candidates are registered make the lookup
      ambiguous, even when both imports are the same and so denote the same
      declaration. */
  lemma TwoStaticImportsAreAmbiguous<T>(r: Resolver<T>, symbol: string, sourceNs: seq<string>, i1: Import, i2: Import)
    requires ChildCandidate(symbol, sourceNs) !in r.elements && symbol !in r.elements
    requires !i1.isWildcard && !i2.isWildcard
    requires StaticImportNames(i1, symbol) && StaticImportNames(i2, symbol)
    requires Join(sourceNs, ".") + "." + Join(i1.components, ".") in r.elements
    requires Join(sourceNs, ".") + "." + Join(i2.components, ".") in r.elements
    ensures LookupKey(r, symbol, sourceNs, Some([i1, i2]))
            == Err(AmbiguousImport(Join(sourceNs, ".") + "." + Join(i1.components, ".")))
  {
    assert [i1, i2][..1] == [i1];
    assert StaticImports([i1, i2]) == [i1, i2] by {
      assert StaticImports([i1]) == [i1] by { assert [i1][..0] == []; }
    }
    var m := RuleMatches(r, 3, symbol, sourceNs, [i1, i2]);
    assert RuleMatches(r, 3, symbol, sourceNs, [i1]) == [Join(sourceNs, ".") + "." + Join(i1.components, ".")] by {
      assert [i1][..0] == [];
    }
    assert |m| == 2;
  }

  /** Without any import statements, only rules 1 and 2 can resolve. */
  lemma NoImportsOnlyDirectRules<T>(r: Resolver<T>, symbol: string, sourceNs: seq<string>)
    ensures LookupKey(r, symbol, sourceNs, None).Ok? <==>
              ChildCandidate(symbol, sourceNs) in r.elements || symbol in r.elements
  {
  }
}
