/** The declaration kinds of an ALFA document that the compiler keeps in
    its symbol registries (types, categories, attributes, advice,
    obligations, combining algorithms, functions and infix operators),
    together with imports, operators, attribute designators, constants and
    the qualified names under which each kind is registered. */
module Decls {
  import opened Wrappers
  import opened Strings

  /** Namespace of the built-in declarations. */
  const SYSTEM_NS: string := "_A2X"
  /** Namespace of the combining algorithms deconditioning depends on. */
  const PROTECTED_NS: string := "_A2X.PROTECTED"

  const BOOLEAN_URI: string := "http://www.w3.org/2001/XMLSchema#boolean"
  const STRING_URI: string := "http://www.w3.org/2001/XMLSchema#string"
  const INTEGER_URI: string := "http://www.w3.org/2001/XMLSchema#integer"
  const DOUBLE_URI: string := "http://www.w3.org/2001/XMLSchema#double"

  /** An `import` statement: dotted components, optionally ending in `.*`. */
  datatype Import = Import(components: seq<string>, isWildcard: bool)

  datatype TypeDef = TypeDef(id: string, uri: string, ns: seq<string>)
  datatype Category = Category(id: string, uri: string, ns: seq<string>)
  /** An attribute; its type and category are names resolved later from
      the attribute's own namespace. */
  datatype Attribute = Attribute(id: string, uri: string, category: string, typedef: string, ns: seq<string>)
  datatype AdviceDef = AdviceDef(id: string, uri: string, ns: seq<string>)
  datatype ObligationDef = ObligationDef(id: string, uri: string, ns: seq<string>)
  datatype PolicyCombinator = PolicyCombinator(id: string, uri: string, ns: seq<string>)
  datatype RuleCombinator = RuleCombinator(id: string, uri: string, ns: seq<string>)

  datatype FunctionInputArg =
    | InAtomic(typeName: string)
    | InAtomicBag(typeName: string)
    | InAnyAtomicBag
    | InAnyAtomic
    | InAnyAtomicOrBag
    | InFunction

  /** Function outputs: unlike inputs, never a function and never
      "atomic or bag". */
  datatype FunctionOutputArg =
    | OutAtomic(typeName: string)
    | OutAtomicBag(typeName: string)
    | OutAnyAtomicBag
    | OutAnyAtomic

  datatype FunctionInputs = FunctionInputs(args: seq<FunctionInputArg>, wildcard: bool)

  datatype Function = Function(id: string, ns: seq<string>, functionUri: string,
                               inputArgs: FunctionInputs, outputArg: FunctionOutputArg)

  /** One overload of an infix operator: XACML function URI and the type
      names of both operands and of the result. */
  datatype InfixSignature = InfixSignature(uri: string, firstArg: string, secondArg: string, output: string)

  datatype Infix = Infix(operator: string, allowBags: bool, commutative: bool,
                         signatures: seq<InfixSignature>, ns: seq<string>, inverse: Option<string>)

  /** An operator occurrence: an optional namespace and the symbol. */
  datatype Operator = Operator(ns: seq<string>, operator: string)

  datatype AttributeDesignator = AttributeDesignator(attribute: seq<string>, issuer: Option<string>, mustBePresent: bool)

  datatype CustomType = CustomType(name: string)

  /** A literal; `Undefined` is the default. */
  datatype Constant =
    | CString(s: string)
    | CInteger(digits: string)
    | CDouble(digits: string)
    | CBoolean(b: bool)
    | CCustom(ct: CustomType, s: string)
    | Undefined

  predicate DotFree(parts: seq<string>)
  {
    forall i :: 0 <= i < |parts| ==> '.' !in parts[i]
  }

  /** The qualified name of a type, category, attribute, advice,
      obligation, combining algorithm or infix operator: the namespace
      joined by ".", a ".", then the id. It is always defined, and an empty
      namespace leaves a leading ".". */
  function DottedName(ns: seq<string>, id: string): (r: string)
    ensures StartsWith(r, Join(ns, ".") + ".") && EndsWith(r, id)
    ensures DotFree(ns + [id]) ==> Split(r, '.') == (if |ns| == 0 then [""] else ns) + [id]
  {
    var parts := (if |ns| == 0 then [""] else ns) + [id];
    assert Join(ns, ".") + "." + id == Join(parts, ".") by {
      JoinSnoc(if |ns| == 0 then [""] else ns, id, ".");
    }
    if DotFree(ns + [id]) then
      assert DotFree(parts) by {
        forall i | 0 <= i < |parts| ensures '.' !in parts[i] {
          if |ns| > 0 || i > 0 { assert parts[i] == (ns + [id])[if |ns| == 0 then i - 1 else i]; }
        }
      }
      JoinSplit(parts, '.');
      Join(ns, ".") + "." + id
    else
      Join(ns, ".") + "." + id
  }

  /** The qualified name of a function, an operator and a rule reference:
      like `DottedName`, but with no "." when the namespace is empty. */
  function OptionallyDottedName(ns: seq<string>, id: string): (r: string)
    ensures |ns| == 0 ==> r == id
    ensures DotFree(ns + [id]) ==> Split(r, '.') == ns + [id]
  {
    if |ns| == 0 then
      assert ns + [id] == [id];
      assert DotFree([id]) ==> Split(id, '.') == [id] by {
        if DotFree([id]) { assert '.' !in [id][0]; JoinSplit([id], '.'); }
      }
      id
    else DottedName(ns, id)
  }

  /** The names each declaration kind is registered under. */
  function TypeDefName(t: TypeDef): string { DottedName(t.ns, t.id) }
  function CategoryName(c: Category): string { DottedName(c.ns, c.id) }
  function AttributeName(a: Attribute): string { DottedName(a.ns, a.id) }
  function AdviceName(a: AdviceDef): string { DottedName(a.ns, a.id) }
  function ObligationName(o: ObligationDef): string { DottedName(o.ns, o.id) }
  function PolicyCombinatorName(c: PolicyCombinator): string { DottedName(c.ns, c.id) }
  function RuleCombinatorName(c: RuleCombinator): string { DottedName(c.ns, c.id) }
  function InfixName(i: Infix): string { DottedName(i.ns, i.operator) }
  function FunctionName(f: Function): string { OptionallyDottedName(f.ns, f.id) }

  /** `Operator::qualified_name`, which its Display agrees with. */
  function QualifiedName(op: Operator): string
  {
    OptionallyDottedName(op.ns, op.operator)
  }

  /** The two cases of operator.rs's own tests. */
  lemma QualifiedNameExamples()
    ensures QualifiedName(Operator([], "++")) == "++"
    ensures QualifiedName(Operator(["foo", "bar"], "++")) == "foo.bar.++"
  {
    assert Join(["foo", "bar"], ".") == "foo.bar" by {
      assert ["foo", "bar"][..1] == ["foo"];
    }
  }

  /** `AttributeDesignator::fully_qualified_name`: the components joined
      by ".". */
  function DesignatorName(d: AttributeDesignator): (r: string)
    ensures |d.attribute| >= 1 && DotFree(d.attribute) ==> Split(r, '.') == d.attribute
  {
    if |d.attribute| >= 1 && DotFree(d.attribute) then
      JoinSplit(d.attribute, '.');
      Join(d.attribute, ".")
    else Join(d.attribute, ".")
  }

  /** Function equality compares the id, the namespace, the URI, the
      inputs and the output, so it is structural equality. */
  predicate FunctionEq(f: Function, g: Function)
  {
    f.id == g.id && f.ns == g.ns && f.functionUri == g.functionUri
    && f.inputArgs == g.inputArgs && f.outputArg == g.outputArg
  }

  lemma FunctionEqIsEquality(f: Function, g: Function)
    ensures FunctionEq(f, g) <==> f == g
  {
  }
}
