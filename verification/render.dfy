/** The textual forms the compiler gives its declarations and
    expressions: `Display` (diagnostics and logging) and `to_alfa`
    (ALFA source written back out). Each rendering is paired with a
    reading that recovers what was rendered. */
module Render {
  import opened Wrappers
  import opened Errors
  import opened Strings
  import opened Decls
  import opened Conditions
  import opened ParseRules

  /** `"  ".repeat(level)`. */
  function Indent(level: nat): (r: string)
    ensures |r| == 2 * level && '\n' !in r
  {
    RepeatFree("  ", level, '\n');
    Repeat("  ", level)
  }

  // ----------------------------------------------------------------------
  // Constants

  /** `Display` for a literal: strings debug-quoted, numbers verbatim,
      booleans as `true`/`false`, anything else as `unhandled`. */
  function ConstantDisplay(c: Constant): (r: string)
    ensures c.CString? ==> Unquote(r) == c.s
    ensures c.CInteger? || c.CDouble? ==> r == c.digits
    ensures c.CBoolean? ==> (r == "true" <==> c.b) && (r == "false" <==> !c.b)
    ensures c.CCustom? || c.Undefined? ==> r == "unhandled"
  {
    match c
    case CString(s) => DebugQuoteRoundTrip(s); DebugQuote(s)
    case CInteger(d) => d
    case CDouble(d) => d
    case CBoolean(b) => if b then "true" else "false"
    case _ => "unhandled"
  }

  /** A displayed number reads back as the same literal. */
  lemma NumericDisplayRoundTrip(c: Constant)
    requires c.CInteger? || c.CDouble?
    requires c.CDouble? <==> '.' in c.digits
    ensures NumericLiteral(ConstantDisplay(c)) == c
  {
  }

  // ----------------------------------------------------------------------
  // Attribute designators

  /** The option list inside the brackets: `mustbepresent` before the
      issuer. */
  function DesignatorOptions(d: AttributeDesignator): (r: seq<string>)
    ensures |r| == (if d.mustBePresent then 1 else 0) + (if d.issuer.Some? then 1 else 0)
  {
    (if d.mustBePresent then ["mustbepresent"] else [])
    + (if d.issuer.Some? then ["issuer=\"" + d.issuer.value + "\""] else [])
  }

  /** `Display` for a designator: the dotted name, then the options in
      brackets separated by spaces when there are any. */
  function DesignatorDisplay(d: AttributeDesignator): (r: string)
    ensures !d.mustBePresent && d.issuer.None? ==> r == DesignatorName(d)
    ensures d.mustBePresent || d.issuer.Some? ==>
              r == DesignatorName(d) + "[" + Join(DesignatorOptions(d), " ") + "]"
  {
    var opts := DesignatorOptions(d);
    if |opts| == 0 then Join(d.attribute, ".")
    else Join(d.attribute, ".") + "[" + Join(opts, " ") + "]"
  }

  /** Read an option list back: whether it starts with `mustbepresent`,
      and the issuer between `issuer="` and the final quote. */
  function ReadOptions(o: string): (bool, Option<string>)
  {
    var mbp := StartsWith(o, "mustbepresent");
    var rest := if mbp then o[13..] else o;
    var rest2 := if StartsWith(rest, " ") then rest[1..] else rest;
    if |rest2| >= 9 && StartsWith(rest2, "issuer=\"") && rest2[|rest2| - 1] == '"'
    then (mbp, Some(rest2[8..|rest2| - 1]))
    else (mbp, None)
  }

  /** The options of any designator read back as written, whatever the
      issuer contains. */
  lemma ReadOptionsRoundTrip(d: AttributeDesignator)
    ensures ReadOptions(Join(DesignatorOptions(d), " ")) == (d.mustBePresent, d.issuer)
  {
    var opts := DesignatorOptions(d);
    var o := Join(opts, " ");
    var iss := if d.issuer.Some? then "issuer=\"" + d.issuer.value + "\"" else "";
    if d.mustBePresent && d.issuer.Some? {
      assert opts == ["mustbepresent"] + [iss];
      JoinSnoc(["mustbepresent"], iss, " ");
      assert o == "mustbepresent" + " " + iss;
      assert o[..13] == "mustbepresent";
      assert o[13..][..1] == " ";
      assert o[13..][1..] == iss;
      assert iss[..8] == "issuer=\"";
      assert iss[8..|iss| - 1] == d.issuer.value;
    } else if d.mustBePresent {
      assert o == "mustbepresent";
      assert o[13..] == "";
    } else if d.issuer.Some? {
      assert o == iss;
      assert iss[..8] == "issuer=\"";
      assert iss[0] == 'i';
      assert !StartsWith(o, "mustbepresent") by { assert o[0] != "mustbepresent"[0]; }
      assert iss[8..|iss| - 1] == d.issuer.value;
    } else {
      assert o == "";
    }
  }

  // ----------------------------------------------------------------------
  // Condition expressions

  const EMPTY_EXPRESSION: string := "empty expressions are not expected"

  /** No `Empty` node anywhere in the tree, function arguments included. */
  predicate NoEmpty(e: CondExpression)
    decreases e, 1
  {
    match e
    case InfixExpr(a, _, b) => NoEmpty(a) && NoEmpty(b)
    case Fn(_, args) => NoEmptyArgs(args)
    case Empty => false
    case _ => true
  }

  predicate NoEmptyArgs(args: seq<CondExpression>)
    decreases args, 0
  {
    forall i :: 0 <= i < |args| ==> NoEmpty(args[i])
  }

  /** `Display` for an expression: each infix node in parentheses with
      the operator between spaces, a call as its dotted name and its
      arguments separated by ", ", a function reference as `fn[...]`.
      Displaying an `Empty` node aborts. */
  function ExprDisplay(e: CondExpression): (r: Res<string>)
    ensures r.Ok? <==> NoEmpty(e)
    ensures r.Err? ==> r.error == Panic(EMPTY_EXPRESSION)
    ensures e.Lit? ==> r == Ok(ConstantDisplay(e.constant))
    ensures e.Attr? ==> r == Ok(DesignatorDisplay(e.designator))
    decreases e, 1
  {
    match e
    case InfixExpr(a, op, b) =>
      var x :- ExprDisplay(a);
      var y :- ExprDisplay(b);
      Ok(Parenthesised(x, QualifiedName(op), y))
    case Fn(id, args) =>
      var xs :- ArgsDisplay(args);
      Ok(Join(id, ".") + "(" + Join(xs, ", ") + ")")
    case Attr(d) => Ok(DesignatorDisplay(d))
    case FnRef(f) => Ok("fn[" + Join(f.identifier, ".") + "]")
    case Lit(c) => Ok(ConstantDisplay(c))
    case Empty => Err(Panic(EMPTY_EXPRESSION))
  }

  function ArgsDisplay(args: seq<CondExpression>): (r: Res<seq<string>>)
    ensures r.Ok? <==> NoEmptyArgs(args)
    ensures r.Ok? ==> |r.value| == |args|
    ensures r.Err? ==> r.error == Panic(EMPTY_EXPRESSION)
    decreases args, 0
  {
    if |args| == 0 then Ok([])
    else
      var x :- ExprDisplay(args[0]);
      var xs :- ArgsDisplay(args[1..]);
      assert forall i :: 1 <= i < |args| ==> args[i] == args[1..][i - 1];
      Ok([x] + xs)
  }

  /** `Display` for a condition. */
  function ConditionDisplay(c: Condition): (r: Res<string>)
    ensures r.Ok? <==> NoEmpty(c.condExpr)
    ensures r.Ok? ==> StartsWith(r.value, "Condition: ")
  {
    var body :- ExprDisplay(c.condExpr);
    Ok("Condition: " + body)
  }

  /** A tree of operators over literals, with no parenthesis in any
      literal's or operator's text. */
  predicate LiteralTree(e: CondExpression)
  {
    match e
    case InfixExpr(a, op, b) =>
      LiteralTree(a) && LiteralTree(b)
      && '(' !in QualifiedName(op) && ')' !in QualifiedName(op)
    case Lit(c) => '(' !in ConstantDisplay(c) && ')' !in ConstantDisplay(c)
    case _ => false
  }

  function InfixCount(e: CondExpression): nat
  {
    if e.InfixExpr? then InfixCount(e.lhs) + InfixCount(e.rhs) + 1 else 0
  }

  function Parenthesised(x: string, q: string, y: string): (r: string)
    ensures multiset(r)['('] == multiset(x)['('] + multiset(q)['('] + multiset(y)['('] + 1
    ensures multiset(r)[')'] == multiset(x)[')'] + multiset(q)[')'] + multiset(y)[')'] + 1
  {
    "(" + x + " " + q + " " + y + ")"
  }

  /** Every infix node is wrapped in exactly one pair of parentheses. */
  lemma {:induction false} ParenthesesCountInfixNodes(e: CondExpression)
    requires LiteralTree(e)
    ensures ExprDisplay(e).Ok?
    ensures multiset(ExprDisplay(e).value)['('] == InfixCount(e)
    ensures multiset(ExprDisplay(e).value)[')'] == InfixCount(e)
  {
    if e.InfixExpr? {
      ParenthesesCountInfixNodes(e.lhs);
      ParenthesesCountInfixNodes(e.rhs);
      InfixDisplayStep(e.lhs, e.op, e.rhs);
    }
  }

  lemma InfixDisplayStep(a: CondExpression, op: Operator, b: CondExpression)
    requires ExprDisplay(a).Ok? && ExprDisplay(b).Ok?
    ensures ExprDisplay(InfixExpr(a, op, b)) == Ok(Parenthesised(ExprDisplay(a).value, QualifiedName(op), ExprDisplay(b).value))
  {
  }

  /** A literal condition displays as its literal after `Condition: `. */
  lemma LiteralConditionDisplay(c: Constant, ns: seq<string>)
    ensures ConditionDisplay(Condition(Lit(c), ns)) == Ok("Condition: " + ConstantDisplay(c))
  {
  }

  // ----------------------------------------------------------------------
  // Functions

  function InputArgDisplay(a: FunctionInputArg): string
  {
    match a
    case InAnyAtomic => "anyAtomic"
    case InAnyAtomicBag => "bag[anyAtomic]"
    case InAnyAtomicOrBag => "anyAtomicOrBag"
    case InAtomic(s) => s
    case InAtomicBag(s) => "bag[" + s + "]"
    case InFunction => "function"
  }

  function OutputArgDisplay(o: FunctionOutputArg): string
  {
    match o
    case OutAnyAtomic => "anyAtomic"
    case OutAnyAtomicBag => "bag[anyAtomic]"
    case OutAtomic(s) => s
    case OutAtomicBag(s) => "bag[" + s + "]"
  }

  /** Read an argument type back from its display. */
  function ReadInputArg(s: string): FunctionInputArg
  {
    if s == "anyAtomic" then InAnyAtomic
    else if s == "bag[anyAtomic]" then InAnyAtomicBag
    else if s == "anyAtomicOrBag" then InAnyAtomicOrBag
    else if s == "function" then InFunction
    else if |s| >= 5 && StartsWith(s, "bag[") && s[|s| - 1] == ']' then InAtomicBag(s[4..|s| - 1])
    else InAtomic(s)
  }

  /** An argument type whose display is not also the display of another:
      an atomic type named like a keyword or like a bag, or a bag of a
      type named `anyAtomic`, would be read back as something else. */
  predicate Unambiguous(a: FunctionInputArg)
  {
    match a
    case InAtomic(s) =>
      s !in {"anyAtomic", "bag[anyAtomic]", "anyAtomicOrBag", "function"}
      && !(|s| >= 5 && StartsWith(s, "bag[") && s[|s| - 1] == ']')
    case InAtomicBag(s) => s != "anyAtomic"
    case _ => true
  }

  /** Reading a displayed argument type gives it back exactly when it is
      unambiguous. */
  lemma ReadInputArgRoundTrip(a: FunctionInputArg)
    ensures ReadInputArg(InputArgDisplay(a)) == a <==> Unambiguous(a)
  {
    if a.InAtomicBag? {
      var s := InputArgDisplay(a);
      assert s[..4] == "bag[" && s[4..|s| - 1] == a.typeName;
      if a.typeName == "anyAtomic" {
        assert s == "bag[anyAtomic]";
      } else {
        var lit := "bag[anyAtomic]";
        assert |lit| == 14 && lit[4..13] == "anyAtomic";
        assert s[4..|s| - 1] != lit[4..|lit| - 1];
        assert s != "anyAtomic" && s != "anyAtomicOrBag" && s != "function" by { assert s[0] == 'b'; }
      }
    }
  }

  /** A bag of a type named `anyAtomic` displays like a bag of any type. */
  lemma BagDisplayCollision()
    ensures InputArgDisplay(InAtomicBag("anyAtomic")) == InputArgDisplay(InAnyAtomicBag)
  {
  }

  /** The argument part of a function's ALFA form: each argument's
      display followed by a space. */
  function ArgsText(args: seq<FunctionInputArg>): string
  {
    Terminated(ArgDisplays(args), " ")
  }

  function ArgDisplays(args: seq<FunctionInputArg>): (r: seq<string>)
    ensures |r| == |args| && forall i :: 0 <= i < |args| ==> r[i] == InputArgDisplay(args[i])
  {
    seq(|args|, i requires 0 <= i < |args| => InputArgDisplay(args[i]))
  }

  /** `to_alfa` for a function: `function id = "uri" : `, the arguments
      each followed by a space, `* ` for a wildcard, then `-> ` and the
      output type. */
  function FunctionToAlfa(f: Function, level: nat): (r: string)
    ensures StartsWith(r, Indent(level) + "function " + f.id + " = \"" + f.functionUri + "\" : ")
    ensures EndsWith(r, "-> " + OutputArgDisplay(f.outputArg) + "\n")
  {
    var head := Indent(level) + "function " + f.id + " = \"" + f.functionUri + "\" : ";
    var tail := "-> " + OutputArgDisplay(f.outputArg) + "\n";
    var r := head + ArgsText(f.inputArgs.args) + (if f.inputArgs.wildcard then "* " else "") + tail;
    assert r[..|head|] == head;
    assert r[|r| - |tail|..] == tail;
    r
  }

  /** The argument part of the ALFA form reads back into the arguments,
      in order, when each is unambiguous and its display has no space. */
  lemma ArgsTextRoundTrip(args: seq<FunctionInputArg>)
    requires forall i :: 0 <= i < |args| ==> Unambiguous(args[i]) && ' ' !in InputArgDisplay(args[i])
    ensures |Split(ArgsText(args), ' ')| == |args| + 1
    ensures forall i :: 0 <= i < |args| ==> ReadInputArg(Split(ArgsText(args), ' ')[i]) == args[i]
  {
    TerminatedJoins(ArgDisplays(args), " ");
    var parts := ArgDisplays(args) + [""];
    assert forall i :: 0 <= i < |parts| ==> ' ' !in parts[i];
    JoinSplit(parts, ' ');
    forall i | 0 <= i < |args| ensures ReadInputArg(parts[i]) == args[i] {
      ReadInputArgRoundTrip(args[i]);
    }
  }

  /** The ALFA form of a function split at its arguments. */
  lemma FunctionToAlfaPieces(f: Function, level: nat)
    ensures FunctionToAlfa(f, level)
            == Indent(level) + "function " + f.id + (" = \"" + f.functionUri + "\" : ")
               + ArgsText(f.inputArgs.args)
               + ((if f.inputArgs.wildcard then "* " else "") + ("-> " + OutputArgDisplay(f.outputArg) + "\n"))
  {
  }

  /** `Display` for a function: `fn id <uri> (args) ==> output`, the
      arguments separated by ", " and a wildcard shown as `*`. */
  function FunctionDisplay(f: Function): (r: string)
    ensures StartsWith(r, "fn " + f.id + " <" + f.functionUri + "> (")
    ensures EndsWith(r, ") ==> " + OutputArgDisplay(f.outputArg))
    ensures var head, tail := |"fn " + f.id + " <" + f.functionUri + "> ("|, |") ==> " + OutputArgDisplay(f.outputArg)|;
            head + tail <= |r|
            && r[head..|r| - tail] == Join(ArgDisplays(f.inputArgs.args), ", ") + (if f.inputArgs.wildcard then "*" else "")
  {
    var head := "fn " + f.id + " <" + f.functionUri + "> (";
    var mid := Join(ArgDisplays(f.inputArgs.args), ", ") + (if f.inputArgs.wildcard then "*" else "");
    var tail := ") ==> " + OutputArgDisplay(f.outputArg);
    var r := head + mid + tail;
    assert r[..|head|] == head;
    assert r[|r| - |tail|..] == tail;
    assert r[|head|..|r| - |tail|] == mid;
    r
  }

  // ----------------------------------------------------------------------
  // Infix operators

  /** The first line of an infix operator's ALFA form: `allowbags ` before
      `comm `, each only when set. */
  function InfixHeader(i: Infix, level: nat): string
  {
    Indent(level) + "infix " + (if i.allowBags then "allowbags " else "") + (if i.commutative then "comm " else "")
    + "(" + i.operator + ") = {\n"
  }

  /** A signature line: `"uri" : first second -> output`. */
  function SignatureToAlfa(s: InfixSignature, level: nat): string
  {
    Indent(level) + "\"" + s.uri + "\" : " + s.firstArg + " " + s.secondArg + " -> " + s.output + "\n"
  }

  function SignaturesToAlfa(sigs: seq<InfixSignature>, level: nat): string
  {
    if |sigs| == 0 then "" else SignaturesToAlfa(sigs[..|sigs| - 1], level) + SignatureToAlfa(sigs[|sigs| - 1], level)
  }

  function InfixFooter(i: Infix, level: nat): string
  {
    if i.inverse.Some? then Indent(level) + "} inv " + i.inverse.value + "\n" else Indent(level) + "}\n"
  }

  /** `to_alfa` for an infix operator: the header, one line per signature
      one level deeper, and the closing brace with the inverse if any. */
  function InfixToAlfa(i: Infix, level: nat): (r: string)
    ensures StartsWith(r, InfixHeader(i, level))
    ensures i.inverse.Some? ==> EndsWith(r, "} inv " + i.inverse.value + "\n")
    ensures i.inverse.None? ==> EndsWith(r, "}\n")
  {
    var h := InfixHeader(i, level);
    var f := InfixFooter(i, level);
    var r := h + SignaturesToAlfa(i.signatures, level + 1) + f;
    assert r[..|h|] == h;
    assert r[|r| - |f|..] == f;
    if i.inverse.Some? then
      var t := "} inv " + i.inverse.value + "\n";
      assert f[|f| - |t|..] == t;
      assert r[|r| - |t|..] == f[|f| - |t|..];
      r
    else
      assert f[|f| - 2..] == "}\n";
      assert r[|r| - 2..] == f[|f| - 2..];
      r
  }

  /** Whether `s` starts with the keyword `kw`, and what follows it. */
  function StripKeyword(s: string, kw: string): (bool, string)
  {
    if StartsWith(s, kw) then (true, s[|kw|..]) else (false, s)
  }

  /** Read the modifiers and the operator back from a header line. */
  function ReadInfixHeader(line: string, level: nat): (bool, bool, string)
  {
    var prefix := Indent(level) + "infix ";
    var rest := if |line| >= |prefix| then line[|prefix|..] else "";
    var (bags, rest1) := StripKeyword(rest, "allowbags ");
    var (comm, rest2) := StripKeyword(rest1, "comm ");
    (bags, comm, if |rest2| >= 7 then rest2[1..|rest2| - 6] else "")
  }

  /** An optional keyword in front of text that cannot start with it is
      recognised exactly when present, and stripping it leaves the text. */
  lemma OptionalKeyword(kw: string, present: bool, rest: string)
    requires |kw| > 0 && |rest| > 0 && rest[0] != kw[0]
    ensures StripKeyword((if present then kw else "") + rest, kw) == (present, rest)
  {
    var t := (if present then kw else "") + rest;
    if present {
      assert t[..|kw|] == kw;
      assert t[|kw|..] == rest;
    } else {
      assert t == rest;
      assert t[0] != kw[0];
    }
  }

  /** The header line gives back both modifiers and the operator, for any
      operator symbol. */
  lemma ReadInfixHeaderRoundTrip(i: Infix, level: nat)
    ensures ReadInfixHeader(InfixHeader(i, level), level) == (i.allowBags, i.commutative, i.operator)
  {
    var prefix := Indent(level) + "infix ";
    var line := InfixHeader(i, level);
    var tail := "(" + i.operator + ") = {\n";
    var rest1 := (if i.commutative then "comm " else "") + tail;
    var rest := (if i.allowBags then "allowbags " else "") + rest1;
    assert line[|prefix|..] == rest by {
      assert line == prefix + rest;
    }
    assert rest1[0] == 'c' || rest1[0] == '(' by {
      if !i.commutative { assert rest1 == tail; }
    }
    OptionalKeyword("allowbags ", i.allowBags, rest1);
    OptionalKeyword("comm ", i.commutative, tail);
    assert tail[1..|tail| - 6] == i.operator;
  }

  /** When no field holds a line break, the form has one line for the
      header, one per signature and one for the closing brace. */
  lemma InfixLineCount(i: Infix, level: nat)
    requires '\n' !in i.operator
    requires i.inverse.Some? ==> '\n' !in i.inverse.value
    requires forall k :: 0 <= k < |i.signatures| ==> NoLineBreak(i.signatures[k])
    ensures multiset(InfixToAlfa(i, level))['\n'] == |i.signatures| + 2
  {
    SignaturesLineCount(i.signatures, level + 1);
    HeaderLineCount(i, level);
    FooterLineCount(i, level);
    assert InfixToAlfa(i, level) == InfixHeader(i, level) + SignaturesToAlfa(i.signatures, level + 1) + InfixFooter(i, level);
  }

  lemma HeaderLineCount(i: Infix, level: nat)
    requires '\n' !in i.operator
    ensures multiset(InfixHeader(i, level))['\n'] == 1
  {
    var m := (if i.allowBags then "allowbags " else "") + (if i.commutative then "comm " else "");
    assert '\n' !in m;
    var body := Indent(level) + "infix " + m + "(" + i.operator + ") = {";
    assert InfixHeader(i, level) == body + "\n";
    OneLine(body);
  }

  lemma SignatureLineCount(s: InfixSignature, level: nat)
    requires NoLineBreak(s)
    ensures multiset(SignatureToAlfa(s, level))['\n'] == 1
  {
    var body := Indent(level) + "\"" + s.uri + "\" : " + s.firstArg + " " + s.secondArg + " -> " + s.output;
    assert SignatureToAlfa(s, level) == body + "\n";
    OneLine(body);
  }

  lemma FooterLineCount(i: Infix, level: nat)
    requires i.inverse.Some? ==> '\n' !in i.inverse.value
    ensures multiset(InfixFooter(i, level))['\n'] == 1
  {
    var body := if i.inverse.Some? then Indent(level) + "} inv " + i.inverse.value else Indent(level) + "}";
    assert InfixFooter(i, level) == body + "\n";
    OneLine(body);
  }

  predicate NoLineBreak(s: InfixSignature)
  {
    '\n' !in s.uri && '\n' !in s.firstArg && '\n' !in s.secondArg && '\n' !in s.output
  }

  lemma {:induction false} SignaturesLineCount(sigs: seq<InfixSignature>, level: nat)
    requires forall k :: 0 <= k < |sigs| ==> NoLineBreak(sigs[k])
    ensures multiset(SignaturesToAlfa(sigs, level))['\n'] == |sigs|
  {
    if |sigs| > 0 {
      SignaturesLineCount(sigs[..|sigs| - 1], level);
      SignatureLineCount(sigs[|sigs| - 1], level);
    }
  }

  // ----------------------------------------------------------------------
  // Named declarations

  /** The `Display` shared by categories, attributes, advice and
      obligations: `Label: "id" => ` and the debug-quoted URI. */
  function DeclDisplay(kind: string, id: string, uri: string): string
  {
    kind + ": \"" + id + "\" => " + DebugQuote(uri)
  }

  /** Read the URI back from a display, knowing the kind and the id. */
  function DisplayedUri(kind: string, id: string, text: string): string
  {
    var skip := |kind| + 3 + |id| + 5;
    if |text| >= skip then Unquote(text[skip..]) else ""
  }

  /** A display loses nothing of the URI, whatever it contains. */
  lemma DeclDisplayRoundTrip(kind: string, id: string, uri: string)
    ensures StartsWith(DeclDisplay(kind, id, uri), kind + ": \"" + id + "\" => ")
    ensures DisplayedUri(kind, id, DeclDisplay(kind, id, uri)) == uri
  {
    var text := DeclDisplay(kind, id, uri);
    var head := kind + ": \"" + id + "\" => ";
    assert |head| == |kind| + 3 + |id| + 5;
    assert text == head + DebugQuote(uri);
    assert text[..|head|] == head;
    assert text[|head|..] == DebugQuote(uri);
    DebugQuoteRoundTrip(uri);
  }

  function CategoryDisplay(c: Category): (r: string)
    ensures StartsWith(r, "Category: \"" + c.id + "\" => ")
    ensures DisplayedUri("Category", c.id, r) == c.uri
  {
    DeclDisplayRoundTrip("Category", c.id, c.uri);
    DeclDisplay("Category", c.id, c.uri)
  }

  function AttributeDisplay(a: Attribute): (r: string)
    ensures StartsWith(r, "Attribute: \"" + a.id + "\" => ")
    ensures DisplayedUri("Attribute", a.id, r) == a.uri
  {
    DeclDisplayRoundTrip("Attribute", a.id, a.uri);
    DeclDisplay("Attribute", a.id, a.uri)
  }

  function AdviceDisplay(a: AdviceDef): (r: string)
    ensures StartsWith(r, "Advice: \"" + a.id + "\" => ")
    ensures DisplayedUri("Advice", a.id, r) == a.uri
  {
    DeclDisplayRoundTrip("Advice", a.id, a.uri);
    DeclDisplay("Advice", a.id, a.uri)
  }

  function ObligationDisplay(o: ObligationDef): (r: string)
    ensures StartsWith(r, "Obligation: \"" + o.id + "\" => ")
    ensures DisplayedUri("Obligation", o.id, r) == o.uri
  {
    DeclDisplayRoundTrip("Obligation", o.id, o.uri);
    DeclDisplay("Obligation", o.id, o.uri)
  }

  /** `to_alfa` for a category: `category id = "uri"` on one line. */
  function CategoryToAlfa(c: Category, level: nat): (r: string)
    ensures '\n' !in c.id && '\n' !in c.uri ==> Split(r, '\n') == [CategoryLine(c, level), ""]
  {
    if '\n' !in c.id && '\n' !in c.uri then
      JoinTwo(CategoryLine(c, level), "", "\n");
      assert CategoryLine(c, level) + "\n" + "" == CategoryLine(c, level) + "\n";
      JoinSplit([CategoryLine(c, level), ""], '\n');
      CategoryLine(c, level) + "\n"
    else CategoryLine(c, level) + "\n"
  }

  function CategoryLine(c: Category, level: nat): (r: string)
    ensures '\n' !in c.id && '\n' !in c.uri ==> '\n' !in r
  {
    Indent(level) + "category " + c.id + " = \"" + c.uri + "\""
  }

  /** The lines of an attribute's ALFA form. */
  function AttributeLines(a: Attribute, level: nat): (r: seq<string>)
    ensures |r| == 5
    ensures '\n' !in a.id && '\n' !in a.typedef && '\n' !in a.category ==>
              forall k :: 0 <= k < |r| ==> '\n' !in r[k]
  {
    EscapeHasNoLineFeed(a.uri);
    [Indent(level) + "attribute " + a.id + " {",
     Indent(level + 1) + "id = " + DebugQuote(a.uri),
     Indent(level + 1) + "type = " + a.typedef,
     Indent(level + 1) + "category = " + a.category,
     Indent(level) + "}"]
  }

  /** `to_alfa` for an attribute: the opening line, then the URI, type
      and category lines one level deeper, in that order, then the
      closing brace, each line ended by a line feed. The URI is
      debug-quoted, so it never breaks a line. */
  function AttributeToAlfa(a: Attribute, level: nat): (r: string)
    ensures '\n' !in a.id && '\n' !in a.typedef && '\n' !in a.category ==>
              Split(r, '\n') == AttributeLines(a, level) + [""]
  {
    var ls := AttributeLines(a, level);
    TerminatedJoins(ls, "\n");
    if '\n' !in a.id && '\n' !in a.typedef && '\n' !in a.category then
      assert forall k :: 0 <= k < |ls + [""]| ==> '\n' !in (ls + [""])[k];
      JoinSplit(ls + [""], '\n');
      Terminated(ls, "\n")
    else Terminated(ls, "\n")
  }
}
