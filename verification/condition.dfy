/** Rule and policy conditions: the flat, unparsed form the grammar
    produces, the expression tree, and the Pratt parser that turns one into
    the other using a binding-power table chosen by the operator's first
    character. */
module Conditions {
  import opened Wrappers
  import opened Errors
  import opened Decls

  /** A function used as an argument (`fn[...]`). */
  datatype FunctionReference = FunctionReference(identifier: seq<string>)

  /** A parsed expression. `Empty` is the default value. */
  datatype CondExpression =
    | InfixExpr(lhs: CondExpression, op: Operator, rhs: CondExpression)
    | Fn(identifier: seq<string>, arguments: seq<CondExpression>)
    | Attr(designator: AttributeDesignator)
    | FnRef(ref: FunctionReference)
    | Lit(constant: Constant)
    | Empty

  /** A condition with its namespace. The compiler's condition also holds a
      handle to the compilation context, which its equality ignores; the
      model has no such handle, so datatype equality is that equality. */
  datatype Condition = Condition(condExpr: CondExpression, ns: seq<string>)

  /** One element of a flat, not yet associated, operator expression. */
  datatype CondItemUnparsed =
    | Atom(atom: CondAtomUnparsed)
    | Op(op: Operator)
    | ItemEmpty

  datatype CondAtomUnparsed =
    | AtomExpr(expr: CondExpressionUnparsed)
    | AtomFn(identifier: seq<string>, arguments: seq<CondExpressionUnparsed>)
    | AtomAttr(designator: AttributeDesignator)
    | AtomFnRef(ref: FunctionReference)
    | AtomLit(constant: Constant)
    | AtomEmpty

  /** A parenthesised sub-expression or a whole condition body, unparsed. */
  datatype CondExpressionUnparsed = CondExpressionUnparsed(items: seq<CondItemUnparsed>)

  datatype ConditionUnparsed = ConditionUnparsed(condExpr: CondExpressionUnparsed, ns: seq<string>)

  /** Which binding-power table the parser uses: the one the compiler
      has, or the one with the precedence order reversed (see
      `BindingPower`). */
  datatype Table = AsWritten | Corrected

  predicate StartsWithChar(symbol: string, c: char)
  {
    |symbol| > 0 && symbol[0] == c
  }

  /** The operator group of a symbol, by its first character, in the
      order the compiler lists the groups: 1 for `|`, 2 for `&`, 3 for
      `=`, `<`, `>`, `$`, 4 for `@`, `^`, 5 for `+`, `-`, 6 for `*`, `/`,
      `%`, and 0 for anything else. */
  function Group(symbol: string): (g: nat)
    ensures g <= 6
  {
    if StartsWithChar(symbol, '|') then 1
    else if StartsWithChar(symbol, '&') then 2
    else if StartsWithChar(symbol, '=') || StartsWithChar(symbol, '<')
         || StartsWithChar(symbol, '>') || StartsWithChar(symbol, '$') then 3
    else if StartsWithChar(symbol, '@') || StartsWithChar(symbol, '^') then 4
    else if StartsWithChar(symbol, '+') || StartsWithChar(symbol, '-') then 5
    else if StartsWithChar(symbol, '*') || StartsWithChar(symbol, '/') || StartsWithChar(symbol, '%') then 6
    else 0
  }

  /** Groups 1, 2 and 4 associate to the right, the others to the left. */
  predicate RightAssociative(g: nat)
  {
    g == 1 || g == 2 || g == 4
  }

  /** `operator_bp`: the (left, right) binding power of an operator. A
      higher power binds more tightly. The compiler's table gives group 1
      the highest power and group 6 the lowest, so `*` binds more loosely
      than `+` and `&&` more tightly than `==`. The corrected table keeps
      each group's associativity and reverses the order. */
  function BindingPower(t: Table, symbol: string): (bp: (nat, nat))
  {
    match t
    case AsWritten =>
      if StartsWithChar(symbol, '|') then (12, 11)
      else if StartsWithChar(symbol, '&') then (10, 9)
      else if StartsWithChar(symbol, '=') || StartsWithChar(symbol, '<')
           || StartsWithChar(symbol, '>') || StartsWithChar(symbol, '$') then (7, 8)
      else if StartsWithChar(symbol, '@') || StartsWithChar(symbol, '^') then (6, 5)
      else if StartsWithChar(symbol, '+') || StartsWithChar(symbol, '-') then (3, 4)
      else if StartsWithChar(symbol, '*') || StartsWithChar(symbol, '/') || StartsWithChar(symbol, '%') then (1, 2)
      else (0, 0)
    case Corrected =>
      if StartsWithChar(symbol, '|') then (2, 1)
      else if StartsWithChar(symbol, '&') then (4, 3)
      else if StartsWithChar(symbol, '=') || StartsWithChar(symbol, '<')
           || StartsWithChar(symbol, '>') || StartsWithChar(symbol, '$') then (5, 6)
      else if StartsWithChar(symbol, '@') || StartsWithChar(symbol, '^') then (8, 7)
      else if StartsWithChar(symbol, '+') || StartsWithChar(symbol, '-') then (9, 10)
      else if StartsWithChar(symbol, '*') || StartsWithChar(symbol, '/') || StartsWithChar(symbol, '%') then (11, 12)
      else (0, 0)
  }

  /** The binding power a group of rank `k` (1 = loosest) gets. */
  function PowerOfRank(k: nat, right: bool): (nat, nat)
    requires k >= 1
  {
    if right then (2 * k, 2 * k - 1) else (2 * k - 1, 2 * k)
  }

  /** Both tables are determined by the groups: the corrected one ranks
      group g at g, the compiler's ranks it at 7 - g; associativity and the
      (0, 0) of unknown operators are shared. */
  lemma BindingPowerByGroup(symbol: string)
    ensures Group(symbol) == 0 ==> BindingPower(AsWritten, symbol) == BindingPower(Corrected, symbol) == (0, 0)
    ensures Group(symbol) > 0 ==>
              BindingPower(Corrected, symbol) == PowerOfRank(Group(symbol), RightAssociative(Group(symbol)))
              && BindingPower(AsWritten, symbol) == PowerOfRank(7 - Group(symbol), RightAssociative(Group(symbol)))
  {
  }

  /** Converting one atom (`TryFrom<&CondAtomUnparsed>`): a parenthesised
      expression is parsed on its own; a function call has each argument
      parsed on its own; everything else is carried over. */
  function AtomToExpr(t: Table, a: CondAtomUnparsed): (r: Res<CondExpression>)
    decreases a, 2
  {
    match a
    case AtomExpr(e) => ParseExpr(t, e)
    case AtomFn(id, args) =>
      var converted :- ParseArgs(t, args, 0);
      Ok(Fn(id, converted))
    case AtomAttr(d) => Ok(Attr(d))
    case AtomFnRef(f) => Ok(FnRef(f))
    case AtomLit(c) => Ok(Lit(c))
    case AtomEmpty => Ok(Empty)
  }

  /** The arguments of a call from index `from` on, stopping at the first
      error. */
  function ParseArgs(t: Table, args: seq<CondExpressionUnparsed>, from: nat): (r: Res<seq<CondExpression>>)
    ensures r.Ok? ==> |r.value| == if from <= |args| then |args| - from else 0
    decreases args, |args| - from
  {
    if from >= |args| then Ok([])
    else
      var e :- ParseExpr(t, args[from]);
      var rest :- ParseArgs(t, args, from + 1);
      Ok([e] + rest)
  }

  /** `TryFrom<&CondExpressionUnparsed>`: the Pratt parser from the start
      with minimum binding power 0. */
  function ParseExpr(t: Table, e: CondExpressionUnparsed): (r: Res<CondExpression>)
    decreases e, 1
  {
    var (tree, _) :- ExprBp(t, e.items, 0, 0);
    Ok(tree)
  }

  /** `expr_bp`: an atom, then as many operators as bind at least
      `minBp`, each followed by its right-hand side parsed with the
      operator's right binding power. The answer carries the position after
      the last item consumed. */
  function ExprBp(t: Table, items: seq<CondItemUnparsed>, pos: nat, minBp: nat): (r: Res<(CondExpression, nat)>)
    ensures r.Ok? ==> pos < r.value.1 <= |items|
    decreases items, |items| - pos, 1
  {
    if pos >= |items| || !items[pos].Atom? then Err(AstConvertError)
    else
      assert items[pos].atom < items[pos];
      var lhs :- AtomToExpr(t, items[pos].atom);
      ExprLoop(t, items, pos + 1, lhs, minBp)
  }

  /** The loop of `expr_bp`: stop at the end or before an operator whose
      left binding power is below `minBp`; an atom or an empty item where an
      operator belongs is an error. */
  function ExprLoop(t: Table, items: seq<CondItemUnparsed>, pos: nat, lhs: CondExpression, minBp: nat)
    : (r: Res<(CondExpression, nat)>)
    ensures r.Ok? ==> pos <= r.value.1 <= |items| || (pos > |items| && r.value.1 == pos)
    decreases items, |items| - pos, 0
  {
    if pos >= |items| then Ok((lhs, pos))
    else
      match items[pos]
      case Atom(_) => Err(AstConvertError)
      case ItemEmpty => Err(AstConvertError)
      case Op(op) =>
        var (lbp, rbp) := BindingPower(t, op.operator);
        if lbp < minBp then Ok((lhs, pos))
        else
          var (rhs, q) :- ExprBp(t, items, pos + 1, rbp);
          ExprLoop(t, items, q, InfixExpr(lhs, op, rhs), minBp)
  }

  /** `TryFrom<&ConditionUnparsed> for Condition`, with the corrected
      table: the conversion the rest of the model uses. */
  function ParseCondition(c: ConditionUnparsed): (r: Res<Condition>)
    ensures r.Ok? ==> r.value.ns == c.ns
    ensures r.Ok? <==> ParseExpr(Corrected, c.condExpr).Ok?
    ensures r.Ok? ==> Yield(r.value.condExpr) == ItemsYield(c.condExpr.items)
  {
    var e :- ParseExpr(Corrected, c.condExpr);
    ParseExprYield(Corrected, c.condExpr);
    Ok(Condition(e, c.ns))
  }

  /** `TryFrom<&ConditionUnparsed> for Condition` exactly as the compiler
      has it, with its own binding-power table. */
  function ParseConditionAsWritten(c: ConditionUnparsed): (r: Res<Condition>)
    ensures r.Ok? ==> r.value.ns == c.ns
    ensures r.Ok? <==> ParseExpr(AsWritten, c.condExpr).Ok?
    ensures r.Ok? ==> Yield(r.value.condExpr) == ItemsYield(c.condExpr.items)
  {
    var e :- ParseExpr(AsWritten, c.condExpr);
    ParseExprYield(AsWritten, c.condExpr);
    Ok(Condition(e, c.ns))
  }

  // ---------------------------------------------------------------------
  // In-order traversal

  /** What an in-order walk over an expression meets: operators, and
      leaves (a call is one leaf, named by its identifier). */
  datatype Token =
    | TOp(op: Operator)
    | TFn(identifier: seq<string>)
    | TAttr(designator: AttributeDesignator)
    | TFnRef(ref: FunctionReference)
    | TLit(constant: Constant)
    | TEmpty

  function Yield(e: CondExpression): seq<Token>
  {
    match e
    case InfixExpr(l, op, r) => Yield(l) + [TOp(op)] + Yield(r)
    case Fn(id, _) => [TFn(id)]
    case Attr(d) => [TAttr(d)]
    case FnRef(f) => [TFnRef(f)]
    case Lit(c) => [TLit(c)]
    case Empty => [TEmpty]
  }

  /** The same walk over unparsed items; a parenthesised atom contributes
      the walk of its contents. */
  function ItemsYield(items: seq<CondItemUnparsed>): seq<Token>
    decreases items, 0
  {
    if |items| == 0 then []
    else ItemYield(items[0]) + ItemsYield(items[1..])
  }

  function ItemYield(it: CondItemUnparsed): seq<Token>
    decreases it, 1
  {
    match it
    case Op(op) => [TOp(op)]
    case ItemEmpty => []
    case Atom(a) => AtomYield(a)
  }

  function AtomYield(a: CondAtomUnparsed): seq<Token>
    decreases a, 1
  {
    match a
    case AtomExpr(e) => ItemsYield(e.items)
    case AtomFn(id, _) => [TFn(id)]
    case AtomAttr(d) => [TAttr(d)]
    case AtomFnRef(f) => [TFnRef(f)]
    case AtomLit(c) => [TLit(c)]
    case AtomEmpty => [TEmpty]
  }

  lemma {:induction false} ItemsYieldAppend(a: seq<CondItemUnparsed>, b: seq<CondItemUnparsed>)
    ensures ItemsYield(a + b) == ItemsYield(a) + ItemsYield(b)
    decreases |a|
  {
    if |a| == 0 {
      assert a + b == b;
    } else {
      assert (a + b)[0] == a[0];
      assert (a + b)[1..] == a[1..] + b;
      ItemsYieldAppend(a[1..], b);
    }
  }

  /** Splitting a slice at an inner position splits its walk. */
  lemma ItemsYieldSplit(items: seq<CondItemUnparsed>, i: nat, j: nat, k: nat)
    requires i <= j <= k <= |items|
    ensures ItemsYield(items[i..k]) == ItemsYield(items[i..j]) + ItemsYield(items[j..k])
  {
    assert items[i..k] == items[i..j] + items[j..k];
    ItemsYieldAppend(items[i..j], items[j..k]);
  }

  lemma ItemsYieldSingle(items: seq<CondItemUnparsed>, i: nat)
    requires i < |items|
    ensures ItemsYield(items[i..i + 1]) == ItemYield(items[i])
  {
    var s := items[i..i + 1];
    assert s[0] == items[i];
    assert ItemsYield(s[1..]) == [];
  }

  /** The parser only associates: an in-order walk of a parsed atom is the
      walk of the atom as written. */
  lemma {:induction false} AtomToExprYield(t: Table, a: CondAtomUnparsed)
    requires AtomToExpr(t, a).Ok?
    ensures Yield(AtomToExpr(t, a).value) == AtomYield(a)
    decreases a, 2
  {
    match a
    case AtomExpr(e) =>
      ParseExprYield(t, e);
    case AtomFn(id, args) =>
    case AtomAttr(d) =>
    case AtomFnRef(f) =>
    case AtomLit(c) =>
    case AtomEmpty =>
  }

  /** An expression that parses consumes all its items, and its walk is
      theirs. */
  lemma {:induction false} ParseExprYield(t: Table, e: CondExpressionUnparsed)
    requires ParseExpr(t, e).Ok?
    ensures ExprBp(t, e.items, 0, 0).Ok? && ExprBp(t, e.items, 0, 0).value.1 == |e.items|
    ensures Yield(ParseExpr(t, e).value) == ItemsYield(e.items)
    decreases e, 1
  {
    ExprBpYield(t, e.items, 0, 0);
    assert e.items[0..|e.items|] == e.items;
  }

  /** `expr_bp` from `pos` yields a tree whose walk is exactly that of the
      items it consumed; with minimum power 0 it consumes everything. */
  lemma {:induction false} ExprBpYield(t: Table, items: seq<CondItemUnparsed>, pos: nat, minBp: nat)
    requires ExprBp(t, items, pos, minBp).Ok?
    ensures var (e, q) := ExprBp(t, items, pos, minBp).value;
            Yield(e) == ItemsYield(items[pos..q])
    ensures minBp == 0 ==> ExprBp(t, items, pos, minBp).value.1 == |items|
    decreases items, |items| - pos, 1
  {
    assert items[pos].atom < items[pos];
    var lhs := AtomToExpr(t, items[pos].atom).value;
    AtomToExprYield(t, items[pos].atom);
    ExprLoopYield(t, items, pos + 1, lhs, minBp);
    var q := ExprBp(t, items, pos, minBp).value.1;
    ItemsYieldSplit(items, pos, pos + 1, q);
    ItemsYieldSingle(items, pos);
  }

  lemma {:induction false} ExprLoopYield(t: Table, items: seq<CondItemUnparsed>, pos: nat, lhs: CondExpression, minBp: nat)
    requires pos <= |items|
    requires ExprLoop(t, items, pos, lhs, minBp).Ok?
    ensures var (e, q) := ExprLoop(t, items, pos, lhs, minBp).value;
            Yield(e) == Yield(lhs) + ItemsYield(items[pos..q])
    ensures minBp == 0 ==> ExprLoop(t, items, pos, lhs, minBp).value.1 == |items|
    decreases items, |items| - pos, 0
  {
    if pos < |items| {
      var op := items[pos].op;
      var (lbp, rbp) := BindingPower(t, op.operator);
      if lbp >= minBp {
        ExprBpYield(t, items, pos + 1, rbp);
        var (rhs, q) := ExprBp(t, items, pos + 1, rbp).value;
        ExprLoopYield(t, items, q, InfixExpr(lhs, op, rhs), minBp);
        var r := ExprLoop(t, items, q, InfixExpr(lhs, op, rhs), minBp).value.1;
        ItemsYieldSplit(items, pos, pos + 1, q);
        ItemsYieldSplit(items, pos, q, r);
        ItemsYieldSingle(items, pos);
      } else {
        assert items[pos..pos] == [];
      }
    } else {
      assert items[pos..pos] == [];
    }
  }

  // ---------------------------------------------------------------------
  // Association

  function IntLit(digits: string): CondItemUnparsed
  {
    Atom(AtomLit(CInteger(digits)))
  }

  function IntExpr(digits: string): CondExpression
  {
    Lit(CInteger(digits))
  }

  function SymOp(symbol: string): Operator
  {
    Operator([], symbol)
  }

  /** `a o1 b o2 c` groups to the left exactly when `o2` binds the middle
      operand less strongly than `o1` does, for either table. */
  lemma ThreeOperands(t: Table, a: Constant, o1: Operator, b: Constant, o2: Operator, c: Constant)
    ensures var items := [Atom(AtomLit(a)), Op(o1), Atom(AtomLit(b)), Op(o2), Atom(AtomLit(c))];
            ParseExpr(t, CondExpressionUnparsed(items))
            == if BindingPower(t, o2.operator).0 < BindingPower(t, o1.operator).1
               then Ok(InfixExpr(InfixExpr(Lit(a), o1, Lit(b)), o2, Lit(c)))
               else Ok(InfixExpr(Lit(a), o1, InfixExpr(Lit(b), o2, Lit(c))))
  {
    var items := [Atom(AtomLit(a)), Op(o1), Atom(AtomLit(b)), Op(o2), Atom(AtomLit(c))];
    var (l1, r1) := BindingPower(t, o1.operator);
    var (l2, r2) := BindingPower(t, o2.operator);
    assert items[0].atom == AtomLit(a);
    assert items[2].atom == AtomLit(b);
    assert items[4].atom == AtomLit(c);
    assert ExprBp(t, items, 4, r2) == Ok((Lit(c), 5));
    var left := InfixExpr(InfixExpr(Lit(a), o1, Lit(b)), o2, Lit(c));
    var right := InfixExpr(Lit(a), o1, InfixExpr(Lit(b), o2, Lit(c)));
    if l2 < r1 {
      assert ExprLoop(t, items, 3, Lit(b), r1) == Ok((Lit(b), 3));
      assert ExprBp(t, items, 2, r1) == Ok((Lit(b), 3));
      assert ExprLoop(t, items, 5, left, 0) == Ok((left, 5));
      assert ExprLoop(t, items, 3, InfixExpr(Lit(a), o1, Lit(b)), 0) == Ok((left, 5));
      assert ExprLoop(t, items, 1, Lit(a), 0) == Ok((left, 5));
      assert ExprBp(t, items, 0, 0) == Ok((left, 5));
    } else {
      assert ExprLoop(t, items, 5, InfixExpr(Lit(b), o2, Lit(c)), r1) == Ok((InfixExpr(Lit(b), o2, Lit(c)), 5));
      assert ExprLoop(t, items, 3, Lit(b), r1) == Ok((InfixExpr(Lit(b), o2, Lit(c)), 5));
      assert ExprBp(t, items, 2, r1) == Ok((InfixExpr(Lit(b), o2, Lit(c)), 5));
      assert ExprLoop(t, items, 5, right, 0) == Ok((right, 5));
      assert ExprLoop(t, items, 1, Lit(a), 0) == Ok((right, 5));
      assert ExprBp(t, items, 0, 0) == Ok((right, 5));
    }
  }

  /** With the corrected table a tighter group nests inside a looser one
      whichever side it is on, and operators of one group follow their
      associativity. */
  lemma CorrectedPrecedence(a: Constant, o1: Operator, b: Constant, o2: Operator, c: Constant)
    requires Group(o1.operator) > 0 && Group(o2.operator) > 0
    ensures var items := [Atom(AtomLit(a)), Op(o1), Atom(AtomLit(b)), Op(o2), Atom(AtomLit(c))];
            var left := Ok(InfixExpr(InfixExpr(Lit(a), o1, Lit(b)), o2, Lit(c)));
            var right := Ok(InfixExpr(Lit(a), o1, InfixExpr(Lit(b), o2, Lit(c))));
            (Group(o1.operator) > Group(o2.operator) ==> ParseExpr(Corrected, CondExpressionUnparsed(items)) == left)
            && (Group(o1.operator) < Group(o2.operator) ==> ParseExpr(Corrected, CondExpressionUnparsed(items)) == right)
            && (Group(o1.operator) == Group(o2.operator) ==>
                  ParseExpr(Corrected, CondExpressionUnparsed(items))
                  == if RightAssociative(Group(o1.operator)) then right else left)
  {
    ThreeOperands(Corrected, a, o1, b, o2, c);
    BindingPowerByGroup(o1.operator);
    BindingPowerByGroup(o2.operator);
  }

  /** With the compiler's table the order is reversed: the looser group
      nests inside the tighter one. */
  lemma AsWrittenPrecedence(a: Constant, o1: Operator, b: Constant, o2: Operator, c: Constant)
    requires Group(o1.operator) > 0 && Group(o2.operator) > 0
    ensures var items := [Atom(AtomLit(a)), Op(o1), Atom(AtomLit(b)), Op(o2), Atom(AtomLit(c))];
            var left := Ok(InfixExpr(InfixExpr(Lit(a), o1, Lit(b)), o2, Lit(c)));
            var right := Ok(InfixExpr(Lit(a), o1, InfixExpr(Lit(b), o2, Lit(c))));
            (Group(o1.operator) < Group(o2.operator) ==> ParseExpr(AsWritten, CondExpressionUnparsed(items)) == left)
            && (Group(o1.operator) > Group(o2.operator) ==> ParseExpr(AsWritten, CondExpressionUnparsed(items)) == right)
  {
    ThreeOperands(AsWritten, a, o1, b, o2, c);
    BindingPowerByGroup(o1.operator);
    BindingPowerByGroup(o2.operator);
  }

  /** The compiler's table parses `1 + 2 * 3` as `(1 + 2) * 3`; the
      corrected one as `1 + (2 * 3)`. */
  lemma PlusTimesCounterexample()
    ensures var items := [IntLit("1"), Op(SymOp("+")), IntLit("2"), Op(SymOp("*")), IntLit("3")];
            ParseExpr(AsWritten, CondExpressionUnparsed(items))
              == Ok(InfixExpr(InfixExpr(IntExpr("1"), SymOp("+"), IntExpr("2")), SymOp("*"), IntExpr("3")))
            && ParseExpr(Corrected, CondExpressionUnparsed(items))
              == Ok(InfixExpr(IntExpr("1"), SymOp("+"), InfixExpr(IntExpr("2"), SymOp("*"), IntExpr("3"))))
  {
    ThreeOperands(AsWritten, CInteger("1"), SymOp("+"), CInteger("2"), SymOp("*"), CInteger("3"));
    ThreeOperands(Corrected, CInteger("1"), SymOp("+"), CInteger("2"), SymOp("*"), CInteger("3"));
  }

  /** The two conversions group `1 + 2 * 3` differently: as written it
      converts to `(1 + 2) * 3`, in the model to `1 + (2 * 3)`. */
  lemma ParseConditionPlusTimes(ns: seq<string>)
    ensures var items := [IntLit("1"), Op(SymOp("+")), IntLit("2"), Op(SymOp("*")), IntLit("3")];
            var c := ConditionUnparsed(CondExpressionUnparsed(items), ns);
            ParseConditionAsWritten(c)
              == Ok(Condition(InfixExpr(InfixExpr(IntExpr("1"), SymOp("+"), IntExpr("2")), SymOp("*"), IntExpr("3")), ns))
            && ParseCondition(c)
              == Ok(Condition(InfixExpr(IntExpr("1"), SymOp("+"), InfixExpr(IntExpr("2"), SymOp("*"), IntExpr("3"))), ns))
  {
    PlusTimesCounterexample();
  }

  /** The compiler's table parses `1 == 2 && 3` as `1 == (2 && 3)`, so a
      conjunction of comparisons compares a boolean with a number; the
      corrected one gives `(1 == 2) && 3`. */
  lemma EqualsAndCounterexample()
    ensures var items := [IntLit("1"), Op(SymOp("==")), IntLit("2"), Op(SymOp("&&")), IntLit("3")];
            ParseExpr(AsWritten, CondExpressionUnparsed(items))
              == Ok(InfixExpr(IntExpr("1"), SymOp("=="), InfixExpr(IntExpr("2"), SymOp("&&"), IntExpr("3"))))
            && ParseExpr(Corrected, CondExpressionUnparsed(items))
              == Ok(InfixExpr(InfixExpr(IntExpr("1"), SymOp("=="), IntExpr("2")), SymOp("&&"), IntExpr("3")))
  {
    ThreeOperands(AsWritten, CInteger("1"), SymOp("=="), CInteger("2"), SymOp("&&"), CInteger("3"));
    ThreeOperands(Corrected, CInteger("1"), SymOp("=="), CInteger("2"), SymOp("&&"), CInteger("3"));
  }

  /** The association tests of the repository hold for both tables:
      `1 + 2 + 3` nests to the left and `1 | 2 | 3` to the right. */
  lemma AssociativityExamples(t: Table)
    ensures ParseExpr(t, CondExpressionUnparsed([IntLit("1"), Op(SymOp("+")), IntLit("2"), Op(SymOp("+")), IntLit("3")]))
            == Ok(InfixExpr(InfixExpr(IntExpr("1"), SymOp("+"), IntExpr("2")), SymOp("+"), IntExpr("3")))
    ensures ParseExpr(t, CondExpressionUnparsed([IntLit("1"), Op(SymOp("|")), IntLit("2"), Op(SymOp("|")), IntLit("3")]))
            == Ok(InfixExpr(IntExpr("1"), SymOp("|"), InfixExpr(IntExpr("2"), SymOp("|"), IntExpr("3"))))
  {
    ThreeOperands(t, CInteger("1"), SymOp("+"), CInteger("2"), SymOp("+"), CInteger("3"));
    ThreeOperands(t, CInteger("1"), SymOp("|"), CInteger("2"), SymOp("|"), CInteger("3"));
  }

  /** `1 & 2 & 3 & 4` nests fully to the right under both tables. */
  lemma AmpersandChain(t: Table)
    ensures var amp := Op(SymOp("&"));
            ParseExpr(t, CondExpressionUnparsed([IntLit("1"), amp, IntLit("2"), amp, IntLit("3"), amp, IntLit("4")]))
            == Ok(InfixExpr(IntExpr("1"), SymOp("&"),
                    InfixExpr(IntExpr("2"), SymOp("&"), InfixExpr(IntExpr("3"), SymOp("&"), IntExpr("4")))))
  {
    var amp := Op(SymOp("&"));
    var items := [IntLit("1"), amp, IntLit("2"), amp, IntLit("3"), amp, IntLit("4")];
    var (l, r) := BindingPower(t, "&");
    assert l >= r && r > 0 by { assert StartsWithChar("&", '&'); }
    var e34 := InfixExpr(IntExpr("3"), SymOp("&"), IntExpr("4"));
    var e234 := InfixExpr(IntExpr("2"), SymOp("&"), e34);
    var e1234 := InfixExpr(IntExpr("1"), SymOp("&"), e234);
    assert ExprLoop(t, items, 7, IntExpr("4"), r) == Ok((IntExpr("4"), 7));
    assert ExprBp(t, items, 6, r) == Ok((IntExpr("4"), 7));
    assert ExprLoop(t, items, 7, e34, r) == Ok((e34, 7));
    assert ExprLoop(t, items, 5, IntExpr("3"), r) == Ok((e34, 7));
    assert ExprBp(t, items, 4, r) == Ok((e34, 7));
    assert ExprLoop(t, items, 7, e234, r) == Ok((e234, 7));
    assert ExprLoop(t, items, 3, IntExpr("2"), r) == Ok((e234, 7));
    assert ExprBp(t, items, 2, r) == Ok((e234, 7));
    assert ExprLoop(t, items, 7, e1234, 0) == Ok((e1234, 7));
    assert ExprLoop(t, items, 1, IntExpr("1"), 0) == Ok((e1234, 7));
    assert ExprBp(t, items, 0, 0) == Ok((e1234, 7));
  }

  /** A missing leading atom, and an atom where an operator belongs, are
      conversion errors. */
  lemma MalformedItems(t: Table, o: Operator, a: CondAtomUnparsed, b: CondAtomUnparsed)
    requires AtomToExpr(t, a).Ok?
    ensures ParseExpr(t, CondExpressionUnparsed([])) == Err(AstConvertError)
    ensures ParseExpr(t, CondExpressionUnparsed([Op(o)])) == Err(AstConvertError)
    ensures ParseExpr(t, CondExpressionUnparsed([Atom(a), Atom(b)])) == Err(AstConvertError)
    ensures ParseExpr(t, CondExpressionUnparsed([Atom(a), ItemEmpty])) == Err(AstConvertError)
  {
    var lhs := AtomToExpr(t, a).value;
    assert ExprLoop(t, [Atom(a), Atom(b)], 1, lhs, 0) == Err(AstConvertError);
    assert ExprBp(t, [Atom(a), Atom(b)], 0, 0) == Err(AstConvertError);
    assert ExprLoop(t, [Atom(a), ItemEmpty], 1, lhs, 0) == Err(AstConvertError);
    assert ExprBp(t, [Atom(a), ItemEmpty], 0, 0) == Err(AstConvertError);
  }

  /** A parenthesised group is one atom: `(1 + 2)` parses like `1 + 2`. */
  lemma ParenthesisedGroup(t: Table, e: CondExpressionUnparsed)
    ensures ParseExpr(t, CondExpressionUnparsed([Atom(AtomExpr(e))])) == ParseExpr(t, e)
  {
    var items := [Atom(AtomExpr(e))];
    assert items[0].atom == AtomExpr(e);
    if ParseExpr(t, e).Ok? {
      var tree := ParseExpr(t, e).value;
      assert ExprLoop(t, items, 1, tree, 0) == Ok((tree, 1));
      assert ExprBp(t, items, 0, 0) == Ok((tree, 1));
    }
  }
}
