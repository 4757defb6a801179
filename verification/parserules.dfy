/** The rules the AST builder applies while it turns parsed statements
    into declarations: comment clean-up, dotted-name splitting, numeric
    literals, operator names, the well-formedness checks on infix, rule,
    policy and policyset bodies, and the naming of policies during
    construction. The statements of a body are given as a sequence of
    already-parsed items, in source order. */
module ParseRules {
  import opened Wrappers
  import opened Errors
  import opened Strings
  import opened Naming
  import opened Decls
  import opened Conditions
  import opened Ast
  import opened CompilerContext
  import opened Namespaces

  /** The message of a failed `Option::unwrap`. */
  const UNWRAP_NONE: string := "called `Option::unwrap()` on a `None` value"

  // ----------------------------------------------------------------------
  // Comments

  /** `out` is `s` with a run of `drop` characters removed from each end,
      and neither end of `out` can be dropped: exactly what trimming by
      `drop` leaves. */
  ghost predicate Strips(s: string, out: string, drop: char -> bool)
  {
    exists i, j :: 0 <= i <= j <= |s| && out == s[i..j]
      && (forall k :: 0 <= k < i ==> drop(s[k]))
      && (forall k :: j <= k < |s| ==> drop(s[k]))
      && (|out| > 0 ==> !drop(out[0]) && !drop(out[|out| - 1]))
  }

  /** `Strips` from its two cut points. */
  lemma StripsAt(s: string, out: string, drop: char -> bool, i: nat, j: nat)
    requires i <= j <= |s| && out == s[i..j]
    requires forall k :: 0 <= k < i ==> drop(s[k])
    requires forall k :: j <= k < |s| ==> drop(s[k])
    requires |out| > 0 ==> !drop(out[0]) && !drop(out[|out| - 1])
    ensures Strips(s, out, drop)
  {
  }

  lemma TrimStrips(s: string, drop: char -> bool)
    ensures Strips(s, TrimEndBy(TrimStartBy(s, drop), drop), drop)
  {
    var t := TrimStartBy(s, drop);
    var out := TrimEndBy(t, drop);
    var i := |s| - |t|;
    var j := i + |out|;
    assert out == s[i..j] by {
      assert t == s[i..];
    }
    assert forall k :: j <= k < |s| ==> drop(s[k]) by {
      forall k | j <= k < |s| ensures drop(s[k]) {
        assert s[k] == t[k - i];
      }
    }
    assert |out| > 0 ==> !drop(out[0]) && !drop(out[|out| - 1]) by {
      if |out| > 0 {
        assert out[0] == t[0];
      }
    }
    StripsAt(s, out, drop, i, j);
  }

  function IsStar(c: char): bool
  {
    c == '*'
  }

  /** The body of a `//` comment: without its marker and final line break,
      trimmed. One without a final line break aborts. */
  function LineComment(raw: string): (r: Res<string>)
    requires StartsWith(raw, "//")
    ensures r.Ok? <==> |raw| >= 3 && raw[|raw| - 1] == '\n'
    ensures r.Ok? ==> Strips(raw[2..|raw| - 1], r.value, IsWhitespace)
    ensures r.Err? ==> r.error == Panic(UNWRAP_NONE)
  {
    var body := raw[2..];
    if EndsWith(body, "\n") then
      var inner := body[..|body| - 1];
      assert inner == raw[2..|raw| - 1];
      TrimStrips(inner, IsWhitespace);
      Ok(Trim(inner))
    else
      Err(Panic(UNWRAP_NONE))
  }

  /** The body of a block comment: without both markers, then without the
      `*`s at either end, then trimmed. One without a closing marker after
      its opening aborts. */
  function BlockComment(raw: string): (r: Res<string>)
    requires StartsWith(raw, "/*")
    ensures r.Ok? <==> |raw| >= 4 && EndsWith(raw, "*/")
    ensures r.Ok? ==> exists mid :: Strips(raw[2..|raw| - 2], mid, IsStar) && Strips(mid, r.value, IsWhitespace)
    ensures r.Err? ==> r.error == Panic(UNWRAP_NONE)
  {
    var body := raw[2..];
    if EndsWith(body, "*/") then
      var inner := body[..|body| - 2];
      assert inner == raw[2..|raw| - 2];
      var mid := TrimEndBy(TrimStartBy(inner, IsStar), IsStar);
      TrimStrips(inner, IsStar);
      TrimStrips(mid, IsWhitespace);
      Ok(Trim(mid))
    else
      Err(Panic(UNWRAP_NONE))
  }

  /** `comment_cleanup`: line and block comments lose their markers and
      surrounding white space; other text is returned as it is. */
  function CommentCleanup(raw: string): (r: Res<string>)
    ensures StartsWith(raw, "//") ==> r == LineComment(raw)
    ensures !StartsWith(raw, "//") && StartsWith(raw, "/*") ==> r == BlockComment(raw)
    ensures !StartsWith(raw, "//") && !StartsWith(raw, "/*") ==> r == Ok(raw)
  {
    if StartsWith(raw, "//") then LineComment(raw)
    else if StartsWith(raw, "/*") then BlockComment(raw)
    else Ok(raw)
  }

  lemma SpaceIsWhitespace()
    ensures IsWhitespace(' ')
  {
  }

  lemma LetterIsNotWhitespace(c: char)
    requires 'a' <= c <= 'z'
    ensures !IsWhitespace(c)
  {
  }

  lemma TrimFoo()
    ensures Trim(" foo") == "foo" && Trim("foo ") == "foo"
  {
    SpaceIsWhitespace();
    LetterIsNotWhitespace('f');
    LetterIsNotWhitespace('o');
    assert " foo"[1..] == "foo";
    assert TrimStartBy(" foo", IsWhitespace) == "foo";
    assert TrimEndBy("foo", IsWhitespace) == "foo";
    assert "foo "[..3] == "foo";
    assert TrimEndBy("foo ", IsWhitespace) == "foo";
  }

  lemma TrimFooBar()
    ensures Trim(" foo bar ") == "foo bar"
  {
    SpaceIsWhitespace();
    LetterIsNotWhitespace('f');
    LetterIsNotWhitespace('r');
    assert " foo bar "[1..] == "foo bar ";
    assert TrimStartBy(" foo bar ", IsWhitespace) == "foo bar ";
    assert "foo bar "[..7] == "foo bar";
    assert TrimEndBy("foo bar ", IsWhitespace) == "foo bar";
  }

  /** The cases of the compiler's own unit tests. */
  lemma LineCommentExample()
    ensures CommentCleanup("// foo\n") == Ok("foo")
  {
    var raw := "// foo\n";
    assert StartsWith(raw, "//") by { assert raw[..2] == "//"; }
    var body := raw[2..];
    assert body == " foo\n";
    assert EndsWith(body, "\n") by { assert body[|body| - 1..] == "\n"; }
    assert body[..|body| - 1] == " foo";
    TrimFoo();
  }

  lemma UnterminatedLineCommentAborts()
    ensures CommentCleanup("// no line break") == Err(Panic(UNWRAP_NONE))
  {
    var raw := "// no line break";
    assert StartsWith(raw, "//") by { assert raw[..2] == "//"; }
    assert raw[|raw| - 1] != '\n';
  }

  lemma BlockCommentExample()
    ensures CommentCleanup("/* foo bar */") == Ok("foo bar")
  {
    var raw := "/* foo bar */";
    assert !StartsWith(raw, "//") && StartsWith(raw, "/*") by { assert raw[..2] == "/*"; }
    assert BlockComment(raw) == Ok(Trim(TrimEndBy(TrimStartBy(" foo bar ", IsStar), IsStar))) by {
      var body := raw[2..];
      assert body == " foo bar */";
      assert EndsWith(body, "*/") by { assert body[|body| - 2..] == "*/"; }
      assert body[..|body| - 2] == " foo bar ";
    }
    TrimSpacedWords();
  }

  lemma TrimSpacedWords()
    ensures Trim(TrimEndBy(TrimStartBy(" foo bar ", IsStar), IsStar)) == "foo bar"
  {
    var inner := " foo bar ";
    assert TrimStartBy(inner, IsStar) == inner;
    assert TrimEndBy(inner, IsStar) == inner;
    TrimFooBar();
  }

  lemma StarredCommentExample()
    ensures CommentCleanup("/**** foo ********/") == Ok("foo")
  {
    var raw := "/**** foo ********/";
    assert !StartsWith(raw, "//") && StartsWith(raw, "/*") by { assert raw[..2] == "/*"; }
    var body := raw[2..];
    assert body == "*** foo ********/";
    assert EndsWith(body, "*/") by { assert body[|body| - 2..] == "*/"; }
    assert body[..|body| - 2] == "*** foo *******";
    TrimStarredWord();
  }

  lemma TrimStarredWord()
    ensures Trim(TrimEndBy(TrimStartBy("*** foo *******", IsStar), IsStar)) == "foo"
  {
    TrimLeadingStars();
    TrimTrailingStars();
    SpaceIsWhitespace();
    LetterIsNotWhitespace('f');
    assert " foo "[1..] == "foo ";
    assert TrimStartBy(" foo ", IsWhitespace) == "foo ";
    TrimFoo();
  }

  lemma TrimLeadingStars()
    ensures TrimStartBy("*** foo *******", IsStar) == " foo *******"
  {
    var s3, s2, s1, s0 := "*** foo *******", "** foo *******", "* foo *******", " foo *******";
    assert TrimStartBy(s0, IsStar) == s0 by { assert s0[0] == ' '; }
    assert TrimStartBy(s1, IsStar) == s0 by { assert s1[0] == '*' && s1[1..] == s0; }
    assert TrimStartBy(s2, IsStar) == s0 by { assert s2[0] == '*' && s2[1..] == s1; }
    assert TrimStartBy(s3, IsStar) == s0 by { assert s3[0] == '*' && s3[1..] == s2; }
  }

  lemma TrimTrailingStars()
    ensures TrimEndBy(" foo *******", IsStar) == " foo "
  {
    assert " foo *******"[..11] == " foo ******";
    assert " foo ******"[..10] == " foo *****";
    assert " foo *****"[..9] == " foo ****";
    assert " foo ****"[..8] == " foo ***";
    assert " foo ***"[..7] == " foo **";
    assert " foo **"[..6] == " foo *";
    assert " foo *"[..5] == " foo ";
  }

  // ----------------------------------------------------------------------
  // Dotted names

  /** Every part of a split is free of the separator. */
  lemma {:induction false} SplitPartsFree(s: string, c: char)
    ensures forall i :: 0 <= i < |Split(s, c)| ==> c !in Split(s, c)[i]
    decreases |s|
  {
    if |s| > 0 {
      SplitPartsFree(s[..|s| - 1], c);
    }
  }

  /** Text without the separator splits into itself. */
  lemma SplitFree(s: string, c: char)
    requires c !in s
    ensures Split(s, c) == [s]
  {
    JoinSplit([s], c);
  }

  /** `split_dotted_string`: a reference's namespace and name. Empty text
      gives no namespace and an empty name; text without a dot gives no
      namespace. */
  function SplitDotted(input: string): (r: (seq<string>, string))
    ensures input == "" ==> r == ([], "")
    ensures '.' !in input ==> r == ([], input)
    ensures '.' in input ==> |r.0| >= 1
    ensures DotFree(r.0 + [r.1])
    ensures OptionallyDottedName(r.0, r.1) == input
  {
    if input == "" then
      assert DotFree([] + [""]) by { assert ([] + [""])[0] == ""; }
      ([], "")
    else
      var parts := Split(input, '.');
      SplitPartsFree(input, '.');
      SplitJoin(input, '.');
      if |parts| == 1 then
        assert Join(parts, ".") == parts[0];
        assert [] + [parts[0]] == parts;
        ([], parts[0])
      else
        var ns := parts[..|parts| - 1];
        var id := parts[|parts| - 1];
        assert ns + [id] == parts;
        assert '.' in input by {
          JoinSnoc(ns, id, ".");
          assert Join(parts, ".")[|Join(ns, ".")|] == '.';
        }
        JoinSnoc(ns, id, ".");
        (ns, id)
  }

  /** Splitting undoes joining: text built from dot-free parts splits back
      into those parts (the last one as the name). */
  lemma SplitDottedRoundTrip(parts: seq<string>)
    requires |parts| >= 1 && DotFree(parts)
    ensures SplitDotted(Join(parts, ".")) == (parts[..|parts| - 1], parts[|parts| - 1])
  {
    var text := Join(parts, ".");
    JoinSplit(parts, '.');
    assert Split(text, '.') == parts;
    if |parts| == 1 {
      assert text == parts[0];
    } else {
      JoinSnoc(parts[..|parts| - 1], parts[|parts| - 1], ".");
      assert parts[..|parts| - 1] + [parts[|parts| - 1]] == parts;
      assert text != "";
    }
  }

  /** A policy or rule reference written as dotted text. */
  function PolicyRefOf(text: string): (r: PolicyReference)
    ensures OptionallyDottedName(r.ns, r.id) == text && DotFree(r.ns + [r.id])
    ensures |text| == 0 || text[0] != '.' ==> PolicyRefFqn(r) == text
  {
    var (ns, id) := SplitDotted(text);
    PolicyReference(ns, id)
  }

  function RuleRefOf(text: string): (r: RuleReference)
    ensures RuleRefFqn(r) == Some(text) && DotFree(r.ns + [r.id])
  {
    var (ns, id) := SplitDotted(text);
    RuleReference(ns, id)
  }

  // ----------------------------------------------------------------------
  // Literals and operators

  /** The numeric branch of `constant_from_token`: a literal with a "." is
      a double, any other an integer, the text kept as written. */
  function NumericLiteral(text: string): (c: Constant)
    ensures c.CDouble? <==> '.' in text
    ensures c.CInteger? <==> '.' !in text
    ensures c == CDouble(text) || c == CInteger(text)
  {
    if '.' in text then CDouble(text) else CInteger(text)
  }

  lemma NumericLiteralExamples()
    ensures NumericLiteral("42") == CInteger("42") && NumericLiteral("-42") == CInteger("-42")
    ensures NumericLiteral("0.42") == CDouble("0.42") && NumericLiteral("-.42") == CDouble("-.42")
  {
    assert "0.42"[1] == '.' && "-.42"[1] == '.';
  }

  /** `process_operator`: the last dotted component is the operator, the
      rest its namespace. The text always has a last component, so the
      error path of the compiler is never taken. */
  function ProcessOperator(text: string): (r: Res<Operator>)
    ensures r.Ok?
    ensures '.' !in r.value.operator && DotFree(r.value.ns)
    ensures QualifiedName(r.value) == text
  {
    var parts := Split(text, '.');
    SplitPartsFree(text, '.');
    SplitJoin(text, '.');
    var ns := parts[..|parts| - 1];
    var op := parts[|parts| - 1];
    assert ns + [op] == parts;
    if |ns| == 0 then
      assert Join(parts, ".") == op;
      Ok(Operator(ns, op))
    else
      JoinSnoc(ns, op, ".");
      Ok(Operator(ns, op))
  }

  /** The case of the compiler's unit test. */
  lemma ProcessOperatorExample()
    ensures ProcessOperator("main.foo.bar.+/") == Ok(Operator(["main", "foo", "bar"], "+/"))
  {
    var parts: seq<string> := ["main", "foo", "bar", "+/"];
    assert DotFree(parts);
    assert Join(parts, ".") == "main.foo.bar.+/" by {
      assert parts[..3] == ["main", "foo", "bar"];
      assert parts[..3][..2] == ["main", "foo"];
      assert parts[..3][..2][..1] == ["main"];
      assert Join(["main"], ".") == "main";
      assert Join(["main", "foo"], ".") == "main.foo";
      assert Join(["main", "foo", "bar"], ".") == "main.foo.bar";
    }
    JoinSplit(parts, '.');
    assert parts[..3] == ["main", "foo", "bar"];
  }

  // ----------------------------------------------------------------------
  // Counting items of a body

  function Count<T>(xs: seq<T>, p: T -> bool): (n: nat)
    ensures n <= |xs|
  {
    if |xs| == 0 then 0 else Count(xs[..|xs| - 1], p) + (if p(xs[|xs| - 1]) then 1 else 0)
  }

  /** A counted item occurs: the last one is at index `LastIndex`. */
  lemma CountPositive<T>(xs: seq<T>, p: T -> bool)
    requires Count(xs, p) > 0
    ensures exists i :: 0 <= i < |xs| && p(xs[i])
  {
    if !p(xs[|xs| - 1]) {
      CountPositive(xs[..|xs| - 1], p);
      var i :| 0 <= i < |xs| - 1 && p(xs[..|xs| - 1][i]);
      assert xs[i] == xs[..|xs| - 1][i];
    }
  }

  // ----------------------------------------------------------------------
  // Infix declarations

  datatype InfixItem =
    | CommModifier
    | AllowBagsModifier
    | OperatorName(name: string)
    | SignatureDecl(sig: InfixSignature)
    | InverseDecl(op: string)

  function IsComm(x: InfixItem): bool { x.CommModifier? }
  function IsAllowBags(x: InfixItem): bool { x.AllowBagsModifier? }
  function IsOperatorName(x: InfixItem): bool { x.OperatorName? }

  /** The signatures declared, in order. */
  function Signatures(items: seq<InfixItem>): seq<InfixSignature>
  {
    if |items| == 0 then []
    else
      var last := items[|items| - 1];
      Signatures(items[..|items| - 1]) + (if last.SignatureDecl? then [last.sig] else [])
  }

  /** The inverse declared last, if any. */
  function LastInverse(items: seq<InfixItem>): Option<string>
  {
    if |items| == 0 then None
    else if items[|items| - 1].InverseDecl? then Some(items[|items| - 1].op)
    else LastInverse(items[..|items| - 1])
  }

  /** The name declared, if any. */
  function OperatorNameOf(items: seq<InfixItem>): Option<string>
  {
    if |items| == 0 then None
    else if items[|items| - 1].OperatorName? then Some(items[|items| - 1].name)
    else OperatorNameOf(items[..|items| - 1])
  }

  lemma {:induction false} NameCount(items: seq<InfixItem>)
    ensures OperatorNameOf(items).Some? <==> Count(items, IsOperatorName) >= 1
  {
    if |items| > 0 {
      NameCount(items[..|items| - 1]);
    }
  }

  const OPERATOR_NAME_ASSERT: string := "assertion failed: operator_name.is_none()"

  datatype InfixScan = InfixScan(commutative: Option<bool>, allowBags: Option<bool>, operator: Option<string>,
                                 signatures: seq<InfixSignature>, inverse: Option<string>)

  /** The loop of `process_infix`: a modifier given twice is refused; a
      second operator name trips an assertion; signatures accumulate and a
      later inverse replaces an earlier one. */
  function ScanInfix(items: seq<InfixItem>): (r: Res<InfixScan>)
    ensures r.Ok? <==> Count(items, IsComm) <= 1 && Count(items, IsAllowBags) <= 1 && Count(items, IsOperatorName) <= 1
    ensures r.Err? ==> r.error == DuplicateInfixModifier || r.error == Panic(OPERATOR_NAME_ASSERT)
    ensures Count(items, IsOperatorName) <= 1 && (Count(items, IsComm) >= 2 || Count(items, IsAllowBags) >= 2) ==>
              r == Err(DuplicateInfixModifier)
    ensures r.Ok? ==>
              && (r.value.commutative == if Count(items, IsComm) == 1 then Some(true) else None)
              && (r.value.allowBags == if Count(items, IsAllowBags) == 1 then Some(true) else None)
              && r.value.operator == OperatorNameOf(items)
              && r.value.signatures == Signatures(items)
              && r.value.inverse == LastInverse(items)
  {
    if |items| == 0 then Ok(InfixScan(None, None, None, [], None))
    else
      var s :- ScanInfix(items[..|items| - 1]);
      NameCount(items[..|items| - 1]);
      match items[|items| - 1]
      case CommModifier =>
        if s.commutative.Some? then Err(DuplicateInfixModifier) else Ok(s.(commutative := Some(true)))
      case AllowBagsModifier =>
        if s.allowBags.Some? then Err(DuplicateInfixModifier) else Ok(s.(allowBags := Some(true)))
      case OperatorName(n) =>
        if s.operator.Some? then Err(Panic(OPERATOR_NAME_ASSERT)) else Ok(s.(operator := Some(n)))
      case SignatureDecl(sig) => Ok(s.(signatures := s.signatures + [sig]))
      case InverseDecl(op) => Ok(s.(inverse := Some(op)))
  }

  /** `process_infix`: after the loop, a commutative operator with an
      inverse is refused, a missing name is a conversion error, and absent
      modifiers default to false. */
  function ProcessInfix(items: seq<InfixItem>, ns: seq<string>): (r: Res<Infix>)
    ensures r.Ok? ==> !(r.value.commutative && r.value.inverse.Some?)
    ensures r.Ok? ==>
              && Count(items, IsOperatorName) == 1 && Count(items, IsComm) <= 1 && Count(items, IsAllowBags) <= 1
              && r.value.ns == ns && Some(r.value.operator) == OperatorNameOf(items)
              && r.value.commutative == (Count(items, IsComm) == 1)
              && r.value.allowBags == (Count(items, IsAllowBags) == 1)
              && r.value.signatures == Signatures(items)
              && r.value.inverse == LastInverse(items)
    ensures (Count(items, IsOperatorName) <= 1 && Count(items, IsComm) == 1 && Count(items, IsAllowBags) <= 1
             && LastInverse(items).Some?) ==> r == Err(CommutativeWithInverseError)
    ensures Count(items, IsOperatorName) == 0 && Count(items, IsComm) == 0 && Count(items, IsAllowBags) <= 1 ==>
              r == Err(AstConvertError)
    ensures Count(items, IsOperatorName) <= 1 && (Count(items, IsComm) >= 2 || Count(items, IsAllowBags) >= 2) ==>
              r == Err(DuplicateInfixModifier)
  {
    var s :- ScanInfix(items);
    NameCount(items);
    if s.inverse.Some? && s.commutative == Some(true) then Err(CommutativeWithInverseError)
    else if s.operator.Some? then
      Ok(Infix(s.operator.value, s.allowBags == Some(true), s.commutative == Some(true), s.signatures, ns, s.inverse))
    else Err(AstConvertError)
  }

  /** A commutative operator that also declares an inverse is refused. */
  lemma CommutativeInverseExample()
    ensures ProcessInfix([CommModifier, OperatorName("<"), InverseDecl(">")], ["ops"]) == Err(CommutativeWithInverseError)
  {
    var items := [CommModifier, OperatorName("<"), InverseDecl(">")];
    assert items[..2] == [CommModifier, OperatorName("<")];
    assert items[..2][..1] == [CommModifier];
    assert items[..2][..1][..0] == [];
    assert ScanInfix(items[..2][..1]) == Ok(InfixScan(Some(true), None, None, [], None));
    assert ScanInfix(items[..2]) == Ok(InfixScan(Some(true), None, Some("<"), [], None));
  }

  // ----------------------------------------------------------------------
  // Rule bodies

  datatype RuleItem =
    | EffectItem(effect: Effect)
    | RuleTargetItem(target: Target)
    | RuleConditionItem(condition: Condition)
    | RulePrescriptionItem(prescription: Prescription)
    | RuleOtherItem(ruleName: string)

  function IsEffect(x: RuleItem): bool { x.EffectItem? }
  function IsRuleTarget(x: RuleItem): bool { x.RuleTargetItem? }
  function IsRuleCondition(x: RuleItem): bool { x.RuleConditionItem? }
  function IsRuleOther(x: RuleItem): bool { x.RuleOtherItem? }

  /** The obligations and advice of a rule body, in order. */
  function RulePrescriptions(items: seq<RuleItem>): seq<Prescription>
  {
    if |items| == 0 then []
    else
      var last := items[|items| - 1];
      RulePrescriptions(items[..|items| - 1]) + (if last.RulePrescriptionItem? then [last.prescription] else [])
  }

  datatype RuleScan = RuleScan(effect: Option<Effect>, target: Option<Target>, condition: Option<Condition>,
                               prescriptions: seq<Prescription>)

  /** A rule body is acceptable to the loop of `process_rule`: at most one
      effect, target and condition, and nothing unexpected. */
  predicate RuleBodyFits(items: seq<RuleItem>)
  {
    Count(items, IsEffect) <= 1 && Count(items, IsRuleTarget) <= 1 && Count(items, IsRuleCondition) <= 1
    && Count(items, IsRuleOther) == 0
  }

  /** The loop of `process_rule`: the second effect, target or condition
      is refused as a duplicate, and any other statement is unexpected;
      the first refusal met is the one reported. */
  function ScanRule(items: seq<RuleItem>): (r: Res<RuleScan>)
    ensures r.Ok? <==> RuleBodyFits(items)
    ensures r.Err? ==> r.error in {DuplicateRuleEffect, DuplicateTarget, DuplicateCondition} || r.error.UnexpectedRuleError?
    ensures r.Ok? ==>
              && (r.value.effect.Some? <==> Count(items, IsEffect) == 1)
              && (r.value.effect.Some? ==> EffectItem(r.value.effect.value) in items)
              && (r.value.target.Some? <==> Count(items, IsRuleTarget) == 1)
              && (r.value.target.Some? ==> RuleTargetItem(r.value.target.value) in items)
              && (r.value.condition.Some? <==> Count(items, IsRuleCondition) == 1)
              && (r.value.condition.Some? ==> RuleConditionItem(r.value.condition.value) in items)
              && r.value.prescriptions == RulePrescriptions(items)
    ensures (Count(items, IsRuleOther) == 0 && Count(items, IsRuleTarget) <= 1 && Count(items, IsRuleCondition) <= 1
             && Count(items, IsEffect) >= 2) ==> r == Err(DuplicateRuleEffect)
    ensures (Count(items, IsRuleOther) == 0 && Count(items, IsEffect) <= 1 && Count(items, IsRuleCondition) <= 1
             && Count(items, IsRuleTarget) >= 2) ==> r == Err(DuplicateTarget)
    ensures (Count(items, IsRuleOther) == 0 && Count(items, IsEffect) <= 1 && Count(items, IsRuleTarget) <= 1
             && Count(items, IsRuleCondition) >= 2) ==> r == Err(DuplicateCondition)
  {
    if |items| == 0 then Ok(RuleScan(None, None, None, []))
    else
      var init := items[..|items| - 1];
      var s :- ScanRule(init);
      assert forall x :: x in init ==> x in items;
      match items[|items| - 1]
      case EffectItem(e) => if s.effect.Some? then Err(DuplicateRuleEffect) else Ok(s.(effect := Some(e)))
      case RuleTargetItem(t) => if s.target.Some? then Err(DuplicateTarget) else Ok(s.(target := Some(t)))
      case RuleConditionItem(c) =>
        if s.condition.Some? then Err(DuplicateCondition) else Ok(s.(condition := Some(c)))
      case RulePrescriptionItem(p) => Ok(s.(prescriptions := s.prescriptions + [p]))
      case RuleOtherItem(n) => Err(UnexpectedRuleError("found unexpected rule " + n))
  }

  /** `process_rule`: a body without an effect is a conversion error. The
      rule lives in `ns` under the policy path `policyNs`. */
  function ProcessRule(id: Option<string>, ns: seq<string>, policyNs: GenName, description: Option<string>,
                       items: seq<RuleItem>): (r: Res<RuleDef>)
    ensures r.Ok? <==> RuleBodyFits(items) && Count(items, IsEffect) == 1
    ensures RuleBodyFits(items) && Count(items, IsEffect) == 0 ==> r == Err(AstConvertError)
    ensures r.Ok? ==>
              && r.value.id == id && r.value.ns == ns && r.value.policyNs == policyNs
              && r.value.description == description
              && EffectItem(r.value.effect) in items
              && (r.value.target.Some? <==> Count(items, IsRuleTarget) == 1)
              && (r.value.condition.Some? <==> Count(items, IsRuleCondition) == 1)
              && r.value.prescriptions == RulePrescriptions(items)
    ensures r.Err? && !(RuleBodyFits(items) && Count(items, IsEffect) == 0) ==> r.error == ScanRule(items).error
    ensures r.Err? ==> !r.error.SrcError?
  {
    var s :- ScanRule(items);
    match s.effect
    case None => Err(AstConvertError)
    case Some(e) => Ok(RuleDef(id, ns, policyNs, description, e, s.target, s.condition, s.prescriptions))
  }

  /** Two effects are refused, as in the compiler's unit tests. */
  lemma TwoEffectsRefused()
    ensures ProcessRule(None, ["main"], [], None, [EffectItem(Permit), EffectItem(Deny)]) == Err(DuplicateRuleEffect)
  {
    var items := [EffectItem(Permit), EffectItem(Deny)];
    assert items[..1] == [EffectItem(Permit)];
    assert items[..1][..0] == [];
  }

  // ----------------------------------------------------------------------
  // Naming during construction

  /** Entering a policy or policyset: its path is the parent's with one
      more slot, empty for an anonymous entity and holding the name
      otherwise; its children may register only if it is named and its
      parent could register. */
  function EnterPolicy(a: Arena, parentPath: GenName, id: PolicyId, register: bool): (r: (Arena, GenName, bool))
    ensures |r.1| == |parentPath| + 1 && r.1[..|parentPath|] == parentPath
    ensures Slot(r.0, r.1[|parentPath|]).None? <==> id.PolicyNoName?
    ensures !id.PolicyNoName? ==> Slot(r.0, r.1[|parentPath|]) == Some(id.name)
    ensures r.2 <==> register && !id.PolicyNoName?
    ensures forall k :: k != r.1[|parentPath|] ==> Slot(r.0, k) == Slot(a, k)
    ensures ValidArena(a) ==> ValidArena(r.0) && r.1[|parentPath|] !in a.slots
    ensures r.0.slots.Keys == a.slots.Keys + {r.1[|parentPath|]}
  {
    var (a1, k) := Alloc(a, if id.PolicyNoName? then None else Some(id.name));
    (a1, PushName(parentPath, k), register && !id.PolicyNoName?)
  }

  /** Entering nested entities, outermost first. */
  function EnterChain(a: Arena, path: GenName, ids: seq<PolicyId>, register: bool): (r: (Arena, GenName, bool))
    ensures |r.1| == |path| + |ids| && r.1[..|path|] == path
    decreases |ids|
  {
    if |ids| == 0 then (a, path, register)
    else
      var (a1, p1, reg1) := EnterChain(a, path, ids[..|ids| - 1], register);
      var r := EnterPolicy(a1, p1, ids[|ids| - 1], reg1);
      assert r.1[..|path|] == p1[..|path|];
      r
  }

  /** The innermost entity registers its children exactly when the whole
      chain was allowed to and every entity on it is named; starting from
      a resolvable path in a well-formed arena, its path is resolvable
      exactly then too. Earlier slots keep their contents. */
  lemma {:induction false} EnterChainRegisters(a: Arena, path: GenName, ids: seq<PolicyId>, register: bool)
    requires ValidArena(a)
    ensures ValidArena(EnterChain(a, path, ids, register).0)
    ensures EnterChain(a, path, ids, register).2 <==> register && forall i :: 0 <= i < |ids| ==> !ids[i].PolicyNoName?
    ensures IsResolvable(a, path) ==>
              (IsResolvable(EnterChain(a, path, ids, register).0, EnterChain(a, path, ids, register).1)
               <==> forall i :: 0 <= i < |ids| ==> !ids[i].PolicyNoName?)
    ensures forall k :: k in a.slots ==> Slot(EnterChain(a, path, ids, register).0, k) == Slot(a, k)
    ensures a.slots.Keys <= EnterChain(a, path, ids, register).0.slots.Keys
    ensures forall i :: |path| <= i < |EnterChain(a, path, ids, register).1| ==>
              EnterChain(a, path, ids, register).1[i] in EnterChain(a, path, ids, register).0.slots
    decreases |ids|
  {
    if |ids| > 0 {
      var init := ids[..|ids| - 1];
      var last := ids[|ids| - 1];
      EnterChainRegisters(a, path, init, register);
      var (a1, p1, reg1) := EnterChain(a, path, init, register);
      var (a2, p2, reg2) := EnterPolicy(a1, p1, last, reg1);
      var k := p2[|p1|];
      assert forall i :: 0 <= i < |ids| - 1 ==> ids[i] == init[i];
      assert p2 == PushName(p1, k);
      assert k !in a1.slots;
      forall i | |path| <= i < |p2| ensures p2[i] in a2.slots {
        if i < |p1| {
          assert p2[i] == p1[i];
        }
      }
      if IsResolvable(a, path) {
        forall j | 0 <= j < |p1| ensures Slot(a2, p1[j]) == Slot(a1, p1[j]) {
          if j < |path| {
            assert p1[j] == path[j];
            assert Slot(a, path[j]).Some?;
          }
          assert p1[j] in a1.slots;
        }
        PushNameResolvable(a2, p1, k, ".");
        assert IsResolvable(a2, p1) <==> IsResolvable(a1, p1);
      }
    }
  }

  // ----------------------------------------------------------------------
  // Policy bodies

  datatype PolicyItem =
    | ApplyItem(apply: string)
    | PolicyTargetItem(target: Target)
    | PolicyConditionItem(condition: Condition)
    | RuleDeclItem(ruleId: Option<string>, ruleDescription: Option<string>, body: seq<RuleItem>)
    | RuleRefItem(text: string)
    | PolicyPrescriptionItem(prescription: Prescription)
    | PolicyOtherItem(ruleName: string)

  datatype PolicyScan = PolicyScan(apply: Option<string>, target: Option<Target>, condition: Option<Condition>,
                                   rules: seq<RuleEntry>, prescriptions: seq<Prescription>, ctx: Context)

  function IsPolicyTarget(x: PolicyItem): bool { x.PolicyTargetItem? }
  function IsPolicyCondition(x: PolicyItem): bool { x.PolicyConditionItem? }
  function IsApply(x: PolicyItem): bool { x.ApplyItem? }
  function IsRuleItem(x: PolicyItem): bool { x.RuleDeclItem? || x.RuleRefItem? }
  function IsPolicyFallible(x: PolicyItem): bool { x.RuleDeclItem? || x.PolicyOtherItem? }

  /** The apply statement given last, if any. */
  function LastApply(items: seq<PolicyItem>): Option<string>
  {
    if |items| == 0 then None
    else if items[|items| - 1].ApplyItem? then Some(items[|items| - 1].apply)
    else LastApply(items[..|items| - 1])
  }

  /** One iteration of the loop of `process_policy`. A second target is
      refused with the variant `DuplicateCondition` (as is a second
      condition); a later apply replaces an earlier one; a rule is built
      with this policy's namespace and path and, when named and `register`
      holds, registered at once; a rule reference is split into namespace
      and name. */
  function ScanPolicyItem(ns: seq<string>, path: GenName, register: bool, s: PolicyScan, x: PolicyItem): (r: Res<PolicyScan>)
    ensures r.Ok? ==>
              && r.value.apply == (if x.ApplyItem? then Some(x.apply) else s.apply)
              && |r.value.rules| == |s.rules| + (if IsRuleItem(x) then 1 else 0)
              && r.value.rules[..|s.rules|] == s.rules
              && (IsRuleItem(x) && r.value.rules[|s.rules|].RuleDefEntry? ==>
                    r.value.rules[|s.rules|].def.ns == ns && r.value.rules[|s.rules|].def.policyNs == path)
              && (r.value.target.Some? <==> s.target.Some? || IsPolicyTarget(x))
              && (r.value.condition.Some? <==> s.condition.Some? || IsPolicyCondition(x))
              && r.value.ctx.arena == s.ctx.arena
    ensures r.Ok? ==> !(s.target.Some? && IsPolicyTarget(x)) && !(s.condition.Some? && IsPolicyCondition(x))
    ensures !register && r.Ok? ==> r.value.ctx == s.ctx
    ensures !IsPolicyFallible(x) ==>
              (r.Ok? <==> !(s.target.Some? && IsPolicyTarget(x)) && !(s.condition.Some? && IsPolicyCondition(x)))
    ensures !IsPolicyFallible(x) && r.Err? ==> r.error == DuplicateCondition
    ensures r.Err? ==> !r.error.SrcError?
  {
    match x
    case ApplyItem(a) => Ok(s.(apply := Some(a)))
    case PolicyTargetItem(t) => if s.target.Some? then Err(DuplicateCondition) else Ok(s.(target := Some(t)))
    case PolicyConditionItem(c) =>
      if s.condition.Some? then Err(DuplicateCondition) else Ok(s.(condition := Some(c)))
    case RuleDeclItem(id, desc, body) =>
      var rule :- ProcessRule(id, ns, path, desc, body);
      var c :- if rule.id.Some? && register then RegisterDecl(s.ctx, DRule(rule)) else Ok(s.ctx);
      Ok(s.(rules := s.rules + [RuleDefEntry(rule)], ctx := c))
    case RuleRefItem(text) => Ok(s.(rules := s.rules + [RuleRef(RuleRefOf(text))]))
    case PolicyPrescriptionItem(p) => Ok(s.(prescriptions := s.prescriptions + [p]))
    case PolicyOtherItem(n) => Err(UnexpectedRuleError("found rule '" + n + "' within policy definition"))
  }

  /** The loop of `process_policy`: the items one after the other, the
      first error ending the scan. */
  function ScanPolicy(ctx: Context, ns: seq<string>, path: GenName, register: bool, items: seq<PolicyItem>): (r: Res<PolicyScan>)
    ensures r.Ok? ==>
              && r.value.apply == LastApply(items)
              && |r.value.rules| == Count(items, IsRuleItem)
              && Count(items, IsPolicyTarget) <= 1 && Count(items, IsPolicyCondition) <= 1
              && (r.value.target.Some? <==> Count(items, IsPolicyTarget) == 1)
              && (r.value.condition.Some? <==> Count(items, IsPolicyCondition) == 1)
              && (forall i :: 0 <= i < |r.value.rules| && r.value.rules[i].RuleDefEntry? ==>
                    r.value.rules[i].def.ns == ns && r.value.rules[i].def.policyNs == path)
              && r.value.ctx.arena == ctx.arena
    ensures !register && r.Ok? ==> r.value.ctx == ctx
    ensures (Count(items, IsPolicyFallible) == 0 && (Count(items, IsPolicyTarget) >= 2 || Count(items, IsPolicyCondition) >= 2))
            ==> r == Err(DuplicateCondition)
    ensures Count(items, IsPolicyFallible) == 0 ==>
              (r.Ok? <==> Count(items, IsPolicyTarget) <= 1 && Count(items, IsPolicyCondition) <= 1)
    ensures r.Err? ==> !r.error.SrcError?
    decreases |items|
  {
    if |items| == 0 then Ok(PolicyScan(None, None, None, [], [], ctx))
    else
      var s :- ScanPolicy(ctx, ns, path, register, items[..|items| - 1]);
      var r := ScanPolicyItem(ns, path, register, s, items[|items| - 1]);
      assert r.Ok? ==> forall i :: 0 <= i < |s.rules| ==> r.value.rules[i] == s.rules[i] by {
        if r.Ok? {
          forall i | 0 <= i < |s.rules| ensures r.value.rules[i] == s.rules[i] {
            assert r.value.rules[..|s.rules|][i] == r.value.rules[i];
          }
        }
      }
      r
  }

  const POLICY_APPLY_HELP: string := "PolicySets must have an apply statement"

  /** `process_policy`: the policy is entered under its parent's path,
      its body scanned, and a missing apply statement reported as a
      located error. */
  function ProcessPolicy(ctx: Context, id: PolicyId, ns: seq<string>, parentPath: GenName,
                         description: Option<string>, register: bool, items: seq<PolicyItem>): (r: Res<(Policy, Context)>)
    ensures r.Ok? ==>
              var p := r.value.0;
              && p.id == id && p.ns == ns && p.description == description
              && |p.policyNs| == |parentPath| + 1 && p.policyNs[..|parentPath|] == parentPath
              && (Slot(r.value.1.arena, p.policyNs[|parentPath|]).None? <==> id.PolicyNoName?)
              && Some(p.apply) == LastApply(items)
              && |p.rules| == Count(items, IsRuleItem)
    ensures LastApply(items).None? ==> r.Err?
    ensures r.Err? && r.error.SrcError? ==>
              LastApply(items).None? && r.error == SrcError(POLICY_APPLY_HELP, "this policy needs an apply statement")
    ensures id.PolicyNoName? && r.Ok? ==>
              r.value.1 == ctx.(arena := r.value.1.arena)
  {
    var (a1, path, doRegister) := EnterPolicy(ctx.arena, parentPath, id, register);
    var s :- ScanPolicy(ctx.(arena := a1), ns, path, doRegister, items);
    match s.apply
    case None => Err(SrcError(POLICY_APPLY_HELP, "this policy needs an apply statement"))
    case Some(apply) =>
      Ok((Policy(id, ns, path, description, s.target, s.condition, apply, s.rules, s.prescriptions), s.ctx))
  }

  /** A second target in a policy body is reported as a duplicate
      condition. */
  lemma DuplicatePolicyTarget(ctx: Context, ns: seq<string>, path: GenName, t1: Target, t2: Target)
    ensures ScanPolicy(ctx, ns, path, false, [PolicyTargetItem(t1), PolicyTargetItem(t2)]) == Err(DuplicateCondition)
  {
    var items := [PolicyTargetItem(t1), PolicyTargetItem(t2)];
    assert items[..1] == [PolicyTargetItem(t1)];
    assert items[..1][..0] == [];
  }

  // ----------------------------------------------------------------------
  // Policyset bodies

  datatype PolicySetItem =
    | SetApplyItem(apply: string)
    | SetTargetItem(target: Target)
    | SetConditionItem(condition: Condition)
    | ChildItem(child: PolicyEntry)
    | PolicyRefItem(text: string)
    | SetPrescriptionItem(prescription: Prescription)
    | SetOtherItem(ruleName: string)

  datatype SetScan = SetScan(apply: Option<string>, target: Option<Target>, condition: Option<Condition>,
                             policies: seq<PolicyEntry>, prescriptions: seq<Prescription>)

  function IsSetCondition(x: PolicySetItem): bool { x.SetConditionItem? }
  function IsSetOther(x: PolicySetItem): bool { x.SetOtherItem? }
  function IsSetChild(x: PolicySetItem): bool { x.ChildItem? || x.PolicyRefItem? }

  function LastSetApply(items: seq<PolicySetItem>): Option<string>
  {
    if |items| == 0 then None
    else if items[|items| - 1].SetApplyItem? then Some(items[|items| - 1].apply)
    else LastSetApply(items[..|items| - 1])
  }

  function LastSetTarget(items: seq<PolicySetItem>): Option<Target>
  {
    if |items| == 0 then None
    else if items[|items| - 1].SetTargetItem? then Some(items[|items| - 1].target)
    else LastSetTarget(items[..|items| - 1])
  }

  /** The child entries of a policyset body, in order, references split
      into namespace and name. */
  function Children(items: seq<PolicySetItem>): (r: seq<PolicyEntry>)
    ensures |r| == Count(items, IsSetChild)
  {
    if |items| == 0 then []
    else
      var last := items[|items| - 1];
      Children(items[..|items| - 1])
      + (match last
         case ChildItem(e) => [e]
         case PolicyRefItem(text) => [PRef(PolicyRefOf(text))]
         case _ => [])
  }

  /** The loop of `process_policyset`. Unlike a policy, a later target
      silently replaces an earlier one; a second condition is refused; an
      unknown statement reaches a `todo!`. Child policies and policysets
      arrive already built. */
  function ScanPolicySet(items: seq<PolicySetItem>): (r: Res<SetScan>)
    ensures r.Ok? <==> Count(items, IsSetCondition) <= 1 && Count(items, IsSetOther) == 0
    ensures r.Ok? ==>
              && r.value.apply == LastSetApply(items)
              && r.value.target == LastSetTarget(items)
              && (r.value.condition.Some? <==> Count(items, IsSetCondition) == 1)
              && r.value.policies == Children(items)
    ensures Count(items, IsSetOther) == 0 && Count(items, IsSetCondition) >= 2 ==> r == Err(DuplicateCondition)
    ensures r.Err? ==> r.error == DuplicateCondition || r.error.Panic?
  {
    if |items| == 0 then Ok(SetScan(None, None, None, [], []))
    else
      var s :- ScanPolicySet(items[..|items| - 1]);
      match items[|items| - 1]
      case SetApplyItem(a) => Ok(s.(apply := Some(a)))
      case SetTargetItem(t) => Ok(s.(target := Some(t)))
      case SetConditionItem(c) =>
        if s.condition.Some? then Err(DuplicateCondition) else Ok(s.(condition := Some(c)))
      case ChildItem(e) => Ok(s.(policies := s.policies + [e]))
      case PolicyRefItem(text) => Ok(s.(policies := s.policies + [PRef(PolicyRefOf(text))]))
      case SetPrescriptionItem(p) => Ok(s.(prescriptions := s.prescriptions + [p]))
      case SetOtherItem(n) => Err(Panic("not yet implemented: handle " + n))
  }

  /** `process_policyset`: entered like a policy; a missing apply
      statement is a located error. */
  function ProcessPolicySet(a: Arena, id: PolicyId, ns: seq<string>, parentPath: GenName,
                            description: Option<string>, register: bool, items: seq<PolicySetItem>): (r: Res<(PolicySet, Arena)>)
    ensures r.Ok? <==> ScanPolicySet(items).Ok? && LastSetApply(items).Some?
    ensures ScanPolicySet(items).Ok? && LastSetApply(items).None? ==>
              r == Err(SrcError(POLICY_APPLY_HELP, "missing an apply statement"))
    ensures r.Ok? ==>
              var s := r.value.0;
              && s.id == id && s.ns == ns && s.description == description
              && |s.policyNs| == |parentPath| + 1 && s.policyNs[..|parentPath|] == parentPath
              && (Slot(r.value.1, s.policyNs[|parentPath|]).None? <==> id.PolicyNoName?)
              && Some(s.apply) == LastSetApply(items) && s.target == LastSetTarget(items)
              && s.policies == Children(items)
  {
    var (a1, path, _) := EnterPolicy(a, parentPath, id, register);
    var s :- ScanPolicySet(items);
    match s.apply
    case None => Err(SrcError(POLICY_APPLY_HELP, "missing an apply statement"))
    case Some(apply) => Ok((PolicySet(id, ns, path, description, s.target, s.condition, apply, s.policies, s.prescriptions), a1))
  }

  /** A policyset body with two targets keeps the second. */
  lemma PolicySetTargetReplaced(t1: Target, t2: Target)
    ensures ScanPolicySet([SetTargetItem(t1), SetTargetItem(t2)]).Ok?
    ensures ScanPolicySet([SetTargetItem(t1), SetTargetItem(t2)]).value.target == Some(t2)
  {
    var items := [SetTargetItem(t1), SetTargetItem(t2)];
    assert items[..1] == [SetTargetItem(t1)];
    assert items[..1][..0] == [];
  }

  // ----------------------------------------------------------------------
  // Source locations

  /** A span: an offset and a length. */
  datatype Span = Span(offset: nat, length: nat)

  /** `SrcLoc::with_start_end`: the span from `start` to `end`. The length
      is an unsigned subtraction, so an end before the start aborts. */
  function WithStartEnd(start: nat, end: nat): (r: Res<Span>)
    ensures r.Ok? <==> start <= end
    ensures r.Ok? ==> r.value.offset == start && r.value.offset + r.value.length == end
    ensures r.Err? ==> r.error == Panic("attempt to subtract with overflow")
  {
    if end < start then Err(Panic("attempt to subtract with overflow"))
    else Ok(Span(start, end - start))
  }
}
