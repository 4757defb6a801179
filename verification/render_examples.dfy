/** The renderings of the declarations and conditions used in the
    compiler's own unit tests, computed from the model. */
module RenderExamples {
  import opened Wrappers
  import opened Strings
  import opened Decls
  import opened Conditions
  import opened Render

  /** The display of a designator with both options, as in the
      compiler's unit tests. */
  lemma DesignatorDisplayExample()
    ensures DesignatorDisplay(AttributeDesignator(["main", "subjectName"], Some("foo"), true))
            == "main.subjectName" + "[" + "mustbepresent issuer=\"foo\"" + "]"
  {
    ExampleDesignatorName();
    ExampleDesignatorOptions();
  }

  lemma ExampleDesignatorName()
    ensures Join(["main", "subjectName"], ".") == "main.subjectName"
  {
    JoinTwo("main", "subjectName", ".");
    assert "main" + "." + "subjectName" == "main.subjectName";
  }

  lemma ExampleDesignatorOptions()
    ensures Join(DesignatorOptions(AttributeDesignator(["main", "subjectName"], Some("foo"), true)), " ")
            == "mustbepresent issuer=\"foo\""
  {
    assert "issuer=\"" + "foo" + "\"" == "issuer=\"foo\"";
    assert DesignatorOptions(AttributeDesignator(["main", "subjectName"], Some("foo"), true))
        == ["mustbepresent", "issuer=\"foo\""];
    JoinTwo("mustbepresent", "issuer=\"foo\"", " ");
    assert "mustbepresent" + " " + "issuer=\"foo\"" == "mustbepresent issuer=\"foo\"";
  }

  /** The displays of literal conditions, as in the compiler's unit tests. */
  lemma StringConditionExample()
    ensures ConditionDisplay(Condition(Lit(CString("foo")), [])) == Ok("Condition: \"foo\"")
  {
    LiteralConditionDisplay(CString("foo"), []);
    assert Escape("foo") == "foo" by {
      assert "foo"[1..] == "oo" && "oo"[1..] == "o" && "o"[1..] == "";
    }
    assert DebugQuote("foo") == "\"foo\"";
    assert "Condition: " + "\"foo\"" == "Condition: \"foo\"";
  }

  lemma NumberConditionExamples()
    ensures ConditionDisplay(Condition(Lit(CInteger("3")), [])) == Ok("Condition: 3")
    ensures ConditionDisplay(Condition(Lit(CDouble("3.99")), [])) == Ok("Condition: 3.99")
    ensures ConditionDisplay(Condition(Lit(CBoolean(true)), [])) == Ok("Condition: true")
  {
    LiteralConditionDisplay(CInteger("3"), []);
    LiteralConditionDisplay(CDouble("3.99"), []);
    LiteralConditionDisplay(CBoolean(true), []);
    assert ConstantDisplay(CBoolean(true)) == "true";
    assert "Condition: " + "true" == "Condition: true";
    assert "Condition: " + "3" == "Condition: 3";
    assert "Condition: " + "3.99" == "Condition: 3.99";
  }

  /** The ALFA form of the function in the compiler's unit test, written
      as the pieces of the expected line in order. */
  lemma FunctionToAlfaExample()
    ensures FunctionToAlfa(Function("fn_name", ["main"], "urn:oasis:sample",
                                    FunctionInputs(ExampleArgs(), true), OutAtomicBag("string")), 1)
            == "  function " + "fn_name" + " = \"urn:oasis:sample\" : "
               + ("string " + "bag[boolean] " + "anyAtomic " + "bag[anyAtomic] " + "anyAtomicOrBag " + "function ")
               + "* -> bag[string]\n"
  {
    FunctionToAlfaExamplePieces();
    FunctionLineLiterals();
  }

  lemma FunctionToAlfaExamplePieces()
    ensures FunctionToAlfa(Function("fn_name", ["main"], "urn:oasis:sample",
                                    FunctionInputs(ExampleArgs(), true), OutAtomicBag("string")), 1)
            == "  " + "function " + "fn_name" + (" = \"" + "urn:oasis:sample" + "\" : ")
               + ("string " + "bag[boolean] " + "anyAtomic " + "bag[anyAtomic] " + "anyAtomicOrBag " + "function ")
               + ("* " + ("-> " + "bag[string]" + "\n"))
  {
    var f := Function("fn_name", ["main"], "urn:oasis:sample", FunctionInputs(ExampleArgs(), true), OutAtomicBag("string"));
    FunctionToAlfaPieces(f, 1);
    ExampleArgsText();
    assert Indent(1) == "  " by { assert Repeat("  ", 1) == Repeat("  ", 0) + "  "; }
    assert OutputArgDisplay(OutAtomicBag("string")) == "bag[string]" by {
      assert "bag[" + "string" + "]" == "bag[string]";
    }
  }

  lemma FunctionLineLiterals()
    ensures "  " + "function " == "  function "
    ensures " = \"" + "urn:oasis:sample" + "\" : " == " = \"urn:oasis:sample\" : "
    ensures "* " + ("-> " + "bag[string]" + "\n") == "* -> bag[string]\n"
  {
  }

  /** The arguments of the function in the compiler's unit test: every
      kind of argument type once. */
  function ExampleArgs(): (r: seq<FunctionInputArg>)
    ensures ArgDisplays(r) == ["string", "bag[boolean]", "anyAtomic", "bag[anyAtomic]", "anyAtomicOrBag", "function"]
  {
    var r := [InAtomic("string"), InAtomicBag("boolean"), InAnyAtomic, InAnyAtomicBag, InAnyAtomicOrBag, InFunction];
    assert InputArgDisplay(r[1]) == "bag[boolean]" by { assert "bag[" + "boolean" + "]" == "bag[boolean]"; }
    r
  }

  lemma ExampleArgsText()
    ensures ArgsText(ExampleArgs())
            == "string " + "bag[boolean] " + "anyAtomic " + "bag[anyAtomic] " + "anyAtomicOrBag " + "function "
  {
    var ds := ["string", "bag[boolean]", "anyAtomic", "bag[anyAtomic]", "anyAtomicOrBag", "function"];
    ExampleArgsTail();
    TerminatedStep("anyAtomic", ds[3..], " ");
    assert ["anyAtomic"] + ds[3..] == ds[2..];
    TerminatedStep("bag[boolean]", ds[2..], " ");
    assert ["bag[boolean]"] + ds[2..] == ds[1..];
    TerminatedStep("string", ds[1..], " ");
    assert ["string"] + ds[1..] == ds;
    assert "string" + " " == "string ";
    assert "bag[boolean]" + " " == "bag[boolean] ";
    assert "anyAtomic" + " " == "anyAtomic ";
  }

  lemma ExampleArgsTail()
    ensures Terminated(["bag[anyAtomic]", "anyAtomicOrBag", "function"], " ")
            == "bag[anyAtomic] " + "anyAtomicOrBag " + "function "
  {
    assert Terminated([], " ") == "";
    TerminatedStep("function", [], " ");
    assert ["function"] + [] == ["function"];
    TerminatedStep("anyAtomicOrBag", ["function"], " ");
    assert ["anyAtomicOrBag"] + ["function"] == ["anyAtomicOrBag", "function"];
    TerminatedStep("bag[anyAtomic]", ["anyAtomicOrBag", "function"], " ");
    assert ["bag[anyAtomic]"] + ["anyAtomicOrBag", "function"] == ["bag[anyAtomic]", "anyAtomicOrBag", "function"];
    assert "bag[anyAtomic]" + " " == "bag[anyAtomic] ";
    assert "anyAtomicOrBag" + " " == "anyAtomicOrBag ";
    assert "function" + " " + "" == "function ";
  }
}
