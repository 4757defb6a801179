/** The compiler's error values (`ParseError`), restricted to the variants
    the semantic core can produce. Two variants have no direct counterpart
    as an enum case in the compiler: `SrcError` stands for a located
    diagnostic (help text and label; the location itself is not modelled)
    and `Panic` stands for a `panic!`, `todo!`, `unwrap` or `expect` that
    aborts the compiler. */
module Errors {
  import opened Wrappers

  datatype ParseError =
    | AstConvertError
    | UnexpectedRuleError(message: string)
    | DuplicateSymbol(message: string)
    | AmbiguousImport(firstMatch: string)
    | DuplicateInfixModifier
    | DuplicateRuleEffect
    | DuplicateTarget
    | DuplicateCondition
    | CommutativeWithInverseError
    | ReversedInfixArgsNotCommutativeError
    | InverseInfixNotFound
    | InfixBagsDisallowed
    | InfixBagsBooleanRequired
    | InfixNoMatchingSignature
    | DuplicateURI(uri: string)
    | PolicySetNoCondition
    | PolicyNoCondition
    | PolicyHasCondition
    | DuplicatePolicyEntity(name: string)
    | SrcError(help: string, labelText: string)
    | Panic(reason: string)

  /** Result of a fallible operation of the compiler. */
  type Res<T> = Result<T, ParseError>
}
