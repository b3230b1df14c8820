# Custom rules of the horusec scanner, modelled in Dafny

A custom rule is a user-authored detection rule of the horusec static-analysis
scanner: an ID, a name and description, the target language, a severity, a
confidence, a combination mode (`Type`) and a list of regular-expression
sources (`Expressions`). The entity `CustomRule` of package `customrules` does
three things, all modelled here:

- `Validate` checks the ID and the four enumeration fields: each must be set
  (`validation.Required`) and, for the enumerations, be one of a fixed list
  (`validation.In`). Name, Description and Expressions are not checked.
- `GetRuleType` resolves the combination mode (Regular, OrMatch, AndMatch,
  NotMatch) into the scanning engine's match type, falling back to `Regular`.
- `GetExpressions` compiles the expressions in order, keeping the ones that
  compile and logging and skipping the ones that do not.

Files:

- `enums.dfy` — module `Enums`: the language, severity, confidence and
  combination-mode enumerations; module `Engine`: the engine's match types;
  module `Regexp`: an opaque compiled matcher and the outcome of compiling.
- `custom_rule.dfy` — module `CustomRules`: the record, `Validate`,
  `GetRuleType`, the specification functions of compilation and the
  `GetExpressions` loop.
- `custom_rule_properties.dfy` — module `CustomRuleProperties`: the lemmas.

Modelling decisions:

- Every enumeration field is a Go `string` type, so a decoded rule may hold
  any text there. Each is a datatype with `Unset` (the empty string), the
  enumeration's named members, and `Unrecognised(text)` for any other
  non-empty text. The wider language enumeration lives in horusec-devkit, which
  is not part of this model; its members are listed as that library names
  them, and only the eight accepted ones matter to the proofs.
- The ID check (`Required` plus `is.UUID` on a `uuid.UUID`) is the parameter
  `idValid` of `Validate`; the library's handling of UUIDs is not modelled.
- `regexp.Compile` is the parameter `compile` of `GetExpressions`; a
  compiled matcher is an uninterpreted `Regexp` value.
- The `logger.LogError` calls are returned as the `log` out-parameter of
  `GetExpressions`: one `LogEntry` per call, carrying the formatted message
  (the fixed prefix followed by the expression) and the compiler's error.
- The validation error is a map from field to reason, one entry per rejected
  field, as the validation library reports the first failing rule of each
  field; `Valid` stands for the nil error. The combination
  modes are named as in the code: Regular, OrMatch, AndMatch, NotMatch.

## Model

| member | source | states |
|---|---|---|
| CustomRules.Validate | internal/entities/custom_rules/custom_rule.go:46-57 | the rule validates exactly when the ID check passes and Language, Severity, Confidence and Type each lie in their accepted lists; otherwise the error is non-empty, names exactly the violated fields, gives `Blank` exactly for the unset ones, `IdRejected` exactly for the ID and `NotInList` for the other rejected enumeration fields |
| CustomRules.FieldErrorMeaning | internal/entities/custom_rules/custom_rule.go:48-56 | each field's `Required` + `In` check fails exactly when the field breaks its constraint, fails with `Blank` exactly when the field is unset, and with `IdRejected` exactly when the ID check fails |
| CustomRules.GetRuleType | internal/entities/custom_rules/custom_rule.go:60-73 | each of the four modes resolves to the engine match type of the same name; any other value, unset included, yields `Regular` |
| CustomRules.CompiledMatchers | internal/entities/custom_rules/custom_rule.go:75-86 | specification of the loop's result: the matchers of the compiling expressions, in order, never more than the expressions (order and membership are stated by `CompiledMatchersAt`) |
| CustomRules.CompileFailures | internal/entities/custom_rules/custom_rule.go:76-83 | specification of the loop's log: one entry per failing expression, in order, never more than the expressions (which entry for which expression is stated by `CompileFailuresAt`) |
| CustomRules.GetExpressions | internal/entities/custom_rules/custom_rule.go:75-86 | the loop returns exactly the matchers of the compiling expressions in order, and logs exactly the failing ones in order |
| CustomRuleProperties.ValidateIgnoresFreeText | internal/entities/custom_rules/custom_rule.go:47-57 | changing Name, Description or Expressions never changes the validation outcome |
| CustomRuleProperties.MissingFieldIsBlank | internal/entities/custom_rules/custom_rule.go:49-56 | an unset Language, Severity, Confidence or Type is rejected, reported as blank |
| CustomRuleProperties.OtherKnownLanguageRejected | internal/entities/custom_rules/custom_rule.go:49-50 | a language of the wider enumeration outside the eight listed is rejected as not in the list |
| CustomRuleProperties.CobolRejected | internal/entities/custom_rules/custom_rule.go:49-50 | a language outside the enumeration ("COBOL") is rejected on the language field |
| CustomRuleProperties.GetRuleTypeOnto | internal/entities/custom_rules/custom_rule.go:61-70 | every engine match type is produced, by the mode of the same name |
| CustomRuleProperties.GetRuleTypeInjective | internal/entities/custom_rules/custom_rule.go:61-70 | distinct accepted modes resolve to distinct match types |
| CustomRuleProperties.ValidRuleTypeIsFaithful | internal/entities/custom_rules/custom_rule.go:55-72 | for a validated rule the fallback at the end of the switch is never what decides the match type |
| CustomRuleProperties.PositionsExact | internal/entities/custom_rules/custom_rule.go:76-83 | the compiling (or failing) positions are listed in strictly increasing order, each exactly once, and no other position is listed |
| CustomRuleProperties.PositionsPartition | internal/entities/custom_rules/custom_rule.go:78-82 | every expression takes exactly one of the two branches |
| CustomRuleProperties.CompiledMatchersAt | internal/entities/custom_rules/custom_rule.go:76-82 | the k-th matcher is the compiled form of the k-th compiling expression: the result is an order-preserving subsequence |
| CustomRuleProperties.CompileFailuresAt | internal/entities/custom_rules/custom_rule.go:76-79 | the k-th log entry names the k-th failing expression with its compile error, so each failure is logged exactly once |
| CustomRuleProperties.CompiledOrLogged | internal/entities/custom_rules/custom_rule.go:75-86 | matchers plus log entries number the expressions; all are kept exactly when all compile, and nothing is logged exactly then |
| CustomRuleProperties.NoFailuresExactlyWhenAllCompile | internal/entities/custom_rules/custom_rule.go:76-83 | there is no failing position exactly when every expression compiles |
| CustomRuleProperties.CompileAppend | internal/entities/custom_rules/custom_rule.go:76-83 | compiling a concatenation concatenates the matchers and the logs: a failure does not stop the later expressions |
| CustomRuleProperties.AndRuleScenario | internal/entities/custom_rules/custom_rule.go:46-86 | an AndMatch rule with valid metadata and two compiling expressions validates, resolves to AndMatch and yields two matchers with no log |
| CustomRuleProperties.UncompilableRuleScenario | internal/entities/custom_rules/custom_rule.go:46-86 | a rule whose only expression fails yields no matcher and one log entry, and still validates |

## Left out

- `ToString` (JSON marshalling through `encoding/json`, error discarded): a wrapper over a library outside this model; no serialization round trip is stated.
- internal/services/formatters/hcl/checkov/entities/result.go: a plain record of four check lists with no operations.
- The ID check: `validation.Required`, `is.UUID` and `uuid.UUID` are library code; the check is the abstract parameter `idValid`.
- The regular-expression language of `regexp.Compile`: compilation is the abstract parameter `compile`.
- The logger is a side effect in the program; here its calls are returned as a list, and nothing is written anywhere.
- The error messages' wording of the validation library; only which fields fail, and whether for being blank, is modelled.
- `Unrecognised(text)`: the type does not stop this case from holding the spelling of a named member (for example `MathType.Unrecognised("AndMatch")`); such a value stands for no Go text, and the contracts of `CustomRules.Validate` and `CustomRules.GetRuleType` (which would reject it and resolve it to `Regular`) say nothing about the Go text it spells. Only values whose text is none of the enumeration's spellings model the program.
- The scanning engine that consumes the matchers and the match type.
