/**
 * The custom-rule entity of the scanner (package customrules): a
 * user-authored detection rule, its validation, the resolution of its
 * combination mode into the engine's match type, and the compilation of its
 * expressions into matchers.
 */
module CustomRules {
  import opened Enums
  import Engine
  import opened Regexp

  datatype Option<T> = None | Some(value: T)

  /** uuid.UUID: sixteen bytes. */
  type Uuid = b: seq<bv8> | |b| == 16 witness seq(16, i => 0 as bv8)

  /** The `CustomRule` record, field by field. */
  datatype CustomRule = CustomRule(
    id: Uuid,
    name: string,
    description: string,
    language: Language,
    severity: Severity,
    confidence: Confidence,
    ruleType: MathType,
    expressions: seq<string>)

  // ---------------------------------------------------------------------
  // Validation
  // ---------------------------------------------------------------------

  /** The validated fields; the validation error is keyed by them. */
  datatype Field = IdField | LanguageField | SeverityField | ConfidenceField | TypeField

  const AllFields: set<Field> := {IdField, LanguageField, SeverityField, ConfidenceField, TypeField}

  /**
   * Why a field was rejected: `Blank` is the `Required` rule's error,
   * `NotInList` the `In` rule's, `IdRejected` the ID's (`Required` followed by
   * `is.UUID`, whose internals are not modelled).
   */
  datatype Reason = Blank | NotInList | IdRejected

  /** Go's `error`: nil, or one error per rejected field. */
  datatype ValidationResult = Valid | Invalid(errors: map<Field, Reason>)

  /** The value lists passed to `validation.In`. */
  const AllowedLanguages: set<Language> :=
    {Language.CSharp, Language.Dart, Language.Java, Language.Kotlin,
     Language.Yaml, Language.Leaks, Language.Javascript, Language.Nginx}
  const AllowedSeverities: set<Severity> :=
    {Severity.Info, Severity.Unknown, Severity.Low, Severity.Medium, Severity.High, Severity.Critical}
  const AllowedConfidences: set<Confidence> :=
    {Confidence.Low, Confidence.Medium, Confidence.High}
  const AllowedTypes: set<MathType> :=
    {MathType.Regular, MathType.OrMatch, MathType.AndMatch, MathType.NotMatch}

  /**
   * `validation.Required` followed by `validation.In(allowed...)`: the first
   * rule that fails gives the field's error. `In` passes an empty value, so
   * an unset field is reported only by `Required`.
   */
  function RequiredIn<T(==)>(present: bool, v: T, allowed: set<T>): Option<Reason>
  {
    if !present then Some(Blank)
    else if v in allowed then None
    else Some(NotInList)
  }

  /** The error, if any, that one `validation.Field` entry reports. */
  function FieldError(rule: CustomRule, idValid: Uuid -> bool, f: Field): Option<Reason>
  {
    match f
    case IdField => if idValid(rule.id) then None else Some(IdRejected)
    case LanguageField => RequiredIn(!rule.language.Unset?, rule.language, AllowedLanguages)
    case SeverityField => RequiredIn(!rule.severity.Unset?, rule.severity, AllowedSeverities)
    case ConfidenceField => RequiredIn(!rule.confidence.Unset?, rule.confidence, AllowedConfidences)
    case TypeField => RequiredIn(!rule.ruleType.Unset?, rule.ruleType, AllowedTypes)
  }

  // An independent statement of which values each field accepts.

  predicate LanguageAccepted(l: Language)
  {
    match l
    case CSharp | Dart | Java | Kotlin | Yaml | Leaks | Javascript | Nginx => true
    case _ => false
  }

  predicate SeverityAccepted(s: Severity)
  {
    match s
    case Info | Unknown | Low | Medium | High | Critical => true
    case _ => false
  }

  predicate ConfidenceAccepted(c: Confidence)
  {
    match c
    case Low | Medium | High => true
    case _ => false
  }

  predicate TypeAccepted(t: MathType)
  {
    match t
    case Regular | OrMatch | AndMatch | NotMatch => true
    case _ => false
  }

  /** Field `f` of `rule` breaks its constraint. */
  predicate Violates(rule: CustomRule, idValid: Uuid -> bool, f: Field)
  {
    match f
    case IdField => !idValid(rule.id)
    case LanguageField => !LanguageAccepted(rule.language)
    case SeverityField => !SeverityAccepted(rule.severity)
    case ConfidenceField => !ConfidenceAccepted(rule.confidence)
    case TypeField => !TypeAccepted(rule.ruleType)
  }

  /** Field `f` of `rule` holds the empty string. */
  predicate IsBlank(rule: CustomRule, f: Field)
  {
    match f
    case IdField => false
    case LanguageField => rule.language.Unset?
    case SeverityField => rule.severity.Unset?
    case ConfidenceField => rule.confidence.Unset?
    case TypeField => rule.ruleType.Unset?
  }

  /** Every field of `rule` meets its constraint. */
  predicate Acceptable(rule: CustomRule, idValid: Uuid -> bool)
  {
    idValid(rule.id) && LanguageAccepted(rule.language) && SeverityAccepted(rule.severity)
    && ConfidenceAccepted(rule.confidence) && TypeAccepted(rule.ruleType)
  }

  lemma FieldErrorMeaning(rule: CustomRule, idValid: Uuid -> bool, f: Field)
    ensures FieldError(rule, idValid, f).Some? <==> Violates(rule, idValid, f)
    ensures FieldError(rule, idValid, f) == Some(Blank) <==> IsBlank(rule, f)
    ensures FieldError(rule, idValid, f) == Some(IdRejected) <==> f == IdField && Violates(rule, idValid, f)
  {
  }

  /**
   * `Validate`: ID, Language, Severity, Confidence and Type are checked, each
   * independently, and every rejected field is reported. Name, Description
   * and Expressions are not looked at. The ID check is the parameter
   * `idValid`.
   */
  function Validate(rule: CustomRule, idValid: Uuid -> bool): (r: ValidationResult)
    ensures r.Valid? <==> Acceptable(rule, idValid)
    ensures r.Invalid? ==> r.errors != map[]
    ensures r.Invalid? ==> forall f :: f in r.errors <==> Violates(rule, idValid, f)
    ensures r.Invalid? ==> forall f :: f in r.errors ==> (r.errors[f] == Blank <==> IsBlank(rule, f))
    ensures r.Invalid? ==> forall f :: f in r.errors ==> (r.errors[f] == IdRejected <==> f == IdField)
  {
    var errors := map f | f in AllFields && FieldError(rule, idValid, f).Some? :: FieldError(rule, idValid, f).value;
    forall f ensures f in errors <==> Violates(rule, idValid, f) {
      assert f == IdField || f == LanguageField || f == SeverityField || f == ConfidenceField || f == TypeField;
      FieldErrorMeaning(rule, idValid, f);
    }
    forall f | f in errors
      ensures errors[f] == Blank <==> IsBlank(rule, f)
      ensures errors[f] == IdRejected <==> f == IdField
    {
      FieldErrorMeaning(rule, idValid, f);
    }
    if errors == map[] then
      assert forall f :: !Violates(rule, idValid, f) by {
        forall f ensures !Violates(rule, idValid, f) {
          assert f !in errors;
        }
      }
      assert !Violates(rule, idValid, IdField) && !Violates(rule, idValid, LanguageField)
          && !Violates(rule, idValid, SeverityField) && !Violates(rule, idValid, ConfidenceField)
          && !Violates(rule, idValid, TypeField);
      Valid
    else
      Invalid(errors)
  }

  // ---------------------------------------------------------------------
  // Match-type resolution
  // ---------------------------------------------------------------------

  /** The combination mode that stands for each engine match type. */
  function DeclaredMode(m: Engine.MatchType): (t: MathType)
    ensures TypeAccepted(t)
  {
    match m
    case Regular => MathType.Regular
    case OrMatch => MathType.OrMatch
    case AndMatch => MathType.AndMatch
    case NotMatch => MathType.NotMatch
  }

  /**
   * `GetRuleType`: each of the four combination modes resolves to the engine
   * match type it names; any other value, the empty one included, falls back
   * to `Regular`.
   */
  function GetRuleType(t: MathType): (m: Engine.MatchType)
    ensures TypeAccepted(t) ==> DeclaredMode(m) == t
    ensures !TypeAccepted(t) ==> m == Engine.Regular
  {
    match t
    case Regular => Engine.Regular
    case OrMatch => Engine.OrMatch
    case AndMatch => Engine.AndMatch
    case NotMatch => Engine.NotMatch
    case _ => Engine.Regular
  }

  // ---------------------------------------------------------------------
  // Expression compilation
  // ---------------------------------------------------------------------

  /** The text `GetExpressions` logs before a rejected expression. */
  const CompileFailurePrefix: string := "{HORUSEC_CLI} failed to compile custom rule regex: "

  /** One `logger.LogError` call: the message and the error it carries. */
  datatype LogEntry = LogEntry(message: string, cause: string)

  predicate Compiles(compile: string -> CompileResult, expression: string)
  {
    compile(expression).Compiled?
  }

  /** The matchers of the expressions of `s` that compile, in order. */
  function CompiledMatchers(compile: string -> CompileResult, s: seq<string>): (r: seq<Regexp>)
    ensures |r| <= |s|
  {
    if s == [] then []
    else
      var last := s[|s| - 1];
      CompiledMatchers(compile, s[..|s| - 1])
        + (if Compiles(compile, last) then [compile(last).re] else [])
  }

  /** The log entries for the expressions of `s` that do not compile, in order. */
  function CompileFailures(compile: string -> CompileResult, s: seq<string>): (r: seq<LogEntry>)
    ensures |r| <= |s|
  {
    if s == [] then []
    else
      var last := s[|s| - 1];
      CompileFailures(compile, s[..|s| - 1])
        + (if Compiles(compile, last) then [] else [LogEntry(CompileFailurePrefix + last, compile(last).message)])
  }

  /** The positions in `s` whose expression compiles (`ok`) or fails (`!ok`), in order. */
  function Positions(compile: string -> CompileResult, s: seq<string>, ok: bool): seq<nat>
  {
    if s == [] then []
    else Positions(compile, s[..|s| - 1], ok) + (if Compiles(compile, s[|s| - 1]) == ok then [|s| - 1] else [])
  }

  /**
   * `GetExpressions`: the expressions are compiled one by one, in order; a
   * compiled one is appended to the result, a failing one is logged and
   * skipped. The logger is modelled as the returned `log`.
   */
  method GetExpressions(rule: CustomRule, compile: string -> CompileResult)
    returns (expressions: seq<Regexp>, log: seq<LogEntry>)
    ensures expressions == CompiledMatchers(compile, rule.expressions)
    ensures log == CompileFailures(compile, rule.expressions)
  {
    expressions, log := [], [];
    for i := 0 to |rule.expressions|
      invariant expressions == CompiledMatchers(compile, rule.expressions[..i])
      invariant log == CompileFailures(compile, rule.expressions[..i])
    {
      var expression := rule.expressions[i];
      assert rule.expressions[..i + 1][..i] == rule.expressions[..i];
      match compile(expression)
      case CompileError(err) =>
        log := log + [LogEntry(CompileFailurePrefix + expression, err)];
      case Compiled(regex) =>
        expressions := expressions + [regex];
    }
    assert rule.expressions[..|rule.expressions|] == rule.expressions;
  }
}
