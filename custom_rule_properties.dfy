/**
 * What the custom-rule entity promises its callers, proved about the model
 * in CustomRules: which rules validate, how combination modes resolve, and
 * that compiling a rule's expressions filters them in order, logging each
 * one that fails exactly once.
 */
module CustomRuleProperties {
  import opened Enums
  import Engine
  import opened Regexp
  import opened CustomRules

  // ---------------------------------------------------------------------
  // Validation
  // ---------------------------------------------------------------------

  /** Validation reads neither Name, Description nor Expressions. */
  lemma ValidateIgnoresFreeText(rule: CustomRule, idValid: Uuid -> bool,
                                name: string, description: string, expressions: seq<string>)
    ensures Validate(rule.(name := name, description := description, expressions := expressions), idValid)
         == Validate(rule, idValid)
  {
  }

  /** An unset Language, Severity, Confidence or Type is reported by `Required`, not by `In`. */
  lemma MissingFieldIsBlank(rule: CustomRule, idValid: Uuid -> bool, f: Field)
    requires IsBlank(rule, f)
    ensures Validate(rule, idValid).Invalid?
    ensures f in Validate(rule, idValid).errors && Validate(rule, idValid).errors[f] == Blank
  {
    FieldErrorMeaning(rule, idValid, f);
  }

  /** A language of the wider enumeration that is not one of the eight is rejected. */
  lemma OtherKnownLanguageRejected(rule: CustomRule, idValid: Uuid -> bool)
    requires !rule.language.Unset? && !rule.language.Unrecognised?
    requires rule.language !in {Language.CSharp, Language.Dart, Language.Java, Language.Kotlin,
                                Language.Yaml, Language.Leaks, Language.Javascript, Language.Nginx}
    ensures Validate(rule, idValid).Invalid?
    ensures Validate(rule, idValid).errors[LanguageField] == NotInList
  {
    FieldErrorMeaning(rule, idValid, LanguageField);
  }

  /** A language outside the enumeration ("COBOL") is rejected on the language field. */
  lemma CobolRejected(rule: CustomRule, idValid: Uuid -> bool)
    requires rule.language == Language.Unrecognised("COBOL")
    ensures Validate(rule, idValid).Invalid?
    ensures Validate(rule, idValid).errors[LanguageField] == NotInList
  {
    FieldErrorMeaning(rule, idValid, LanguageField);
  }

  // ---------------------------------------------------------------------
  // Match-type resolution
  // ---------------------------------------------------------------------

  /** Every engine match type is reached, from the mode of the same name. */
  lemma GetRuleTypeOnto(m: Engine.MatchType)
    ensures TypeAccepted(DeclaredMode(m)) && GetRuleType(DeclaredMode(m)) == m
  {
  }

  /** Distinct combination modes resolve to distinct engine match types. */
  lemma GetRuleTypeInjective(t1: MathType, t2: MathType)
    requires TypeAccepted(t1) && TypeAccepted(t2)
    requires GetRuleType(t1) == GetRuleType(t2)
    ensures t1 == t2
  {
  }

  /** A rule that validates never takes the `Regular` fallback for an unknown mode. */
  lemma ValidRuleTypeIsFaithful(rule: CustomRule, idValid: Uuid -> bool)
    requires Validate(rule, idValid).Valid?
    ensures DeclaredMode(GetRuleType(rule.ruleType)) == rule.ruleType
  {
  }

  // ---------------------------------------------------------------------
  // Expression compilation
  // ---------------------------------------------------------------------

  /**
   * `Positions(compile, s, ok)` lists, in strictly increasing order, exactly
   * the indices of `s` whose expression compiles (`ok`) or fails (`!ok`).
   */
  lemma {:induction false} PositionsExact(compile: string -> CompileResult, s: seq<string>, ok: bool)
    ensures var p := Positions(compile, s, ok);
      (forall k :: 0 <= k < |p| ==> p[k] < |s| && Compiles(compile, s[p[k]]) == ok)
      && (forall k, j :: 0 <= k < j < |p| ==> p[k] < p[j])
      && (forall i :: 0 <= i < |s| && Compiles(compile, s[i]) == ok ==> i in p)
  {
    if s != [] {
      var n := |s| - 1;
      var init := s[..n];
      PositionsExact(compile, init, ok);
      forall i | 0 <= i < n ensures init[i] == s[i] { }
    }
  }

  /** Every index of `s` is either a compiling position or a failing one, never both. */
  lemma {:induction false} PositionsPartition(compile: string -> CompileResult, s: seq<string>)
    ensures |Positions(compile, s, true)| + |Positions(compile, s, false)| == |s|
  {
    if s != [] {
      PositionsPartition(compile, s[..|s| - 1]);
    }
  }

  /** The k-th matcher is the compiled k-th compiling expression. */
  lemma {:induction false} CompiledMatchersAt(compile: string -> CompileResult, s: seq<string>)
    ensures var p := Positions(compile, s, true);
      |CompiledMatchers(compile, s)| == |p|
      && forall k :: 0 <= k < |p| ==>
           p[k] < |s| && Compiles(compile, s[p[k]]) && CompiledMatchers(compile, s)[k] == compile(s[p[k]]).re
  {
    PositionsExact(compile, s, true);
    if s != [] {
      var n := |s| - 1;
      var init := s[..n];
      CompiledMatchersAt(compile, init);
      PositionsExact(compile, init, true);
      var p := Positions(compile, init, true);
      forall k | 0 <= k < |p| ensures s[p[k]] == init[p[k]] { }
    }
  }

  /**
   * The k-th log entry names the k-th failing expression, with the error the
   * compiler gave for it.
   */
  lemma {:induction false} CompileFailuresAt(compile: string -> CompileResult, s: seq<string>)
    ensures var p := Positions(compile, s, false);
      |CompileFailures(compile, s)| == |p|
      && forall k :: 0 <= k < |p| ==>
           (p[k] < |s| && !Compiles(compile, s[p[k]])
            && CompileFailures(compile, s)[k]
               == LogEntry(CompileFailurePrefix + s[p[k]], compile(s[p[k]]).message))
  {
    PositionsExact(compile, s, false);
    if s != [] {
      var n := |s| - 1;
      var init := s[..n];
      CompileFailuresAt(compile, init);
      PositionsExact(compile, init, false);
      var p := Positions(compile, init, false);
      forall k | 0 <= k < |p| ensures s[p[k]] == init[p[k]] { }
    }
  }

  /**
   * Every expression is accounted for exactly once: it yields a matcher or a
   * log entry. Nothing is lost when all compile.
   */
  lemma CompiledOrLogged(compile: string -> CompileResult, s: seq<string>)
    ensures |CompiledMatchers(compile, s)| + |CompileFailures(compile, s)| == |s|
    ensures |CompiledMatchers(compile, s)| == |s| <==> forall i :: 0 <= i < |s| ==> Compiles(compile, s[i])
    ensures CompileFailures(compile, s) == [] <==> forall i :: 0 <= i < |s| ==> Compiles(compile, s[i])
  {
    CompiledMatchersAt(compile, s);
    CompileFailuresAt(compile, s);
    PositionsPartition(compile, s);
    NoFailuresExactlyWhenAllCompile(compile, s);
  }

  lemma NoFailuresExactlyWhenAllCompile(compile: string -> CompileResult, s: seq<string>)
    ensures Positions(compile, s, false) == [] <==> forall i :: 0 <= i < |s| ==> Compiles(compile, s[i])
  {
    PositionsExact(compile, s, false);
    var failed := Positions(compile, s, false);
    if failed != [] {
      assert !Compiles(compile, s[failed[0]]);
    }
    if i :| 0 <= i < |s| && !Compiles(compile, s[i]) {
      assert i in failed;
    }
  }

  /**
   * Compilation works expression by expression: a failing expression does
   * not affect what the ones after it yield.
   */
  lemma {:induction false} CompileAppend(compile: string -> CompileResult, a: seq<string>, b: seq<string>)
    ensures CompiledMatchers(compile, a + b) == CompiledMatchers(compile, a) + CompiledMatchers(compile, b)
    ensures CompileFailures(compile, a + b) == CompileFailures(compile, a) + CompileFailures(compile, b)
  {
    if b == [] {
      assert a + b == a;
    } else {
      var n := |b| - 1;
      CompileAppend(compile, a, b[..n]);
      assert (a + b)[..|a + b| - 1] == a + b[..n];
    }
  }

  // ---------------------------------------------------------------------
  // Scenarios
  // ---------------------------------------------------------------------

  /**
   * An And rule with two compiling expressions and valid metadata validates,
   * resolves to all-of matching and yields two matchers, logging nothing.
   */
  lemma AndRuleScenario(rule: CustomRule, idValid: Uuid -> bool, compile: string -> CompileResult)
    requires idValid(rule.id)
    requires rule.language == Language.Leaks && rule.severity == Severity.High
    requires rule.confidence == Confidence.Medium && rule.ruleType == MathType.AndMatch
    requires rule.expressions == ["^password=", "[0-9]{4,}"]
    requires Compiles(compile, "^password=") && Compiles(compile, "[0-9]{4,}")
    ensures Validate(rule, idValid).Valid?
    ensures GetRuleType(rule.ruleType) == Engine.AndMatch
    ensures CompiledMatchers(compile, rule.expressions)
         == [compile("^password=").re, compile("[0-9]{4,}").re]
    ensures CompileFailures(compile, rule.expressions) == []
  {
    assert rule.expressions[..1] == ["^password="];
    assert rule.expressions[..1][..0] == [];
  }

  /**
   * A rule whose only expression does not compile yields no matcher and one
   * log entry, and still validates when its other fields are valid.
   */
  lemma UncompilableRuleScenario(rule: CustomRule, idValid: Uuid -> bool, compile: string -> CompileResult)
    requires Acceptable(rule, idValid)
    requires rule.expressions == ["(unclosed"]
    requires !Compiles(compile, "(unclosed")
    ensures Validate(rule, idValid).Valid?
    ensures CompiledMatchers(compile, rule.expressions) == []
    ensures CompileFailures(compile, rule.expressions)
         == [LogEntry(CompileFailurePrefix + "(unclosed", compile("(unclosed").message)]
  {
    assert rule.expressions[..0] == [];
  }
}
