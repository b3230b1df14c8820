/**
 * The enumerations a custom rule refers to. In the Go program each of them
 * is a named `string` type, so a decoded rule may hold any text in these
 * fields. Each is modelled as a datatype with three kinds of value:
 *   - `Unset`, the empty string (Go's zero value, what `Required` rejects);
 *   - one constructor per named member of the enumeration;
 *   - `Unrecognised(text)`, any other, non-empty, text.
 */
module Enums {

  /** Non-empty text; the empty string is represented by `Unset`. */
  type NonEmpty = s: string | s != "" witness "?"

  /** languages.Language of horusec-devkit: the wider language enumeration. */
  datatype Language =
    | Unset
    | Go | CSharp | Dart | Ruby | Python | Java | Kotlin | Javascript | Typescript
    | Leaks | HCL | C | PHP | HTML | Generic | Yaml | Elixir | Shell | Nginx | Swift | Unknown
    | Unrecognised(text: NonEmpty)

  /** severities.Severity of horusec-devkit. */
  datatype Severity =
    | Unset
    | Critical | High | Medium | Low | Unknown | Info
    | Unrecognised(text: NonEmpty)

  /** confidence.Confidence of horusec-devkit. */
  datatype Confidence =
    | Unset
    | High | Medium | Low
    | Unrecognised(text: NonEmpty)

  /** The combination mode of a custom rule (`MathType` of internal/enums/custom_rules). */
  datatype MathType =
    | Unset
    | Regular | OrMatch | AndMatch | NotMatch
    | Unrecognised(text: NonEmpty)
}

/** The scanning engine's match-type vocabulary (text.MatchType of horusec-engine). */
module Engine {
  datatype MatchType = Regular | OrMatch | AndMatch | NotMatch
}

/**
 * Go's `regexp` package as seen by a custom rule: a compiled matcher is an
 * uninterpreted value (its `expr` is not tied to the compiled text), and compiling either yields one or fails with an error text.
 * The regular-expression language itself is not modelled: a compiler is
 * any function from source text to a `CompileResult`.
 */
module Regexp {
  datatype Regexp = Regexp(expr: string)

  datatype CompileResult = Compiled(re: Regexp) | CompileError(message: string)
}
