/** The Java service's bean-validation rule on a document number: it must not be
    blank and must match `^\d{11}$`. Java's `\d` is the ASCII class [0-9], and the
    pattern must match the whole value, so the rule asks for exactly eleven ASCII
    digits. */
module JavaAccountRequest {
  import opened Text

  /** `@NotBlank`: once `String.trim` has removed the leading and trailing
      characters at or below U+0020, something is left. */
  predicate NotBlank(documentNumber: string) {
    exists i :: 0 <= i < |documentNumber| && documentNumber[i] > ' '
  }

  /** `@Pattern(regexp = "^\\d{11}$")`. */
  predicate MatchesDocumentPattern(documentNumber: string) {
    |documentNumber| == 11 && forall i :: 0 <= i < |documentNumber| ==> IsAsciiDigit(documentNumber[i])
  }

  /** Both constraints of the request's `documentNumber` field. */
  predicate IsValidDocumentNumber(documentNumber: string) {
    NotBlank(documentNumber) && MatchesDocumentPattern(documentNumber)
  }

  /** Every value the pattern admits is non-blank, so `@NotBlank` adds nothing to
      `@Pattern` and the rule is exactly "eleven ASCII digits". */
  lemma PatternImpliesNotBlank(documentNumber: string)
    ensures MatchesDocumentPattern(documentNumber) ==> NotBlank(documentNumber)
    ensures IsValidDocumentNumber(documentNumber) <==> MatchesDocumentPattern(documentNumber)
  {
    if MatchesDocumentPattern(documentNumber) {
      assert documentNumber[0] > ' ';
    }
  }

  /** "12345678900" is accepted and "123" is rejected. */
  lemma DocumentNumberExamples()
    ensures IsValidDocumentNumber("12345678900")
    ensures !IsValidDocumentNumber("123")
  {
    PatternImpliesNotBlank("12345678900");
  }
}
