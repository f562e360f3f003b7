/** The Go service's request validation tags. For a document number:
    `required,len=11,numeric`; for a transaction: `required` ids and an amount
    that is `required,gt=0`. The `numeric` tag is the validator library's pattern
    `^[-+]?[0-9]+(?:\.[0-9]+)?$`. */
module GoRequests {
  import opened Model
  import opened Text
  import JavaAccountRequest
  import SignRule

  predicate AllDigits(s: string) {
    forall i :: 0 <= i < |s| ==> IsAsciiDigit(s[i])
  }

  /** `[0-9]+(?:\.[0-9]+)?`: a digit run, optionally a point and a second digit run. */
  predicate IsUnsignedNumber(s: string) {
    exists k :: 0 < k <= |s| && AllDigits(s[..k]) &&
      (k == |s| || (s[k] == '.' && k + 1 < |s| && AllDigits(s[k + 1..])))
  }

  /** The `numeric` tag: an optional sign before an unsigned number. */
  predicate IsNumeric(s: string) {
    if |s| > 0 && (s[0] == '+' || s[0] == '-') then IsUnsignedNumber(s[1..]) else IsUnsignedNumber(s)
  }

  /** `validate:"required,len=11,numeric"` on `AccountRequest.DocumentNumber`:
      not the empty string, eleven characters, numeric. */
  predicate IsValidAccountRequest(documentNumber: string) {
    documentNumber != "" && |documentNumber| == 11 && IsNumeric(documentNumber)
  }

  /** The tags on `TransactionRequest`: both ids non-zero (`required` on a `uint`)
      and an amount that is non-zero and greater than zero. */
  predicate IsValidTransactionRequest(request: TransactionRequest) {
    request.accountId != 0 && request.operationTypeId != 0 && request.amount != 0 && request.amount > 0
  }

  /** Every document number the Java rule accepts passes the Go tags; in
      particular "12345678900" does. The converse is not claimed. */
  lemma ElevenDigitsPassGoRule(documentNumber: string)
    requires JavaAccountRequest.MatchesDocumentPattern(documentNumber)
    ensures IsValidAccountRequest(documentNumber)
  {
    assert documentNumber[..11] == documentNumber;
    assert AllDigits(documentNumber[..11]);
    assert IsUnsignedNumber(documentNumber);
  }

  /** "12345678900" passes; the empty string and "123" do not. */
  lemma DocumentNumberExamples()
    ensures IsValidAccountRequest("12345678900")
    ensures !IsValidAccountRequest("")
    ensures !IsValidAccountRequest("123")
  {
    ElevenDigitsPassGoRule("12345678900");
  }

  /** The amount rule rejects zero and every negative amount, and what it admits
      reaches the sign rule as a positive magnitude: the stored amount is
      positive exactly when it is not negated. */
  lemma ValidAmountIsPositiveMagnitude(request: TransactionRequest, description: string)
    requires IsValidTransactionRequest(request)
    ensures request.amount > 0
    ensures SignRule.SignedAmount(description, request.amount) > 0 <==> !SignRule.IsDebitDescription(description)
    ensures SignRule.SignedAmount(description, request.amount) < 0 <==> SignRule.IsDebitDescription(description)
  {
  }
}
