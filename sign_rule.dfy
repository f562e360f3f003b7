/** The sign rule both transaction services apply before saving: the caller
    supplies a magnitude, and a transaction whose operation type is a purchase or
    a withdrawal is stored negated. The decision is a case-insensitive substring
    test on the operation type's description. */
module SignRule {
  import opened Model
  import opened Text

  /** The description, lower-cased, contains "purchase" or "withdrawal". */
  predicate IsDebitDescription(description: string) {
    var lowered := ToLower(description);
    Contains(lowered, "purchase") || Contains(lowered, "withdrawal")
  }

  /** The amount to store for a supplied amount under an operation type with
      this description: negated once for a debit, unchanged otherwise. */
  function SignedAmount(description: string, amount: int): (r: int)
    ensures r == amount || r == -amount
    ensures amount > 0 ==> (r < 0 <==> IsDebitDescription(description))
    ensures amount > 0 ==> (r > 0 <==> !IsDebitDescription(description))
  {
    if IsDebitDescription(description) then -amount else amount
  }

  /** Case does not matter: a description containing a trigger word spelled in any
      mix of cases is a debit. */
  lemma TriggerWordInAnyCase(description: string, word: string)
    requires ToLower(word) == "purchase" || ToLower(word) == "withdrawal"
    requires Contains(description, word)
    ensures IsDebitDescription(description)
  {
    ContainsLowered(description, word);
  }

  /** A description and its lower-cased form get the same sign. */
  lemma LoweredDescriptionSameSign(description: string, amount: int)
    ensures SignedAmount(ToLower(description), amount) == SignedAmount(description, amount)
  {
    ToLowerIdempotent(description);
  }

  /** Lower-cased, "Normal Purchase" holds "purchase" at index 7. */
  lemma NormalPurchaseIsDebit(description: string)
    requires description == "Normal Purchase"
    ensures IsDebitDescription(description)
  {
    var lowered := ToLower(description);
    assert lowered[7] == 'p';
    assert lowered[8] == 'u';
    assert lowered[9] == 'r';
    assert lowered[10] == 'c';
    assert lowered[11] == 'h';
    assert lowered[12] == 'a';
    assert lowered[13] == 's';
    assert lowered[14] == 'e';
    assert OccursAt(lowered, "purchase", 7);
  }

  /** Lower-cased, "Purchase with installments" starts with "purchase". */
  lemma InstallmentsIsDebit(description: string)
    requires description == "Purchase with installments"
    ensures IsDebitDescription(description)
  {
    var lowered := ToLower(description);
    assert description[0] == 'P';
    assert lowered[0] == LowerChar(description[0]) == 'p';
    assert description[1] == 'u';
    assert lowered[1] == LowerChar(description[1]) == 'u';
    assert description[2] == 'r';
    assert lowered[2] == LowerChar(description[2]) == 'r';
    assert description[3] == 'c';
    assert lowered[3] == LowerChar(description[3]) == 'c';
    assert description[4] == 'h';
    assert lowered[4] == LowerChar(description[4]) == 'h';
    assert description[5] == 'a';
    assert lowered[5] == LowerChar(description[5]) == 'a';
    assert description[6] == 's';
    assert lowered[6] == LowerChar(description[6]) == 's';
    assert description[7] == 'e';
    assert lowered[7] == LowerChar(description[7]) == 'e';
    assert OccursAt(lowered, "purchase", 0);
  }

  /** Lower-cased, "Withdrawal" is "withdrawal". */
  lemma WithdrawalIsDebit(description: string)
    requires description == "Withdrawal"
    ensures IsDebitDescription(description)
  {
    var lowered := ToLower(description);
    assert lowered[0] == 'w';
    assert lowered[1] == 'i';
    assert lowered[2] == 't';
    assert lowered[3] == 'h';
    assert lowered[4] == 'd';
    assert lowered[5] == 'r';
    assert lowered[6] == 'a';
    assert lowered[7] == 'w';
    assert lowered[8] == 'a';
    assert lowered[9] == 'l';
    assert OccursAt(lowered, "withdrawal", 0);
  }

  /** Lower-cased, "Credit Voucher" has neither a 'p' nor a 'w', so no trigger word. */
  lemma CreditVoucherIsNotDebit(description: string)
    requires description == "Credit Voucher"
    ensures !IsDebitDescription(description)
  {
    var lowered := ToLower(description);
    assert forall i :: 0 <= i < |lowered| ==> lowered[i] != 'p' && lowered[i] != 'w';
    MissingFirstCharNotContained(lowered, "purchase");
    MissingFirstCharNotContained(lowered, "withdrawal");
  }

  /** "Normal Purchase" with 50.00 is stored as -50.00. */
  lemma NormalPurchaseStoredNegative()
    ensures SignedAmount("Normal Purchase", 5000) == -5000
  {
    NormalPurchaseIsDebit("Normal Purchase");
  }

  /** "Credit Voucher" with 25.00 is stored as 25.00. */
  lemma CreditVoucherStoredPositive()
    ensures SignedAmount("Credit Voucher", 2500) == 2500
  {
    CreditVoucherIsNotDebit("Credit Voucher");
  }

  /** Of the four seeded operation types, the first three are debits and the
      credit voucher is not. */
  lemma SeededSignPolicy()
    ensures IsDebitDescription(SeedDescriptions[0])
    ensures IsDebitDescription(SeedDescriptions[1])
    ensures IsDebitDescription(SeedDescriptions[2])
    ensures !IsDebitDescription(SeedDescriptions[3])
  {
    var normal, installments, withdrawal, voucher :=
      SeedDescriptions[0], SeedDescriptions[1], SeedDescriptions[2], SeedDescriptions[3];
    NormalPurchaseIsDebit(normal);
    InstallmentsIsDebit(installments);
    WithdrawalIsDebit(withdrawal);
    CreditVoucherIsNotDebit(voucher);
  }
}
