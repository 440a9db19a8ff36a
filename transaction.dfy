/** The Transaction entity and the constraints its annotations declare. Amounts are exact
    numbers of cents: a BigDecimal with at most two fractional digits. */
module Transactions {
  import opened Wrappers
  import opened Enums
  import opened Dates
  import opened Users

  type TransactionId = nat

  /** @DecimalMin("0.01"). */
  const MinAmountCents := 1
  /** @Digits(integer = 10, fraction = 2): fewer than 10^10 whole units, i.e. 10^12 cents. */
  const AmountCentsLimit := 1_000_000_000_000
  const MaxDescriptionLength := 200
  const MaxNotesLength := 500

  /** A stored row. The NOT NULL columns have non-null types here; `owner` is the
      user_id foreign key, so every transaction has exactly one owning user. */
  datatype Transaction = Transaction(
    id: TransactionId,
    amountCents: int,
    description: string,
    transactionType: TransactionType,
    category: Category,
    transactionDate: LocalDate,
    notes: Option<string>,
    owner: UserId)

  /** @NotBlank: after `trim()` (which strips every char up to U+0020) something is left. */
  predicate IsNotBlank(s: string) {
    exists i :: 0 <= i < |s| && s[i] > ' '
  }

  /** `String.length()`, which @Size measures: UTF-16 code units. A character outside the
      Basic Multilingual Plane is a surrogate pair and counts twice. */
  function Utf16Length(s: string): (n: nat)
    ensures |s| <= n <= 2 * |s|
    ensures n == |s| <==> forall i :: 0 <= i < |s| ==> (s[i] as int) < 0x1_0000
  {
    if s == [] then 0
    else
      assert forall i :: 1 <= i < |s| ==> s[i] == s[1..][i - 1];
      (if (s[0] as int) < 0x1_0000 then 1 else 2) + Utf16Length(s[1..])
  }

  /** A string made only of characters outside the Basic Multilingual Plane has twice as
      many UTF-16 units as characters. */
  lemma {:induction false} SupplementaryCountTwice(s: string)
    requires forall i :: 0 <= i < |s| ==> (s[i] as int) >= 0x1_0000
    ensures Utf16Length(s) == 2 * |s|
  {
    if s != [] {
      assert forall i :: 0 <= i < |s[1..]| ==> s[1..][i] == s[i + 1];
      SupplementaryCountTwice(s[1..]);
    }
  }

  /** @Digits(integer = 10, fraction = 2) on a number of cents. */
  predicate FitsAmountDigits(cents: int) {
    -AmountCentsLimit < cents < AmountCentsLimit
  }

  /** The entity's bean-validation constraints, checked when it is saved. */
  predicate ValidTransaction(t: Transaction) {
    && t.amountCents >= MinAmountCents
    && FitsAmountDigits(t.amountCents)
    && IsNotBlank(t.description)
    && Utf16Length(t.description) <= MaxDescriptionLength
    && (t.notes.Some? ==> Utf16Length(t.notes.value) <= MaxNotesLength)
  }

  /** A description of 101 pizza emoji has 101 characters but 202 UTF-16 units, so it
      breaks the 200-unit limit. */
  lemma EmojiDescriptionTooLong()
    ensures var t := Transaction(1, 100, seq(101, _ => '\U{1F355}'), Expense, Food, Ymd(2024, 1, 1), None, 1);
      |t.description| <= MaxDescriptionLength && !ValidTransaction(t)
  {
    SupplementaryCountTwice(seq(101, _ => '\U{1F355}'));
  }
}
