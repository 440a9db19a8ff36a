/** The request body of create and update, and the constraints `@Valid` checks on it.
    Every field may be null in Java, so every field is an Option. */
module Requests {
  import opened Wrappers
  import opened Enums
  import opened Dates
  import opened Transactions

  datatype TransactionRequest = TransactionRequest(
    amountCents: Option<int>,
    description: Option<string>,
    transactionType: Option<TransactionType>,
    category: Option<Category>,
    transactionDate: Option<LocalDate>,
    notes: Option<string>)

  /** @NotNull/@DecimalMin on the amount, @NotBlank/@Size on the description, @NotNull on
      type, category and date, @Size on the optional notes. No @Digits on the amount. */
  predicate ValidRequest(r: TransactionRequest) {
    && r.amountCents.Some? && r.amountCents.value >= MinAmountCents
    && r.description.Some? && IsNotBlank(r.description.value)
    && Utf16Length(r.description.value) <= MaxDescriptionLength
    && r.transactionType.Some?
    && r.category.Some?
    && r.transactionDate.Some?
    && (r.notes.Some? ==> Utf16Length(r.notes.value) <= MaxNotesLength)
  }
}
