/** The two response records the transaction service builds. */
module Responses {
  import opened Wrappers
  import opened Enums
  import opened Dates
  import opened Users
  import opened Transactions

  /** TransactionResponse without the ORM timestamps. */
  datatype TransactionResponse = TransactionResponse(
    id: TransactionId,
    amountCents: int,
    description: string,
    transactionType: TransactionType,
    category: Category,
    transactionDate: LocalDate,
    notes: Option<string>,
    userId: UserId,
    username: string)

  /** MonthlySummaryResponse; the per-category maps are keyed by `Category.name()`. */
  datatype MonthlySummaryResponse = MonthlySummaryResponse(
    month: YearMonth,
    totalIncome: int,
    totalExpenses: int,
    netSavings: int,
    expensesByCategory: map<string, int>,
    incomeByCategory: map<string, int>,
    totalTransactions: nat)
}
