# expenseflow service layer in Dafny

A model of the service layer of expenseflow, a Spring Boot personal-finance backend. Users
record income and expense transactions, list and filter them, and ask for a monthly
summary. The model covers these parts:

- the transaction entity and the request it is built from, with their validation rules
  (`transaction.dfy`, `transaction_request.dfy`);
- the derived and JPQL queries of the two repositories as pure functions over the tables
  (`transaction_repository.dfy`, `user_repository.dfy`);
- the transaction service: ownership-scoped get, list, create, update and delete, and the
  monthly summary (`transaction_service.dfy`, `monthly_summary.dfy`);
- the user service: lookups, and create, update and delete with the username and email
  uniqueness checks (`user_service.dfy`).

Tables are sequences in primary-key order: `IdsAscending` is the primary key, and a query
result is the order-preserving filter of the table. Amounts are integer cents: an
`amount` of scale 2 is `amountCents / 100`. The `@Digits(integer = 10, fraction = 2)` bound
becomes `|amountCents| < 10^12`. Read-only operations are functions of the tables. The
operations that save or delete are methods of `TransactionStore` and `UserStore`, whose
`Valid()` invariants are the primary key, fresh ids and, respectively, "every stored
transaction passes validation" and "no two users share a username or an email". Every
exception the services throw is an `Err` of `Errors.Error`, and every failing path leaves
the store unchanged.

## Model

| member | source | states |
|---|---|---|
| Enums.ValueOfName | src/main/java/com/rima/expenseflow/model/enums/Category.java:3-22 | `valueOf(c.name())` gives back `c` for each of the 15 categories |
| Enums.NameInjective | src/main/java/com/rima/expenseflow/model/enums/Category.java:3-22 | distinct categories have distinct names, so grouping by name is grouping by category |
| Enums.AllCategoriesListed | src/main/java/com/rima/expenseflow/model/enums/Category.java:3-22 | the list of constants holds every category |
| Enums.AllCategoriesDistinct | src/main/java/com/rima/expenseflow/model/enums/Category.java:3-22 | the list of constants holds each category once |
| Enums.ValueOf | src/main/java/com/rima/expenseflow/model/enums/Category.java:3-22 | `valueOf`: the constant whose name is given, or nothing for any other string; `ValueOfName` is its round trip with `name()` |
| Dates.IsLeapYear | src/main/java/com/rima/expenseflow/service/TransactionService.java:144 | the Gregorian rule: divisible by 4, and not by 100 unless by 400 |
| Dates.LengthOfMonth | src/main/java/com/rima/expenseflow/service/TransactionService.java:144 | a month has 28 to 31 days; 29 exactly for February of a Gregorian leap year, 28 exactly for February otherwise |
| Dates.StartOfMonth | src/main/java/com/rima/expenseflow/service/TransactionService.java:143 | `atDay(1)`: the first day of the month |
| Dates.EndOfMonth | src/main/java/com/rima/expenseflow/service/TransactionService.java:144 | `atEndOfMonth()`: the day numbered by the month's length |
| Dates.IsBetween | src/main/java/com/rima/expenseflow/repository/TransactionRepository.java:31-35 | SQL BETWEEN on dates: on or after the start and on or before the end, both included |
| Dates.MonthRange | src/main/java/com/rima/expenseflow/service/TransactionService.java:143-147 | a date lies between `atDay(1)` and `atEndOfMonth()`, both included, iff it has that year and month |
| Transactions.IsNotBlank | src/main/java/com/rima/expenseflow/model/Transaction.java:34 | @NotBlank: some character is left after trimming every character up to U+0020 |
| Transactions.FitsAmountDigits | src/main/java/com/rima/expenseflow/model/Transaction.java:30 | @Digits(integer = 10): fewer than 10^10 whole units, i.e. 10^12 cents, either way from zero |
| Transactions.Utf16Length | src/main/java/com/rima/expenseflow/model/Transaction.java:35 | the length @Size measures: at least the number of characters, at most twice it, and equal to it iff every character is in the Basic Multilingual Plane |
| Transactions.SupplementaryCountTwice | src/main/java/com/rima/expenseflow/model/Transaction.java:53 | characters outside the Basic Multilingual Plane count two units each |
| Transactions.ValidTransaction | src/main/java/com/rima/expenseflow/model/Transaction.java:28-55 | the entity's constraints: amount at least 0.01 and within 10 integer digits, description not blank and at most 200 UTF-16 units, notes absent or at most 500 units |
| Transactions.EmojiDescriptionTooLong | src/main/java/com/rima/expenseflow/model/Transaction.java:34-37 | 101 pizza emoji are 101 characters but 202 units, so the entity is invalid |
| Requests.ValidRequest | src/main/java/com/rima/expenseflow/dto/TransactionRequest.java:18-36 | the request's constraints: amount present and at least 0.01 (no digits limit), description present, not blank and at most 200 units, type, category and date present, notes absent or at most 500 units |
| TransactionRepository.FindById | src/main/java/com/rima/expenseflow/service/TransactionService.java:85-86 | returns a stored row with that id, and nothing iff no row has it |
| TransactionRepository.FindByUser | src/main/java/com/rima/expenseflow/repository/TransactionRepository.java:22 | a row is in the result iff it is stored and owned by the user |
| TransactionRepository.FindByUserAndType | src/main/java/com/rima/expenseflow/repository/TransactionRepository.java:25 | a row is in the result iff it is the user's and has that type |
| TransactionRepository.FindByUserAndCategory | src/main/java/com/rima/expenseflow/repository/TransactionRepository.java:28 | a row is in the result iff it is the user's and has that category |
| TransactionRepository.FindByUserAndTransactionDateBetween | src/main/java/com/rima/expenseflow/repository/TransactionRepository.java:31-35 | a row is in the result iff it is the user's and `start <= date <= end`, both bounds included |
| TransactionRepository.FindByUserAndTypeAndTransactionDateBetween | src/main/java/com/rima/expenseflow/repository/TransactionRepository.java:38-43 | a row is in the result iff it is the user's, has that type and lies in the inclusive range |
| TransactionRepository.SqlSum | src/main/java/com/rima/expenseflow/repository/TransactionRepository.java:46 | SQL SUM of the amounts: NULL over no rows, otherwise their exact sum |
| TransactionRepository.Coalesce | src/main/java/com/rima/expenseflow/repository/TransactionRepository.java:46 | SQL COALESCE: the value, or the fallback for NULL |
| TransactionRepository.SumAmountsAppend | src/main/java/com/rima/expenseflow/repository/TransactionRepository.java:46-51 | the sum of two row lists joined is the sum of their sums |
| TransactionRepository.CalculateTotalByUserAndType | src/main/java/com/rima/expenseflow/repository/TransactionRepository.java:46-51 | the `COALESCE(SUM(amount), 0)` query is the sum of the type finder's amounts, and 0 when the user has no row of the type |
| TransactionRepository.CalculateTotalByUserAndTypeAndDateRange | src/main/java/com/rima/expenseflow/repository/TransactionRepository.java:54-62 | the query is the sum of the type-and-range finder's amounts, and 0 when that finder returns nothing |
| TransactionRepository.Breakdown | src/main/java/com/rima/expenseflow/repository/TransactionRepository.java:65-67 | every row is a category with its sum; every category that occurs has a row; no category has two rows |
| TransactionRepository.GetCategoryBreakdown | src/main/java/com/rima/expenseflow/repository/TransactionRepository.java:65-71 | one row per category among the user's rows of the type, each holding that category's sum |
| TransactionRepository.BreakdownTotal | src/main/java/com/rima/expenseflow/repository/TransactionRepository.java:65-67 | the group sums add up to the sum of the rows in the listed categories |
| TransactionRepository.CategoryBreakdownAddsUp | src/main/java/com/rima/expenseflow/repository/TransactionRepository.java:65-71 | the breakdown rows add up to `calculateTotalByUserAndType` |
| UserRepository.FindById | src/main/java/com/rima/expenseflow/service/UserService.java:27 | returns a stored user with that id, and nothing iff no user has it |
| UserRepository.FindByUsername | src/main/java/com/rima/expenseflow/repository/UserRepository.java:12 | returns only a stored user with that username; empty iff `existsByUsername` is false |
| UserRepository.FindByEmail | src/main/java/com/rima/expenseflow/repository/UserRepository.java:13 | returns only a stored user with that email; empty iff `existsByEmail` is false |
| UserRepository.ExistsByUsername | src/main/java/com/rima/expenseflow/repository/UserRepository.java:14 | holds iff some stored user has that username |
| UserRepository.ExistsByEmail | src/main/java/com/rima/expenseflow/repository/UserRepository.java:15 | holds iff some stored user has that email |
| MonthlySummary.GroupByCategory | src/main/java/com/rima/expenseflow/service/TransactionService.java:159-171 | the grouping fold: each row adds its amount under its category's name, starting from zero; its keys and values are stated by `GroupByCategoryKeys` and `GroupByCategoryValue` |
| MonthlySummary.GroupByCategoryKeys | src/main/java/com/rima/expenseflow/service/TransactionService.java:159-164 | the map has a key exactly for each category name that occurs |
| MonthlySummary.GroupByCategoryTotal | src/main/java/com/rima/expenseflow/service/TransactionService.java:159-171 | the values of the grouped map add up to the sum of all amounts |
| MonthlySummary.GroupByCategoryValue | src/main/java/com/rima/expenseflow/service/TransactionService.java:159-171 | the value under a category's name is the sum of that category's amounts |
| MonthlySummary.Summarize | src/main/java/com/rima/expenseflow/service/TransactionService.java:149-181 | totals are the per-type sums; net is income minus expenses; count is the number of rows; each map is keyed by the category names that occur in that type |
| MonthlySummary.SummaryCategoriesAddUp | src/main/java/com/rima/expenseflow/service/TransactionService.java:159-171 | each per-category map adds up to its type's total |
| MonthlySummary.SummaryCategoryValues | src/main/java/com/rima/expenseflow/service/TransactionService.java:159-171 | each map entry is the sum of that type's rows of that category, whatever the category is |
| MonthlySummary.SummaryEmptyType | src/main/java/com/rima/expenseflow/service/TransactionService.java:149-157 | with no rows of a type, its total is 0 and its map is empty |
| MonthlySummary.MonthRangeSelectsMonth | src/main/java/com/rima/expenseflow/service/TransactionService.java:143-147 | filtering by the first-to-last-day range gives exactly the rows of that calendar month |
| TransactionService.CopyRequest | src/main/java/com/rima/expenseflow/service/TransactionService.java:39-46 | the entity carries the request's six fields, the given id and owner; it exists iff no required field is null |
| TransactionService.RequestToEntity | src/main/java/com/rima/expenseflow/model/Transaction.java:28-55 | a copied request is a valid entity iff the request is valid and its amount fits 10 integer digits |
| TransactionService.OversizedAmountPassesOnlyTheRequest | src/main/java/com/rima/expenseflow/model/Transaction.java:30-32 | an amount of 10^10 passes the request's rules and fails the entity's |
| TransactionService.MapToResponse | src/main/java/com/rima/expenseflow/service/TransactionService.java:185-199 | the response repeats the row's fields, its owner's id and the owner's username |
| TransactionService.ResolveOwned | src/main/java/com/rima/expenseflow/service/TransactionService.java:85-91 | UserNotFound iff the user is absent; TransactionNotFound iff the user is present and owns no row with that id, whether the row is absent or another user's; otherwise the index of the caller's row |
| TransactionService.GetTransactionById | src/main/java/com/rima/expenseflow/service/TransactionService.java:81-94 | the same two errors under the same conditions; on success the response describes the stored row and carries the caller's id |
| TransactionService.ResponsePage | src/main/java/com/rima/expenseflow/service/TransactionService.java:77 | fails with a null dereference iff some entry is null; otherwise one response per entry, in order |
| TransactionService.MaskCategory | src/main/java/com/rima/expenseflow/service/TransactionService.java:66-68 | same length as the type page; a row of another category becomes null |
| TransactionService.MaskKeepsCategory | src/main/java/com/rima/expenseflow/service/TransactionService.java:66-67 | the entries the mask keeps are exactly the type page's rows of that category, in order |
| TransactionService.MaskHasNoNull | src/main/java/com/rima/expenseflow/service/TransactionService.java:66-67 | the masked page has no null iff the category filter would keep the whole type page |
| TransactionService.Page | src/main/java/com/rima/expenseflow/service/TransactionService.java:62-75 | the four branches: masked type page for both filters, else the type, category or owner finder's rows, all present |
| TransactionService.GetTransactions | src/main/java/com/rima/expenseflow/service/TransactionService.java:53-78 | UserNotFound iff the user is absent; every response carries the caller's id |
| TransactionService.ListingWithOneFilter | src/main/java/com/rima/expenseflow/service/TransactionService.java:69-75 | with at most one filter, the listing succeeds and lists exactly the matching finder's rows, in order |
| TransactionService.CombinedFilterAsWritten | src/main/java/com/rima/expenseflow/service/TransactionService.java:64-68 | with both filters, the listing succeeds iff every one of the caller's rows of that type has that category, and then lists exactly the type page's rows, in order; otherwise it is a null dereference |
| TransactionService.CombinedFilterCounterexample | src/main/java/com/rima/expenseflow/service/TransactionService.java:64-68 | a FOOD and a TRAVEL expense, filtered by EXPENSE and FOOD: the code throws, the intended listing returns the FOOD row |
| TransactionService.GetTransactionsIntended | src/main/java/com/rima/expenseflow/service/TransactionService.java:64-68 | the corrected listing: UserNotFound iff the user is absent; every response carries the caller's id |
| TransactionService.CombinedFilterIntended | src/main/java/com/rima/expenseflow/service/TransactionService.java:64-68 | with both filters, the corrected listing succeeds and lists exactly the caller's rows matching type and category |
| TransactionService.IntendedAgreesWithOneFilter | src/main/java/com/rima/expenseflow/service/TransactionService.java:69-75 | with at most one filter, the corrected listing is the listing as written |
| TransactionService.GetMonthlySummary | src/main/java/com/rima/expenseflow/service/TransactionService.java:139-182 | UserNotFound iff the user is absent; net is income minus expenses; the totals equal the SUM queries over the same user, type and month range |
| TransactionService.MonthlySummaryOfCaller | src/main/java/com/rima/expenseflow/service/TransactionService.java:143-180 | count and totals are taken over exactly the caller's rows dated in the month; each category map adds up to its total |
| TransactionService.SummaryExample | src/main/java/com/rima/expenseflow/service/TransactionService.java:139-182 | a 50.00 FOOD expense and a 1000.00 SALARY income give 1000.00 / 50.00 / 950.00, one key per map, and a count of 2 |
| TransactionService.TransactionStore.CreateTransaction | src/main/java/com/rima/expenseflow/service/TransactionService.java:35-50 | UserNotFound for an absent caller; ConstraintViolation for an invalid entity; otherwise exactly one row is appended, with the next id, the caller as owner and the request's fields; failures change nothing |
| TransactionService.TransactionStore.UpdateTransaction | src/main/java/com/rima/expenseflow/service/TransactionService.java:96-121 | the ownership errors of `ResolveOwned` or ConstraintViolation with nothing changed; otherwise only that row's six data fields change, its id and owner and all other rows stay |
| TransactionService.TransactionStore.DeleteTransaction | src/main/java/com/rima/expenseflow/service/TransactionService.java:123-136 | the ownership errors with nothing changed; otherwise exactly the row with that id is removed |
| TransactionService.RemoveKey | src/main/java/com/rima/expenseflow/service/TransactionService.java:135 | removing one row keeps the key order and removes exactly the rows with its id |
| UserService.GetUserById | src/main/java/com/rima/expenseflow/service/UserService.java:26-29 | the stored user with that id, or UserNotFound iff there is none |
| UserService.GetUserByUsername | src/main/java/com/rima/expenseflow/service/UserService.java:79-82 | a stored user with that username, or UsernameNotFound iff there is none |
| UserService.UsernameIdentifiesUser | src/main/java/com/rima/expenseflow/service/UserService.java:79-82 | with unique usernames, the lookup by a user's username returns that user, and so does the lookup by its id |
| UserService.UserStore.CreateUser | src/main/java/com/rima/expenseflow/service/UserService.java:31-45 | Duplicate("username") if the username is taken, checked first; else Duplicate("email") if the email is taken; both leave the table unchanged; otherwise one user is appended with the next id and the encoded password; usernames and emails stay unique |
| UserService.UserStore.UpdateUser | src/main/java/com/rima/expenseflow/service/UserService.java:47-72 | UserNotFound for an absent id; Duplicate only for a username or email that changes and is taken, with nothing changed; otherwise the four profile fields are overwritten, the password is re-encoded only when a new one is given, and no other user changes; uniqueness is kept |
| UserService.UserStore.DeleteUser | src/main/java/com/rima/expenseflow/service/UserService.java:74-77 | UserNotFound for an absent id; otherwise exactly that user is removed |
| UserService.RemoveUser | src/main/java/com/rima/expenseflow/service/UserService.java:76 | removing one user keeps the key order and unique logins and removes exactly that user |

## Left out

- Pagination and sort: a listing is the whole query result in primary-key order, as one page.
- `createdAt` and `updatedAt` are set by Hibernate from the clock and are not modelled; responses omit them.
- Lazy loading, `@Transactional` boundaries and isolation: the model has no concurrency.
- The controllers, JWT authentication and the default month `YearMonth.now()`: requests arrive as parameters, and the month is one of them.
- `passwordEncoder.encode` is an uninterpreted function (`UserStore.encode`); hashing is not modelled.
- String lengths under @Size are UTF-16 code units (`Utf16Length`); strings are sequences of Unicode scalar values, so a lone surrogate, which a Java string can hold, cannot be written.
- `BigDecimal` scale and formatting: an amount with more than two decimals cannot be written in cents, so the fraction half of `@Digits` is never violated in the model.
- A null password and an empty one are both the empty string in `UserDetails`; the update treats them alike. `createUser` encodes whatever it is given.
- `getAllUsers` returns the table as it is; in the model that is the `users` field itself.
- The user entity's own constraints are not part of this model (its source file is not part of it); the only rules on users are the service's uniqueness checks.
- Deleting a user who still owns transactions: the outcome depends on a foreign key whose definition is not part of this model. `TransactionStore` takes the user table as a parameter and does not react to user deletion.
- `TransactionStore` keeps transactions as a sequence in id order rather than a map from id to record; the primary key is the `IdsAscending` invariant.
- Only the first failing check is reported; the bean-validation exception is `ConstraintViolation`, without its list of violated fields.
- TransactionService.GetTransactions: its own contract states only the error case and the owner of each response; the content of each listing is stated by `ListingWithOneFilter` and `CombinedFilterAsWritten`.
- TransactionService.GetTransactionsIntended: its own contract states only the error case and the owner of each response; the content is stated by `CombinedFilterIntended` for both filters and by `IntendedAgreesWithOneFilter` otherwise.

## Findings

| source | as written | input that shows it | evidently intended | confidence | as-written member | corrected member |
|---|---|---|---|---|---|---|
| src/main/java/com/rima/expenseflow/service/TransactionService.java:64-68 | with both a type and a category, rows of the type but of another category are replaced by `null`, and `mapToResponse` then dereferences the null (line 187) | a user with a FOOD expense and a TRAVEL expense lists with type EXPENSE and category FOOD | the caller's rows of that type and that category | high; not executed | TransactionService.CombinedFilterCounterexample | TransactionService.CombinedFilterIntended |
