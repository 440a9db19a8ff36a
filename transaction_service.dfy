/** TransactionService: every operation first resolves the calling user, then (for a single
    transaction) the row, and refuses rows owned by someone else with the same NotFound an
    absent row gets. Reads are functions of the two tables; create, update and delete are
    methods of TransactionStore, which owns the transaction table. */
module TransactionService {
  import opened Wrappers
  import opened Enums
  import opened Dates
  import opened Users
  import opened Transactions
  import opened Requests
  import opened Responses
  import opened Errors
  import opened TransactionRepository
  import UserRepository
  import opened MonthlySummary

  /** The row holds exactly the request's six data fields. */
  predicate CarriesRequest(t: Transaction, request: TransactionRequest) {
    && request.amountCents == Some(t.amountCents)
    && request.description == Some(t.description)
    && request.transactionType == Some(t.transactionType)
    && request.category == Some(t.category)
    && request.transactionDate == Some(t.transactionDate)
    && request.notes == t.notes
  }

  /** The six setters (amount, description, type, category, date, notes) applied to an
      entity with the given id and owner. None when the request leaves a NOT NULL field
      null, which the save rejects. */
  function CopyRequest(id: TransactionId, owner: UserId, request: TransactionRequest): (t: Option<Transaction>)
    ensures t.Some? <==>
      && request.amountCents.Some? && request.description.Some?
      && request.transactionType.Some? && request.category.Some?
      && request.transactionDate.Some?
    ensures t.Some? ==> t.value.id == id && t.value.owner == owner && CarriesRequest(t.value, request)
  {
    if && request.amountCents.Some? && request.description.Some?
       && request.transactionType.Some? && request.category.Some?
       && request.transactionDate.Some?
    then
      Some(Transaction(
        id,
        request.amountCents.value,
        request.description.value,
        request.transactionType.value,
        request.category.value,
        request.transactionDate.value,
        request.notes,
        owner))
    else None
  }

  /** A request copied into an entity passes the entity's validation exactly when the
      request is valid and its amount also fits 10 integer digits: the request carries no
      @Digits constraint. */
  lemma RequestToEntity(request: TransactionRequest, id: TransactionId, owner: UserId)
    ensures (CopyRequest(id, owner, request).Some? && ValidTransaction(CopyRequest(id, owner, request).value))
      <==> ValidRequest(request) && FitsAmountDigits(request.amountCents.value)
  {
  }

  /** The gap is real: 10^10 units passes the request's rules but not the entity's. */
  lemma OversizedAmountPassesOnlyTheRequest()
    ensures var request := TransactionRequest(
      Some(AmountCentsLimit), Some("rent"), Some(Expense), Some(Housing), Some(Ymd(2024, 2, 29)), None);
      && ValidRequest(request)
      && CopyRequest(1, 1, request).Some?
      && !ValidTransaction(CopyRequest(1, 1, request).value)
  {
    var request := TransactionRequest(
      Some(AmountCentsLimit), Some("rent"), Some(Expense), Some(Housing), Some(Ymd(2024, 2, 29)), None);
    assert "rent"[0] > ' ';
  }

  /** The response lists the row's fields, its owner's id and the owner's username. */
  predicate Describes(response: TransactionResponse, t: Transaction, owner: User) {
    && response.id == t.id
    && response.amountCents == t.amountCents
    && response.description == t.description
    && response.transactionType == t.transactionType
    && response.category == t.category
    && response.transactionDate == t.transactionDate
    && response.notes == t.notes
    && response.userId == t.owner
    && response.username == owner.username
  }

  /** `mapToResponse`; `owner` is the entity that `transaction.getUser()` returns. */
  function MapToResponse(t: Transaction, owner: User): (r: TransactionResponse)
    requires owner.id == t.owner
    ensures Describes(r, t, owner) && r.userId == owner.id
  {
    TransactionResponse(
      t.id, t.amountCents, t.description, t.transactionType, t.category,
      t.transactionDate, t.notes, t.owner, owner.username)
  }

  /** The user owns a row with that id. */
  predicate Owns(rows: seq<Transaction>, userId: UserId, transactionId: TransactionId) {
    exists t :: t in rows && t.id == transactionId && t.owner == userId
  }

  /** The check shared by get, update and delete: resolve the user, then the row, then
      compare owners. An absent row and another user's row give the same error. */
  function ResolveOwned(users: seq<User>, rows: seq<Transaction>, userId: UserId, transactionId: TransactionId)
    : (r: Result<(User, nat), Error>)
    requires IdsAscending(rows)
    ensures r == Err(UserNotFound(userId)) <==> UserRepository.FindById(users, userId).None?
    ensures r == Err(TransactionNotFound(transactionId)) <==>
      UserRepository.FindById(users, userId).Some? && !Owns(rows, userId, transactionId)
    ensures r.Err? ==> r.error in {UserNotFound(userId), TransactionNotFound(transactionId)}
    ensures r.Ok? ==>
      && Some(r.value.0) == UserRepository.FindById(users, userId)
      && r.value.1 < |rows|
      && rows[r.value.1].id == transactionId
      && rows[r.value.1].owner == userId
  {
    match UserRepository.FindById(users, userId)
    case None => Err(UserNotFound(userId))
    case Some(user) =>
      match IndexOf(rows, transactionId)
      case None => Err(TransactionNotFound(transactionId))
      case Some(i) =>
        if rows[i].owner != user.id then
          assert forall t :: t in rows && t.id == transactionId ==> t == rows[i];
          Err(TransactionNotFound(transactionId))
        else Ok((user, i))
  }

  /** `getTransactionById`. */
  function GetTransactionById(users: seq<User>, rows: seq<Transaction>, userId: UserId, transactionId: TransactionId)
    : (r: Result<TransactionResponse, Error>)
    requires IdsAscending(rows)
    ensures r == Err(UserNotFound(userId)) <==> UserRepository.FindById(users, userId).None?
    ensures r == Err(TransactionNotFound(transactionId)) <==>
      UserRepository.FindById(users, userId).Some? && !Owns(rows, userId, transactionId)
    ensures r.Ok? ==>
      && UserRepository.FindById(users, userId).Some?
      && FindById(rows, transactionId).Some?
      && Describes(r.value, FindById(rows, transactionId).value, UserRepository.FindById(users, userId).value)
      && r.value.userId == userId
  {
    match ResolveOwned(users, rows, userId, transactionId)
    case Err(e) => Err(e)
    case Ok((user, i)) =>
      IndexOfKey(rows, i);
      Ok(MapToResponse(rows[i], user))
  }

  // ---- getTransactions ----

  /** The page of a type-only, category-only or unfiltered query: every entry present. */
  function AllPresent(ts: seq<Transaction>): (page: seq<Option<Transaction>>)
    ensures |page| == |ts| && forall i :: 0 <= i < |ts| ==> page[i] == Some(ts[i])
  {
    seq(|ts|, i requires 0 <= i < |ts| => Some(ts[i]))
  }

  /** The second step of the combined filter: each row of the type page is kept when its
      category is the requested one and replaced by null otherwise. */
  function MaskCategory(ts: seq<Transaction>, c: Category): (page: seq<Option<Transaction>>)
    ensures |page| == |ts|
    ensures forall i :: 0 <= i < |ts| ==> page[i] == if ts[i].category == c then Some(ts[i]) else None
  {
    seq(|ts|, i requires 0 <= i < |ts| => if ts[i].category == c then Some(ts[i]) else None)
  }

  /** The entries of a page that are not null, in order. */
  function Present(page: seq<Option<Transaction>>): seq<Transaction> {
    if page == [] then []
    else (if page[0].Some? then [page[0].value] else []) + Present(page[1..])
  }

  /** The rows the mask keeps are exactly the rows of that category, in order. */
  lemma {:induction false} MaskKeepsCategory(ts: seq<Transaction>, c: Category)
    ensures Present(MaskCategory(ts, c)) == WithCategory(ts, c)
  {
    if ts != [] {
      assert MaskCategory(ts, c)[1..] == MaskCategory(ts[1..], c);
      MaskKeepsCategory(ts[1..], c);
    }
  }

  /** The masked page has no null iff every row of the type page has that category, that
      is, iff the intended intersection is the whole type page. */
  lemma MaskHasNoNull(ts: seq<Transaction>, c: Category)
    ensures (forall i :: 0 <= i < |ts| ==> MaskCategory(ts, c)[i].Some?) <==> WithCategory(ts, c) == ts
  {
    if forall i :: 0 <= i < |ts| ==> MaskCategory(ts, c)[i].Some? {
      forall t | t in ts
        ensures t.category == c
      {
        var i :| 0 <= i < |ts| && ts[i] == t;
        assert MaskCategory(ts, c)[i].Some?;
      }
      WithCategoryAll(ts, c);
    }
    if WithCategory(ts, c) == ts {
      forall i | 0 <= i < |ts|
        ensures MaskCategory(ts, c)[i].Some?
      {
        assert ts[i] in WithCategory(ts, c);
      }
    }
  }

  /** Filtering by a category every row already has changes nothing. */
  lemma {:induction false} WithCategoryAll(ts: seq<Transaction>, c: Category)
    requires forall t :: t in ts ==> t.category == c
    ensures WithCategory(ts, c) == ts
  {
    if ts != [] {
      assert ts == [ts[0]] + ts[1..];
      WithCategoryAll(ts[1..], c);
    }
  }

  /** The page the four branches of getTransactions build, before mapping to responses. */
  function Page(rows: seq<Transaction>, userId: UserId, ty: Option<TransactionType>, category: Option<Category>)
    : seq<Option<Transaction>>
  {
    if ty.Some? && category.Some? then MaskCategory(FindByUserAndType(rows, userId, ty.value), category.value)
    else if ty.Some? then AllPresent(FindByUserAndType(rows, userId, ty.value))
    else if category.Some? then AllPresent(FindByUserAndCategory(rows, userId, category.value))
    else AllPresent(FindByUser(rows, userId))
  }

  /** The final step of getTransactions: every entry of the page goes through
      mapToResponse, which throws on a null entry. */
  function ResponsePage(page: seq<Option<Transaction>>, owner: User): (r: Result<seq<TransactionResponse>, Error>)
    requires forall i :: 0 <= i < |page| && page[i].Some? ==> page[i].value.owner == owner.id
    ensures r.Err? <==> exists i :: 0 <= i < |page| && page[i].None?
    ensures r.Err? ==> r.error == NullDereference
    ensures r.Ok? ==> (|r.value| == |page| &&
      forall i :: 0 <= i < |page| ==> page[i].Some? && Describes(r.value[i], page[i].value, owner))
  {
    if page == [] then Ok([])
    else match page[0]
      case None => Err(NullDereference)
      case Some(t) =>
        match ResponsePage(page[1..], owner)
        case Err(e) =>
          assert forall i :: 0 <= i < |page[1..]| ==> page[1..][i] == page[i + 1];
          Err(e)
        case Ok(rest) =>
          var r := [MapToResponse(t, owner)] + rest;
          assert forall i :: 1 <= i < |page| ==> page[i] == page[1..][i - 1] && r[i] == rest[i - 1];
          Ok(r)
  }

  /** `getTransactions` as written, without paging: the whole query result is one page. */
  function GetTransactions(
    users: seq<User>, rows: seq<Transaction>, userId: UserId,
    ty: Option<TransactionType>, category: Option<Category>)
    : (r: Result<seq<TransactionResponse>, Error>)
    ensures r == Err(UserNotFound(userId)) <==> UserRepository.FindById(users, userId).None?
    ensures r.Ok? ==> forall i :: 0 <= i < |r.value| ==> r.value[i].userId == userId
  {
    match UserRepository.FindById(users, userId)
    case None => Err(UserNotFound(userId))
    case Some(user) =>
      var page := Page(rows, user.id, ty, category);
      assert forall i :: 0 <= i < |page| && page[i].Some? ==> page[i].value in rows && page[i].value.owner == user.id;
      ResponsePage(page, user)
  }

  /** The response lists exactly the rows of `ts`, in order. */
  predicate ListsExactly(responses: seq<TransactionResponse>, ts: seq<Transaction>, owner: User) {
    |responses| == |ts| && forall i :: 0 <= i < |ts| ==> Describes(responses[i], ts[i], owner)
  }

  /** With at most one filter, the listing is the matching finder's result: the caller's
      rows of that type, of that category, or all of them. */
  lemma ListingWithOneFilter(
    users: seq<User>, rows: seq<Transaction>, userId: UserId,
    ty: Option<TransactionType>, category: Option<Category>)
    requires UserRepository.FindById(users, userId).Some?
    requires ty.None? || category.None?
    ensures var r := GetTransactions(users, rows, userId, ty, category);
      var user := UserRepository.FindById(users, userId).value;
      && r.Ok?
      && (ty.Some? ==> ListsExactly(r.value, FindByUserAndType(rows, userId, ty.value), user))
      && (category.Some? ==> ListsExactly(r.value, FindByUserAndCategory(rows, userId, category.value), user))
      && (ty.None? && category.None? ==> ListsExactly(r.value, FindByUser(rows, userId), user))
  {
  }

  /** With both filters, the listing is built from the caller's rows of that type, each
      row of another category replaced by null. It succeeds only when there is no such
      row, and then it has the length of the type-only result; otherwise mapToResponse
      dereferences the null. */
  lemma CombinedFilterAsWritten(
    users: seq<User>, rows: seq<Transaction>, userId: UserId, ty: TransactionType, category: Category)
    requires UserRepository.FindById(users, userId).Some?
    ensures var r := GetTransactions(users, rows, userId, Some(ty), Some(category));
      && (r.Ok? <==> forall t :: t in rows && t.owner == userId && t.transactionType == ty ==> t.category == category)
      && (r.Err? ==> r.error == NullDereference)
      && (r.Ok? ==> |r.value| == |FindByUserAndType(rows, userId, ty)|)
      && (r.Ok? ==> ListsExactly(r.value, FindByUserAndType(rows, userId, ty), UserRepository.FindById(users, userId).value))
  {
    var user := UserRepository.FindById(users, userId).value;
    var ts := FindByUserAndType(rows, userId, ty);
    var page := MaskCategory(ts, category);
    var r := GetTransactions(users, rows, userId, Some(ty), Some(category));
    assert r == ResponsePage(page, user);
    if exists t :: t in rows && t.owner == userId && t.transactionType == ty && t.category != category {
      var t :| t in rows && t.owner == userId && t.transactionType == ty && t.category != category;
      assert t in ts;
      var i :| 0 <= i < |ts| && ts[i] == t;
      assert page[i].None?;
    } else {
      assert forall i :: 0 <= i < |ts| ==> ts[i] in ts && page[i] == Some(ts[i]);
      assert ListsExactly(r.value, ts, user);
    }
  }

  /** The intended listing with both filters: the rows matching type and category. */
  function GetTransactionsIntended(
    users: seq<User>, rows: seq<Transaction>, userId: UserId,
    ty: Option<TransactionType>, category: Option<Category>)
    : (r: Result<seq<TransactionResponse>, Error>)
    ensures r == Err(UserNotFound(userId)) <==> UserRepository.FindById(users, userId).None?
    ensures r.Err? ==> r.error == UserNotFound(userId)
    ensures r.Ok? ==> forall i :: 0 <= i < |r.value| ==> r.value[i].userId == userId
  {
    match UserRepository.FindById(users, userId)
    case None => Err(UserNotFound(userId))
    case Some(user) =>
      var page :=
        if ty.Some? && category.Some? then AllPresent(WithCategory(FindByUserAndType(rows, user.id, ty.value), category.value))
        else Page(rows, user.id, ty, category);
      assert forall i :: 0 <= i < |page| ==> page[i].Some? && page[i].value in rows && page[i].value.owner == user.id;
      ResponsePage(page, user)
  }

  /** With both filters the intended listing holds exactly the caller's rows matching
      both, in table order. */
  lemma CombinedFilterIntended(
    users: seq<User>, rows: seq<Transaction>, userId: UserId, ty: TransactionType, category: Category)
    requires UserRepository.FindById(users, userId).Some?
    ensures var r := GetTransactionsIntended(users, rows, userId, Some(ty), Some(category));
      var ts := WithCategory(FindByUserAndType(rows, userId, ty), category);
      && r.Ok?
      && ListsExactly(r.value, ts, UserRepository.FindById(users, userId).value)
      && (forall t :: t in ts <==> t in rows && t.owner == userId && t.transactionType == ty && t.category == category)
  {
  }

  /** With at most one filter the corrected listing is the listing as written. */
  lemma IntendedAgreesWithOneFilter(
    users: seq<User>, rows: seq<Transaction>, userId: UserId,
    ty: Option<TransactionType>, category: Option<Category>)
    requires ty.None? || category.None?
    ensures GetTransactionsIntended(users, rows, userId, ty, category)
      == GetTransactions(users, rows, userId, ty, category)
  {
  }

  /** A user with one FOOD and one TRAVEL expense asks for EXPENSE and FOOD: the code as
      written throws, the intended listing returns the FOOD row. */
  lemma CombinedFilterCounterexample()
    ensures var alice := User(1, "alice", "alice@example.com", "hash", "Alice", "Doe");
      var food := Transaction(1, 5000, "lunch", Expense, Food, Ymd(2024, 3, 4), None, 1);
      var trip := Transaction(2, 20000, "train", Expense, Travel, Ymd(2024, 3, 5), None, 1);
      && GetTransactions([alice], [food, trip], 1, Some(Expense), Some(Food)) == Err(NullDereference)
      && GetTransactionsIntended([alice], [food, trip], 1, Some(Expense), Some(Food))
           == Ok([MapToResponse(food, alice)])
  {
    var alice := User(1, "alice", "alice@example.com", "hash", "Alice", "Doe");
    var food := Transaction(1, 5000, "lunch", Expense, Food, Ymd(2024, 3, 4), None, 1);
    var trip := Transaction(2, 20000, "train", Expense, Travel, Ymd(2024, 3, 5), None, 1);
    assert UserRepository.FindById([alice], 1) == Some(alice);
    var ts := FindByUserAndType([food, trip], 1, Expense);
    TwoRowFilters(food, trip);
    assert ts == [food, trip];
    assert MaskCategory(ts, Food)[1] == None;
    var intended := ResponsePage(AllPresent([food]), alice);
    assert intended.Ok? && |intended.value| == 1;
    assert intended.value[0] == MapToResponse(food, alice);
    assert intended.value == [MapToResponse(food, alice)];
  }

  /** The finders on a two-row table whose rows are both the first user's FOOD and
      TRAVEL expenses. */
  lemma TwoRowFilters(food: Transaction, trip: Transaction)
    requires food.owner == 1 && food.transactionType == Expense && food.category == Food
    requires trip.owner == 1 && trip.transactionType == Expense && trip.category == Travel
    ensures FindByUserAndType([food, trip], 1, Expense) == [food, trip]
    ensures WithCategory([food, trip], Food) == [food]
  {
    assert [food, trip][1..] == [trip];
    assert [trip][1..] == [];
    assert FindByUser([food, trip], 1) == [food, trip];
    assert WithType([food, trip], Expense) == [food, trip];
  }

  // ---- getMonthlySummary ----

  /** `getMonthlySummary`. */
  function GetMonthlySummary(users: seq<User>, rows: seq<Transaction>, userId: UserId, month: YearMonth)
    : (r: Result<MonthlySummaryResponse, Error>)
    ensures r.Err? <==> UserRepository.FindById(users, userId).None?
    ensures r.Err? ==> r.error == UserNotFound(userId)
    ensures r.Ok? ==> r.value.month == month && r.value.netSavings == r.value.totalIncome - r.value.totalExpenses
    ensures r.Ok? ==> (r.value.totalIncome
      == CalculateTotalByUserAndTypeAndDateRange(rows, userId, Income, StartOfMonth(month), EndOfMonth(month)))
    ensures r.Ok? ==> (r.value.totalExpenses
      == CalculateTotalByUserAndTypeAndDateRange(rows, userId, Expense, StartOfMonth(month), EndOfMonth(month)))
  {
    match UserRepository.FindById(users, userId)
    case None => Err(UserNotFound(userId))
    case Some(user) =>
      var ts := FindByUserAndTransactionDateBetween(rows, user.id, StartOfMonth(month), EndOfMonth(month));
      Ok(Summarize(ts, month))
  }

  /** The summary covers exactly the caller's rows dated in the month: their count, their
      per-type sums, and per-category maps that add up to those sums. */
  lemma MonthlySummaryOfCaller(users: seq<User>, rows: seq<Transaction>, userId: UserId, month: YearMonth)
    requires UserRepository.FindById(users, userId).Some?
    ensures var r := GetMonthlySummary(users, rows, userId, month);
      var mine := InMonth(FindByUser(rows, userId), month);
      && r.Ok?
      && r.value.totalTransactions == |mine|
      && r.value.totalIncome == SumAmounts(WithType(mine, Income))
      && r.value.totalExpenses == SumAmounts(WithType(mine, Expense))
      && MapSum(r.value.incomeByCategory) == r.value.totalIncome
      && MapSum(r.value.expensesByCategory) == r.value.totalExpenses
  {
    MonthRangeSelectsMonth(FindByUser(rows, userId), month);
    var ts := FindByUserAndTransactionDateBetween(rows, userId, StartOfMonth(month), EndOfMonth(month));
    SummaryCategoriesAddUp(ts, month);
  }

  /** One FOOD expense of 50.00 and one SALARY income of 1000.00 in the month. */
  lemma SummaryExample()
    ensures var alice := User(1, "alice", "alice@example.com", "hash", "Alice", "Doe");
      var food := Transaction(1, 5000, "groceries", Expense, Food, Ymd(2024, 2, 29), None, 1);
      var pay := Transaction(2, 100000, "salary", Income, Salary, Ymd(2024, 2, 1), None, 1);
      GetMonthlySummary([alice], [food, pay], 1, YearMonth(2024, 2))
        == Ok(MonthlySummaryResponse(
             YearMonth(2024, 2), 100000, 5000, 95000,
             map["FOOD" := 5000], map["SALARY" := 100000], 2))
  {
    var alice := User(1, "alice", "alice@example.com", "hash", "Alice", "Doe");
    var food := Transaction(1, 5000, "groceries", Expense, Food, Ymd(2024, 2, 29), None, 1);
    var pay := Transaction(2, 100000, "salary", Income, Salary, Ymd(2024, 2, 1), None, 1);
    var month := YearMonth(2024, 2);
    assert UserRepository.FindById([alice], 1) == Some(alice);
    assert [food, pay][1..] == [pay];
    assert [pay][1..] == [];
    assert FindByUser([food, pay], 1) == [food, pay];
    MonthRange(food.transactionDate, month);
    MonthRange(pay.transactionDate, month);
    var ts := FindByUserAndTransactionDateBetween([food, pay], 1, StartOfMonth(month), EndOfMonth(month));
    assert ts == [food, pay];
    assert WithType(ts, Income) == [pay];
    assert WithType(ts, Expense) == [food];
    OneRowGroup(pay);
    OneRowGroup(food);
  }

  /** Grouping a single row gives one entry, its category's name mapped to its amount. */
  lemma OneRowGroup(t: Transaction)
    ensures GroupByCategory([t]) == map[t.category.Name() := t.amountCents]
    ensures SumAmounts([t]) == t.amountCents
  {
    assert [t][1..] == [];
  }

  // ---- create, update, delete ----

  /** The service together with the transaction table it writes through the repository. */
  class TransactionStore {
    /** The transactions table in primary-key order. */
    var rows: seq<Transaction>
    /** The next value of the IDENTITY column. */
    var nextId: TransactionId

    /** Primary key, fresh ids above every stored one, and every stored row valid (the
        entity is validated whenever it is saved). */
    ghost predicate Valid()
      reads this
    {
      && IdsAscending(rows)
      && (forall i :: 0 <= i < |rows| ==> rows[i].id < nextId)
      && (forall i :: 0 <= i < |rows| ==> ValidTransaction(rows[i]))
    }

    constructor ()
      ensures Valid() && rows == [] && nextId == 1
    {
      rows := [];
      nextId := 1;
    }

    /** `createTransaction`: the caller is stamped as owner and the request's six fields
        are copied; the save assigns the next id and validates the entity. */
    method CreateTransaction(users: seq<User>, userId: UserId, request: TransactionRequest)
      returns (r: Result<TransactionResponse, Error>)
      requires Valid()
      modifies this
      ensures Valid()
      ensures UserRepository.FindById(users, userId).None? ==>
        r == Err(UserNotFound(userId)) && rows == old(rows) && nextId == old(nextId)
      ensures UserRepository.FindById(users, userId).Some? ==>
        var t := CopyRequest(old(nextId), userId, request);
        if t.Some? && ValidTransaction(t.value) then
          && rows == old(rows) + [t.value]
          && nextId == old(nextId) + 1
          && r == Ok(MapToResponse(t.value, UserRepository.FindById(users, userId).value))
        else
          r == Err(ConstraintViolation) && rows == old(rows) && nextId == old(nextId)
      ensures r.Ok? ==>
        && |rows| == |old(rows)| + 1
        && rows[|rows| - 1].owner == userId
        && CarriesRequest(rows[|rows| - 1], request)
        && r.value.userId == userId
        && r.value.id == rows[|rows| - 1].id
    {
      var user := UserRepository.FindById(users, userId);
      if user.None? {
        return Err(UserNotFound(userId));
      }
      var t := CopyRequest(nextId, user.value.id, request);
      if t.None? || !ValidTransaction(t.value) {
        return Err(ConstraintViolation);
      }
      rows := rows + [t.value];
      nextId := nextId + 1;
      r := Ok(MapToResponse(t.value, user.value));
    }

    /** `updateTransaction`: after the ownership check, exactly the six data fields of that
        row are overwritten; its id and owner and every other row stay as they were. */
    method UpdateTransaction(users: seq<User>, userId: UserId, transactionId: TransactionId, request: TransactionRequest)
      returns (r: Result<TransactionResponse, Error>)
      requires Valid()
      modifies this
      ensures Valid() && nextId == old(nextId)
      ensures ResolveOwned(users, old(rows), userId, transactionId).Err? ==>
        r == Err(ResolveOwned(users, old(rows), userId, transactionId).error) && rows == old(rows)
      ensures ResolveOwned(users, old(rows), userId, transactionId).Ok? ==>
        var (user, i) := ResolveOwned(users, old(rows), userId, transactionId).value;
        var t := CopyRequest(transactionId, userId, request);
        if t.Some? && ValidTransaction(t.value) then
          rows == old(rows)[i := t.value] && r == Ok(MapToResponse(t.value, user))
        else
          r == Err(ConstraintViolation) && rows == old(rows)
      ensures r.Ok? ==> |rows| == |old(rows)| && forall i :: 0 <= i < |rows| ==>
        && rows[i].id == old(rows)[i].id
        && rows[i].owner == old(rows)[i].owner
        && (rows[i].id == transactionId ==> CarriesRequest(rows[i], request))
        && (rows[i].id != transactionId ==> rows[i] == old(rows)[i])
    {
      var found := ResolveOwned(users, rows, userId, transactionId);
      if found.Err? {
        return Err(found.error);
      }
      var (user, i) := found.value;
      var t := CopyRequest(rows[i].id, rows[i].owner, request);
      if t.None? || !ValidTransaction(t.value) {
        return Err(ConstraintViolation);
      }
      rows := rows[i := t.value];
      r := Ok(MapToResponse(t.value, user));
    }

    /** `deleteTransaction`: after the ownership check, exactly that row is removed. */
    method DeleteTransaction(users: seq<User>, userId: UserId, transactionId: TransactionId)
      returns (r: Result<(), Error>)
      requires Valid()
      modifies this
      ensures Valid() && nextId == old(nextId)
      ensures ResolveOwned(users, old(rows), userId, transactionId).Err? ==>
        r == Err(ResolveOwned(users, old(rows), userId, transactionId).error) && rows == old(rows)
      ensures ResolveOwned(users, old(rows), userId, transactionId).Ok? ==>
        var i := ResolveOwned(users, old(rows), userId, transactionId).value.1;
        r == Ok(()) && rows == old(rows)[..i] + old(rows)[i + 1..]
      ensures r.Ok? ==>
        && |rows| == |old(rows)| - 1
        && forall t :: t in rows <==> t in old(rows) && t.id != transactionId
    {
      var found := ResolveOwned(users, rows, userId, transactionId);
      if found.Err? {
        return Err(found.error);
      }
      var i := found.value.1;
      ghost var before := rows;
      rows := rows[..i] + rows[i + 1..];
      RemoveKey(before, i);
      r := Ok(());
    }
  }

  /** Cutting one row out of a keyed table keeps the key order and removes exactly the
      rows with that row's id. */
  lemma RemoveKey(rows: seq<Transaction>, i: nat)
    requires IdsAscending(rows) && i < |rows|
    ensures IdsAscending(rows[..i] + rows[i + 1..])
    ensures forall t :: t in rows[..i] + rows[i + 1..] <==> t in rows && t.id != rows[i].id
  {
    var after := rows[..i] + rows[i + 1..];
    assert forall k :: 0 <= k < |after| ==> after[k] == rows[if k < i then k else k + 1];
    forall t | t in rows && t.id != rows[i].id
      ensures t in after
    {
      var k :| 0 <= k < |rows| && rows[k] == t;
      assert after[if k < i then k else k - 1] == t;
    }
  }
}
