/** The transaction table and its Spring Data queries: derived finders become order-keeping
    filters over the table's rows, the JPQL SUM and GROUP BY queries become sums over
    them. The table is a sequence of rows in primary-key order; nothing here changes it. */
module TransactionRepository {
  import opened Wrappers
  import opened Enums
  import opened Dates
  import opened Users
  import opened Transactions

  /** The primary key: ids strictly increase along the table, so no id occurs twice. */
  predicate IdsAscending(rows: seq<Transaction>) {
    forall i, j :: 0 <= i < j < |rows| ==> rows[i].id < rows[j].id
  }

  /** Position of the row whose primary key is `id`. */
  function IndexOf(rows: seq<Transaction>, id: TransactionId): (r: Option<nat>)
    ensures r.Some? ==> r.value < |rows| && rows[r.value].id == id
    ensures r.None? <==> forall i :: 0 <= i < |rows| ==> rows[i].id != id
  {
    if rows == [] then None
    else if rows[0].id == id then Some(0)
    else match IndexOf(rows[1..], id)
      case None => None
      case Some(k) => Some(k + 1)
  }

  /** Under the primary key a row is found at its own position. */
  lemma IndexOfKey(rows: seq<Transaction>, i: nat)
    requires IdsAscending(rows) && i < |rows|
    ensures IndexOf(rows, rows[i].id) == Some(i)
  {
  }

  /** `findById`: the row with that primary key, if any. */
  function FindById(rows: seq<Transaction>, id: TransactionId): (r: Option<Transaction>)
    ensures r.Some? ==> r.value in rows && r.value.id == id
    ensures r.None? <==> forall t :: t in rows ==> t.id != id
  {
    match IndexOf(rows, id)
    case None => None
    case Some(i) => Some(rows[i])
  }

  /** `findByUser`: exactly the rows the user owns, in table order. */
  function FindByUser(rows: seq<Transaction>, user: UserId): (r: seq<Transaction>)
    ensures forall t :: t in r <==> t in rows && t.owner == user
    ensures |r| <= |rows|
  {
    if rows == [] then []
    else
      assert rows == [rows[0]] + rows[1..];
      (if rows[0].owner == user then [rows[0]] else []) + FindByUser(rows[1..], user)
  }

  function WithType(ts: seq<Transaction>, ty: TransactionType): (r: seq<Transaction>)
    ensures forall t :: t in r <==> t in ts && t.transactionType == ty
    ensures |r| <= |ts|
  {
    if ts == [] then []
    else
      assert ts == [ts[0]] + ts[1..];
      (if ts[0].transactionType == ty then [ts[0]] else []) + WithType(ts[1..], ty)
  }

  function WithCategory(ts: seq<Transaction>, c: Category): (r: seq<Transaction>)
    ensures forall t :: t in r <==> t in ts && t.category == c
    ensures |r| <= |ts|
  {
    if ts == [] then []
    else
      assert ts == [ts[0]] + ts[1..];
      (if ts[0].category == c then [ts[0]] else []) + WithCategory(ts[1..], c)
  }

  function DatedBetween(ts: seq<Transaction>, start: LocalDate, end: LocalDate): (r: seq<Transaction>)
    ensures forall t :: t in r <==> t in ts && IsBetween(t.transactionDate, start, end)
    ensures |r| <= |ts|
  {
    if ts == [] then []
    else
      assert ts == [ts[0]] + ts[1..];
      (if IsBetween(ts[0].transactionDate, start, end) then [ts[0]] else [])
        + DatedBetween(ts[1..], start, end)
  }

  /** `findByUserAndType`. */
  function FindByUserAndType(rows: seq<Transaction>, user: UserId, ty: TransactionType): (r: seq<Transaction>)
    ensures forall t :: t in r <==> t in rows && t.owner == user && t.transactionType == ty
  {
    WithType(FindByUser(rows, user), ty)
  }

  /** `findByUserAndCategory`. */
  function FindByUserAndCategory(rows: seq<Transaction>, user: UserId, c: Category): (r: seq<Transaction>)
    ensures forall t :: t in r <==> t in rows && t.owner == user && t.category == c
  {
    WithCategory(FindByUser(rows, user), c)
  }

  /** `findByUserAndTransactionDateBetween`: both bounds are included. */
  function FindByUserAndTransactionDateBetween(rows: seq<Transaction>, user: UserId, start: LocalDate, end: LocalDate)
    : (r: seq<Transaction>)
    ensures forall t :: t in r <==>
      && t in rows && t.owner == user
      && IsOnOrBefore(start, t.transactionDate) && IsOnOrBefore(t.transactionDate, end)
  {
    DatedBetween(FindByUser(rows, user), start, end)
  }

  /** `findByUserAndTypeAndTransactionDateBetween`: the type match and the inclusive range. */
  function FindByUserAndTypeAndTransactionDateBetween(
    rows: seq<Transaction>, user: UserId, ty: TransactionType, start: LocalDate, end: LocalDate)
    : (r: seq<Transaction>)
    ensures forall t :: t in r <==>
      && t in rows && t.owner == user && t.transactionType == ty
      && IsOnOrBefore(start, t.transactionDate) && IsOnOrBefore(t.transactionDate, end)
  {
    WithType(FindByUserAndTransactionDateBetween(rows, user, start, end), ty)
  }

  /** The exact sum of the amounts; the empty sum is 0. */
  function SumAmounts(ts: seq<Transaction>): int {
    if ts == [] then 0 else ts[0].amountCents + SumAmounts(ts[1..])
  }

  lemma {:induction false} SumAmountsAppend(a: seq<Transaction>, b: seq<Transaction>)
    ensures SumAmounts(a + b) == SumAmounts(a) + SumAmounts(b)
  {
    if a == [] {
      assert a + b == b;
    } else {
      assert (a + b)[1..] == a[1..] + b;
      SumAmountsAppend(a[1..], b);
    }
  }

  /** SQL `SUM(t.amount)`: NULL over no rows. */
  function SqlSum(ts: seq<Transaction>): Option<int> {
    if ts == [] then None else Some(SumAmounts(ts))
  }

  /** SQL `COALESCE(x, fallback)`. */
  function Coalesce(x: Option<int>, fallback: int): int {
    match x
    case None => fallback
    case Some(v) => v
  }

  /** `calculateTotalByUserAndType`: COALESCE turns the NULL of an empty SUM into 0, so the
      query is the plain sum of the matching rows, 0 when none match. */
  function CalculateTotalByUserAndType(rows: seq<Transaction>, user: UserId, ty: TransactionType): (r: int)
    ensures r == SumAmounts(FindByUserAndType(rows, user, ty))
    ensures (forall t :: t in rows && t.owner == user ==> t.transactionType != ty) ==> r == 0
  {
    Coalesce(SqlSum(FindByUserAndType(rows, user, ty)), 0)
  }

  /** `calculateTotalByUserAndTypeAndDateRange`: the sum of what the type-and-range finder
      returns, 0 when it returns nothing. */
  function CalculateTotalByUserAndTypeAndDateRange(
    rows: seq<Transaction>, user: UserId, ty: TransactionType, start: LocalDate, end: LocalDate)
    : (r: int)
    ensures r == SumAmounts(FindByUserAndTypeAndTransactionDateBetween(rows, user, ty, start, end))
    ensures FindByUserAndTypeAndTransactionDateBetween(rows, user, ty, start, end) == [] ==> r == 0
  {
    Coalesce(SqlSum(FindByUserAndTypeAndTransactionDateBetween(rows, user, ty, start, end)), 0)
  }

  /** One result row of `getCategoryBreakdown`: a category and the sum of its amounts. */
  datatype CategoryTotal = CategoryTotal(category: Category, total: int)

  /** GROUP BY over the categories `cs`: one row for each of them that occurs in `ts`. */
  function Breakdown(ts: seq<Transaction>, cs: seq<Category>): (r: seq<CategoryTotal>)
    ensures forall i :: 0 <= i < |r| ==> RowMatches(ts, cs, r[i])
    ensures forall c :: c in cs && WithCategory(ts, c) != [] ==> HasRowFor(r, c)
    ensures Distinct(cs) ==> DistinctRows(r)
  {
    if cs == [] then []
    else
      var part := WithCategory(ts, cs[0]);
      var rest := Breakdown(ts, cs[1..]);
      if part == [] then
        BreakdownSkip(ts, cs, rest);
        rest
      else
        var r := [CategoryTotal(cs[0], SumAmounts(part))] + rest;
        BreakdownKeep(ts, cs, rest, r);
        r
  }

  predicate Distinct(cs: seq<Category>) {
    forall i, j :: 0 <= i < j < |cs| ==> cs[i] != cs[j]
  }

  predicate DistinctRows(r: seq<CategoryTotal>) {
    forall i, j :: 0 <= i < j < |r| ==> r[i].category != r[j].category
  }

  /** The row is a category of `cs` that occurs in `ts`, with the sum of its rows. */
  predicate RowMatches(ts: seq<Transaction>, cs: seq<Category>, row: CategoryTotal) {
    && row.category in cs
    && WithCategory(ts, row.category) != []
    && row.total == SumAmounts(WithCategory(ts, row.category))
  }

  predicate HasRowFor(r: seq<CategoryTotal>, c: Category) {
    exists i :: 0 <= i < |r| && r[i].category == c
  }

  /** Step of Breakdown when the first category does not occur: the rows of the rest. */
  lemma BreakdownSkip(ts: seq<Transaction>, cs: seq<Category>, rest: seq<CategoryTotal>)
    requires cs != [] && WithCategory(ts, cs[0]) == []
    requires forall i :: 0 <= i < |rest| ==> RowMatches(ts, cs[1..], rest[i])
    requires forall c :: c in cs[1..] && WithCategory(ts, c) != [] ==> HasRowFor(rest, c)
    requires Distinct(cs[1..]) ==> DistinctRows(rest)
    ensures forall i :: 0 <= i < |rest| ==> RowMatches(ts, cs, rest[i])
    ensures forall c :: c in cs && WithCategory(ts, c) != [] ==> HasRowFor(rest, c)
    ensures Distinct(cs) ==> DistinctRows(rest)
  {
    assert forall c :: c in cs[1..] ==> c in cs;
    assert forall c :: c in cs && c != cs[0] ==> c in cs[1..];
    if Distinct(cs) {
      assert Distinct(cs[1..]);
    }
  }

  /** Step of Breakdown when the first category occurs: its row, then the rows of the rest. */
  lemma BreakdownKeep(ts: seq<Transaction>, cs: seq<Category>, rest: seq<CategoryTotal>, r: seq<CategoryTotal>)
    requires cs != [] && WithCategory(ts, cs[0]) != []
    requires forall i :: 0 <= i < |rest| ==> RowMatches(ts, cs[1..], rest[i])
    requires forall c :: c in cs[1..] && WithCategory(ts, c) != [] ==> HasRowFor(rest, c)
    requires Distinct(cs[1..]) ==> DistinctRows(rest)
    requires r == [CategoryTotal(cs[0], SumAmounts(WithCategory(ts, cs[0])))] + rest
    ensures forall i :: 0 <= i < |r| ==> RowMatches(ts, cs, r[i])
    ensures forall c :: c in cs && WithCategory(ts, c) != [] ==> HasRowFor(r, c)
    ensures Distinct(cs) ==> DistinctRows(r)
  {
    KeepRowsMatch(ts, cs, rest, r);
    KeepCovers(ts, cs, rest, r);
    if Distinct(cs) {
      KeepDistinct(ts, cs, rest, r);
    }
  }

  lemma KeepRowsMatch(ts: seq<Transaction>, cs: seq<Category>, rest: seq<CategoryTotal>, r: seq<CategoryTotal>)
    requires cs != [] && WithCategory(ts, cs[0]) != []
    requires forall i :: 0 <= i < |rest| ==> RowMatches(ts, cs[1..], rest[i])
    requires r == [CategoryTotal(cs[0], SumAmounts(WithCategory(ts, cs[0])))] + rest
    ensures forall i :: 0 <= i < |r| ==> RowMatches(ts, cs, r[i])
  {
    forall i | 0 <= i < |r|
      ensures RowMatches(ts, cs, r[i])
    {
      if i > 0 {
        assert r[i] == rest[i - 1];
        assert RowMatches(ts, cs[1..], rest[i - 1]);
        assert rest[i - 1].category in cs;
      }
    }
  }

  lemma KeepCovers(ts: seq<Transaction>, cs: seq<Category>, rest: seq<CategoryTotal>, r: seq<CategoryTotal>)
    requires cs != []
    requires forall c :: c in cs[1..] && WithCategory(ts, c) != [] ==> HasRowFor(rest, c)
    requires |r| == |rest| + 1 && r[0].category == cs[0] && r[1..] == rest
    ensures forall c :: c in cs && WithCategory(ts, c) != [] ==> HasRowFor(r, c)
  {
    forall c | c in cs && WithCategory(ts, c) != []
      ensures HasRowFor(r, c)
    {
      if c == cs[0] {
        assert r[0].category == c;
      } else {
        assert c in cs[1..];
        var i :| 0 <= i < |rest| && rest[i].category == c;
        assert r[i + 1].category == c;
      }
    }
  }

  lemma KeepDistinct(ts: seq<Transaction>, cs: seq<Category>, rest: seq<CategoryTotal>, r: seq<CategoryTotal>)
    requires cs != [] && Distinct(cs)
    requires forall i :: 0 <= i < |rest| ==> rest[i].category in cs[1..]
    requires Distinct(cs[1..]) ==> DistinctRows(rest)
    requires |r| == |rest| + 1 && r[0].category == cs[0] && r[1..] == rest
    ensures DistinctRows(r)
  {
    assert Distinct(cs[1..]);
    assert cs[0] !in cs[1..];
    forall i, j | 0 <= i < j < |r|
      ensures r[i].category != r[j].category
    {
      assert r[j] == rest[j - 1];
      if i > 0 {
        assert r[i] == rest[i - 1];
      }
    }
  }

  function RowsTotal(rows: seq<CategoryTotal>): int {
    if rows == [] then 0 else rows[0].total + RowsTotal(rows[1..])
  }

  /** `getCategoryBreakdown`: one row per category that occurs among the user's rows of
      that type, each carrying the sum of those rows. */
  function GetCategoryBreakdown(rows: seq<Transaction>, user: UserId, ty: TransactionType): (r: seq<CategoryTotal>)
    ensures forall i :: 0 <= i < |r| ==>
      && WithCategory(FindByUserAndType(rows, user, ty), r[i].category) != []
      && r[i].total == SumAmounts(WithCategory(FindByUserAndType(rows, user, ty), r[i].category))
    ensures forall t :: t in rows && t.owner == user && t.transactionType == ty ==>
      exists i :: 0 <= i < |r| && r[i].category == t.category
    ensures DistinctRows(r)
  {
    AllCategoriesDistinct();
    AllCategoriesListed();
    var ts := FindByUserAndType(rows, user, ty);
    var r := Breakdown(ts, AllCategories);
    assert forall t :: t in ts ==> t in WithCategory(ts, t.category);
    r
  }

  /** The rows whose category is one of `cs`. */
  function InCategories(ts: seq<Transaction>, cs: seq<Category>): seq<Transaction> {
    if ts == [] then []
    else (if ts[0].category in cs then [ts[0]] else []) + InCategories(ts[1..], cs)
  }

  lemma {:induction false} InCategoriesSplit(ts: seq<Transaction>, cs: seq<Category>)
    requires cs != [] && cs[0] !in cs[1..]
    ensures SumAmounts(InCategories(ts, cs))
      == SumAmounts(WithCategory(ts, cs[0])) + SumAmounts(InCategories(ts, cs[1..]))
  {
    if ts != [] {
      InCategoriesSplit(ts[1..], cs);
      var head := if ts[0].category in cs then [ts[0]] else [];
      SumAmountsAppend(head, InCategories(ts[1..], cs));
      SumAmountsAppend(if ts[0].category == cs[0] then [ts[0]] else [], WithCategory(ts[1..], cs[0]));
      SumAmountsAppend(if ts[0].category in cs[1..] then [ts[0]] else [], InCategories(ts[1..], cs[1..]));
    }
  }

  lemma {:induction false} BreakdownTotal(ts: seq<Transaction>, cs: seq<Category>)
    requires Distinct(cs)
    ensures RowsTotal(Breakdown(ts, cs)) == SumAmounts(InCategories(ts, cs))
  {
    if cs == [] {
      InCategoriesNone(ts, cs);
    } else {
      assert cs[0] !in cs[1..];
      BreakdownTotal(ts, cs[1..]);
      InCategoriesSplit(ts, cs);
    }
  }

  lemma {:induction false} InCategoriesNone(ts: seq<Transaction>, cs: seq<Category>)
    requires cs == []
    ensures InCategories(ts, cs) == []
  {
    if ts != [] {
      InCategoriesNone(ts[1..], cs);
    }
  }

  lemma {:induction false} InAllCategories(ts: seq<Transaction>)
    ensures InCategories(ts, AllCategories) == ts
  {
    if ts != [] {
      AllCategoriesListed();
      InAllCategories(ts[1..]);
      assert ts == [ts[0]] + ts[1..];
    }
  }

  /** The breakdown's rows add up to `calculateTotalByUserAndType` for the same user and type. */
  lemma CategoryBreakdownAddsUp(rows: seq<Transaction>, user: UserId, ty: TransactionType)
    ensures RowsTotal(GetCategoryBreakdown(rows, user, ty)) == CalculateTotalByUserAndType(rows, user, ty)
  {
    AllCategoriesDistinct();
    BreakdownTotal(FindByUserAndType(rows, user, ty), AllCategories);
    InAllCategories(FindByUserAndType(rows, user, ty));
  }
}
