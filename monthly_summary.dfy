/** The arithmetic of getMonthlySummary: partition by type, sum, group by category name.
    Everything here is a pure function of the rows the date-range finder returned. */
module MonthlySummary {
  import opened Enums
  import opened Dates
  import opened Transactions
  import opened Responses
  import opened TransactionRepository

  /** The value stored under `k`, or 0 when there is none. */
  function Lookup(g: map<string, int>, k: string): int {
    if k in g then g[k] else 0
  }

  /** The stream grouping of the summary: rows are grouped by their category's name and
      each group's amounts are added up from zero. */
  function GroupByCategory(ts: seq<Transaction>): map<string, int> {
    if ts == [] then map[]
    else
      var g := GroupByCategory(ts[1..]);
      var k := ts[0].category.Name();
      g[k := Lookup(g, k) + ts[0].amountCents]
  }

  /** The grouped map has a key exactly for each category name that occurs. */
  lemma {:induction false} GroupByCategoryKeys(ts: seq<Transaction>)
    ensures forall k :: k in GroupByCategory(ts) <==> exists t :: t in ts && t.category.Name() == k
  {
    if ts != [] {
      GroupByCategoryKeys(ts[1..]);
      assert ts == [ts[0]] + ts[1..];
    }
  }

  /** The sum of the values of `m` stored under `keys`. */
  ghost function SumOver(m: map<string, int>, keys: set<string>): int
    requires keys <= m.Keys
    decreases keys
  {
    if keys == {} then 0
    else
      var k :| k in keys;
      m[k] + SumOver(m, keys - {k})
  }

  /** The sum of all values of a map. */
  ghost function MapSum(m: map<string, int>): int {
    SumOver(m, m.Keys)
  }

  /** The sum does not depend on which key is taken out first. */
  lemma SumOverRemove(m: map<string, int>, keys: set<string>, k: string)
    requires keys <= m.Keys && k in keys
    ensures SumOver(m, keys) == m[k] + SumOver(m, keys - {k})
    decreases keys
  {
    var j :| j in keys && SumOver(m, keys) == m[j] + SumOver(m, keys - {j});
    if j != k {
      SumOverRemove(m, keys - {j}, k);
      SumOverRemove(m, keys - {k}, j);
      assert keys - {j} - {k} == keys - {k} - {j};
    }
  }

  lemma {:induction false} SumOverAgree(m1: map<string, int>, m2: map<string, int>, keys: set<string>)
    requires keys <= m1.Keys && keys <= m2.Keys
    requires forall k :: k in keys ==> m1[k] == m2[k]
    ensures SumOver(m1, keys) == SumOver(m2, keys)
    decreases keys
  {
    if keys != {} {
      var k :| k in keys;
      SumOverRemove(m1, keys, k);
      SumOverRemove(m2, keys, k);
      SumOverAgree(m1, m2, keys - {k});
    }
  }

  /** Storing `v` under `k` replaces that key's share of the total. */
  lemma MapSumUpdate(m: map<string, int>, k: string, v: int)
    ensures MapSum(m[k := v]) == MapSum(m) - Lookup(m, k) + v
  {
    var m' := m[k := v];
    SumOverRemove(m', m'.Keys, k);
    assert m'.Keys - {k} == m.Keys - {k};
    SumOverAgree(m', m, m.Keys - {k});
    if k in m {
      SumOverRemove(m, m.Keys, k);
    } else {
      assert m.Keys - {k} == m.Keys;
    }
  }

  /** The values of the grouped map add up to the plain sum of the rows grouped. */
  lemma {:induction false} GroupByCategoryTotal(ts: seq<Transaction>)
    ensures MapSum(GroupByCategory(ts)) == SumAmounts(ts)
  {
    if ts != [] {
      var g := GroupByCategory(ts[1..]);
      var k := ts[0].category.Name();
      GroupByCategoryTotal(ts[1..]);
      MapSumUpdate(g, k, Lookup(g, k) + ts[0].amountCents);
    }
  }

  /** Each category's entry is the sum of that category's rows (0, and no entry, when it
      has none). */
  lemma {:induction false} GroupByCategoryValue(ts: seq<Transaction>, c: Category)
    ensures Lookup(GroupByCategory(ts), c.Name()) == SumAmounts(WithCategory(ts, c))
  {
    if ts != [] {
      var g := GroupByCategory(ts[1..]);
      var k := ts[0].category.Name();
      assert GroupByCategory(ts) == g[k := Lookup(g, k) + ts[0].amountCents];
      var rest := WithCategory(ts[1..], c);
      GroupByCategoryValue(ts[1..], c);
      if ts[0].category == c {
        assert WithCategory(ts, c) == [ts[0]] + rest;
        assert ([ts[0]] + rest)[1..] == rest;
      } else {
        NameInjective(ts[0].category, c);
        assert WithCategory(ts, c) == rest;
      }
    }
  }

  /** `getMonthlySummary` after the finder: `ts` holds the caller's rows of the month. The
      Java reduce is a left fold; exact addition is associative, so the sums agree. */
  function Summarize(ts: seq<Transaction>, month: YearMonth): (r: MonthlySummaryResponse)
    ensures r.month == month
    ensures r.totalTransactions == |ts|
    ensures r.totalIncome == SumAmounts(WithType(ts, Income))
    ensures r.totalExpenses == SumAmounts(WithType(ts, Expense))
    ensures r.netSavings == r.totalIncome - r.totalExpenses
    ensures forall k :: k in r.incomeByCategory <==>
      exists t :: t in ts && t.transactionType == Income && t.category.Name() == k
    ensures forall k :: k in r.expensesByCategory <==>
      exists t :: t in ts && t.transactionType == Expense && t.category.Name() == k
  {
    var income := WithType(ts, Income);
    var expenses := WithType(ts, Expense);
    GroupByCategoryKeys(income);
    GroupByCategoryKeys(expenses);
    var totalIncome := SumAmounts(income);
    var totalExpenses := SumAmounts(expenses);
    MonthlySummaryResponse(
      month,
      totalIncome,
      totalExpenses,
      totalIncome - totalExpenses,
      GroupByCategory(expenses),
      GroupByCategory(income),
      |ts|)
  }

  /** The per-category maps add up to the matching totals. */
  lemma SummaryCategoriesAddUp(ts: seq<Transaction>, month: YearMonth)
    ensures MapSum(Summarize(ts, month).incomeByCategory) == Summarize(ts, month).totalIncome
    ensures MapSum(Summarize(ts, month).expensesByCategory) == Summarize(ts, month).totalExpenses
  {
    GroupByCategoryTotal(WithType(ts, Income));
    GroupByCategoryTotal(WithType(ts, Expense));
  }

  /** Each map entry is the sum of the rows of that type and category. Nothing ties a
      category to a type: an INCOME row tagged FOOD lands in `incomeByCategory["FOOD"]`. */
  lemma SummaryCategoryValues(ts: seq<Transaction>, month: YearMonth, c: Category)
    ensures Lookup(Summarize(ts, month).incomeByCategory, c.Name())
      == SumAmounts(WithCategory(WithType(ts, Income), c))
    ensures Lookup(Summarize(ts, month).expensesByCategory, c.Name())
      == SumAmounts(WithCategory(WithType(ts, Expense), c))
  {
    GroupByCategoryValue(WithType(ts, Income), c);
    GroupByCategoryValue(WithType(ts, Expense), c);
  }

  /** With no rows of a type, that type's total is 0 and its map is empty. */
  lemma SummaryEmptyType(ts: seq<Transaction>, month: YearMonth, ty: TransactionType)
    requires forall t :: t in ts ==> t.transactionType != ty
    ensures ty == Income ==>
      Summarize(ts, month).totalIncome == 0 && Summarize(ts, month).incomeByCategory == map[]
    ensures ty == Expense ==>
      Summarize(ts, month).totalExpenses == 0 && Summarize(ts, month).expensesByCategory == map[]
  {
  }

  /** The rows dated in the given calendar month: a definition that does not go through
      the first and last day. */
  function InMonth(ts: seq<Transaction>, month: YearMonth): (r: seq<Transaction>) {
    if ts == [] then []
    else
      (if ts[0].transactionDate.year == month.year && ts[0].transactionDate.month == month.month
       then [ts[0]] else [])
      + InMonth(ts[1..], month)
  }

  /** The inclusive range from `atDay(1)` to `atEndOfMonth()` selects exactly the month. */
  lemma {:induction false} MonthRangeSelectsMonth(ts: seq<Transaction>, month: YearMonth)
    ensures DatedBetween(ts, StartOfMonth(month), EndOfMonth(month)) == InMonth(ts, month)
  {
    if ts != [] {
      MonthRange(ts[0].transactionDate, month);
      MonthRangeSelectsMonth(ts[1..], month);
    }
  }
}
