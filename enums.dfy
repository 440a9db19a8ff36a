/** The two enums of the model package: TransactionType and Category. */
module Enums {
  import opened Wrappers

  datatype TransactionType = Income | Expense

  /** Fifteen constants. The comments in the enum group them into income and expense
      categories, but nothing ties a category to a transaction type. */
  datatype Category =
    // income categories
    | Salary | Freelance | Investment | Gift | OtherIncome
    // expense categories
    | Food | Transport | Housing | Utilities | Entertainment
    | Healthcare | Shopping | Education | Travel | OtherExpense
  {
    /** The constant's Java name, as `Enum.name()` returns it. */
    function Name(): string {
      match this
      case Salary => "SALARY"
      case Freelance => "FREELANCE"
      case Investment => "INVESTMENT"
      case Gift => "GIFT"
      case OtherIncome => "OTHER_INCOME"
      case Food => "FOOD"
      case Transport => "TRANSPORT"
      case Housing => "HOUSING"
      case Utilities => "UTILITIES"
      case Entertainment => "ENTERTAINMENT"
      case Healthcare => "HEALTHCARE"
      case Shopping => "SHOPPING"
      case Education => "EDUCATION"
      case Travel => "TRAVEL"
      case OtherExpense => "OTHER_EXPENSE"
    }
  }

  /** `Category.valueOf`: the constant with the given name, if there is one. */
  function ValueOf(name: string): Option<Category> {
    if name == "SALARY" then Some(Salary)
    else if name == "FREELANCE" then Some(Freelance)
    else if name == "INVESTMENT" then Some(Investment)
    else if name == "GIFT" then Some(Gift)
    else if name == "OTHER_INCOME" then Some(OtherIncome)
    else if name == "FOOD" then Some(Food)
    else if name == "TRANSPORT" then Some(Transport)
    else if name == "HOUSING" then Some(Housing)
    else if name == "UTILITIES" then Some(Utilities)
    else if name == "ENTERTAINMENT" then Some(Entertainment)
    else if name == "HEALTHCARE" then Some(Healthcare)
    else if name == "SHOPPING" then Some(Shopping)
    else if name == "EDUCATION" then Some(Education)
    else if name == "TRAVEL" then Some(Travel)
    else if name == "OTHER_EXPENSE" then Some(OtherExpense)
    else None
  }

  /** Names round-trip through `valueOf`. */
  lemma ValueOfName(c: Category)
    ensures ValueOf(c.Name()) == Some(c)
  {
  }

  /** Two constants never share a name, so grouping by name is grouping by category. */
  lemma NameInjective(a: Category, b: Category)
    ensures a.Name() == b.Name() ==> a == b
  {
    ValueOfName(a);
    ValueOfName(b);
  }

  /** `Category.values()`, in declaration order. */
  const AllCategories: seq<Category> :=
    [Salary, Freelance, Investment, Gift, OtherIncome,
     Food, Transport, Housing, Utilities, Entertainment,
     Healthcare, Shopping, Education, Travel, OtherExpense]

  lemma CategoryListed(c: Category)
    ensures c in AllCategories
  {
  }

  lemma AllCategoriesListed()
    ensures forall c: Category :: c in AllCategories
  {
    forall c: Category
      ensures c in AllCategories
    {
      CategoryListed(c);
    }
  }

  lemma AllCategoriesDistinct()
    ensures forall i, j :: 0 <= i < j < |AllCategories| ==> AllCategories[i] != AllCategories[j]
  {
  }
}
