/** The records and the statistics snapshot of the expense chatbot's
    backend (my-react-app/smart-chatbot-backend/server.js). */
module Expenses {

  /** One CSV row after conversion. Amounts are exact reals in the
      reporting currency; the date is an opaque day number. */
  datatype Expense = Expense(date: int, account: string, category: string, note: string, amount: real)

  /** The `{ total, count }` object kept per category. */
  datatype CategoryTotal = CategoryTotal(total: real, count: nat)

  /** The `stats` object assigned at the end of `calculateStats`.
      `categoryOrder` is the order in which JavaScript enumerates the keys of
      `categoryTotals`: the order in which each category was first added. */
  datatype Stats = Stats(
    totalExpenses: real,
    highestExpense: Expense,
    lowestExpense: Expense,
    averageExpense: real,
    medianExpense: real,
    categoryOrder: seq<string>,
    categoryTotals: map<string, CategoryTotal>,
    categoryAverages: map<string, real>)

  /** What every snapshot built by `calculateStats` satisfies: the key order
      lists exactly the keys of `categoryTotals`, once each, every category
      has at least one record, and `categoryAverages` has the same keys. */
  ghost predicate Consistent(s: Stats)
  {
    && (forall k :: k in s.categoryOrder <==> k in s.categoryTotals)
    && (forall i, j :: 0 <= i < j < |s.categoryOrder| ==> s.categoryOrder[i] != s.categoryOrder[j])
    && (forall k :: k in s.categoryTotals ==> s.categoryTotals[k].count > 0)
    && s.categoryAverages.Keys == s.categoryTotals.Keys
  }
}
