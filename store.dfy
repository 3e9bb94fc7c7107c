/** The process-wide state of server.js:18-19 (`expenses` and `stats`),
    `loadExpenses` without its file stream (server.js:22-46) and
    `calculateStats` (server.js:49-89), and the `/chat` handler
    (server.js:110-114). */
module Store {
  import opened Wrappers
  import opened Expenses
  import opened Statistics
  import opened Intents

  class ExpenseStore {
    /** The records of the last upload, in file order. */
    var expenses: seq<Expense>
    /** `None` stands for the empty object `{}`: no statistics yet. */
    var stats: Option<Stats>

    /** The state every snapshot the store holds satisfies. */
    ghost predicate Valid()
      reads this
    {
      stats.Some? ==> expenses != [] && stats.value == Snapshot(expenses) && Consistent(stats.value)
    }

    constructor ()
      ensures expenses == [] && stats == None
      ensures Valid()
    {
      expenses := [];
      stats := None;
    }

    /** `calculateStats`: returns early on an empty list, leaving `stats` as
        it was; otherwise replaces `stats` with the snapshot of `expenses`.
        The records themselves are not reordered: the sort works on a copy. */
    method CalculateStats()
      requires Valid()
      modifies this
      ensures expenses == old(expenses)
      ensures stats == if expenses == [] then old(stats) else Some(Snapshot(expenses))
      ensures Valid()
    {
      if |expenses| == 0 {
        return;
      }
      var totalExpenses := TotalExpenses(expenses);
      var highestExpense := Highest(expenses);
      var lowestExpense := Lowest(expenses);
      var averageExpense := totalExpenses / |expenses| as real;
      var sortedExpenses := SortByAmount(expenses);
      var medianExpense := Median(sortedExpenses);
      var categoryTotals, categoryOrder := TallyCategories(expenses);
      GroupedCounts(expenses);
      GroupedKeys(expenses);
      CategoryOrderSpec(expenses);
      var categoryAverages := AverageCategories(categoryOrder, categoryTotals);
      stats := Some(Stats(totalExpenses, highestExpense, lowestExpense, averageExpense, medianExpense,
                          categoryOrder, categoryTotals, categoryAverages));
      SnapshotConsistent(expenses);
    }

    /** `loadExpenses` once the CSV rows are parsed: clears both globals,
        appends the rows in order as the `data` events do, then computes the
        statistics. An empty upload leaves no statistics at all. */
    method LoadExpenses(rows: seq<Expense>)
      modifies this
      ensures expenses == rows
      ensures stats == if rows == [] then None else Some(Snapshot(rows))
      ensures Valid()
    {
      expenses := [];
      stats := None;
      for i := 0 to |rows|
        invariant expenses == rows[..i]
        invariant stats == None
      {
        expenses := expenses + [rows[i]];
      }
      assert rows[..|rows|] == rows;
      CalculateStats();
    }

    /** The `/chat` handler: `generateResponse` on the message, reading the
        current snapshot. The store's invariant is what makes the snapshot
        consistent. */
    method Respond(message: string) returns (r: Result<Reply, Crash>)
      requires Valid()
      ensures r == GenerateResponse(message, stats)
      ensures stats.Some? ==> r != Err(StatsMissing)
    {
      r := GenerateResponse(message, stats);
    }
  }
}
