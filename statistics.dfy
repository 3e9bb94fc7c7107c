/** `calculateStats` (server.js:49-89): the folds, the median of a sorted
    copy and the per-category tally, with reference definitions for each. */
module Statistics {
  import opened Expenses

  // ---------------------------------------------------------------------
  // Total

  /** Reference sum of the amounts, adding the last record last. */
  function Sum(xs: seq<Expense>): real
  {
    if xs == [] then 0.0 else Sum(xs[..|xs| - 1]) + xs[|xs| - 1].amount
  }

  lemma {:induction false} SumCons(xs: seq<Expense>)
    requires xs != []
    ensures Sum(xs) == xs[0].amount + Sum(xs[1..])
  {
    if |xs| > 1 {
      assert xs[1..][..|xs[1..]| - 1] == xs[..|xs| - 1][1..];
      SumCons(xs[..|xs| - 1]);
    } else {
      assert xs[..|xs| - 1] == [];
      assert xs[1..] == [];
    }
  }

  /** `expenses.reduce((sum, expense) => sum + expense.amount, acc)`. */
  function SumFrom(acc: real, xs: seq<Expense>): real
    decreases |xs|
  {
    if xs == [] then acc else SumFrom(acc + xs[0].amount, xs[1..])
  }

  /** The left fold from `acc` adds `acc` to the sum of all amounts. */
  lemma {:induction false} SumFromIsSum(acc: real, xs: seq<Expense>)
    ensures SumFrom(acc, xs) == acc + Sum(xs)
    decreases |xs|
  {
    if xs != [] {
      SumFromIsSum(acc + xs[0].amount, xs[1..]);
      SumCons(xs);
    }
  }

  /** `totalExpenses` (server.js:52): the fold started from 0. */
  function TotalExpenses(xs: seq<Expense>): real
  {
    SumFrom(0.0, xs)
  }

  // ---------------------------------------------------------------------
  // Highest and lowest

  /** `reduce((max, e) => (e.amount > max.amount ? e : max), best)`. */
  function MaxFold(best: Expense, xs: seq<Expense>): (r: Expense)
    ensures r == best || r in xs
    ensures best.amount <= r.amount
    ensures forall j :: 0 <= j < |xs| ==> xs[j].amount <= r.amount
    decreases |xs|
  {
    if xs == [] then best
    else MaxFold(if xs[0].amount > best.amount then xs[0] else best, xs[1..])
  }

  /** `reduce((min, e) => (e.amount < min.amount ? e : min), best)`. */
  function MinFold(best: Expense, xs: seq<Expense>): (r: Expense)
    ensures r == best || r in xs
    ensures r.amount <= best.amount
    ensures forall j :: 0 <= j < |xs| ==> r.amount <= xs[j].amount
    decreases |xs|
  {
    if xs == [] then best
    else MinFold(if xs[0].amount < best.amount then xs[0] else best, xs[1..])
  }

  /** The maximum fold keeps `best` (k = -1) unless a strictly larger amount
      turns up; then it returns the first record k with the final amount,
      every record before k being strictly smaller. */
  lemma {:induction false} MaxFoldFirst(best: Expense, xs: seq<Expense>) returns (k: int)
    ensures -1 <= k < |xs|
    ensures k == -1 ==> MaxFold(best, xs) == best
    ensures 0 <= k ==> MaxFold(best, xs) == xs[k] && best.amount < xs[k].amount
    ensures 0 <= k ==> forall j :: 0 <= j < k ==> xs[j].amount < xs[k].amount
    decreases |xs|
  {
    if xs == [] {
      k := -1;
    } else {
      var best' := if xs[0].amount > best.amount then xs[0] else best;
      var k' := MaxFoldFirst(best', xs[1..]);
      if k' >= 0 {
        k := k' + 1;
        assert xs[k] == xs[1..][k'];
        forall j | 0 <= j < k ensures xs[j].amount < xs[k].amount {
          if j > 0 { assert xs[j] == xs[1..][j - 1]; }
        }
      } else if xs[0].amount > best.amount {
        k := 0;
      } else {
        k := -1;
      }
    }
  }

  lemma {:induction false} MinFoldFirst(best: Expense, xs: seq<Expense>) returns (k: int)
    ensures -1 <= k < |xs|
    ensures k == -1 ==> MinFold(best, xs) == best
    ensures 0 <= k ==> MinFold(best, xs) == xs[k] && xs[k].amount < best.amount
    ensures 0 <= k ==> forall j :: 0 <= j < k ==> xs[k].amount < xs[j].amount
    decreases |xs|
  {
    if xs == [] {
      k := -1;
    } else {
      var best' := if xs[0].amount < best.amount then xs[0] else best;
      var k' := MinFoldFirst(best', xs[1..]);
      if k' >= 0 {
        k := k' + 1;
        assert xs[k] == xs[1..][k'];
        forall j | 0 <= j < k ensures xs[k].amount < xs[j].amount {
          if j > 0 { assert xs[j] == xs[1..][j - 1]; }
        }
      } else if xs[0].amount < best.amount {
        k := 0;
      } else {
        k := -1;
      }
    }
  }

  /** `highestExpense` (server.js:53): the fold seeded with the first record. */
  function Highest(xs: seq<Expense>): Expense
    requires xs != []
  {
    MaxFold(xs[0], xs)
  }

  /** `lowestExpense` (server.js:54). */
  function Lowest(xs: seq<Expense>): Expense
    requires xs != []
  {
    MinFold(xs[0], xs)
  }

  /** `highestExpense` is the record at some index k whose amount no record
      exceeds, and no record before k reaches it: the first maximum. */
  lemma HighestIsFirstMaximum(xs: seq<Expense>) returns (k: nat)
    requires xs != []
    ensures k < |xs| && Highest(xs) == xs[k]
    ensures forall j :: 0 <= j < |xs| ==> xs[j].amount <= xs[k].amount
    ensures forall j :: 0 <= j < k ==> xs[j].amount < xs[k].amount
  {
    var i := MaxFoldFirst(xs[0], xs);
    k := if i == -1 then 0 else i;
  }

  /** `lowestExpense` is the first record with the least amount. */
  lemma LowestIsFirstMinimum(xs: seq<Expense>) returns (k: nat)
    requires xs != []
    ensures k < |xs| && Lowest(xs) == xs[k]
    ensures forall j :: 0 <= j < |xs| ==> xs[k].amount <= xs[j].amount
    ensures forall j :: 0 <= j < k ==> xs[k].amount < xs[j].amount
  {
    var i := MinFoldFirst(xs[0], xs);
    k := if i == -1 then 0 else i;
  }

  // ---------------------------------------------------------------------
  // Median

  predicate SortedByAmount(s: seq<Expense>)
  {
    forall i, j :: 0 <= i < j < |s| ==> s[i].amount <= s[j].amount
  }

  /** Inserts `e` before the first record whose amount is not smaller, so
      records of equal amount keep their relative order. */
  function Insert(e: Expense, s: seq<Expense>): seq<Expense>
  {
    if s == [] then [e]
    else if e.amount <= s[0].amount then [e] + s
    else [s[0]] + Insert(e, s[1..])
  }

  lemma {:induction false} InsertPermutes(e: Expense, s: seq<Expense>)
    ensures multiset(Insert(e, s)) == multiset(s) + multiset{e}
  {
    if s != [] && e.amount > s[0].amount {
      InsertPermutes(e, s[1..]);
      assert s == [s[0]] + s[1..];
    }
  }

  lemma InsertHead(e: Expense, s: seq<Expense>)
    ensures Insert(e, s) != []
    ensures Insert(e, s)[0] == if s == [] || e.amount <= s[0].amount then e else s[0]
  {
  }

  lemma {:induction false} InsertSorted(e: Expense, s: seq<Expense>)
    requires SortedByAmount(s)
    ensures SortedByAmount(Insert(e, s))
  {
    if s != [] && e.amount > s[0].amount {
      var t := Insert(e, s[1..]);
      assert SortedByAmount(s[1..]) by {
        forall i, j | 0 <= i < j < |s[1..]| ensures s[1..][i].amount <= s[1..][j].amount {
          assert s[1..][i] == s[i + 1] && s[1..][j] == s[j + 1];
        }
      }
      InsertSorted(e, s[1..]);
      InsertHead(e, s[1..]);
      assert s[0].amount <= t[0].amount by {
        if |s| > 1 { assert s[1..][0] == s[1]; }
      }
      var r := [s[0]] + t;
      assert Insert(e, s) == r;
      forall i, j | 0 <= i < j < |r| ensures r[i].amount <= r[j].amount {
        assert r[j] == t[j - 1];
        if i > 0 { assert r[i] == t[i - 1]; } else { assert t[0].amount <= t[j - 1].amount || j == 1; }
      }
    }
  }

  /** The copy `[...expenses].sort((a, b) => a.amount - b.amount)`: a stable
      sort ascending by amount. */
  function SortByAmount(xs: seq<Expense>): (r: seq<Expense>)
    ensures SortedByAmount(r)
    ensures multiset(r) == multiset(xs)
    ensures |r| == |xs|
  {
    if xs == [] then []
    else
      assert xs == [xs[0]] + xs[1..];
      InsertSorted(xs[0], SortByAmount(xs[1..]));
      InsertPermutes(xs[0], SortByAmount(xs[1..]));
      Insert(xs[0], SortByAmount(xs[1..]))
  }

  /** Sorting a list that is already in ascending order returns it unchanged. */
  lemma {:induction false} SortOfSorted(xs: seq<Expense>)
    requires SortedByAmount(xs)
    ensures SortByAmount(xs) == xs
  {
    if xs != [] {
      SortOfSorted(xs[1..]);
      assert xs == [xs[0]] + xs[1..];
    }
  }

  /** The records of amount `a`, in their order in `s`. */
  function WithAmount(s: seq<Expense>, a: real): seq<Expense>
    decreases |s|
  {
    if s == [] then [] else (if s[0].amount == a then [s[0]] else []) + WithAmount(s[1..], a)
  }

  lemma WithAmountCons(x: Expense, t: seq<Expense>, a: real)
    ensures WithAmount([x] + t, a) == (if x.amount == a then [x] else []) + WithAmount(t, a)
  {
    assert ([x] + t)[1..] == t;
  }

  /** Insertion puts `e` before every record of equal amount and moves no
      other record past one of its own amount. */
  lemma {:induction false} InsertKeepsTies(e: Expense, s: seq<Expense>, a: real)
    ensures WithAmount(Insert(e, s), a) == (if e.amount == a then [e] else []) + WithAmount(s, a)
  {
    if s == [] {
      assert Insert(e, s) == [e] + [];
      WithAmountCons(e, [], a);
    } else if e.amount <= s[0].amount {
      assert Insert(e, s) == [e] + s;
      WithAmountCons(e, s, a);
    } else {
      var t := Insert(e, s[1..]);
      assert Insert(e, s) == [s[0]] + t;
      WithAmountCons(s[0], t, a);
      InsertKeepsTies(e, s[1..], a);
      assert WithAmount(s, a) == (if s[0].amount == a then [s[0]] else []) + WithAmount(s[1..], a);
      if e.amount == a {
        assert s[0].amount != a;
      }
    }
  }

  /** The sort is stable: the records of any one amount come out in the
      order they went in. */
  lemma {:induction false} SortIsStable(xs: seq<Expense>, a: real)
    ensures WithAmount(SortByAmount(xs), a) == WithAmount(xs, a)
  {
    if xs != [] {
      SortIsStable(xs[1..], a);
      InsertKeepsTies(xs[0], SortByAmount(xs[1..]), a);
    }
  }

  /** The amounts of `s`, in order. */
  function Amounts(s: seq<Expense>): seq<real>
  {
    seq(|s|, i requires 0 <= i < |s| => s[i].amount)
  }

  lemma AmountsAppend(p: seq<Expense>, q: seq<Expense>)
    ensures Amounts(p + q) == Amounts(p) + Amounts(q)
  {
    forall i | 0 <= i < |p| + |q| ensures Amounts(p + q)[i] == (Amounts(p) + Amounts(q))[i] {
      if i < |p| { assert (p + q)[i] == p[i]; } else { assert (p + q)[i] == q[i - |p|]; }
    }
  }

  lemma AmountsRemoveAt(u: seq<Expense>, k: nat)
    requires k < |u|
    ensures Amounts(u[..k] + u[k + 1..]) == Amounts(u)[..k] + Amounts(u)[k + 1..]
    ensures Amounts(u)[k] == u[k].amount
  {
    AmountsAppend(u[..k], u[k + 1..]);
    assert Amounts(u[..k]) == Amounts(u)[..k];
    assert Amounts(u[k + 1..]) == Amounts(u)[k + 1..];
  }

  lemma HeadTail<T>(r: seq<T>)
    requires r != []
    ensures multiset(r) == multiset{r[0]} + multiset(r[1..])
  {
    assert r == [r[0]] + r[1..];
  }

  /** Dropping the element at `k` removes one copy of it. */
  lemma SplitAt<T>(u: seq<T>, k: nat)
    requires k < |u|
    ensures multiset(u) == multiset{u[k]} + multiset(u[..k] + u[k + 1..])
  {
    assert u == u[..k] + [u[k]] + u[k + 1..];
  }

  lemma Cancel<T>(x: T, a: multiset<T>, b: multiset<T>)
    requires multiset{x} + a == multiset{x} + b
    ensures a == b
  {
    forall y ensures a[y] == b[y] {
      assert (multiset{x} + a)[y] == (multiset{x} + b)[y];
    }
  }

  /** Permuted records have permuted amounts. */
  lemma {:induction false} AmountsPermute(t: seq<Expense>, u: seq<Expense>)
    requires multiset(t) == multiset(u)
    ensures multiset(Amounts(t)) == multiset(Amounts(u))
    decreases |t|
  {
    if t == [] {
      assert |multiset(u)| == 0;
    } else {
      assert t[0] in multiset(u);
      var k :| 0 <= k < |u| && u[k] == t[0];
      var rest := u[..k] + u[k + 1..];
      assert multiset(t[1..]) == multiset(rest) by {
        HeadTail(t);
        SplitAt(u, k);
        Cancel(t[0], multiset(t[1..]), multiset(rest));
      }
      AmountsPermute(t[1..], rest);
      var at, au := Amounts(t), Amounts(u);
      assert at != [] && at[0] == t[0].amount && at[1..] == Amounts(t[1..]);
      AmountsRemoveAt(u, k);
      HeadTail(at);
      SplitAt(au, k);
    }
  }

  predicate Ascending(r: seq<real>)
  {
    forall i, j :: 0 <= i < j < |r| ==> r[i] <= r[j]
  }

  lemma AscendingTail(r: seq<real>)
    requires r != [] && Ascending(r)
    ensures Ascending(r[1..])
  {
    forall i, j | 0 <= i < j < |r| - 1 ensures r[1..][i] <= r[1..][j] {
      assert r[1..][i] == r[i + 1] && r[1..][j] == r[j + 1];
    }
  }

  /** Two ascending sequences holding the same values start alike. */
  lemma AscendingFirst(r: seq<real>, q: seq<real>)
    requires r != [] && Ascending(r) && Ascending(q) && multiset(r) == multiset(q)
    ensures q != [] && r[0] == q[0]
  {
    assert q != [] by { assert |multiset(q)| == |multiset(r)|; }
    assert r[0] in multiset(q) && q[0] in multiset(r);
    var j :| 0 <= j < |q| && q[j] == r[0];
    var i :| 0 <= i < |r| && r[i] == q[0];
    assert q[0] <= q[j] by { assert j == 0 || q[0] <= q[j]; }
    assert r[0] <= r[i] by { assert i == 0 || r[0] <= r[i]; }
  }

  lemma ConsEqual(r: seq<real>, q: seq<real>)
    requires r != [] && q != [] && r[0] == q[0] && r[1..] == q[1..]
    ensures r == q
  {
    assert r == [r[0]] + r[1..] && q == [q[0]] + q[1..];
  }

  /** Two ascending sequences holding the same values are equal. */
  lemma {:induction false} AscendingUnique(r: seq<real>, q: seq<real>)
    requires Ascending(r) && Ascending(q) && multiset(r) == multiset(q)
    ensures r == q
    decreases |r|
  {
    if r == [] {
      assert |multiset(q)| == 0;
    } else {
      AscendingFirst(r, q);
      assert multiset(r[1..]) == multiset(q[1..]) by {
        HeadTail(r);
        HeadTail(q);
        Cancel(r[0], multiset(r[1..]), multiset(q[1..]));
      }
      AscendingTail(r);
      AscendingTail(q);
      AscendingUnique(r[1..], q[1..]);
      ConsEqual(r, q);
    }
  }

  /** Any two sorted permutations of the same records have the same amount
      at every position, whichever sort produced them. */
  lemma SortedPermutationsAgree(t: seq<Expense>, u: seq<Expense>)
    requires SortedByAmount(t) && SortedByAmount(u) && multiset(t) == multiset(u)
    ensures |t| == |u|
    ensures forall i :: 0 <= i < |t| ==> t[i].amount == u[i].amount
  {
    assert |multiset(t)| == |multiset(u)|;
    AmountsPermute(t, u);
    assert Ascending(Amounts(t)) && Ascending(Amounts(u));
    AscendingUnique(Amounts(t), Amounts(u));
    forall i | 0 <= i < |t| ensures t[i].amount == u[i].amount {
      assert Amounts(t)[i] == t[i].amount && Amounts(u)[i] == u[i].amount;
    }
  }

  /** `medianExpense` (server.js:59-62) on the sorted copy: the middle amount,
      or the mean of the two middle amounts when the length is even. It lies
      between the two middle amounts, at least half of the records are at
      or below it and at least half at or above it. */
  function Median(sorted: seq<Expense>): (r: real)
    requires sorted != [] && SortedByAmount(sorted)
    ensures sorted[(|sorted| - 1) / 2].amount <= r <= sorted[|sorted| / 2].amount
    ensures forall i :: 0 <= i < (|sorted| + 1) / 2 ==> sorted[i].amount <= r
    ensures forall i :: |sorted| / 2 <= i < |sorted| ==> r <= sorted[i].amount
  {
    var mid := |sorted| / 2;
    if |sorted| % 2 == 0 then (sorted[mid - 1].amount + sorted[mid].amount) / 2.0
    else sorted[mid].amount
  }

  /** The median of the sorted copy lies between the lowest and the highest
      expense. */
  lemma MedianBetweenExtremes(xs: seq<Expense>)
    requires xs != []
    ensures Lowest(xs).amount <= Median(SortByAmount(xs)) <= Highest(xs).amount
  {
    var s := SortByAmount(xs);
    var hi := HighestIsFirstMaximum(xs);
    var lo := LowestIsFirstMinimum(xs);
    forall i | 0 <= i < |s| ensures xs[lo].amount <= s[i].amount <= xs[hi].amount {
      assert s[i] in multiset(xs);
      var j :| 0 <= j < |xs| && xs[j] == s[i];
    }
  }

  /** The median does not depend on the sort algorithm: every sorted
      permutation of the records has the same median as `SortByAmount`'s. */
  lemma MedianIndependentOfSort(xs: seq<Expense>, t: seq<Expense>)
    requires xs != [] && SortedByAmount(t) && multiset(t) == multiset(xs)
    ensures t != [] && Median(t) == Median(SortByAmount(xs))
  {
    var s := SortByAmount(xs);
    SortedPermutationsAgree(t, s);
    MedianOfEqualAmounts(t, s);
  }

  lemma MedianOfEqualAmounts(t: seq<Expense>, u: seq<Expense>)
    requires t != [] && SortedByAmount(t) && SortedByAmount(u) && |t| == |u|
    requires forall i :: 0 <= i < |t| ==> t[i].amount == u[i].amount
    ensures Median(t) == Median(u)
  {
    var mid := |t| / 2;
    assert t[mid].amount == u[mid].amount;
    if |t| % 2 == 0 {
      assert t[mid - 1].amount == u[mid - 1].amount;
    }
  }

  /** The median of [10, 20, 30] is 20. */
  lemma MedianOddExample(a: Expense, b: Expense, c: Expense)
    requires a.amount == 10.0 && b.amount == 20.0 && c.amount == 30.0
    ensures SortedByAmount([a, b, c]) && Median([a, b, c]) == 20.0
  {
  }

  /** The median of [10, 20, 30, 40] is 25. */
  lemma MedianEvenExample(a: Expense, b: Expense, c: Expense, d: Expense)
    requires a.amount == 10.0 && b.amount == 20.0 && c.amount == 30.0 && d.amount == 40.0
    ensures SortedByAmount([a, b, c, d]) && Median([a, b, c, d]) == 25.0
  {
  }

  /** Records that arrive out of order are sorted by amount first:
      [30, 10, 20] sorts to [10, 20, 30]. */
  lemma SortExample(a: Expense, b: Expense, c: Expense)
    requires a.amount == 10.0 && b.amount == 20.0 && c.amount == 30.0
    ensures SortByAmount([c, a, b]) == [a, b, c]
  {
    InsertExample(a, b, c);
    assert SortedByAmount([a, b]);
    SortOfSorted([a, b]);
    assert [c, a, b][1..] == [a, b];
  }

  lemma InsertExample(a: Expense, b: Expense, c: Expense)
    requires a.amount == 10.0 && b.amount == 20.0 && c.amount == 30.0
    ensures Insert(c, [a, b]) == [a, b, c]
  {
    assert [a, b][1..] == [b];
    assert [b][1..] == [];
    assert Insert(c, [b]) == [b] + Insert(c, []) == [b, c];
    assert Insert(c, [a, b]) == [a] + Insert(c, [b]);
  }

  // ---------------------------------------------------------------------
  // Categories

  /** Every category string that occurs, with its original case. */
  function Categories(xs: seq<Expense>): set<string>
  {
    set i | 0 <= i < |xs| :: xs[i].category
  }

  /** The number of records whose category is exactly `c`. */
  function CountIn(xs: seq<Expense>, c: string): nat
  {
    if xs == [] then 0
    else CountIn(xs[..|xs| - 1], c) + (if xs[|xs| - 1].category == c then 1 else 0)
  }

  /** The sum of the amounts of the records whose category is exactly `c`. */
  function TotalIn(xs: seq<Expense>, c: string): real
  {
    if xs == [] then 0.0
    else TotalIn(xs[..|xs| - 1], c) + (if xs[|xs| - 1].category == c then xs[|xs| - 1].amount else 0.0)
  }

  /** Reference grouping: one entry per distinct category string, holding the
      sum and the number of that category's records. */
  function Grouped(xs: seq<Expense>): map<string, CategoryTotal>
  {
    map c | c in Categories(xs) :: CategoryTotal(TotalIn(xs, c), CountIn(xs, c))
  }

  lemma CategoriesSnoc(xs: seq<Expense>, x: Expense)
    ensures Categories(xs + [x]) == Categories(xs) + {x.category}
  {
    var ys := xs + [x];
    forall c | c in Categories(ys) ensures c in Categories(xs) + {x.category} {
      var i :| 0 <= i < |ys| && ys[i].category == c;
      if i < |xs| { assert xs[i] == ys[i]; }
    }
    forall c | c in Categories(xs) ensures c in Categories(ys) {
      var i :| 0 <= i < |xs| && xs[i].category == c;
      assert ys[i] == xs[i];
    }
    assert ys[|xs|] == x;
  }

  /** A category with no record has count 0 and total 0; one that occurs has
      a positive count. */
  lemma {:induction false} CountPositive(xs: seq<Expense>, c: string)
    ensures c in Categories(xs) <==> CountIn(xs, c) > 0
    ensures c !in Categories(xs) ==> TotalIn(xs, c) == 0.0
  {
    if xs != [] {
      var p := xs[..|xs| - 1];
      CountPositive(p, c);
      assert xs == p + [xs[|xs| - 1]];
      CategoriesSnoc(p, xs[|xs| - 1]);
    }
  }

  lemma GroupedKeys(xs: seq<Expense>)
    ensures Grouped(xs).Keys == Categories(xs)
  {
  }

  /** The entry of `c`, or an empty one. */
  function EntryOf(g: map<string, CategoryTotal>, c: string): CategoryTotal
  {
    if c in g then g[c] else CategoryTotal(0.0, 0)
  }

  /** One step of the tally loop (server.js:66-72) on the reference grouping. */
  lemma GroupedSnoc(xs: seq<Expense>, x: Expense)
    ensures var g := Grouped(xs); var c := x.category;
      var entry := if c in g then g[c] else CategoryTotal(0.0, 0);
      Grouped(xs + [x]) == g[c := CategoryTotal(entry.total + x.amount, entry.count + 1)]
  {
    var ys := xs + [x];
    assert ys[..|ys| - 1] == xs;
    CategoriesSnoc(xs, x);
    CountPositive(xs, x.category);
  }

  /** The order in which the tally loop first adds each category. */
  function CategoryOrder(xs: seq<Expense>): seq<string>
  {
    if xs == [] then []
    else
      var o := CategoryOrder(xs[..|xs| - 1]);
      var c := xs[|xs| - 1].category;
      if c in o then o else o + [c]
  }

  /** The key order lists every category, once. */
  lemma {:induction false} CategoryOrderSpec(xs: seq<Expense>)
    ensures forall c :: c in CategoryOrder(xs) <==> c in Categories(xs)
    ensures forall i, j :: 0 <= i < j < |CategoryOrder(xs)| ==> CategoryOrder(xs)[i] != CategoryOrder(xs)[j]
  {
    if xs != [] {
      var p := xs[..|xs| - 1];
      var x := xs[|xs| - 1];
      var o := CategoryOrder(p);
      CategoryOrderSpec(p);
      assert Categories(xs) == Categories(p) + {x.category} by {
        assert xs == p + [x];
        CategoriesSnoc(p, x);
      }
      if x.category !in o {
        var r := o + [x.category];
        forall i, j | 0 <= i < j < |r| ensures r[i] != r[j] {
          assert r[i] == o[i];
          if j < |o| { assert r[j] == o[j]; }
        }
      }
    }
  }

  /** The key order only ever grows at the end: the order of a prefix of
      the records is a prefix of the order of all of them, so the keys come
      in the order in which their categories first occur. */
  lemma {:induction false} CategoryOrderPrefix(xs: seq<Expense>, k: nat)
    requires k <= |xs|
    ensures CategoryOrder(xs[..k]) <= CategoryOrder(xs)
  {
    if k == |xs| {
      assert xs[..k] == xs;
    } else {
      var p := xs[..|xs| - 1];
      assert p[..k] == xs[..k];
      CategoryOrderPrefix(p, k);
    }
  }

  lemma CategoryOrderSnoc(xs: seq<Expense>, x: Expense)
    ensures CategoryOrder(xs + [x]) == if x.category in Categories(xs) then CategoryOrder(xs)
                                       else CategoryOrder(xs) + [x.category]
  {
    var ys := xs + [x];
    assert ys[..|ys| - 1] == xs;
    CategoryOrderSpec(xs);
  }

  /** One iteration of the tally loop on the reference definitions: the
      entry of a new category starts at zero and the category joins the key
      order; then the entry grows by the record. */
  lemma TallyStep(xs: seq<Expense>, i: nat)
    requires i < |xs|
    ensures var g := Grouped(xs[..i]); var c := xs[i].category;
      c in g ==>
        && Grouped(xs[..i + 1]) == g[c := CategoryTotal(g[c].total + xs[i].amount, g[c].count + 1)]
        && CategoryOrder(xs[..i + 1]) == CategoryOrder(xs[..i])
    ensures var g := Grouped(xs[..i]); var c := xs[i].category;
      c !in g ==>
        && Grouped(xs[..i + 1]) == g[c := CategoryTotal(0.0, 0)][c := CategoryTotal(0.0 + xs[i].amount, 0 + 1)]
        && CategoryOrder(xs[..i + 1]) == CategoryOrder(xs[..i]) + [c]
  {
    assert xs[..i + 1] == xs[..i] + [xs[i]];
    TallyStepGrouped(xs[..i], xs[i]);
    assert CategoryOrder(xs[..i] + [xs[i]]) == CategoryOrder(xs[..i]) + (if xs[i].category in Grouped(xs[..i]) then [] else [xs[i].category]) by {
      CategoryOrderSnoc(xs[..i], xs[i]);
      GroupedKeys(xs[..i]);
    }
  }

  lemma TallyStepGrouped(p: seq<Expense>, x: Expense)
    ensures var g := Grouped(p); var c := x.category;
      && (c in g ==> Grouped(p + [x]) == g[c := CategoryTotal(g[c].total + x.amount, g[c].count + 1)])
      && (c !in g ==> Grouped(p + [x]) == g[c := CategoryTotal(0.0, 0)][c := CategoryTotal(0.0 + x.amount, 0 + 1)])
  {
    var g := Grouped(p);
    var c := x.category;
    GroupedSnoc(p, x);
    if c !in g {
      assert g[c := CategoryTotal(0.0, 0)][c := CategoryTotal(0.0 + x.amount, 0 + 1)] == g[c := CategoryTotal(x.amount, 1)];
    }
  }

  /** The tally loop of server.js:65-72, with the key order JavaScript keeps
      for `categoryTotals`: it builds exactly the reference grouping. */
  method TallyCategories(xs: seq<Expense>) returns (totals: map<string, CategoryTotal>, order: seq<string>)
    ensures totals == Grouped(xs)
    ensures order == CategoryOrder(xs)
  {
    totals, order := map[], [];
    for i := 0 to |xs|
      invariant totals == Grouped(xs[..i])
      invariant order == CategoryOrder(xs[..i])
    {
      var e := xs[i];
      var c := e.category;
      TallyStep(xs, i);
      if c !in totals {
        totals := totals[c := CategoryTotal(0.0, 0)];
        order := order + [c];
      }
      totals := totals[c := CategoryTotal(totals[c].total + e.amount, totals[c].count + 1)];
    }
    assert xs[..|xs|] == xs;
  }

  /** Reference averages: `total / count` for every category. */
  function AveragesOf(totals: map<string, CategoryTotal>): map<string, real>
    requires forall k :: k in totals ==> totals[k].count > 0
  {
    map k | k in totals :: totals[k].total / totals[k].count as real
  }

  /** The `for (const category in categoryTotals)` loop of server.js:74-77,
      visiting the keys in their enumeration order. */
  method AverageCategories(order: seq<string>, totals: map<string, CategoryTotal>) returns (averages: map<string, real>)
    requires forall k :: k in order <==> k in totals
    requires forall k :: k in totals ==> totals[k].count > 0
    ensures averages == AveragesOf(totals)
  {
    averages := map[];
    for i := 0 to |order|
      invariant forall k :: k in averages <==> k in order[..i]
      invariant forall k :: k in averages ==> averages[k] == totals[k].total / totals[k].count as real
    {
      var c := order[i];
      assert forall k :: k in order[..i + 1] <==> k in order[..i] || k == c;
      averages := averages[c := totals[c].total / totals[c].count as real];
    }
    assert order[..|order|] == order;
  }

  // ---------------------------------------------------------------------
  // Sums over the categories

  function Plus(a: CategoryTotal, b: CategoryTotal): CategoryTotal
  {
    CategoryTotal(a.total + b.total, a.count + b.count)
  }

  /** The totals and the counts of the entries of `m` under `keys`, added up. */
  function SumOver(keys: seq<string>, m: map<string, CategoryTotal>): CategoryTotal
    requires forall k :: k in keys ==> k in m
  {
    if keys == [] then CategoryTotal(0.0, 0)
    else Plus(SumOver(keys[..|keys| - 1], m), m[keys[|keys| - 1]])
  }

  lemma SumOverAppend(keys: seq<string>, m: map<string, CategoryTotal>, c: string)
    requires forall k :: k in keys ==> k in m
    requires c in m
    ensures SumOver(keys + [c], m) == Plus(SumOver(keys, m), m[c])
  {
    assert (keys + [c])[..|keys|] == keys;
  }

  /** Changing the entry of a key that is not summed changes nothing. */
  lemma {:induction false} SumOverUnchanged(keys: seq<string>, m: map<string, CategoryTotal>, c: string, e: CategoryTotal)
    requires forall k :: k in keys ==> k in m
    requires c !in keys
    ensures SumOver(keys, m[c := e]) == SumOver(keys, m)
  {
    if keys != [] {
      SumOverUnchanged(keys[..|keys| - 1], m, c, e);
    }
  }

  /** Changing the entry of a key that is summed once trades its old entry
      for the new one. */
  lemma {:induction false} SumOverReplace(keys: seq<string>, m: map<string, CategoryTotal>, c: string, e: CategoryTotal)
    requires forall k :: k in keys ==> k in m
    requires c in keys
    requires forall i, j :: 0 <= i < j < |keys| ==> keys[i] != keys[j]
    ensures Plus(SumOver(keys, m[c := e]), m[c]) == Plus(SumOver(keys, m), e)
  {
    var init := keys[..|keys| - 1];
    var last := keys[|keys| - 1];
    if last == c {
      assert c !in init by {
        forall i | 0 <= i < |init| ensures init[i] != c { assert init[i] == keys[i]; }
      }
      SumOverUnchanged(init, m, c, e);
    } else {
      assert c in init by {
        var i :| 0 <= i < |keys| && keys[i] == c;
        assert init[i] == c;
      }
      assert forall i, j :: 0 <= i < j < |init| ==> init[i] != init[j] by {
        forall i, j | 0 <= i < j < |init| ensures init[i] != init[j] {
          assert init[i] == keys[i] && init[j] == keys[j];
        }
      }
      SumOverReplace(init, m, c, e);
    }
  }

  /** One record more: its category's entry grows by its amount and by one. */
  lemma CategorySumsSnoc(p: seq<Expense>, x: Expense)
    requires forall k :: k in CategoryOrder(p) ==> k in Grouped(p)
    ensures forall k :: k in CategoryOrder(p + [x]) ==> k in Grouped(p + [x])
    ensures var entry := EntryOf(Grouped(p), x.category);
      Plus(SumOver(CategoryOrder(p + [x]), Grouped(p + [x])), entry)
      == Plus(SumOver(CategoryOrder(p), Grouped(p)), CategoryTotal(entry.total + x.amount, entry.count + 1))
  {
    var g := Grouped(p);
    var c := x.category;
    var entry := EntryOf(g, c);
    var e := CategoryTotal(entry.total + x.amount, entry.count + 1);
    var order := CategoryOrder(p);
    assert Grouped(p + [x]) == g[c := e] by { GroupedSnoc(p, x); }
    assert forall k :: k in order <==> k in g by {
      GroupedKeys(p);
      CategoryOrderSpec(p);
    }
    assert forall i, j :: 0 <= i < j < |order| ==> order[i] != order[j] by {
      CategoryOrderSpec(p);
    }
    if c in g {
      assert CategoryOrder(p + [x]) == order by {
        GroupedKeys(p);
        CategoryOrderSnoc(p, x);
      }
      SumOverReplace(order, g, c, e);
    } else {
      assert CategoryOrder(p + [x]) == order + [c] by {
        GroupedKeys(p);
        CategoryOrderSnoc(p, x);
      }
      SumOverUnchanged(order, g, c, e);
      SumOverAppend(order, g[c := e], c);
    }
  }

  /** Over all categories, in key order, the counts add up to the number of
      records and the totals to the sum of all amounts. */
  lemma {:induction false} CategorySums(xs: seq<Expense>)
    ensures forall k :: k in CategoryOrder(xs) ==> k in Grouped(xs)
    ensures SumOver(CategoryOrder(xs), Grouped(xs)) == CategoryTotal(Sum(xs), |xs|)
  {
    if xs != [] {
      var p := xs[..|xs| - 1];
      var x := xs[|xs| - 1];
      assert xs == p + [x];
      CategorySums(p);
      CategorySumsSnoc(p, x);
    }
  }

  // ---------------------------------------------------------------------
  // The snapshot

  /** Every category of the grouping has at least one record. */
  lemma GroupedCounts(xs: seq<Expense>)
    ensures forall k :: k in Grouped(xs) ==> Grouped(xs)[k].count > 0
  {
    forall k | k in Grouped(xs) ensures Grouped(xs)[k].count > 0 { CountPositive(xs, k); }
  }

  /** The statistics `calculateStats` stores for a non-empty record list. */
  function Snapshot(xs: seq<Expense>): Stats
    requires xs != []
  {
    var total := TotalExpenses(xs);
    var totals := Grouped(xs);
    GroupedCounts(xs);
    Stats(total, Highest(xs), Lowest(xs), total / |xs| as real, Median(SortByAmount(xs)),
          CategoryOrder(xs), totals, AveragesOf(totals))
  }

  /** The total is the sum of the amounts and the average is that sum over
      the number of records. */
  lemma SnapshotTotals(xs: seq<Expense>)
    requires xs != []
    ensures Snapshot(xs).totalExpenses == Sum(xs)
    ensures Snapshot(xs).averageExpense == Sum(xs) / |xs| as real
  {
    SumFromIsSum(0.0, xs);
  }

  /** The category maps: one key per distinct original-case category, the
      exact count and sum of its records, averages with the same keys, and
      counts adding up to the number of records. */
  lemma SnapshotCategories(xs: seq<Expense>)
    requires xs != []
    ensures var s := Snapshot(xs);
      && s.categoryTotals.Keys == Categories(xs)
      && (forall c :: c in s.categoryTotals ==>
            s.categoryTotals[c].count == CountIn(xs, c) && s.categoryTotals[c].total == TotalIn(xs, c))
      && s.categoryAverages.Keys == s.categoryTotals.Keys
      && (forall c :: c in s.categoryAverages ==>
            s.categoryTotals[c].count > 0 && s.categoryAverages[c] == TotalIn(xs, c) / CountIn(xs, c) as real)
      && (forall k :: k in s.categoryOrder ==> k in s.categoryTotals)
      && SumOver(s.categoryOrder, s.categoryTotals) == CategoryTotal(Sum(xs), |xs|)
  {
    var s := Snapshot(xs);
    assert s.categoryOrder == CategoryOrder(xs) && s.categoryTotals == Grouped(xs);
    GroupedKeys(xs);
    CategorySums(xs);
    GroupedCounts(xs);
  }

  /** Every snapshot satisfies the invariant the intent resolver relies on. */
  lemma SnapshotConsistent(xs: seq<Expense>)
    requires xs != []
    ensures Consistent(Snapshot(xs))
  {
    var s := Snapshot(xs);
    assert s.categoryOrder == CategoryOrder(xs) && s.categoryTotals == Grouped(xs);
    GroupedKeys(xs);
    CategoryOrderSpec(xs);
    GroupedCounts(xs);
  }

  /** Distinct case variants stay distinct keys: records of "Food" and
      "food" give two entries of the grouping. */
  lemma CaseVariantsStayApart(a: Expense, b: Expense)
    requires a.category == "Food" && b.category == "food"
    ensures Grouped([a, b]) == map["Food" := CategoryTotal(a.amount, 1), "food" := CategoryTotal(b.amount, 1)]
  {
    assert "Food" != "food" by { assert "Food"[0] != "food"[0]; }
    assert Grouped([]) == map[];
    GroupedSnoc([], a);
    assert [] + [a] == [a];
    GroupedSnoc([a], b);
    assert [a] + [b] == [a, b];
  }
}
