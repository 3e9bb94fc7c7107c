/** `generateResponse` (server.js:117-151): the ordered keyword rules, the
    category question and the lookups in the statistics snapshot. Replies
    are structured values; the `toFixed(2)` and `toDateString()` text around
    them is not modelled. */
module Intents {
  import opened Wrappers
  import opened Text
  import opened Expenses
  import opened Statistics

  /** The rules of the `if`/`else` chain, in the order they are tried. */
  datatype Intent =
    | AskTotal | AskHighest | AskLowest | AskAverage | AskMedian
    | Thank | AskCategory | AskHelp | Greet | Farewell | Unknown

  function Rank(i: Intent): nat
  {
    match i
    case AskTotal => 0
    case AskHighest => 1
    case AskLowest => 2
    case AskAverage => 3
    case AskMedian => 4
    case Thank => 5
    case AskCategory => 6
    case AskHelp => 7
    case Greet => 8
    case Farewell => 9
    case Unknown => 10
  }

  /** What a rule needs to fire, with every keyword that merely extends a
      shorter keyword of the same rule dropped ("total expenses" fires only
      where "total" does, "goodbye" only where "bye" does). */
  predicate Triggers(i: Intent, m: string)
  {
    match i
    case AskTotal => Contains(m, "total")
    case AskHighest => Contains(m, "most") || Contains(m, "highest")
    case AskLowest =>
      Contains(m, "lowest") || Contains(m, "least expensive") || Contains(m, "cheapest") || Contains(m, "minimum")
    case AskAverage => Contains(m, "average")
    case AskMedian => Contains(m, "median")
    case Thank => Contains(m, "thanks")
    case AskCategory => Contains(m, "spent on") || Contains(m, "category")
    case AskHelp => Contains(m, "help")
    case Greet => Contains(m, "hi") || Contains(m, "hello") || Contains(m, "hey")
    case Farewell => Contains(m, "bye")
    case Unknown => true
  }

  // The longer synonyms of each rule are subsumed by a shorter keyword of
  // the same rule, so each disjunction reduces to its `Triggers` form.

  lemma TotalSynonyms(m: string)
    ensures Contains(m, "total expenses") ==> Contains(m, "total")
    ensures Contains(m, "total spent") ==> Contains(m, "total")
    ensures Contains(m, "total expense") ==> Contains(m, "total")
  {
    if Contains(m, "total expenses") {
      assert "total expenses"[0..5] == "total";
      ContainsPiece(m, "total expenses", "total", 0);
    }
    if Contains(m, "total spent") {
      assert "total spent"[0..5] == "total";
      ContainsPiece(m, "total spent", "total", 0);
    }
    if Contains(m, "total expense") {
      assert "total expense"[0..5] == "total";
      ContainsPiece(m, "total expense", "total", 0);
    }
  }

  lemma HighestSynonyms(m: string)
    ensures Contains(m, "highest expense") ==> Contains(m, "highest")
    ensures Contains(m, "most expensive") ==> Contains(m, "most")
  {
    if Contains(m, "highest expense") {
      assert "highest expense"[0..7] == "highest";
      ContainsPiece(m, "highest expense", "highest", 0);
    }
    if Contains(m, "most expensive") {
      assert "most expensive"[0..4] == "most";
      ContainsPiece(m, "most expensive", "most", 0);
    }
  }

  lemma LowestSynonyms(m: string)
    ensures Contains(m, "lowest expense") ==> Contains(m, "lowest")
  {
    if Contains(m, "lowest expense") {
      assert "lowest expense"[0..6] == "lowest";
      ContainsPiece(m, "lowest expense", "lowest", 0);
    }
  }

  lemma AverageSynonyms(m: string)
    ensures Contains(m, "average expense") ==> Contains(m, "average")
    ensures Contains(m, "average spent") ==> Contains(m, "average")
  {
    if Contains(m, "average expense") {
      assert "average expense"[0..7] == "average";
      ContainsPiece(m, "average expense", "average", 0);
    }
    if Contains(m, "average spent") {
      assert "average spent"[0..7] == "average";
      ContainsPiece(m, "average spent", "average", 0);
    }
  }

  lemma MedianSynonyms(m: string)
    ensures Contains(m, "median expense") ==> Contains(m, "median")
  {
    if Contains(m, "median expense") {
      assert "median expense"[0..6] == "median";
      ContainsPiece(m, "median expense", "median", 0);
    }
  }

  lemma FarewellSynonyms(m: string)
    ensures Contains(m, "goodbye") ==> Contains(m, "bye")
  {
    if Contains(m, "goodbye") {
      assert "goodbye"[4..7] == "bye";
      ContainsPiece(m, "goodbye", "bye", 4);
    }
  }

  /** The `if`/`else` chain of server.js:120-150 on the lower-cased message,
      with the keyword lists exactly as written there. The result is the
      first rule, in rank order, whose keywords occur. */
  function Classify(m: string): (r: Intent)
    ensures Triggers(r, m)
    ensures forall j :: Rank(j) < Rank(r) ==> !Triggers(j, m)
  {
    TotalSynonyms(m);
    HighestSynonyms(m);
    LowestSynonyms(m);
    AverageSynonyms(m);
    MedianSynonyms(m);
    FarewellSynonyms(m);
    if Contains(m, "total expenses") || Contains(m, "total spent") || Contains(m, "total expense") || Contains(m, "total") then AskTotal
    else if Contains(m, "highest expense") || Contains(m, "most expensive") || Contains(m, "most") || Contains(m, "highest") then AskHighest
    else if Contains(m, "lowest expense") || Contains(m, "least expensive") || Contains(m, "cheapest") || Contains(m, "minimum") || Contains(m, "lowest") then AskLowest
    else if Contains(m, "average expense") || Contains(m, "average spent") || Contains(m, "average") then AskAverage
    else if Contains(m, "median expense") || Contains(m, "median") then AskMedian
    else if Contains(m, "thanks") then Thank
    else if Contains(m, "spent on") || Contains(m, "category") then AskCategory
    else if Contains(m, "help") then AskHelp
    else if Contains(m, "hi") || Contains(m, "hello") || Contains(m, "hey") then Greet
    else if Contains(m, "bye") || Contains(m, "goodbye") then Farewell
    else Unknown
  }

  /** The two ensures of `Classify` pin its result down: no other rule is
      both triggered and preceded only by rules that are not. */
  lemma ClassifyIsFirstTriggered(m: string, k: Intent)
    requires Triggers(k, m)
    requires forall j :: Rank(j) < Rank(k) ==> !Triggers(j, m)
    ensures Classify(m) == k
  {
    var r := Classify(m);
    assert !(Rank(r) < Rank(k));
    assert !(Rank(k) < Rank(r));
  }

  /** Every keyword of the six rules before the category question holds an
      'a', an 'i' or an 'l', or the letters "mo". */
  predicate AvoidsEarlierKeywords(m: string)
  {
    && (forall i :: 0 <= i < |m| ==> m[i] != 'a' && m[i] != 'i' && m[i] != 'l')
    && (forall i :: 0 <= i < |m| - 1 && m[i] == 'm' ==> m[i + 1] != 'o')
  }

  lemma TriggersNothingBeforeCategory(m: string)
    requires AvoidsEarlierKeywords(m)
    ensures forall j :: Rank(j) < Rank(AskCategory) ==> !Triggers(j, m)
  {
    CharAbsent(m, "total", 3);
    PairAbsent(m, "most", 0);
    CharAbsent(m, "highest", 1);
    CharAbsent(m, "lowest", 0);
    CharAbsent(m, "least expensive", 0);
    CharAbsent(m, "cheapest", 3);
    CharAbsent(m, "minimum", 1);
    CharAbsent(m, "average", 0);
    CharAbsent(m, "median", 3);
    CharAbsent(m, "thanks", 2);
  }

  /** A message that says "spent on" and contains no keyword of an earlier
      rule is a category question. */
  lemma SpentOnIsCategoryQuestion(m: string)
    requires AvoidsEarlierKeywords(m)
    requires Contains(m, "spent on")
    ensures Classify(m) == AskCategory
  {
    TriggersNothingBeforeCategory(m);
    ClassifyIsFirstTriggered(m, AskCategory);
  }

  // ---------------------------------------------------------------------
  // The category question

  const SpentOn: string := "spent on "
  const CategoryWord: string := "category "

  /** A match of `/spent on |category /` starts at index `i`. */
  predicate DelimiterAt(s: string, i: int)
  {
    OccursAt(s, SpentOn, i) || OccursAt(s, CategoryWord, i)
  }

  function MatchLength(s: string, i: int): nat
  {
    if OccursAt(s, SpentOn, i) then |SpentOn| else |CategoryWord|
  }

  /** The leftmost match at or after `from`, as the regular expression search
      inside `split` finds it. */
  function NextDelimiter(s: string, from: nat): (r: Option<nat>)
    requires from <= |s|
    ensures r.Some? ==> from <= r.value < |s| && DelimiterAt(s, r.value)
    ensures r.Some? ==> forall j :: from <= j < r.value ==> !DelimiterAt(s, j)
    ensures r.None? ==> forall j :: from <= j ==> !DelimiterAt(s, j)
    decreases |s| - from
  {
    if from == |s| then None
    else if DelimiterAt(s, from) then Some(from)
    else NextDelimiter(s, from + 1)
  }

  /** `f` is the second piece of `s.split(/spent on |category /)`: the first
      match starts at `i`, and `f` runs from its end to the next match or to
      the end of `s`. */
  predicate IsSecondField(s: string, i: int, f: string)
  {
    && DelimiterAt(s, i)
    && (forall j :: 0 <= j < i ==> !DelimiterAt(s, j))
    && var start := i + MatchLength(s, i);
       && start + |f| <= |s| && f == s[start..start + |f|]
       && (forall j :: start <= j < start + |f| ==> !DelimiterAt(s, j))
       && (start + |f| == |s| || DelimiterAt(s, start + |f|))
  }

  /** `s.split(/spent on |category /)[1]`, `None` where it is `undefined`:
      when neither delimiter occurs. */
  function SecondField(s: string): (r: Option<string>)
    ensures r.None? <==> forall j :: !DelimiterAt(s, j)
    ensures r.Some? ==> exists i :: IsSecondField(s, i, r.value)
  {
    match NextDelimiter(s, 0)
    case None => None
    case Some(i) =>
      var start := i + MatchLength(s, i);
      match NextDelimiter(s, start)
      case None =>
        assert IsSecondField(s, i, s[start..]);
        Some(s[start..])
      case Some(j) =>
        assert IsSecondField(s, i, s[start..j]);
        Some(s[start..j])
  }

  /** No match of either phrase starts at `j` when one would run past the
      end, or when the text there starts with no 's' and has no 'a' second. */
  lemma NoDelimiterAt(s: string, j: nat)
    requires j + |SpentOn| > |s| || (s[j] != 's' && s[j + 1] != 'a')
    ensures !DelimiterAt(s, j)
  {
    if j + |SpentOn| <= |s| {
      assert s[j..j + |SpentOn|][0] == s[j];
      assert s[j..j + |CategoryWord|][1] == s[j + 1];
    }
  }

  /** The search from `from` finds `i` when `i` is the first match at or
      after `from`. */
  lemma {:induction false} NextDelimiterIs(s: string, from: nat, i: nat)
    requires from <= i < |s| && DelimiterAt(s, i)
    requires forall j :: from <= j < i ==> !DelimiterAt(s, j)
    ensures NextDelimiter(s, from) == Some(i)
    decreases i - from
  {
    if from < i {
      NextDelimiterIs(s, from + 1, i);
    }
  }

  /** The search from `from` finds nothing when no match starts at or after
      `from`. */
  lemma {:induction false} NoNextDelimiter(s: string, from: nat)
    requires from <= |s|
    requires forall j :: from <= j < |s| ==> !DelimiterAt(s, j)
    ensures NextDelimiter(s, from) == None
    decreases |s| - from
  {
    if from < |s| {
      NoNextDelimiter(s, from + 1);
    }
  }

  /** The two searches `split` makes, when the first match starts at `i`
      and the second piece is `f`: the first finds `i`, the second finds
      the end of `f`, or nothing when `f` runs to the end. */
  lemma SecondFieldSearches(s: string, i: nat, f: string)
    requires IsSecondField(s, i, f)
    ensures NextDelimiter(s, 0) == Some(i)
    ensures var end := i + MatchLength(s, i) + |f|;
            NextDelimiter(s, i + MatchLength(s, i)) == if end == |s| then None else Some(end)
  {
    var start := i + MatchLength(s, i);
    NextDelimiterIs(s, 0, i);
    if start + |f| == |s| {
      NoNextDelimiter(s, start);
    } else {
      NextDelimiterIs(s, start, start + |f|);
    }
  }

  /** What `SecondField` returns once the two searches are known: the text
      from the end of the first match to the second match or the end. */
  lemma SecondFieldFromSearches(s: string, i: nat, start: nat, end: nat)
    requires NextDelimiter(s, 0) == Some(i) && start == i + MatchLength(s, i)
    requires start <= end <= |s|
    requires NextDelimiter(s, start) == if end == |s| then None else Some(end)
    ensures SecondField(s) == Some(s[start..end])
  {
    if end == |s| {
      assert s[start..] == s[start..end];
    }
  }

  /** The category name of server.js:133: the second piece, trimmed and
      lower-cased once more. */
  function RequestedCategory(lower: string): Option<string>
  {
    match SecondField(lower)
    case None => None
    case Some(f) => Some(Lower(Trim(f)))
  }

  /** On a lower-cased message the second `toLowerCase` changes nothing: the
      name is the trimmed piece after the first trigger phrase. */
  lemma RequestedCategoryIsTrimmedField(lower: string)
    requires IsLower(lower)
    ensures RequestedCategory(lower).Some? ==>
      exists i, f :: IsSecondField(lower, i, f) && RequestedCategory(lower).value == Trim(f)
  {
    match SecondField(lower)
    case None =>
    case Some(f) =>
      var i :| IsSecondField(lower, i, f);
      var start := i + MatchLength(lower, i);
      assert IsLower(f) by { LowerSlice(lower, start, start + |f|); }
      TrimOfLower(f);
      LowerOfLower(Trim(f));
  }

  /** `index` is the last position of `keys` whose key lower-cases to `name`. */
  predicate IsLastLowerMatch(keys: seq<string>, index: int, name: string)
  {
    && 0 <= index < |keys| && Lower(keys[index]) == name
    && forall j :: index < j < |keys| ==> Lower(keys[j]) != name
  }

  /** `Object.fromEntries` over the entries of `categoryTotals`, in key
      order, with each key lower-cased (server.js:134-136): a later entry
      overwrites an earlier one with the same lower-cased key. */
  function Normalize(keys: seq<string>, totals: map<string, CategoryTotal>): map<string, CategoryTotal>
    requires forall k :: k in keys ==> k in totals
  {
    if keys == [] then map[]
    else
      var last := keys[|keys| - 1];
      Normalize(keys[..|keys| - 1], totals)[Lower(last) := totals[last]]
  }

  /** A name is a key of the normalised map exactly when some stored key
      lower-cases to it. */
  lemma {:induction false} NormalizeKeys(keys: seq<string>, totals: map<string, CategoryTotal>, name: string)
    requires forall k :: k in keys ==> k in totals
    ensures name in Normalize(keys, totals) <==> exists i :: 0 <= i < |keys| && Lower(keys[i]) == name
  {
    if keys != [] {
      var init := keys[..|keys| - 1];
      NormalizeKeys(init, totals, name);
      if exists i :: 0 <= i < |keys| && Lower(keys[i]) == name {
        var i :| 0 <= i < |keys| && Lower(keys[i]) == name;
        if i < |init| { assert init[i] == keys[i]; }
      }
      if exists i :: 0 <= i < |init| && Lower(init[i]) == name {
        var i :| 0 <= i < |init| && Lower(init[i]) == name;
        assert keys[i] == init[i];
      }
    }
  }

  /** The normalised entry of a name is that of the last stored key that
      lower-cases to it: later keys overwrite earlier ones. */
  lemma {:induction false} NormalizeLast(keys: seq<string>, totals: map<string, CategoryTotal>, name: string, index: int)
    requires forall k :: k in keys ==> k in totals
    requires IsLastLowerMatch(keys, index, name)
    ensures name in Normalize(keys, totals)
    ensures Normalize(keys, totals)[name] == totals[keys[index]]
  {
    var init := keys[..|keys| - 1];
    if index < |keys| - 1 {
      assert init[index] == keys[index];
      forall j | index < j < |init| ensures Lower(init[j]) != name {
        assert init[j] == keys[j];
      }
      assert IsLastLowerMatch(init, index, name);
      NormalizeLast(init, totals, name, index);
    }
  }

  /** Where some stored key lower-cases to `name`, one of them is the last. */
  lemma {:induction false} LastLowerMatchExists(keys: seq<string>, name: string, some: int) returns (index: int)
    requires 0 <= some < |keys| && Lower(keys[some]) == name
    ensures IsLastLowerMatch(keys, index, name)
    decreases |keys| - some
  {
    if j :| some < j < |keys| && Lower(keys[j]) == name {
      index := LastLowerMatchExists(keys, name, j);
    } else {
      index := some;
    }
  }

  /** On a consistent snapshot: a name is found exactly when some stored
      category lower-cases to it, and then the hit is the entry of the stored
      key that comes last in key order among those that do. */
  lemma FoundIffSomeKeyLowersToName(s: Stats, name: string)
    requires Consistent(s)
    ensures var normalized := Normalize(s.categoryOrder, s.categoryTotals);
      && (name in normalized <==> exists k :: k in s.categoryTotals && Lower(k) == name)
      && (name in normalized ==>
            exists i :: IsLastLowerMatch(s.categoryOrder, i, name)
                        && normalized[name] == s.categoryTotals[s.categoryOrder[i]])
  {
    NormalizeKeys(s.categoryOrder, s.categoryTotals, name);
    if exists k :: k in s.categoryTotals && Lower(k) == name {
      var k :| k in s.categoryTotals && Lower(k) == name;
      var i :| 0 <= i < |s.categoryOrder| && s.categoryOrder[i] == k;
      var last := LastLowerMatchExists(s.categoryOrder, name, i);
      NormalizeLast(s.categoryOrder, s.categoryTotals, name, last);
    }
  }

  // ---------------------------------------------------------------------
  // Replies

  /** The reply of each branch, carrying the values it reports. */
  datatype Reply =
    | TotalReply(total: real)
    | HighestReply(highest: Expense)
    | LowestReply(lowest: Expense)
    | AverageReply(average: real)
    | MedianReply(median: real)
    | WelcomeReply
    | CategoryReply(category: string, total: real, average: real)
    | NoSuchCategory(category: string)
    | HelpReply
    | GreetingReply
    | FarewellReply
    | FallbackReply

  /** The three ways `generateResponse` throws a `TypeError`. */
  datatype Crash =
    | StatsMissing     // a field of the empty `stats` object is read (server.js:121-138)
    | NoCategoryText   // `split(...)[1]` is `undefined` (server.js:133)
    | AverageMissing   // `stats.categoryAverages[category]` is `undefined` (server.js:138)

  function IntentOf(r: Reply): Intent
  {
    match r
    case TotalReply(_) => AskTotal
    case HighestReply(_) => AskHighest
    case LowestReply(_) => AskLowest
    case AverageReply(_) => AskAverage
    case MedianReply(_) => AskMedian
    case WelcomeReply => Thank
    case CategoryReply(_, _, _) => AskCategory
    case NoSuchCategory(_) => AskCategory
    case HelpReply => AskHelp
    case GreetingReply => Greet
    case FarewellReply => Farewell
    case FallbackReply => Unknown
  }

  /** The lookup of server.js:134-141 as written, for a name and a
      snapshot. The name is found when some stored key lower-cases to it, but
      its average is looked up under the lower-cased name itself. */
  function LookUpCategory(name: string, s: Stats): (r: Result<Reply, Crash>)
    requires Consistent(s)
    ensures r.Ok? ==> r.value.CategoryReply? || r.value == NoSuchCategory(name)
    ensures r.Ok? && r.value.CategoryReply? ==> r.value.category == name
    ensures r.Err? ==> r.error == AverageMissing
    ensures r == Ok(NoSuchCategory(name)) <==> forall k :: k in s.categoryTotals ==> Lower(k) != name
    ensures r == Err(AverageMissing) <==>
      name !in s.categoryAverages && exists k :: k in s.categoryTotals && Lower(k) == name
  {
    FoundIffSomeKeyLowersToName(s, name);
    var normalized := Normalize(s.categoryOrder, s.categoryTotals);
    if name !in normalized then Ok(NoSuchCategory(name))
    else if name !in s.categoryAverages then Err(AverageMissing)
    else Ok(CategoryReply(name, normalized[name].total, s.categoryAverages[name]))
  }

  /** A found category reports the total of the last stored key that
      lower-cases to the name, and the average stored under the name. */
  lemma LookUpCategoryValues(name: string, s: Stats)
    requires Consistent(s)
    ensures var r := LookUpCategory(name, s);
      r.Ok? && r.value.CategoryReply? ==>
        && r.value.average == s.categoryAverages[name]
        && exists i :: IsLastLowerMatch(s.categoryOrder, i, name)
             && r.value.total == s.categoryTotals[s.categoryOrder[i]].total
  {
    FoundIffSomeKeyLowersToName(s, name);
  }

  /** The lookup as evidently intended: the average is that of the entry the
      lookup found, so no name that is found can crash it. */
  function LookUpCategoryIntended(name: string, s: Stats): (r: Reply)
    requires Consistent(s)
    ensures r.CategoryReply? || r == NoSuchCategory(name)
    ensures r == NoSuchCategory(name) <==> forall k :: k in s.categoryTotals ==> Lower(k) != name
    ensures r.CategoryReply? ==>
      && r.category == name
      && exists i :: IsLastLowerMatch(s.categoryOrder, i, name)
           && var entry := s.categoryTotals[s.categoryOrder[i]];
              r.total == entry.total && r.average == entry.total / entry.count as real
  {
    FoundIffSomeKeyLowersToName(s, name);
    var normalized := Normalize(s.categoryOrder, s.categoryTotals);
    if name !in normalized then NoSuchCategory(name)
    else
      var entry := normalized[name];
      assert entry.count > 0;
      CategoryReply(name, entry.total, entry.total / entry.count as real)
  }

  /** The category branch (server.js:132-141) for the name `requested`
      that `RequestedCategory` extracts: no text after the trigger phrase,
      or no snapshot, throws before the lookup. */
  function CategoryAnswer(requested: Option<string>, stats: Option<Stats>): (r: Result<Reply, Crash>)
    requires stats.Some? ==> Consistent(stats.value)
    ensures r.Ok? ==> IntentOf(r.value) == AskCategory
    ensures r == Err(NoCategoryText) <==> requested.None?
    ensures r == Err(StatsMissing) <==> requested.Some? && stats.None?
    ensures r == Err(AverageMissing) <==>
      && stats.Some? && requested.Some?
      && requested.value !in stats.value.categoryAverages
      && exists k :: k in stats.value.categoryTotals && Lower(k) == requested.value
  {
    if requested.None? then Err(NoCategoryText)
    else if stats.None? then Err(StatsMissing)
    else LookUpCategory(requested.value, stats.value)
  }

  /** The category branch with the corrected lookup. */
  function CategoryAnswerIntended(requested: Option<string>, stats: Option<Stats>): (r: Result<Reply, Crash>)
    requires stats.Some? ==> Consistent(stats.value)
    ensures r != Err(AverageMissing)
    ensures r == Err(NoCategoryText) <==> requested.None?
    ensures r == Err(StatsMissing) <==> requested.Some? && stats.None?
  {
    if requested.None? then Err(NoCategoryText)
    else if stats.None? then Err(StatsMissing)
    else Ok(LookUpCategoryIntended(requested.value, stats.value))
  }

  /** The rules that read the snapshot. */
  predicate ReadsStats(intent: Intent, lower: string)
  {
    intent in {AskTotal, AskHighest, AskLowest, AskAverage, AskMedian}
    || (intent == AskCategory && RequestedCategory(lower).Some?)
  }

  /** The reply to one recognised rule. */
  function Answer(intent: Intent, lower: string, stats: Option<Stats>): (r: Result<Reply, Crash>)
    requires stats.Some? ==> Consistent(stats.value)
    ensures r.Ok? ==> IntentOf(r.value) == intent
    ensures r == Err(StatsMissing) <==> stats.None? && ReadsStats(intent, lower)
    ensures r == Err(NoCategoryText) <==> intent == AskCategory && RequestedCategory(lower).None?
    ensures r == Err(AverageMissing) <==>
      && stats.Some? && intent == AskCategory && RequestedCategory(lower).Some?
      && RequestedCategory(lower).value !in stats.value.categoryAverages
      && exists k :: k in stats.value.categoryTotals && Lower(k) == RequestedCategory(lower).value
  {
    match intent
    case AskTotal => if stats.None? then Err(StatsMissing) else Ok(TotalReply(stats.value.totalExpenses))
    case AskHighest => if stats.None? then Err(StatsMissing) else Ok(HighestReply(stats.value.highestExpense))
    case AskLowest => if stats.None? then Err(StatsMissing) else Ok(LowestReply(stats.value.lowestExpense))
    case AskAverage => if stats.None? then Err(StatsMissing) else Ok(AverageReply(stats.value.averageExpense))
    case AskMedian => if stats.None? then Err(StatsMissing) else Ok(MedianReply(stats.value.medianExpense))
    case Thank => Ok(WelcomeReply)
    case AskCategory => CategoryAnswer(RequestedCategory(lower), stats)
    case AskHelp => Ok(HelpReply)
    case Greet => Ok(GreetingReply)
    case Farewell => Ok(FarewellReply)
    case Unknown => Ok(FallbackReply)
  }

  /** `generateResponse`: the reply is the one of the first rule the
      lower-cased message triggers, and each crash happens exactly where the
      source throws. */
  function GenerateResponse(message: string, stats: Option<Stats>): (r: Result<Reply, Crash>)
    requires stats.Some? ==> Consistent(stats.value)
    ensures r.Ok? ==> IntentOf(r.value) == Classify(Lower(message))
    ensures r == Err(StatsMissing) <==> stats.None? && ReadsStats(Classify(Lower(message)), Lower(message))
    ensures r == Err(NoCategoryText) <==>
      Classify(Lower(message)) == AskCategory && RequestedCategory(Lower(message)).None?
    ensures r == Err(AverageMissing) <==>
      && stats.Some? && Classify(Lower(message)) == AskCategory
      && RequestedCategory(Lower(message)).Some?
      && RequestedCategory(Lower(message)).value !in stats.value.categoryAverages
      && exists k :: k in stats.value.categoryTotals && Lower(k) == RequestedCategory(Lower(message)).value
  {
    var lower := Lower(message);
    Answer(Classify(lower), lower, stats)
  }

  // ---------------------------------------------------------------------
  // Properties of the resolver

  /** The resolver only sees the lower-cased message. */
  lemma CaseInsensitive(message: string, stats: Option<Stats>)
    requires stats.Some? ==> Consistent(stats.value)
    ensures GenerateResponse(Lower(message), stats) == GenerateResponse(message, stats)
  {
    LowerIdempotent(message);
  }

  /** The reply is that of the first rule, in source order, whose keywords
      the lower-cased message contains. */
  lemma FirstTriggeredRuleAnswers(message: string, stats: Option<Stats>, k: Intent)
    requires stats.Some? ==> Consistent(stats.value)
    requires Triggers(k, Lower(message))
    requires forall j :: Rank(j) < Rank(k) ==> !Triggers(j, Lower(message))
    ensures GenerateResponse(message, stats) == Answer(k, Lower(message), stats)
  {
    ClassifyIsFirstTriggered(Lower(message), k);
  }

  /** A message containing "total" is always answered with the total, even
      when it also asks for something else ("total of the highest expenses");
      before an upload it throws. */
  lemma TotalWins(message: string, stats: Option<Stats>)
    requires stats.Some? ==> Consistent(stats.value)
    requires Contains(Lower(message), "total")
    ensures GenerateResponse(message, stats)
         == if stats.None? then Err(StatsMissing) else Ok(TotalReply(stats.value.totalExpenses))
  {
    FirstTriggeredRuleAnswers(message, stats, AskTotal);
  }

  /** Rules that read no statistics (thanks, help, greetings, farewells, the
      fallback, and a category question with nothing after the trigger) give
      the same outcome before and after an upload, and the only one of them
      that throws is the category question without a name. */
  lemma StatsIndependentReplies(message: string, s1: Option<Stats>, s2: Option<Stats>)
    requires s1.Some? ==> Consistent(s1.value)
    requires s2.Some? ==> Consistent(s2.value)
    requires !ReadsStats(Classify(Lower(message)), Lower(message))
    ensures GenerateResponse(message, s1) == GenerateResponse(message, s2)
    ensures GenerateResponse(message, s1).Ok? || GenerateResponse(message, s1) == Err(NoCategoryText)
  {
    var lower := Lower(message);
    var intent := Classify(lower);
    if intent == AskCategory {
      assert RequestedCategory(lower).None?;
    }
  }

  /** After an upload of the non-empty list `xs`, no rule throws for want of
      statistics, and the replies carry the values the snapshot defines: the
      sum, the first record of greatest and of least amount, the mean, and
      the median of the sorted copy. */
  lemma RepliesOnSnapshot(message: string, xs: seq<Expense>)
    requires xs != []
    ensures Consistent(Snapshot(xs))
    ensures var r := GenerateResponse(message, Some(Snapshot(xs)));
      var intent := Classify(Lower(message));
      && r != Err(StatsMissing)
      && (intent == AskTotal ==> r == Ok(TotalReply(Sum(xs))))
      && (intent == AskHighest ==> r == Ok(HighestReply(Highest(xs))))
      && (intent == AskLowest ==> r == Ok(LowestReply(Lowest(xs))))
      && (intent == AskAverage ==> r == Ok(AverageReply(Sum(xs) / |xs| as real)))
      && (intent == AskMedian ==> r == Ok(MedianReply(Median(SortByAmount(xs)))))
  {
    SnapshotConsistent(xs);
    SnapshotTotals(xs);
  }

  // ---------------------------------------------------------------------
  // The category lookup as written and as intended

  lemma LowerFood()
    ensures Lower("Food") == "food"
  {
    var r := Lower("Food");
    assert r[0] == 'f' && r[1] == 'o' && r[2] == 'o' && r[3] == 'd';
  }

  /** With one record of category "Food", the question for "food" finds the
      category but throws: its average is stored under "Food" only. */
  lemma MixedCaseCategoryCrashes(e: Expense)
    requires e.category == "Food"
    ensures Consistent(Snapshot([e]))
    ensures LookUpCategory("food", Snapshot([e])) == Err(AverageMissing)
  {
    SnapshotConsistent([e]);
    SnapshotCategories([e]);
    var s := Snapshot([e]);
    assert Categories([e]) == {"Food"} by { assert [e][0].category == "Food"; }
    LowerFood();
    assert "food" != "Food" by { assert "food"[0] != "Food"[0]; }
    assert "Food" in s.categoryTotals && Lower("Food") == "food";
  }

  /** End to end: a category question that names "food", after an upload of
      one record of category "Food", makes `generateResponse` throw. */
  lemma MixedCaseMessageCrashes(message: string, e: Expense)
    requires e.category == "Food"
    requires Classify(Lower(message)) == AskCategory
    requires RequestedCategory(Lower(message)) == Some("food")
    ensures Consistent(Snapshot([e]))
    ensures GenerateResponse(message, Some(Snapshot([e]))) == Err(AverageMissing)
  {
    SnapshotConsistent([e]);
    MixedCaseCategoryCrashes(e);
  }

  /** The message of the finding. */
  const HowMuchOnFood: string := "how much spent on food"

  lemma HowMuchOnFoodIsLower()
    ensures Lower(HowMuchOnFood) == HowMuchOnFood
  {
    assert IsLower(HowMuchOnFood);
    LowerOfLower(HowMuchOnFood);
  }

  /** "how much spent on food" is a category question: "much" has an 'm'
      but no "mo", and no earlier keyword fits its letters. */
  lemma HowMuchOnFoodIsCategoryQuestion()
    ensures Classify(HowMuchOnFood) == AskCategory
  {
    assert OccursAt(HowMuchOnFood, "spent on", 9);
    SpentOnIsCategoryQuestion(HowMuchOnFood);
  }

  /** Its second piece is "food": "spent on " is the only match, at 9. */
  lemma HowMuchOnFoodField()
    ensures SecondField(HowMuchOnFood) == Some("food")
  {
    HowMuchOnFoodSplits();
    SecondFieldSearches(HowMuchOnFood, 9, "food");
    SecondFieldFromSearches(HowMuchOnFood, 9, 18, 22);
    assert HowMuchOnFood[18..22] == "food";
  }

  lemma HowMuchOnFoodSplits()
    ensures OccursAt(HowMuchOnFood, SpentOn, 9)
    ensures IsSecondField(HowMuchOnFood, 9, "food")
  {
    var m := HowMuchOnFood;
    forall j | 0 <= j < 9 ensures !DelimiterAt(m, j) { NoDelimiterAt(m, j); }
    forall j | 18 <= j < 22 ensures !DelimiterAt(m, j) { NoDelimiterAt(m, j); }
    HowMuchOnFoodSpentOn();
    assert m[18..22] == "food";
  }

  lemma HowMuchOnFoodSpentOn()
    ensures OccursAt(HowMuchOnFood, SpentOn, 9)
  {
    var m := HowMuchOnFood;
    forall k | 0 <= k < |SpentOn| ensures m[9..18][k] == SpentOn[k] {
      assert m[9 + k] == SpentOn[k];
    }
    assert m[9..18] == SpentOn;
  }

  lemma FoodIsTrimmed()
    ensures Lower(Trim("food")) == "food"
  {
    assert Trim("food") == "food";
    assert IsLower("food");
    LowerOfLower("food");
  }

  /** The finding on the message itself: after an upload of one record of
      category "Food", "how much spent on food" makes `generateResponse`
      throw in the average lookup. */
  lemma HowMuchOnFoodCrashes(e: Expense)
    requires e.category == "Food"
    ensures Consistent(Snapshot([e]))
    ensures GenerateResponse(HowMuchOnFood, Some(Snapshot([e]))) == Err(AverageMissing)
  {
    HowMuchOnFoodIsLower();
    HowMuchOnFoodIsCategoryQuestion();
    HowMuchOnFoodField();
    FoodIsTrimmed();
    MixedCaseMessageCrashes(HowMuchOnFood, e);
  }

  /** Where every stored category matching the name is the name itself and
      each average is its entry's total over its count, the corrected lookup
      gives exactly the reply the source gives. */
  lemma IntendedAgrees(name: string, s: Stats)
    requires Consistent(s)
    requires forall k :: k in s.categoryTotals && Lower(k) == name ==> k == name
    requires forall k :: k in s.categoryAverages ==>
      s.categoryAverages[k] == s.categoryTotals[k].total / s.categoryTotals[k].count as real
    ensures LookUpCategory(name, s) == Ok(LookUpCategoryIntended(name, s))
  {
    var r := LookUpCategory(name, s);
    var q := LookUpCategoryIntended(name, s);
    if q.CategoryReply? {
      var i :| IsLastLowerMatch(s.categoryOrder, i, name)
               && var entry := s.categoryTotals[s.categoryOrder[i]];
                  q.total == entry.total && q.average == entry.total / entry.count as real;
      assert s.categoryOrder[i] in s.categoryOrder;
      assert s.categoryOrder[i] == name;
      assert r.Ok? && r.value.CategoryReply?;
      LookUpCategoryValues(name, s);
      var i' :| IsLastLowerMatch(s.categoryOrder, i', name)
                && r.value.total == s.categoryTotals[s.categoryOrder[i']].total;
      assert s.categoryOrder[i'] in s.categoryOrder;
    }
  }

  /** On an upload where the categories matching the name are spelled as
      the name (all categories written in lower case, say), the corrected
      lookup and the source agree. */
  lemma IntendedAgreesOnSnapshot(xs: seq<Expense>, name: string)
    requires xs != []
    requires forall c :: c in Categories(xs) && Lower(c) == name ==> c == name
    ensures Consistent(Snapshot(xs))
    ensures LookUpCategory(name, Snapshot(xs)) == Ok(LookUpCategoryIntended(name, Snapshot(xs)))
  {
    SnapshotConsistent(xs);
    SnapshotCategories(xs);
    IntendedAgrees(name, Snapshot(xs));
  }
}
