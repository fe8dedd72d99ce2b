/** GET /api/stats in backend/server.js: for each language of the fixed set the handler
    keeps the user's rows of that language, counts them and their wins, sorts them by
    date in place and walks them with a running streak counter and a maximum. A streak
    is a run of consecutive wins in the date-sorted rows, not of consecutive days. */
module Stats {
  import opened Records
  import opened WordBank

  datatype LangStats = LangStats(total: nat, wins: nat, maxStreak: nat)

  /** `rows.filter((r) => r.language === lang)`: the rows of that language, each as
      often as in `rows`. */
  function OfLanguage(rows: seq<Row>, lang: string): (list: seq<Row>)
    ensures forall x :: multiset(list)[x] == if x.language == lang then multiset(rows)[x] else 0
    ensures forall x :: x in list ==> x.language == lang
  {
    if rows == [] then []
    else
      assert rows == [rows[0]] + rows[1..];
      (if rows[0].language == lang then [rows[0]] else []) + OfLanguage(rows[1..], lang)
  }

  /** `list.filter((r) => r.won === 1).length`. */
  function CountWins(list: seq<Row>): (n: nat)
    ensures n <= |list|
  {
    if list == [] then 0 else (if list[0].won == 1 then 1 else 0) + CountWins(list[1..])
  }

  /** `a.localeCompare(b) <= 0`, taken as character-by-character lexicographic order,
      which is the order of dates written YYYY-MM-DD: `a` is a prefix of `b`, or the two
      first differ at a position where `a` has the smaller character. */
  predicate DateLe(a: string, b: string): (r: bool)
    ensures r <==> Lexicographic(a, b)
  {
    if a == [] then true
    else if b == [] then false
    else if a[0] != b[0] then
      LexFirstDiffers(a, b);
      a[0] < b[0]
    else
      LexTail(a, b);
      DateLe(a[1..], b[1..])
  }

  ghost predicate Lexicographic(a: string, b: string) {
    a <= b || exists k :: 0 <= k < |a| && k < |b| && a[..k] == b[..k] && a[k] < b[k]
  }

  lemma LexFirstDiffers(a: string, b: string)
    requires a != [] && b != [] && a[0] != b[0]
    ensures Lexicographic(a, b) <==> a[0] < b[0]
  {
    if a[0] < b[0] {
      assert a[..0] == b[..0];
    }
  }

  lemma LexTail(a: string, b: string)
    requires a != [] && b != [] && a[0] == b[0]
    ensures Lexicographic(a, b) <==> Lexicographic(a[1..], b[1..])
  {
    assert a <= b <==> a[1..] <= b[1..] by {
      assert a == [a[0]] + a[1..] && b == [b[0]] + b[1..];
    }
    if exists k :: 0 <= k < |a| && k < |b| && a[..k] == b[..k] && a[k] < b[k] {
      var k :| 0 <= k < |a| && k < |b| && a[..k] == b[..k] && a[k] < b[k];
      LexStepDown(a, b, k);
    }
    if exists k :: 0 <= k < |a| - 1 && k < |b| - 1 && a[1..][..k] == b[1..][..k] && a[1..][k] < b[1..][k] {
      var k :| 0 <= k < |a| - 1 && k < |b| - 1 && a[1..][..k] == b[1..][..k] && a[1..][k] < b[1..][k];
      LexStepUp(a, b, k);
    }
  }

  /** A first difference at `k` past a shared first character is one at `k - 1` in the tails. */
  lemma LexStepDown(a: string, b: string, k: nat)
    requires a != [] && b != [] && a[0] == b[0]
    requires k < |a| && k < |b| && a[..k] == b[..k] && a[k] < b[k]
    ensures 0 < k && a[1..][..k - 1] == b[1..][..k - 1] && a[1..][k - 1] < b[1..][k - 1]
  {
    assert a[1..][..k - 1] == a[1..k] == b[1..k] == b[1..][..k - 1];
  }

  /** A first difference at `k` in the tails is one at `k + 1` after a shared first character. */
  lemma LexStepUp(a: string, b: string, k: nat)
    requires a != [] && b != [] && a[0] == b[0]
    requires k < |a| - 1 && k < |b| - 1 && a[1..][..k] == b[1..][..k] && a[1..][k] < b[1..][k]
    ensures a[..k + 1] == b[..k + 1] && a[k + 1] < b[k + 1]
  {
    assert a[..k + 1] == [a[0]] + a[1..][..k] && b[..k + 1] == [b[0]] + b[1..][..k];
  }

  lemma {:induction false} DateLeTotal(a: string, b: string)
    ensures DateLe(a, b) || DateLe(b, a)
  {
    if a != [] && b != [] && a[0] == b[0] {
      DateLeTotal(a[1..], b[1..]);
    }
  }

  lemma {:induction false} DateLeTransitive(a: string, b: string, c: string)
    requires DateLe(a, b) && DateLe(b, c)
    ensures DateLe(a, c)
  {
    if a != [] && b != [] && c != [] && a[0] == b[0] && b[0] == c[0] {
      DateLeTransitive(a[1..], b[1..], c[1..]);
    }
  }

  lemma {:induction false} DateLeAntisymmetric(a: string, b: string)
    requires DateLe(a, b) && DateLe(b, a)
    ensures a == b
  {
    if a != [] && b != [] {
      DateLeAntisymmetric(a[1..], b[1..]);
      assert a == [a[0]] + a[1..] && b == [b[0]] + b[1..];
    }
  }

  ghost predicate DateSorted(s: seq<Row>) {
    forall i, j :: 0 <= i < j < |s| ==> DateLe(s[i].date, s[j].date)
  }

  /** `list.sort((a, b) => a.date.localeCompare(b.date))`, as an insertion sort: the array
      ends up sorted by date and holds the same rows. */
  method SortByDate(a: array<Row>)
    modifies a
    ensures DateSorted(a[..])
    ensures multiset(a[..]) == multiset(old(a[..]))
  {
    for i := 0 to a.Length
      invariant forall p, q :: 0 <= p < q < i ==> DateLe(a[p].date, a[q].date)
      invariant multiset(a[..]) == multiset(old(a[..]))
    {
      InsertAt(a, i);
    }
  }

  /** One round of the insertion sort: `a[i]` moves left past every row dated after it,
      extending the sorted prefix by one. */
  method InsertAt(a: array<Row>, i: nat)
    requires i < a.Length
    requires forall p, q :: 0 <= p < q < i ==> DateLe(a[p].date, a[q].date)
    modifies a
    ensures forall p, q :: 0 <= p < q <= i ==> DateLe(a[p].date, a[q].date)
    ensures multiset(a[..]) == multiset(old(a[..]))
  {
    var j := i;
    while j > 0 && !DateLe(a[j - 1].date, a[j].date)
      invariant 0 <= j <= i
      invariant forall p, q :: 0 <= p < q <= i && p != j && q != j ==> DateLe(a[p].date, a[q].date)
      invariant forall q :: j < q <= i ==> DateLe(a[j].date, a[q].date)
      invariant multiset(a[..]) == multiset(old(a[..]))
    {
      DateLeTotal(a[j - 1].date, a[j].date);
      a[j - 1], a[j] := a[j], a[j - 1];
      j := j - 1;
    }
    forall p | 0 <= p < j - 1
      ensures DateLe(a[p].date, a[j].date)
    {
      DateLeTransitive(a[p].date, a[j - 1].date, a[j].date);
    }
  }

  /** Every row in `s[i..j]` is a win. */
  ghost predicate AllWon(s: seq<Row>, i: int, j: int)
    requires 0 <= i <= j <= |s|
  {
    forall q :: i <= q < j ==> s[q].won == 1
  }

  /** `m` is the length of the longest run of consecutive wins in `s`. */
  ghost predicate IsLongestWinRun(s: seq<Row>, m: nat) {
    (exists i, j :: 0 <= i <= j <= |s| && j - i == m && AllWon(s, i, j)) &&
    (forall i, j :: 0 <= i <= j <= |s| && AllWon(s, i, j) ==> j - i <= m)
  }

  /** The `forEach` over the sorted rows: `streak` counts the wins since the last loss,
      `maxStreak` keeps its largest value. */
  method LongestStreak(a: array<Row>) returns (maxStreak: nat)
    ensures IsLongestWinRun(a[..], maxStreak)
  {
    ghost var s := a[..];
    var streak: nat := 0;
    maxStreak := 0;
    assert AllWon(s, 0, 0);
    for k := 0 to a.Length
      invariant streak <= k && streak <= maxStreak
      invariant AllWon(s, k - streak, k)
      invariant streak < k ==> s[k - streak - 1].won != 1
      invariant exists i, j :: 0 <= i <= j <= k && j - i == maxStreak && AllWon(s, i, j)
      invariant forall i, j :: 0 <= i <= j <= k && AllWon(s, i, j) ==> j - i <= maxStreak
    {
      assert a[k] == s[k];
      if a[k].won == 1 {
        streak := streak + 1;
        if streak > maxStreak {
          maxStreak := streak;
        }
        assert AllWon(s, k + 1 - streak, k + 1);
        forall i, j | 0 <= i <= j <= k + 1 && AllWon(s, i, j)
          ensures j - i <= maxStreak
        {
        }
      } else {
        streak := 0;
        forall i, j | 0 <= i <= j <= k + 1 && AllWon(s, i, j)
          ensures j - i <= maxStreak
        {
        }
      }
    }
    assert s == a[..];
  }

  /** `t` is `list` sorted by date. */
  ghost predicate IsDateOrdering(t: seq<Row>, list: seq<Row>) {
    multiset(t) == multiset(list) && DateSorted(t)
  }

  /** What the handler reports for `lang`: the number of rows of that language, the
      number of those won, and the longest winning run once they are sorted by date. */
  ghost predicate IsStatsOf(rows: seq<Row>, lang: string, s: LangStats) {
    var list := OfLanguage(rows, lang);
    s.total == |list| && s.wins == CountWins(list) &&
    exists t :: IsDateOrdering(t, list) && IsLongestWinRun(t, s.maxStreak)
  }

  /** The body of the loop over languages. */
  method LanguageStats(rows: seq<Row>, lang: string) returns (s: LangStats)
    ensures IsStatsOf(rows, lang, s)
  {
    var list := OfLanguage(rows, lang);
    var wins := CountWins(list);
    var sorted := new Row[|list|](i requires 0 <= i < |list| => list[i]);
    assert sorted[..] == list;
    SortByDate(sorted);
    var maxStreak := LongestStreak(sorted);
    s := LangStats(|list|, wins, maxStreak);
    assert IsDateOrdering(sorted[..], list);
  }

  /** The handler: one entry for each of en, es and fr. */
  method ComputeStats(rows: seq<Row>) returns (stats: map<string, LangStats>)
    ensures stats.Keys == set lang | lang in Languages
    ensures forall lang :: lang in stats ==> IsStatsOf(rows, lang, stats[lang])
  {
    stats := map[];
    for n := 0 to |Languages|
      invariant stats.Keys == set lang | lang in Languages[..n]
      invariant forall lang :: lang in stats ==> IsStatsOf(rows, lang, stats[lang])
    {
      var s := LanguageStats(rows, Languages[n]);
      stats := stats[Languages[n] := s];
      assert Languages[..n + 1] == Languages[..n] + [Languages[n]];
    }
    assert Languages[..|Languages|] == Languages;
  }

  // Counting lemmas

  lemma {:induction false} CountWinsAppend(a: seq<Row>, b: seq<Row>)
    ensures CountWins(a + b) == CountWins(a) + CountWins(b)
  {
    if a == [] {
      assert a + b == b;
    } else {
      assert (a + b)[1..] == a[1..] + b;
      CountWinsAppend(a[1..], b);
    }
  }

  /** The number of wins does not depend on the order of the rows. */
  lemma {:induction false} CountWinsPermutation(s: seq<Row>, t: seq<Row>)
    requires multiset(s) == multiset(t)
    ensures CountWins(s) == CountWins(t)
  {
    if s != [] {
      assert s[0] in multiset(t);
      var k :| 0 <= k < |t| && t[k] == s[0];
      var rest := t[..k] + t[k + 1..];
      RemoveRow(t, k);
      assert s == [s[0]] + s[1..];
      assert multiset(s[1..]) == multiset(s) - multiset{s[0]};
      CountWinsPermutation(s[1..], rest);
    } else {
      assert |t| == |multiset(t)| == 0;
    }
  }

  /** Taking row `k` out of `t` removes it from the multiset and its win from the count. */
  lemma RemoveRow(t: seq<Row>, k: nat)
    requires k < |t|
    ensures multiset(t[..k] + t[k + 1..]) == multiset(t) - multiset{t[k]}
    ensures CountWins(t) == CountWins(t[..k] + t[k + 1..]) + (if t[k].won == 1 then 1 else 0)
  {
    var a, b := t[..k], t[k + 1..];
    assert t[..k + 1] == a + [t[k]];
    assert t == t[..k + 1] + b;
    assert multiset(t) == multiset(a) + multiset{t[k]} + multiset(b);
    CountWinsAppend(a + [t[k]], b);
    CountWinsAppend(a, [t[k]]);
    CountWinsAppend(a, b);
  }

  lemma {:induction false} AllWonCount(s: seq<Row>, i: int, j: int)
    requires 0 <= i <= j <= |s| && AllWon(s, i, j)
    ensures CountWins(s) >= j - i
  {
    if s != [] {
      if i == 0 {
        if j > 0 {
          AllWonCount(s[1..], 0, j - 1);
        }
      } else {
        AllWonCount(s[1..], i - 1, j - 1);
      }
    }
  }

  lemma {:induction false} SomeWin(s: seq<Row>)
    requires CountWins(s) > 0
    ensures exists q :: 0 <= q < |s| && s[q].won == 1
  {
    if s[0].won != 1 {
      SomeWin(s[1..]);
      var q :| 0 <= q < |s[1..]| && s[1..][q] == s[q + 1] && s[q + 1].won == 1;
    }
  }

  // Properties of the statistics

  /** A sequence has one longest winning run length. */
  lemma LongestWinRunUnique(s: seq<Row>, m1: nat, m2: nat)
    requires IsLongestWinRun(s, m1) && IsLongestWinRun(s, m2)
    ensures m1 == m2
  {
    var i1, j1 :| 0 <= i1 <= j1 <= |s| && j1 - i1 == m1 && AllWon(s, i1, j1);
    var i2, j2 :| 0 <= i2 <= j2 <= |s| && j2 - i2 == m2 && AllWon(s, i2, j2);
  }

  /** wins never exceed total, the longest streak never exceeds wins, and it is 0
      exactly when there are no wins. */
  lemma StatsBounds(rows: seq<Row>, lang: string, s: LangStats)
    requires IsStatsOf(rows, lang, s)
    ensures s.wins <= s.total
    ensures s.maxStreak <= s.wins
    ensures s.maxStreak == 0 <==> s.wins == 0
  {
    var list := OfLanguage(rows, lang);
    var t: seq<Row> :| IsDateOrdering(t, list) && IsLongestWinRun(t, s.maxStreak);
    CountWinsPermutation(t, list);
    var i, j :| 0 <= i <= j <= |t| && j - i == s.maxStreak && AllWon(t, i, j);
    AllWonCount(t, i, j);
    if s.wins > 0 {
      SomeWin(t);
      var q :| 0 <= q < |t| && t[q].won == 1;
      assert AllWon(t, q, q + 1);
    }
  }

  /** A language without rows reports zero games, zero wins and no streak. */
  lemma NoRowsNoStats(rows: seq<Row>, lang: string, s: LangStats)
    requires forall x :: x in rows ==> x.language != lang
    requires IsStatsOf(rows, lang, s)
    ensures s == LangStats(0, 0, 0)
  {
    var list := OfLanguage(rows, lang);
    var t: seq<Row> :| IsDateOrdering(t, list) && IsLongestWinRun(t, s.maxStreak);
    assert |t| == |multiset(t)| == 0;
  }

  /** Two date-sorted orderings of the same rows, no two of which share a date, start
      with the same row. */
  lemma SortedHeadsAgree(s: seq<Row>, t: seq<Row>)
    requires s != [] && t != []
    requires DateSorted(s) && DateSorted(t) && multiset(s) == multiset(t)
    requires forall x, y :: x in s && y in s && x.date == y.date ==> x == y
    ensures s[0] == t[0]
  {
    assert s[0] in multiset(t) && t[0] in multiset(s);
    var k :| 0 <= k < |t| && t[k] == s[0];
    var m :| 0 <= m < |s| && s[m] == t[0];
    if k > 0 && m > 0 {
      assert DateLe(t[0].date, t[k].date);
      assert DateLe(s[0].date, s[m].date);
      DateLeAntisymmetric(s[0].date, t[0].date);
    }
  }

  lemma SortedTail(s: seq<Row>)
    requires s != [] && DateSorted(s)
    ensures DateSorted(s[1..])
    ensures multiset(s[1..]) == multiset(s) - multiset{s[0]}
  {
    assert s == [s[0]] + s[1..];
  }

  /** Sorting rows whose dates are all different has one outcome. */
  lemma {:induction false} SortedPermutationUnique(s: seq<Row>, t: seq<Row>)
    requires DateSorted(s) && DateSorted(t) && multiset(s) == multiset(t)
    requires forall x, y :: x in s && y in s && x.date == y.date ==> x == y
    ensures s == t
  {
    assert |t| == |multiset(t)| == |s|;
    if s != [] {
      SortedTails(s, t);
      SortedPermutationUnique(s[1..], t[1..]);
      assert s == [s[0]] + s[1..] && t == [t[0]] + t[1..];
    }
  }

  /** The step of the uniqueness proof: the heads agree and the tails meet the same
      conditions. */
  lemma SortedTails(s: seq<Row>, t: seq<Row>)
    requires s != [] && t != []
    requires DateSorted(s) && DateSorted(t) && multiset(s) == multiset(t)
    requires forall x, y :: x in s && y in s && x.date == y.date ==> x == y
    ensures s[0] == t[0]
    ensures DateSorted(s[1..]) && DateSorted(t[1..]) && multiset(s[1..]) == multiset(t[1..])
    ensures forall x, y :: x in s[1..] && y in s[1..] && x.date == y.date ==> x == y
  {
    SortedHeadsAgree(s, t);
    SortedTail(s);
    SortedTail(t);
  }

  lemma SameRowsOfLanguage(rows1: seq<Row>, rows2: seq<Row>, lang: string)
    requires multiset(rows1) == multiset(rows2)
    ensures multiset(OfLanguage(rows1, lang)) == multiset(OfLanguage(rows2, lang))
  {
    var list1, list2 := OfLanguage(rows1, lang), OfLanguage(rows2, lang);
    forall x ensures multiset(list1)[x] == multiset(list2)[x] {
    }
  }

  /** When no two rows of `lang` share a date (which the table's key guarantees), the
      statistics do not depend on the order in which the rows arrive. */
  lemma StatsIgnoreRowOrder(rows1: seq<Row>, rows2: seq<Row>, lang: string, s1: LangStats, s2: LangStats)
    requires multiset(rows1) == multiset(rows2)
    requires forall x, y :: x in rows1 && y in rows1 && x.language == lang && y.language == lang && x.date == y.date ==> x == y
    requires IsStatsOf(rows1, lang, s1) && IsStatsOf(rows2, lang, s2)
    ensures s1 == s2
  {
    var list1, list2 := OfLanguage(rows1, lang), OfLanguage(rows2, lang);
    SameRowsOfLanguage(rows1, rows2, lang);
    CountWinsPermutation(list1, list2);
    assert |list1| == |multiset(list1)| == |list2|;
    var t1: seq<Row> :| IsDateOrdering(t1, list1) && IsLongestWinRun(t1, s1.maxStreak);
    var t2: seq<Row> :| IsDateOrdering(t2, list2) && IsLongestWinRun(t2, s2.maxStreak);
    OrderingKeepsDistinctDates(rows1, lang, t1);
    OrderingsAgreeOnStreak(t1, t2, s1.maxStreak, s2.maxStreak);
  }

  /** An arrangement of one language's rows inherits their distinct dates. */
  lemma OrderingKeepsDistinctDates(rows: seq<Row>, lang: string, t: seq<Row>)
    requires multiset(t) == multiset(OfLanguage(rows, lang))
    requires forall x, y :: x in rows && y in rows && x.language == lang && y.language == lang && x.date == y.date ==> x == y
    ensures forall x, y :: x in t && y in t && x.date == y.date ==> x == y
  {
    var list := OfLanguage(rows, lang);
    forall x, y | x in t && y in t && x.date == y.date
      ensures x == y
    {
      assert x in multiset(list) && y in multiset(list);
      assert x in multiset(rows) && y in multiset(rows);
    }
  }

  lemma OrderingsAgreeOnStreak(t1: seq<Row>, t2: seq<Row>, m1: nat, m2: nat)
    requires DateSorted(t1) && DateSorted(t2) && multiset(t1) == multiset(t2)
    requires forall x, y :: x in t1 && y in t1 && x.date == y.date ==> x == y
    requires IsLongestWinRun(t1, m1) && IsLongestWinRun(t2, m2)
    ensures m1 == m2
  {
    SortedPermutationUnique(t1, t2);
    LongestWinRunUnique(t1, m1, m2);
  }

  /** Stats computed from any two listings of one user's stored records agree. */
  lemma StoredStatsAreDeterminate(rows1: seq<Row>, rows2: seq<Row>, store: Store, user: int,
                                  lang: string, s1: LangStats, s2: LangStats)
    requires ListsUserRows(rows1, store, user) && ListsUserRows(rows2, store, user)
    requires IsStatsOf(rows1, lang, s1) && IsStatsOf(rows2, lang, s2)
    ensures s1 == s2
  {
    ListingsArePermutations(rows1, rows2, store, user);
    UserRowsHaveDistinctDates(rows1, store, user);
    StatsIgnoreRowOrder(rows1, rows2, lang, s1, s2);
  }

  lemma {:induction false} DateLeAfterCommonPrefix(p: string, a: string, b: string)
    ensures DateLe(p + a, p + b) == DateLe(a, b)
  {
    if p != [] {
      assert (p + a)[1..] == p[1..] + a && (p + b)[1..] == p[1..] + b;
      DateLeAfterCommonPrefix(p[1..], a, b);
    } else {
      assert p + a == a && p + b == b;
    }
  }

  /** Four rows of one language, won, won, lost, won in date order. */
  function ExampleSorted(): seq<Row> {
    [Row("2024-01-01", "en", 3, 1), Row("2024-01-02", "en", 4, 1),
     Row("2024-01-03", "en", 7, 0), Row("2024-01-04", "en", 2, 1)]
  }

  lemma ExampleIsSorted()
    ensures DateSorted(ExampleSorted())
    ensures forall x, y :: x in ExampleSorted() && y in ExampleSorted() && x.date == y.date ==> x == y
  {
    var t := ExampleSorted();
    var p := "2024-01-0";
    assert t[0].date == p + "1" && t[1].date == p + "2" && t[2].date == p + "3" && t[3].date == p + "4";
    forall i, j | 0 <= i < j < 4
      ensures DateLe(t[i].date, t[j].date)
    {
      DateLeAfterCommonPrefix(p, [t[i].date[9]], [t[j].date[9]]);
    }
  }

  lemma ExampleWins()
    ensures CountWins(ExampleSorted()) == 3
  {
    var t := ExampleSorted();
    assert t[1..][1..][1..][1..] == [];
  }

  lemma ExampleLongestRun()
    ensures IsLongestWinRun(ExampleSorted(), 2)
  {
    var t := ExampleSorted();
    assert AllWon(t, 0, 2);
    forall i, j | 0 <= i <= 2 < j <= 4
      ensures !AllWon(t, i, j)
    {
      assert t[2].won == 0;
    }
  }

  lemma ExampleRowsOfLanguage(rows: seq<Row>)
    requires multiset(rows) == multiset(ExampleSorted())
    ensures multiset(OfLanguage(rows, "en")) == multiset(ExampleSorted())
  {
    assert forall x: Row :: x in multiset(ExampleSorted()) ==> x.language == "en";
  }

  lemma ExampleStreak(list: seq<Row>, m: nat)
    requires multiset(list) == multiset(ExampleSorted())
    requires exists t :: IsDateOrdering(t, list) && IsLongestWinRun(t, m)
    ensures m == 2
  {
    ExampleIsSorted();
    ExampleLongestRun();
    var t: seq<Row> :| IsDateOrdering(t, list) && IsLongestWinRun(t, m);
    OrderingsAgreeOnStreak(ExampleSorted(), t, 2, m);
  }

  /** Those rows, arriving in any order, give 4 games, 3 wins and a longest streak of 2. */
  lemma StreakExample(rows: seq<Row>, s: LangStats)
    requires multiset(rows) == multiset(ExampleSorted())
    requires IsStatsOf(rows, "en", s)
    ensures s == LangStats(4, 3, 2)
  {
    var list := OfLanguage(rows, "en");
    ExampleRowsOfLanguage(rows);
    assert |list| == |multiset(list)| == 4;
    CountWinsPermutation(list, ExampleSorted());
    ExampleWins();
    ExampleStreak(list, s.maxStreak);
  }
}
