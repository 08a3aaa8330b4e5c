/**
 * The day-of-month statistics of one ticker: how often each day appears
 * among the selected lows of all years (`counts`), the most frequent days
 * (`bestDays`) and the frequency table (`freqDays.sorted`).
 *
 * `counts` is a JavaScript object keyed by day numbers; the keys of such an
 * object are integer-like strings, so `Object.entries` yields them in
 * ascending numeric order. `SortedKeys` is that order.
 */
module Frequency {
  import opened Sorting

  predicate StrictlyAscending(s: seq<int>) {
    forall i, j :: 0 <= i < j < |s| ==> s[i] < s[j]
  }

  /** Day -> number of occurrences among `days`, for the days that occur. */
  function Counts(days: seq<int>): (c: map<int, nat>)
    ensures forall d :: d in c <==> d in days
    ensures forall d :: d in c ==> c[d] >= 1
  {
    map d | d in multiset(days) :: multiset(days)[d]
  }

  /** The tally loop: `counts[day] = (counts[day] || 0) + 1` for every day in turn. */
  method CountDays(allDays: seq<int>) returns (counts: map<int, nat>)
    ensures counts.Keys == set d | d in allDays
    ensures forall d :: d in counts ==> counts[d] == multiset(allDays)[d] > 0
    ensures counts == Counts(allDays)
  {
    counts := map[];
    var i := 0;
    while i < |allDays|
      invariant 0 <= i <= |allDays|
      invariant counts.Keys == set d | d in allDays[..i]
      invariant forall d :: d in counts ==> counts[d] == multiset(allDays[..i])[d]
    {
      var day := allDays[i];
      assert allDays[..i + 1] == allDays[..i] + [day];
      var previous := if day in counts then counts[day] else 0;
      counts := counts[day := previous + 1];
      i := i + 1;
    }
    assert allDays[..i] == allDays;
  }

  /** The least element of a non-empty set. */
  function MinOf(s: set<int>): (m: int)
    requires s != {}
    ensures m in s && forall y :: y in s ==> m <= y
  {
    MinExists(s);
    var m :| m in s && forall y :: y in s ==> m <= y;
    m
  }

  /** A non-empty set has an element. */
  lemma Inhabited(s: set<int>)
    requires s != {}
    ensures exists x :: x in s
  {
    if forall x :: x !in s {
      assert false;
    }
  }

  lemma {:induction false} MinExists(s: set<int>)
    requires s != {}
    ensures exists m :: m in s && forall y :: y in s ==> m <= y
    decreases |s|
  {
    Inhabited(s);
    var x :| x in s;
    var r := s - {x};
    if r == {} {
      forall y | y in s ensures x <= y {
        assert y == x || y in r;
      }
    } else {
      MinExists(r);
      var m :| m in r && forall y :: y in r ==> m <= y;
      var least := if x < m then x else m;
      forall y | y in s ensures least <= y {
        assert y == x || y in r;
      }
      assert least in s;
    }
  }

  /** The keys of `counts` in the order `Object.entries` lists them. */
  function SortedKeys(s: set<int>): (r: seq<int>)
    ensures StrictlyAscending(r)
    ensures forall d :: d in r <==> d in s
    ensures |r| == |s|
    decreases |s|
  {
    if s == {} then []
    else
      var m := MinOf(s);
      var rest := SortedKeys(s - {m});
      [m] + rest
  }

  /** The largest of a non-empty list of values: `Math.max(...values)`. */
  function MaxOf(values: seq<nat>): (r: nat)
    requires values != []
    ensures r in values
  {
    if |values| == 1 then values[0]
    else
      var rest := MaxOf(values[1..]);
      if values[0] < rest then rest else values[0]
  }

  lemma {:induction false} MaxOfIsMaximum(values: seq<nat>)
    requires values != []
    ensures MaxOf(values) in values
    ensures forall i :: 0 <= i < |values| ==> values[i] <= MaxOf(values)
  {
    if |values| > 1 {
      MaxOfIsMaximum(values[1..]);
      assert forall i :: 1 <= i < |values| ==> values[i] == values[1..][i - 1];
    }
  }

  /** `Object.values(counts)`, in entry order. */
  function ValuesAt(counts: map<int, nat>, keys: seq<int>): (values: seq<nat>)
    requires forall i :: 0 <= i < |keys| ==> keys[i] in counts
    ensures |values| == |keys|
    ensures forall i :: 0 <= i < |keys| ==> values[i] == counts[keys[i]]
  {
    if keys == [] then [] else [counts[keys[0]]] + ValuesAt(counts, keys[1..])
  }

  /** `maxFreq`: the largest count. */
  function MaxFreq(counts: map<int, nat>): (r: nat)
    requires counts != map[]
    ensures exists d :: d in counts && counts[d] == r
  {
    var keys := SortedKeys(counts.Keys);
    KeysOfCounts(counts);
    MaxOf(ValuesAt(counts, keys))
  }

  /** A non-empty `counts` has keys, each of them counted. */
  lemma KeysOfCounts(counts: map<int, nat>)
    requires counts != map[]
    ensures var keys := SortedKeys(counts.Keys);
            keys != [] && forall i :: 0 <= i < |keys| ==> keys[i] in counts
  {
    var keys := SortedKeys(counts.Keys);
    assert |keys| == |counts.Keys| == |counts| > 0;
  }

  /** Keeps the keys whose count equals `max`, in order. */
  function KeysWithCount(counts: map<int, nat>, keys: seq<int>, max: nat): (r: seq<int>)
    requires forall i :: 0 <= i < |keys| ==> keys[i] in counts
    ensures forall d :: d in r <==> d in keys && counts[d] == max
  {
    if keys == [] then []
    else
      var rest := KeysWithCount(counts, keys[1..], max);
      if counts[keys[0]] == max then [keys[0]] + rest else rest
  }

  function Identity(d: int): int {
    d
  }

  /** `bestDays`: the days whose count is `maxFreq`, sorted ascending. */
  function BestDays(counts: map<int, nat>): (best: seq<int>)
    requires counts != map[]
    ensures forall d :: d in best ==> d in counts && counts[d] == MaxFreq(counts)
  {
    var kept := KeysWithCount(counts, SortedKeys(counts.Keys), MaxFreq(counts));
    SortedMembers(kept);
    SortBy(kept, Identity)
  }

  lemma SortedMembers(s: seq<int>)
    ensures forall d :: d in SortBy(s, Identity) ==> d in s
  {
    forall d | d in SortBy(s, Identity) ensures d in s {
      assert d in multiset(SortBy(s, Identity));
    }
  }

  /** One row of `freqDays.sorted`. */
  datatype FreqEntry = FreqEntry(day: int, count: nat, isBest: bool)

  function EntryDay(e: FreqEntry): int {
    e.day
  }

  /** One entry per key of `counts`, in the order given, each flagged when it is a best day. */
  function Entries(counts: map<int, nat>, keys: seq<int>, best: seq<int>): (r: seq<FreqEntry>)
    requires forall i :: 0 <= i < |keys| ==> keys[i] in counts
    ensures |r| == |keys|
    ensures forall i :: 0 <= i < |keys| ==> r[i] == FreqEntry(keys[i], counts[keys[i]], keys[i] in best)
  {
    if keys == [] then []
    else [FreqEntry(keys[0], counts[keys[0]], keys[0] in best)] + Entries(counts, keys[1..], best)
  }

  /** `freqDays.sorted`: every counted day with its count and best-day flag, sorted by day. */
  function FreqTable(counts: map<int, nat>): (table: seq<FreqEntry>)
    requires counts != map[]
    ensures |table| == |counts|
  {
    SortBy(Entries(counts, SortedKeys(counts.Keys), BestDays(counts)), EntryDay)
  }

  /** Keeping some elements of an ascending list keeps it ascending. */
  lemma {:induction false} KeysWithCountAscending(counts: map<int, nat>, keys: seq<int>, max: nat)
    requires forall i :: 0 <= i < |keys| ==> keys[i] in counts
    requires StrictlyAscending(keys)
    ensures StrictlyAscending(KeysWithCount(counts, keys, max))
  {
    if keys != [] {
      var rest := KeysWithCount(counts, keys[1..], max);
      KeysWithCountAscending(counts, keys[1..], max);
      if counts[keys[0]] == max {
        forall j | 0 <= j < |rest| ensures keys[0] < rest[j] {
          assert rest[j] in keys[1..];
        }
      }
    }
  }

  /** The largest count is the count of some day, and no count exceeds it. */
  lemma MaxFreqIsLargestCount(counts: map<int, nat>)
    requires counts != map[]
    ensures exists d :: d in counts && counts[d] == MaxFreq(counts)
    ensures forall d :: d in counts ==> counts[d] <= MaxFreq(counts)
  {
    var keys := SortedKeys(counts.Keys);
    var values := ValuesAt(counts, keys);
    MaxOfIsMaximum(values);
    var i :| 0 <= i < |values| && values[i] == MaxOf(values);
    assert counts[keys[i]] == MaxFreq(counts);
    forall d | d in counts ensures counts[d] <= MaxFreq(counts) {
      var j :| 0 <= j < |keys| && keys[j] == d;
      assert values[j] == counts[d];
    }
  }

  /**
   * `bestDays` lists, in ascending order and once each, exactly the days
   * whose count no other day exceeds; there is at least one.
   */
  lemma BestDaysAreModes(counts: map<int, nat>)
    requires counts != map[]
    ensures var best := BestDays(counts);
            StrictlyAscending(best) && best != [] &&
            (forall d :: d in best <==> d in counts && forall e :: e in counts ==> counts[e] <= counts[d])
  {
    var keys := SortedKeys(counts.Keys);
    var max := MaxFreq(counts);
    var kept := KeysWithCount(counts, keys, max);
    KeysWithCountAscending(counts, keys, max);
    assert SortedBy(kept, Identity);
    SortByKeepsSorted(kept, Identity);
    MaxFreqIsLargestCount(counts);
    var d0 :| d0 in counts && counts[d0] == max;
    assert d0 in kept;
  }

  /** The frequency table has one entry per counted day, in strictly ascending day order. */
  lemma FreqTableAscending(counts: map<int, nat>)
    requires counts != map[]
    ensures var table := FreqTable(counts);
            |table| == |counts| &&
            forall i, j :: 0 <= i < j < |table| ==> table[i].day < table[j].day
  {
    FreqTableInKeyOrder(counts);
    KeyEntries(counts, BestDays(counts));
  }

  /** A day appears in the frequency table exactly when it was counted. */
  lemma FreqTableCoversCounts(counts: map<int, nat>)
    requires counts != map[]
    ensures var table := FreqTable(counts);
            forall d :: d in counts <==> exists i :: 0 <= i < |table| && table[i].day == d
  {
    FreqTableInKeyOrder(counts);
    KeyEntries(counts, BestDays(counts));
  }

  /** The entries built from the keys of `counts` in entry order: one per key, ascending, covering every key. */
  lemma KeyEntries(counts: map<int, nat>, best: seq<int>)
    ensures var table := Entries(counts, SortedKeys(counts.Keys), best);
            |table| == |counts| &&
            (forall i, j :: 0 <= i < j < |table| ==> table[i].day < table[j].day) &&
            (forall d :: d in counts <==> exists i :: 0 <= i < |table| && table[i].day == d)
  {
    var keys := SortedKeys(counts.Keys);
    assert |keys| == |counts|;
    var table := Entries(counts, keys, best);
    assert DaysAreKeys(table, keys);
    DaysAscending(table, keys);
    DaysCover(table, keys);
  }

  /** Entries whose days are the keys, position by position. */
  predicate DaysAreKeys(table: seq<FreqEntry>, keys: seq<int>) {
    |table| == |keys| && forall i :: 0 <= i < |keys| ==> table[i].day == keys[i]
  }

  /** Entries whose days are the keys are ascending exactly when the keys are. */
  lemma DaysAscending(table: seq<FreqEntry>, keys: seq<int>)
    requires DaysAreKeys(table, keys)
    ensures (forall i, j :: 0 <= i < j < |table| ==> table[i].day < table[j].day) <==> StrictlyAscending(keys)
  {
    if StrictlyAscending(keys) {
      forall i, j | 0 <= i < j < |table| ensures table[i].day < table[j].day {
        assert table[i].day == keys[i] && table[j].day == keys[j];
      }
    }
    if forall i, j :: 0 <= i < j < |table| ==> table[i].day < table[j].day {
      forall i, j | 0 <= i < j < |keys| ensures keys[i] < keys[j] {
        assert table[i].day == keys[i] && table[j].day == keys[j];
      }
    }
  }

  /** A day is the day of some such entry exactly when it is one of the keys. */
  lemma DaysCover(table: seq<FreqEntry>, keys: seq<int>)
    requires DaysAreKeys(table, keys)
    ensures forall d :: d in keys <==> exists i :: 0 <= i < |table| && table[i].day == d
  {
    forall d | d in keys ensures exists i :: 0 <= i < |table| && table[i].day == d {
      var i :| 0 <= i < |keys| && keys[i] == d;
      assert table[i].day == d;
    }
  }

  /** Each entry carries its day's count and is flagged exactly when the day is among `bestDays`. */
  lemma FreqTableEntries(counts: map<int, nat>)
    requires counts != map[]
    ensures var table := FreqTable(counts);
            forall i :: 0 <= i < |table| ==> table[i].day in counts && table[i].count == counts[table[i].day] &&
                                             (table[i].isBest <==> table[i].day in BestDays(counts))
  {
    FreqTableInKeyOrder(counts);
    KeyEntryFields(counts, BestDays(counts));
  }

  /** Each entry built from the keys of `counts` carries a counted day, its count and its flag. */
  lemma KeyEntryFields(counts: map<int, nat>, best: seq<int>)
    ensures var table := Entries(counts, SortedKeys(counts.Keys), best);
            forall i :: 0 <= i < |table| ==> table[i].day in counts && table[i].count == counts[table[i].day] &&
                                             (table[i].isBest <==> table[i].day in best)
  {
  }

  /** The entries already come in ascending day order, so the final sort keeps them as they are. */
  lemma FreqTableInKeyOrder(counts: map<int, nat>)
    requires counts != map[]
    ensures FreqTable(counts) == Entries(counts, SortedKeys(counts.Keys), BestDays(counts))
  {
    EntriesInKeyOrder(counts, BestDays(counts));
  }

  lemma EntriesInKeyOrder(counts: map<int, nat>, best: seq<int>)
    ensures var entries := Entries(counts, SortedKeys(counts.Keys), best);
            SortBy(entries, EntryDay) == entries
  {
    var entries := Entries(counts, SortedKeys(counts.Keys), best);
    KeyEntries(counts, best);
    assert SortedBy(entries, EntryDay);
    SortByKeepsSorted(entries, EntryDay);
  }

  /** Sum of the counts of the given days. */
  function SumCounts(counts: map<int, nat>, keys: seq<int>): nat
    requires forall i :: 0 <= i < |keys| ==> keys[i] in counts
  {
    if keys == [] then 0 else counts[keys[0]] + SumCounts(counts, keys[1..])
  }

  /** Every day that was pushed is counted once: the counts add up to the number of days. */
  lemma CountsAddUp(days: seq<int>)
    ensures SumCounts(Counts(days), SortedKeys(Counts(days).Keys)) == |days|
  {
    var keys := SortedKeys(Counts(days).Keys);
    SumCountsIsMultiplicities(days, keys);
    MultiplicitiesAddUp(days, keys);
  }

  /** Sum of the multiplicities in `m` of the given values. */
  function Multiplicities(m: multiset<int>, keys: seq<int>): nat {
    if keys == [] then 0 else m[keys[0]] + Multiplicities(m, keys[1..])
  }

  lemma {:induction false} SumCountsIsMultiplicities(days: seq<int>, keys: seq<int>)
    requires forall i :: 0 <= i < |keys| ==> keys[i] in Counts(days)
    ensures SumCounts(Counts(days), keys) == Multiplicities(multiset(days), keys)
  {
    if keys != [] {
      SumCountsIsMultiplicities(days, keys[1..]);
    }
  }

  lemma {:induction false} MultiplicitiesAddOne(m: multiset<int>, x: int, keys: seq<int>)
    requires StrictlyAscending(keys)
    ensures Multiplicities(m + multiset{x}, keys) == Multiplicities(m, keys) + (if x in keys then 1 else 0)
  {
    if keys != [] {
      MultiplicitiesAddOne(m, x, keys[1..]);
      assert x in keys <==> x == keys[0] || x in keys[1..];
      if x == keys[0] {
        assert x !in keys[1..];
      }
    }
  }

  lemma {:induction false} NoMultiplicities(keys: seq<int>)
    ensures Multiplicities(multiset{}, keys) == 0
  {
    if keys != [] {
      NoMultiplicities(keys[1..]);
    }
  }

  lemma {:induction false} MultiplicitiesAddUp(days: seq<int>, keys: seq<int>)
    requires StrictlyAscending(keys)
    requires forall i :: 0 <= i < |days| ==> days[i] in keys
    ensures Multiplicities(multiset(days), keys) == |days|
  {
    if days != [] {
      var n := |days| - 1;
      assert days == days[..n] + [days[n]];
      assert multiset(days) == multiset(days[..n]) + multiset{days[n]};
      assert days[n] in keys;
      MultiplicitiesAddUp(days[..n], keys);
      MultiplicitiesAddOne(multiset(days[..n]), days[n], keys);
    } else {
      NoMultiplicities(keys);
    }
  }

  lemma CountsNonEmpty(days: seq<int>)
    requires days != []
    ensures Counts(days) != map[]
  {
    assert days[0] in multiset(days);
    assert days[0] in Counts(days);
  }

  /** The counts of a list of days: a key per day that occurs, mapped to how often it occurs. */
  lemma CountsOf(days: seq<int>)
    ensures forall d :: d in Counts(days) <==> d in days
    ensures forall d :: d in Counts(days) ==> Counts(days)[d] == multiset(days)[d] > 0
  {
  }

  /**
   * The frequency table of a non-empty list of days lists each day that
   * occurs once, ascending, with how often it occurs and a flag saying
   * whether it is a best day.
   */
  lemma DayTable(days: seq<int>)
    requires days != []
    ensures Counts(days) != map[]
    ensures Counts(days) != map[] && var table := FreqTable(Counts(days));
            (forall i, j :: 0 <= i < j < |table| ==> table[i].day < table[j].day) &&
            (forall i :: 0 <= i < |table| ==>
               table[i].count == multiset(days)[table[i].day] > 0 &&
               (table[i].isBest <==> table[i].day in BestDays(Counts(days)))) &&
            (forall d :: d in days <==> exists i :: 0 <= i < |table| && table[i].day == d)
  {
    CountsNonEmpty(days);
    var counts := Counts(days);
    FreqTableAscending(counts);
    DayTableCounts(days);
    DayTableCovers(days);
  }

  lemma DayTableCounts(days: seq<int>)
    requires Counts(days) != map[]
    ensures var table := FreqTable(Counts(days));
            forall i :: 0 <= i < |table| ==>
              table[i].count == multiset(days)[table[i].day] > 0 &&
              (table[i].isBest <==> table[i].day in BestDays(Counts(days)))
  {
    CountsOf(days);
    FreqTableEntries(Counts(days));
  }

  lemma DayTableCovers(days: seq<int>)
    requires Counts(days) != map[]
    ensures var table := FreqTable(Counts(days));
            forall d :: d in days <==> exists i :: 0 <= i < |table| && table[i].day == d
  {
    CountsOf(days);
    FreqTableCoversCounts(Counts(days));
  }


  /** The best days of a non-empty list of days: ascending, non-empty, exactly the most frequent ones. */
  lemma DayModes(days: seq<int>)
    requires days != []
    ensures Counts(days) != map[]
    ensures Counts(days) != map[] && var best := BestDays(Counts(days));
            best != [] && StrictlyAscending(best) &&
            forall d :: d in best <==> d in days && forall e :: e in days ==> multiset(days)[e] <= multiset(days)[d]
  {
    CountsNonEmpty(days);
    CountsOf(days);
    BestDaysAreModes(Counts(days));
  }
}
