/** The string and list utilities of src/utils/helpers.ts that are not about
    grouping or CSV: `capitalize`, `findSimilar` and `getDayNumber`. */
module Helpers {
  import opened Seqs
  import opened Text
  import opened Types
  import Levenshtein

  // ---------------------------------------------------------------------------
  // capitalize

  /** `capitalize`: upper-cases the first character and keeps the rest. */
  function Capitalize(s: string): (r: string)
    ensures |s| == 0 ==> r == s
    ensures |r| == |s|
    ensures |s| > 0 ==> r[1..] == s[1..] && r[0] == UpperChar(s[0])
  {
    if |s| == 0 then s else [UpperChar(s[0])] + s[1..]
  }

  /** Capitalizing twice is capitalizing once. */
  lemma CapitalizeIdempotent(s: string)
    ensures Capitalize(Capitalize(s)) == Capitalize(s)
  {
    if |s| > 0 {
      assert UpperChar(UpperChar(s[0])) == UpperChar(s[0]);
      assert Capitalize(s)[1..] == s[1..];
    }
  }

  // ---------------------------------------------------------------------------
  // findSimilar

  /** The test `findSimilar` applies to one existing item, on the lower-cased input
      and item: equal, one contains the other, or within edit distance 2 when the
      shorter of the two is longer than 2 characters. */
  predicate Similar(lower: string, itemLower: string)
  {
    itemLower == lower
    || Contains(itemLower, lower) || Contains(lower, itemLower)
    || (Levenshtein.Distance(lower, itemLower) <= 2 && (if |lower| <= |itemLower| then |lower| else |itemLower|) > 2)
  }

  /** `existing[i]` is the first item, in list order, that is similar to `input`. */
  predicate IsFirstSimilar(input: string, existing: seq<string>, i: int)
  {
    && 0 <= i < |existing|
    && Similar(Lower(input), Lower(existing[i]))
    && forall j :: 0 <= j < i ==> !Similar(Lower(input), Lower(existing[j]))
  }

  /** The item `findSimilar` answers with: the first similar item, or none. */
  function FirstSimilar(input: string, existing: seq<string>): (r: Option<string>)
    ensures r.None? <==> forall i :: 0 <= i < |existing| ==> !Similar(Lower(input), Lower(existing[i]))
    ensures r.Some? ==> exists i :: IsFirstSimilar(input, existing, i) && r.value == existing[i]
  {
    if |existing| == 0 then None
    else if Similar(Lower(input), Lower(existing[0])) then
      assert IsFirstSimilar(input, existing, 0);
      Some(existing[0])
    else
      var r := FirstSimilar(input, existing[1..]);
      assert forall i :: 0 < i < |existing| ==> existing[i] == existing[1..][i - 1];
      if r.Some? then
        var i :| IsFirstSimilar(input, existing[1..], i) && r.value == existing[1..][i];
        assert IsFirstSimilar(input, existing, i + 1);
        r
      else r
  }

  /** At most one position is the first similar one. */
  lemma FirstSimilarUnique(input: string, existing: seq<string>, i: int, j: int)
    requires IsFirstSimilar(input, existing, i) && IsFirstSimilar(input, existing, j)
    ensures i == j
  {
  }

  /** `findSimilar` as the source writes it: a loop over the existing items that
      checks, for each item in turn, equality, then containment, then the
      dynamic-programming edit distance with the minimum-length guard. */
  method FindSimilar(input: string, existing: seq<string>) returns (r: Option<string>)
    ensures r == FirstSimilar(input, existing)
    ensures r.Some? ==> r.value in existing
  {
    var lower := Lower(input);
    var k := 0;
    while k < |existing|
      invariant 0 <= k <= |existing|
      invariant forall j :: 0 <= j < k ==> !Similar(lower, Lower(existing[j]))
    {
      var item := existing[k];
      var itemLower := Lower(item);
      if itemLower == lower {
        FirstSimilarAt(input, existing, k);
        return Some(item);
      }
      if Contains(itemLower, lower) || Contains(lower, itemLower) {
        FirstSimilarAt(input, existing, k);
        return Some(item);
      }
      var d := Levenshtein.ComputeDistance(lower, itemLower);
      if d <= 2 && (if |lower| <= |itemLower| then |lower| else |itemLower|) > 2 {
        FirstSimilarAt(input, existing, k);
        return Some(item);
      }
      k := k + 1;
    }
    return None;
  }

  /** The item at a similar position with no similar item before it is the answer. */
  lemma FirstSimilarAt(input: string, existing: seq<string>, k: int)
    requires 0 <= k < |existing| && Similar(Lower(input), Lower(existing[k]))
    requires forall j :: 0 <= j < k ==> !Similar(Lower(input), Lower(existing[j]))
    ensures FirstSimilar(input, existing) == Some(existing[k])
  {
    assert IsFirstSimilar(input, existing, k);
    var r := FirstSimilar(input, existing);
    var i :| IsFirstSimilar(input, existing, i) && r.value == existing[i];
    FirstSimilarUnique(input, existing, i, k);
  }

  /** A match found by the distance clause alone is between strings whose lengths
      differ by at most 2, both longer than 2 characters. */
  lemma SimilarByDistanceLengths(lower: string, itemLower: string)
    requires Similar(lower, itemLower)
    requires !Contains(itemLower, lower) && !Contains(lower, itemLower)
    ensures |lower| > 2 && |itemLower| > 2
    ensures |lower| - |itemLower| <= 2 && |itemLower| - |lower| <= 2
  {
    ContainsTrivial(lower, lower);
    Levenshtein.DistanceBounds(lower, itemLower);
  }

  /** Precedence is per item: "Golang" comes first and contains "go", so it wins
      over the exact match "Go" further down the list. */
  lemma FirstSimilarExamplePerItemPrecedence()
    ensures FirstSimilar("go", ["Golang", "Go"]) == Some("Golang")
  {
    assert Lower("go") == "go";
    assert Lower("Golang") == "golang";
    assert IsPrefix("go", "golang");
  }

  /** The minimum-length guard: "Go" and "C" are within distance 2, yet not similar. */
  lemma FirstSimilarExampleShortGuard()
    ensures FirstSimilar("Go", ["C"]) == None
  {
    assert Lower("Go") == "go";
    assert Lower("C") == "c";
    assert !Contains("c", "go") by {
      assert !IsPrefix("go", "c");
      assert !Contains("", "go");
    }
    assert !Contains("go", "c") by {
      assert "go"[..1] == "g";
      assert !IsPrefix("c", "go");
      assert "go"[1..] == "o";
      assert !IsPrefix("c", "o");
      assert "o"[1..] == "";
      assert !Contains("", "c");
    }
  }

  /** A one-letter typo in a long enough name is caught by the distance clause. */
  lemma FirstSimilarExampleTypo()
    ensures FirstSimilar("Pythom", ["Python"]) == Some("Python")
  {
    assert Lower("Pythom") == "pythom";
    assert Lower("Python") == "python";
    assert "pythom"[..5] == "pytho" && "python"[..5] == "pytho";
    Levenshtein.DistanceToSelfAndEmpty("pytho");
    assert Levenshtein.Distance("pythom", "python") <= 1;
  }

  // ---------------------------------------------------------------------------
  // getDayNumber

  /** The distinct dates of `entries` (`new Set(entries.map(e => e.date))`). */
  function DistinctDates(entries: seq<Entry>): set<string>
  {
    set e | e in entries :: e.date
  }

  /** The dates strictly before `today` in character order (standing for code-unit order). */
  function DatesBefore(dates: set<string>, today: string): set<string>
  {
    set d | d in dates && StrLess(d, today)
  }

  /** A subset that misses an element of the whole set is smaller than it. */
  lemma ProperSubsetSmaller(part: set<string>, whole: set<string>, x: string)
    requires part <= whole && x in whole && x !in part
    ensures |part| < |whole|
  {
    var rest := whole - part;
    assert x in rest;
    assert whole == part + rest && part * rest == {};
  }

  /** `getDayNumber`: the 1-based position of `todayStr` among the sorted distinct
      dates when it is one of them, and one past their number otherwise. */
  function GetDayNumber(entries: seq<Entry>, todayStr: string): (r: nat)
    ensures 1 <= r <= |DistinctDates(entries)| + 1
    ensures todayStr !in DistinctDates(entries) ==> r == |DistinctDates(entries)| + 1
    ensures todayStr in DistinctDates(entries) ==> r <= |DistinctDates(entries)|
  {
    var dates := DistinctDates(entries);
    if todayStr in dates then
      var before := DatesBefore(dates, todayStr);
      StrLessIrreflexive(todayStr);
      ProperSubsetSmaller(before, dates, todayStr);
      |before| + 1
    else |dates| + 1
  }

  /** Sorted strictly ascending in character order, standing for code-unit order (what `[...set].sort()` yields). */
  predicate StrictlyAscending(s: seq<string>)
  {
    forall i, j :: 0 <= i < j < |s| ==> StrLess(s[i], s[j])
  }

  /** `indexOf`: the position of the first occurrence. */
  function IndexOf(s: seq<string>, x: string): (k: nat)
    requires x in s
    ensures k < |s| && s[k] == x
    ensures forall j :: 0 <= j < k ==> s[j] != x
  {
    if s[0] == x then 0 else 1 + IndexOf(s[1..], x)
  }

  /** The elements of a duplicate-free sequence are as many as its length. */
  lemma {:induction false} DistinctCardinality(s: seq<string>)
    requires NoDuplicates(s)
    ensures |set x | x in s| == |s|
  {
    if |s| > 0 {
      var t := s[..|s| - 1];
      assert NoDuplicates(t);
      DistinctCardinality(t);
      assert (set x | x in s) == (set x | x in t) + {s[|s| - 1]};
      assert s[|s| - 1] !in t;
    }
  }

  /** The rank `GetDayNumber` counts is the position `indexOf` finds in any sorting
      of the distinct dates, so the source's sort-then-indexOf gives the same number. */
  lemma {:induction false} DayNumberIsSortedPosition(entries: seq<Entry>, todayStr: string, sorted: seq<string>)
    requires StrictlyAscending(sorted)
    requires forall d :: d in sorted <==> d in DistinctDates(entries)
    requires todayStr in DistinctDates(entries)
    ensures GetDayNumber(entries, todayStr) == IndexOf(sorted, todayStr) + 1
  {
    var dates := DistinctDates(entries);
    var k := IndexOf(sorted, todayStr);
    var prefix := sorted[..k];
    forall d
      ensures d in DatesBefore(dates, todayStr) <==> d in prefix
    {
      if d in prefix {
        var i :| 0 <= i < k && sorted[i] == d;
      }
      if d in DatesBefore(dates, todayStr) {
        var i :| 0 <= i < |sorted| && sorted[i] == d;
        if i >= k {
          if i > k { StrLessTrichotomy(todayStr, d); }
          else { StrLessIrreflexive(d); }
          assert false;
        }
      }
    }
    assert DatesBefore(dates, todayStr) == set x | x in prefix;
    forall i, j | 0 <= i < j < |prefix| ensures prefix[i] != prefix[j] {
      StrLessIrreflexive(prefix[i]);
    }
    DistinctCardinality(prefix);
  }
}
