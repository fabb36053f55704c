/** The dashboard's aggregations (src/hooks/useDashboard.ts): the filtered entries,
    the summary statistics, the chart series, the sub-technology breakdown and the
    history grouped by day. The date-range test (`isInDateRange`, which reads the
    clock) is a parameter. Every `Record` the hook builds is an association list in
    insertion order, as in the Grouping module. */
module Dashboard {
  import opened Seqs
  import opened Text
  import opened Types
  import opened Grouping
  import Helpers

  /** The filter value meaning "no filter". */
  const AllValues: string := "all"

  /** The placeholder shown when there is no top technology or project. */
  const Dash: string := "\U{2014}"

  // ---------------------------------------------------------------------------
  // Filtering

  /** The three filter selections. */
  datatype Filters = Filters(date: string, project: string, category: string)

  /** The test `filtered` applies to one entry; `inRange(date, dateFilter)` is
      `isInDateRange`. */
  function Matches(inRange: (string, string) -> bool, f: Filters): Entry -> bool
  {
    (e: Entry) =>
      inRange(e.date, f.date) &&
      (f.project == AllValues || e.project == f.project) &&
      (f.category == AllValues || f.category in e.categories)
  }

  /** `filtered`. */
  function Filtered(entries: seq<Entry>, inRange: (string, string) -> bool, f: Filters): seq<Entry>
  {
    Filter(entries, Matches(inRange, f))
  }

  /** The filtered entries keep their order and are exactly the entries in the date
      range, of the chosen project (unless "all") and carrying the chosen category
      (unless "all"), each as often as in the log. */
  lemma FilteredSpec(entries: seq<Entry>, inRange: (string, string) -> bool, f: Filters)
    ensures IsSubsequence(Filtered(entries, inRange, f), entries)
    ensures forall e :: e in Filtered(entries, inRange, f) <==>
      e in entries && inRange(e.date, f.date) &&
      (f.project == AllValues || e.project == f.project) &&
      (f.category == AllValues || f.category in e.categories)
    ensures forall e :: e in entries && Matches(inRange, f)(e) ==>
      multiset(Filtered(entries, inRange, f))[e] == multiset(entries)[e]
  {
    FilterContents(entries, Matches(inRange, f));
  }

  /** With "all" for project and category and every date in range, nothing is
      filtered out. */
  lemma FilteredAll(entries: seq<Entry>, inRange: (string, string) -> bool, f: Filters)
    requires f.project == AllValues && f.category == AllValues
    requires forall i :: 0 <= i < |entries| ==> inRange(entries[i].date, f.date)
    ensures Filtered(entries, inRange, f) == entries
  {
    FilterAll(entries, Matches(inRange, f));
  }

  // ---------------------------------------------------------------------------
  // Occurrences counted by the inline `forEach` loops

  /** The key functions `groupBy` and `countBy` are called with. */
  function DateOf(e: Entry): string { e.date }
  function ProjectOf(e: Entry): string { e.project }
  function TeamOf(e: Entry): string { TeamTypeName(e.teamType) }

  /** The technology of each selection, in order. */
  function SelectionTechs(ts: seq<TechSelection>): seq<string>
  {
    if |ts| == 0 then [] else [ts[0].tech] + SelectionTechs(ts[1..])
  }

  /** Every technology selection of every entry, in the order the loops visit them. */
  function TechOccurrences(entries: seq<Entry>): seq<string>
  {
    if |entries| == 0 then [] else SelectionTechs(entries[0].technologies) + TechOccurrences(entries[1..])
  }

  /** Every category of every entry, in the order the loop visits them. */
  function CategoryOccurrences(entries: seq<Entry>): seq<string>
  {
    if |entries| == 0 then [] else entries[0].categories + CategoryOccurrences(entries[1..])
  }

  /** The sub-technologies of the selections of technology `name`, in order. */
  function SelectionSubs(ts: seq<TechSelection>, name: string): seq<string>
  {
    if |ts| == 0 then []
    else (if ts[0].tech == name then ts[0].subTechs else []) + SelectionSubs(ts[1..], name)
  }

  /** Every sub-technology chosen under technology `name` in any entry. */
  function SubOccurrences(entries: seq<Entry>, name: string): seq<string>
  {
    if |entries| == 0 then [] else SelectionSubs(entries[0].technologies, name) + SubOccurrences(entries[1..], name)
  }

  /** A selection list mentions technology `n` exactly when its technologies do. */
  lemma {:induction false} SelectionTechsSpec(ts: seq<TechSelection>, n: string)
    ensures n in SelectionTechs(ts) <==> HasTech(ts, n)
    decreases |ts|
  {
    if |ts| > 0 {
      SelectionTechsSpec(ts[1..], n);
    }
  }

  /** A technology occurs exactly when some entry has a selection for it. */
  lemma {:induction false} TechOccurrencesSpec(entries: seq<Entry>, n: string)
    ensures n in TechOccurrences(entries) <==> exists i :: 0 <= i < |entries| && HasTech(entries[i].technologies, n)
    decreases |entries|
  {
    if |entries| > 0 {
      TechOccurrencesSpec(entries[1..], n);
      SelectionTechsSpec(entries[0].technologies, n);
      assert forall i :: 0 < i < |entries| ==> entries[1..][i - 1] == entries[i];
      if exists i :: 0 <= i < |entries| && HasTech(entries[i].technologies, n) {
        var i :| 0 <= i < |entries| && HasTech(entries[i].technologies, n);
        if i > 0 {
          assert HasTech(entries[1..][i - 1].technologies, n);
        }
      }
    }
  }

  /** A category occurs exactly when some entry carries it. */
  lemma {:induction false} CategoryOccurrencesSpec(entries: seq<Entry>, n: string)
    ensures n in CategoryOccurrences(entries) <==> exists i :: 0 <= i < |entries| && n in entries[i].categories
    decreases |entries|
  {
    if |entries| > 0 {
      CategoryOccurrencesSpec(entries[1..], n);
      assert forall i :: 0 < i < |entries| ==> entries[1..][i - 1] == entries[i];
      if exists i :: 0 <= i < |entries| && n in entries[i].categories {
        var i :| 0 <= i < |entries| && n in entries[i].categories;
        if i > 0 {
          assert n in entries[1..][i - 1].categories;
        }
      }
    }
  }

  // ---------------------------------------------------------------------------
  // Top-N lists

  /** `s.slice(0, n)`. */
  function Take<T>(s: seq<T>, n: nat): (r: seq<T>)
    ensures |r| <= n && |r| <= |s|
    ensures forall i :: 0 <= i < |r| ==> r[i] == s[i]
    ensures |s| >= n ==> |r| == n
    ensures |s| < n ==> r == s
  {
    if |s| <= n then s else s[..n]
  }

  /** `Object.entries(counts).sort((a, b) => b[1] - a[1]).slice(0, n)` over a
      counting record built from `names`. */
  function TopN(names: seq<string>, n: nat): seq<Count>
  {
    Take(SortByCountDesc(Tally(names)), n)
  }

  /** The sorted counting record is a permutation of the record, so its names are
      distinct too. */
  lemma SortedTallyNames(names: seq<string>)
    ensures NoDuplicates(Names(SortByCountDesc(Tally(names))))
    ensures multiset(SortByCountDesc(Tally(names))) == multiset(Tally(names))
  {
    TallyCounts(names);
    SortByCountDescNames(Tally(names));
    PermutationKeepsNoDuplicates(Names(Tally(names)), Names(SortByCountDesc(Tally(names))));
    SortByCountDescContents(Tally(names));
  }

  /** A top-N list has at most `n` rows, sorted by descending count, each name once. */
  lemma TopNShape(names: seq<string>, n: nat)
    ensures |TopN(names, n)| <= n
    ensures NonIncreasing(TopN(names, n))
    ensures NoDuplicates(Names(TopN(names, n)))
  {
    var sorted := SortByCountDesc(Tally(names));
    SortByCountDescSorted(Tally(names));
    SortedTallyNames(names);
    var r := TopN(names, n);
    forall i, j | 0 <= i < j < |r| ensures Names(r)[i] != Names(r)[j] {
      assert Names(sorted)[i] != Names(sorted)[j];
    }
  }

  /** Each row of a top-N list counts exactly the occurrences of its name, which
      are at least one. */
  lemma TopNCounts(names: seq<string>, n: nat)
    ensures forall c :: c in TopN(names, n) ==> c.count == multiset(names)[c.name] && c.count > 0
  {
    var t := Tally(names);
    var sorted := SortByCountDesc(t);
    TallyCounts(names);
    TallyPositive(names);
    SortedTallyNames(names);
    forall c | c in TopN(names, n) ensures c.count == multiset(names)[c.name] && c.count > 0 {
      assert c in multiset(sorted);
      assert c in t;
      var j :| 0 <= j < |t| && t[j] == c;
      CountOfAt(t, j);
    }
  }

  /** A name that occurs but did not make the list was cut off: the list is full
      and the name occurs no more often than the last row. */
  lemma TopNMissing(names: seq<string>, n: nat)
    ensures forall x :: x in names && x !in Names(TopN(names, n)) ==>
      |TopN(names, n)| == n && (n > 0 ==> multiset(names)[x] <= TopN(names, n)[n - 1].count)
  {
    var sorted := SortByCountDesc(Tally(names));
    var r := TopN(names, n);
    SortByCountDescSorted(Tally(names));
    forall x | x in names && x !in Names(r)
      ensures |r| == n && (n > 0 ==> multiset(names)[x] <= r[n - 1].count)
    {
      var k := SortedTallyRow(names, x);
      TakenName(sorted, n, k);
    }
  }

  /** An occurring name has a row in the sorted counting record, holding its
      number of occurrences. */
  lemma SortedTallyRow(names: seq<string>, x: string) returns (k: nat)
    requires x in names
    ensures k < |SortByCountDesc(Tally(names))|
    ensures SortByCountDesc(Tally(names))[k].name == x
    ensures SortByCountDesc(Tally(names))[k].count == multiset(names)[x]
  {
    var t := Tally(names);
    var sorted := SortByCountDesc(t);
    TallyCounts(names);
    SortedTallyNames(names);
    assert CountOf(t, x) > 0;
    CountOfFound(t, x);
    var j :| 0 <= j < |t| && t[j].name == x && t[j].count == CountOf(t, x);
    assert t[j] in multiset(sorted);
    k :| 0 <= k < |sorted| && sorted[k] == t[j];
  }

  /** A row at a position the cut keeps has its name among the kept names. */
  lemma TakenName(cs: seq<Count>, n: nat, k: nat)
    requires k < |cs|
    ensures k < n ==> cs[k].name in Names(Take(cs, n))
  {
    if k < n {
      assert Names(Take(cs, n))[k] == cs[k].name;
    }
  }

  // ---------------------------------------------------------------------------
  // Summary statistics

  /** `stats` without `thisWeekCount`. */
  datatype Stats = Stats(daysLogged: nat, totalTasks: nat, topTech: string, topProject: string)

  /** `list[0]?.name || '—'`: the first name, unless there is none or it is the
      empty string (which JavaScript treats as false). */
  function TopName(cs: seq<Count>): string
  {
    if |cs| == 0 || cs[0].name == "" then Dash else cs[0].name
  }

  /** `stats`, over all entries. */
  function ComputeStats(entries: seq<Entry>): Stats
  {
    Stats(|Helpers.DistinctDates(entries)|,
          |entries|,
          TopName(SortByCountDesc(Tally(TechOccurrences(entries)))),
          TopName(CountBy(entries, ProjectOf)))
  }

  /** No name is counted more often than the name of a maximal element. */
  lemma MaxCountOf(cs: seq<Count>, i: nat)
    requires NoDuplicates(Names(cs))
    requires IsEarliestMax(cs, i)
    ensures forall n :: CountOf(cs, n) <= CountOf(cs, cs[i].name)
  {
    CountOfAt(cs, i);
    forall n ensures CountOf(cs, n) <= cs[i].count {
      if CountOf(cs, n) > 0 {
        CountOfFound(cs, n);
      }
    }
  }

  /** The top of a sorted record is decided by the earliest element with the
      largest count: its name, or the placeholder when that name is empty. So a
      name shown has the largest count, and a non-empty record shows the
      placeholder only when its leading name is "". */
  lemma {:induction false} TopNameSpec(cs: seq<Count>)
    requires NoDuplicates(Names(cs))
    ensures |cs| > 0 ==> exists i :: IsEarliestMax(cs, i)
    ensures forall i :: IsEarliestMax(cs, i) ==>
      TopName(SortByCountDesc(cs)) == if cs[i].name == "" then Dash else cs[i].name
    ensures TopName(SortByCountDesc(cs)) != Dash ==>
      exists i :: IsEarliestMax(cs, i) && cs[i].name == TopName(SortByCountDesc(cs))
    ensures TopName(SortByCountDesc(cs)) != Dash ==>
      forall n :: CountOf(cs, n) <= CountOf(cs, TopName(SortByCountDesc(cs)))
  {
    var sorted := SortByCountDesc(cs);
    var top := TopName(sorted);
    forall j | IsEarliestMax(cs, j)
      ensures top == if cs[j].name == "" then Dash else cs[j].name
    {
      TopNameAt(cs, j);
    }
    if |cs| > 0 {
      SortFirstIsEarliestMax(cs);
      var i :| IsEarliestMax(cs, i) && sorted[0] == cs[i];
      MaxCountOf(cs, i);
      assert top != Dash ==> top == cs[i].name;
    }
  }

  /** The sorted record leads with the given earliest maximal element. */
  lemma {:induction false} TopNameAt(cs: seq<Count>, j: int)
    requires IsEarliestMax(cs, j)
    ensures TopName(SortByCountDesc(cs)) == if cs[j].name == "" then Dash else cs[j].name
  {
    SortFirstIsEarliestMax(cs);
    var i :| IsEarliestMax(cs, i) && SortByCountDesc(cs)[0] == cs[i];
    EarliestMaxUnique(cs, i, j);
  }


  /** An empty record shows the placeholder. */
  lemma TopNameEmpty(cs: seq<Count>)
    ensures |cs| == 0 ==> TopName(SortByCountDesc(cs)) == Dash
  {
  }

  /** `topTech` is the placeholder when no entry has a technology; otherwise it
      comes from a technology selected at least as often as any other (shown
      unless its name is empty), the first counted among those. */
  lemma {:induction false} TopTechSpec(entries: seq<Entry>)
    ensures |TechOccurrences(entries)| == 0 ==> ComputeStats(entries).topTech == Dash
    ensures var occ := TechOccurrences(entries);
      var top := ComputeStats(entries).topTech;
      |occ| > 0 ==> exists t ::
        t in occ && (forall n :: multiset(occ)[n] <= multiset(occ)[t]) &&
        top == if t == "" then Dash else t
    ensures var occ := TechOccurrences(entries);
      var top := ComputeStats(entries).topTech;
      top != Dash ==>
        top in occ && (forall n :: multiset(occ)[n] <= multiset(occ)[top]) &&
        exists i :: IsEarliestMax(Tally(occ), i) && Tally(occ)[i].name == top
  {
    var occ := TechOccurrences(entries);
    var t := Tally(occ);
    var top := ComputeStats(entries).topTech;
    assert top == TopName(SortByCountDesc(t));
    TallyNames(occ);
    if |occ| == 0 {
      TopNameEmpty(t);
    } else {
      assert occ[0] in Names(t);
      SortFirstIsEarliestMax(t);
      var i :| IsEarliestMax(t, i);
      TopOfTally(occ, i);
      var w := t[i].name;
      assert w in occ && (forall n :: multiset(occ)[n] <= multiset(occ)[w]) &&
        top == if w == "" then Dash else w;
    }
  }

  /** The earliest most frequent name of a tally occurs, is counted at least as
      often as any other, and decides the name shown as the top. */
  lemma {:induction false} TopOfTally(names: seq<string>, i: int)
    requires IsEarliestMax(Tally(names), i)
    ensures var w := Tally(names)[i].name;
      w in names && (forall n :: multiset(names)[n] <= multiset(names)[w]) &&
      TopName(SortByCountDesc(Tally(names))) == if w == "" then Dash else w
  {
    var t := Tally(names);
    TallyCounts(names);
    TallyPositive(names);
    assert t[i] in t;
    MaxCountOf(t, i);
    TopNameAt(t, i);
  }

  /** `topProject` is the placeholder when there are no entries; otherwise it
      comes from a project with at least as many entries as any other (shown
      unless its name is empty), and a project shown is one of those. */
  lemma {:induction false} TopProjectSpec(entries: seq<Entry>)
    ensures |entries| == 0 ==> ComputeStats(entries).topProject == Dash
    ensures var top := ComputeStats(entries).topProject;
      |entries| > 0 ==> exists p ::
        (exists i :: 0 <= i < |entries| && entries[i].project == p) &&
        (forall q :: |Filter(entries, KeyIs(ProjectOf, q))| <= |Filter(entries, KeyIs(ProjectOf, p))|) &&
        top == if p == "" then Dash else p
    ensures var top := ComputeStats(entries).topProject;
      top != Dash ==>
        (exists i :: 0 <= i < |entries| && entries[i].project == top) &&
        forall p :: |Filter(entries, KeyIs(ProjectOf, p))| <= |Filter(entries, KeyIs(ProjectOf, top))|
  {
    var top := ComputeStats(entries).topProject;
    if |entries| == 0 {
      var gs := GroupBy(entries, ProjectOf);
      GroupByKeys(entries, ProjectOf);
      SizesNamesAndSum(gs);
      assert |MapKeys(entries, ProjectOf)| == 0;
      assert |gs| == |Keys(gs)| == 0;
      TopNameEmpty(Sizes(gs));
    } else {
      var p := TopProjectFrom(entries);
      assert (exists i :: 0 <= i < |entries| && entries[i].project == p) &&
        (forall q :: |Filter(entries, KeyIs(ProjectOf, q))| <= |Filter(entries, KeyIs(ProjectOf, p))|) &&
        top == if p == "" then Dash else p;
      assert top != Dash ==> p == top;
    }
  }

  /** With at least one entry, `topProject` comes from a project with the most
      entries. */
  lemma {:induction false} TopProjectFrom(entries: seq<Entry>) returns (p: string)
    requires |entries| > 0
    ensures exists i :: 0 <= i < |entries| && entries[i].project == p
    ensures forall q :: |Filter(entries, KeyIs(ProjectOf, q))| <= |Filter(entries, KeyIs(ProjectOf, p))|
    ensures ComputeStats(entries).topProject == if p == "" then Dash else p
  {
    var gs := GroupBy(entries, ProjectOf);
    var sizes := Sizes(gs);
    GroupByKeys(entries, ProjectOf);
    SizesNamesAndSum(gs);
    assert MapKeys(entries, ProjectOf)[0] in Keys(gs);
    SortFirstIsEarliestMax(sizes);
    var i :| IsEarliestMax(sizes, i);
    TopNameAt(sizes, i);
    MaxProject(entries, i);
    p := sizes[i].name;
  }

  /** The earliest maximal project count belongs to a project some entry has,
      and no project has more entries. */
  lemma MaxProject(entries: seq<Entry>, i: int)
    requires IsEarliestMax(Sizes(GroupBy(entries, ProjectOf)), i)
    ensures var top := Sizes(GroupBy(entries, ProjectOf))[i].name;
      (exists j :: 0 <= j < |entries| && entries[j].project == top) &&
      forall p :: |Filter(entries, KeyIs(ProjectOf, p))| <= |Filter(entries, KeyIs(ProjectOf, top))|
  {
    var gs := GroupBy(entries, ProjectOf);
    var sizes := Sizes(gs);
    var top := sizes[i].name;
    GroupByKeys(entries, ProjectOf);
    SizesNamesAndSum(gs);
    MaxCountOf(sizes, i);
    assert top in Keys(gs);
    var j :| 0 <= j < |entries| && MapKeys(entries, ProjectOf)[j] == top;
    forall p ensures |Filter(entries, KeyIs(ProjectOf, p))| <= |Filter(entries, KeyIs(ProjectOf, top))| {
      CountOfSizes(gs, p);
      CountOfSizes(gs, top);
      GroupByLookup(entries, ProjectOf, p);
      GroupByLookup(entries, ProjectOf, top);
    }
  }

  /** `totalTasks` is the number of entries, which the project counts add up to. */
  lemma TotalTasksSpec(entries: seq<Entry>)
    ensures ComputeStats(entries).totalTasks == |entries| == SumCounts(CountBy(entries, ProjectOf))
  {
    CountBySortedAndTotal(entries, ProjectOf);
  }

  /** `daysLogged` is the number of days the history shows for the unfiltered log. */
  lemma DaysLoggedSpec(entries: seq<Entry>)
    ensures ComputeStats(entries).daysLogged == |GroupBy(entries, DateOf)|
  {
    var gs := GroupBy(entries, DateOf);
    GroupByKeys(entries, DateOf);
    var ks := Keys(gs);
    Helpers.DistinctCardinality(ks);
    forall d ensures d in ks <==> d in Helpers.DistinctDates(entries) {
      if d in ks {
        var j :| 0 <= j < |entries| && MapKeys(entries, DateOf)[j] == d;
        assert entries[j] in entries;
      }
      if d in Helpers.DistinctDates(entries) {
        var e :| e in entries && e.date == d;
        var j :| 0 <= j < |entries| && entries[j] == e;
        assert MapKeys(entries, DateOf)[j] == d;
      }
    }
    assert (set x | x in ks) == Helpers.DistinctDates(entries);
  }

  // ---------------------------------------------------------------------------
  // Grouping by date

  /** `Object.entries(groupBy(filtered, 'date'))` sorted by date (`localeCompare` on
      ISO dates, which orders them as their code units do), ascending or descending. */
  function DateGroups(filtered: seq<Entry>, descending: bool): seq<Group<Entry>>
  {
    SortByKey(GroupBy(filtered, DateOf), descending)
  }

  /** The date groups are strictly ordered by date and hold every entry once. */
  lemma DateGroupsOrdered(filtered: seq<Entry>, descending: bool)
    ensures StrictlyOrdered(DateGroups(filtered, descending), descending)
    ensures Total(DateGroups(filtered, descending)) == |filtered|
  {
    GroupByKeys(filtered, DateOf);
    SortByKeySorted(GroupBy(filtered, DateOf), descending);
    SortByKeyTotal(GroupBy(filtered, DateOf), descending);
    GroupByTotal(filtered, DateOf);
  }

  /** Each date group holds exactly the entries of its date, in order, and is not
      empty. */
  lemma DateGroupsItems(filtered: seq<Entry>, descending: bool)
    ensures forall i :: 0 <= i < |DateGroups(filtered, descending)| ==>
      var g := DateGroups(filtered, descending)[i];
      g.items == Filter(filtered, KeyIs(DateOf, g.key)) && |g.items| > 0
  {
    var gs := GroupBy(filtered, DateOf);
    var dg := DateGroups(filtered, descending);
    SortByKeyContents(gs, descending);
    GroupByGroups(filtered, DateOf);
    forall i | 0 <= i < |dg| ensures dg[i].items == Filter(filtered, KeyIs(DateOf, dg[i].key)) && |dg[i].items| > 0 {
      assert dg[i] in multiset(gs);
      var j :| 0 <= j < |gs| && gs[j] == dg[i];
    }
  }

  /** The date of every entry has a group. */
  lemma DateGroupsCover(filtered: seq<Entry>, descending: bool)
    ensures forall e :: e in filtered ==> e.date in Keys(DateGroups(filtered, descending))
  {
    var gs := GroupBy(filtered, DateOf);
    var dg := DateGroups(filtered, descending);
    GroupByKeys(filtered, DateOf);
    SortByKeyKeys(gs, descending);
    forall e | e in filtered ensures e.date in Keys(dg) {
      var k :| 0 <= k < |filtered| && filtered[k] == e;
      assert MapKeys(filtered, DateOf)[k] == e.date;
    }
  }

  // ---------------------------------------------------------------------------
  // Chart data

  /** `tasksOverTime`: one `{ date, count }` per day, by ascending date. */
  function TasksOverTime(filtered: seq<Entry>): seq<Count>
  {
    Sizes(DateGroups(filtered, false))
  }

  /** The days come in strictly ascending date order, every entry's day is there,
      each day counts exactly its entries (at least one), and the counts add up to
      the number of entries. */
  lemma TasksOverTimeSpec(filtered: seq<Entry>)
    ensures Helpers.StrictlyAscending(Names(TasksOverTime(filtered)))
    ensures SumCounts(TasksOverTime(filtered)) == |filtered|
    ensures forall c :: c in TasksOverTime(filtered) ==>
      c.count == |Filter(filtered, KeyIs(DateOf, c.name))| && c.count > 0
    ensures forall e :: e in filtered ==> e.date in Names(TasksOverTime(filtered))
  {
    var dg := DateGroups(filtered, false);
    var r := TasksOverTime(filtered);
    DateGroupsOrdered(filtered, false);
    DateGroupsItems(filtered, false);
    DateGroupsCover(filtered, false);
    SizesNamesAndSum(dg);
    forall c | c in r ensures c.count == |Filter(filtered, KeyIs(DateOf, c.name))| && c.count > 0 {
      var i :| 0 <= i < |r| && r[i] == c;
    }
  }

  /** `techUsage`: the ten most selected technologies. */
  function TechUsage(filtered: seq<Entry>): seq<Count>
  {
    TopN(TechOccurrences(filtered), 10)
  }

  /** At most ten rows, by descending count, each technology once, each counting all
      its selections; a selected technology is missing only when ten others are
      selected at least as often. */
  lemma TechUsageSpec(filtered: seq<Entry>)
    ensures |TechUsage(filtered)| <= 10 && NonIncreasing(TechUsage(filtered))
    ensures NoDuplicates(Names(TechUsage(filtered)))
    ensures forall c :: c in TechUsage(filtered) ==>
      c.count == multiset(TechOccurrences(filtered))[c.name] && c.count > 0
    ensures forall x :: x in TechOccurrences(filtered) && x !in Names(TechUsage(filtered)) ==>
      |TechUsage(filtered)| == 10 && multiset(TechOccurrences(filtered))[x] <= TechUsage(filtered)[9].count
  {
    TopNShape(TechOccurrences(filtered), 10);
    TopNCounts(TechOccurrences(filtered), 10);
    TopNMissing(TechOccurrences(filtered), 10);
  }

  /** `categories`: each category once, in order of first use, with its number of
      uses. */
  function Categories(filtered: seq<Entry>): seq<Count>
  {
    Tally(CategoryOccurrences(filtered))
  }

  /** A category has a row exactly when some entry carries it; each row counts all
      its uses and no category has two rows. */
  lemma CategoriesSpec(filtered: seq<Entry>)
    ensures NoDuplicates(Names(Categories(filtered)))
    ensures forall n :: CountOf(Categories(filtered), n) == multiset(CategoryOccurrences(filtered))[n]
    ensures forall n :: n in Names(Categories(filtered)) <==> exists i :: 0 <= i < |filtered| && n in filtered[i].categories
  {
    var occ := CategoryOccurrences(filtered);
    TallyCounts(occ);
    TallyNames(occ);
    forall n ensures n in occ <==> exists i :: 0 <= i < |filtered| && n in filtered[i].categories {
      CategoryOccurrencesSpec(filtered, n);
    }
  }

  /** `soloTeam`. */
  function SoloTeam(filtered: seq<Entry>): seq<Count>
  {
    CountBy(filtered, TeamOf)
  }

  /** At most two rows, named "solo" or "team", by descending count, each counting
      its entries, together counting every entry. */
  lemma SoloTeamSpec(filtered: seq<Entry>)
    ensures |SoloTeam(filtered)| <= 2
    ensures forall c :: c in SoloTeam(filtered) ==> c.name == "solo" || c.name == "team"
    ensures NonIncreasing(SoloTeam(filtered)) && SumCounts(SoloTeam(filtered)) == |filtered|
    ensures forall c :: c in SoloTeam(filtered) ==> c.count == |Filter(filtered, KeyIs(TeamOf, c.name))|
  {
    CountBySortedAndTotal(filtered, TeamOf);
    CountByCounts(filtered, TeamOf);
    SoloTeamNames(filtered);
  }

  /** The rows of `soloTeam` are named "solo" or "team", each at most once, so
      there are at most two. */
  lemma SoloTeamNames(filtered: seq<Entry>)
    ensures forall c :: c in SoloTeam(filtered) ==> c.name == "solo" || c.name == "team"
    ensures |SoloTeam(filtered)| <= 2
  {
    var r := SoloTeam(filtered);
    var keys := MapKeys(filtered, TeamOf);
    CountByNames(filtered, TeamOf);
    var names := Names(r);
    var both: set<string> := {"solo", "team"};
    forall x | x in names ensures x in both {
      assert x in keys;
      var j :| 0 <= j < |filtered| && keys[j] == x;
      assert x == TeamTypeName(filtered[j].teamType);
    }
    forall c | c in r ensures c.name in both {
      var i :| 0 <= i < |r| && r[i] == c;
      assert names[i] == c.name;
    }
    DistinctWithin(names, both);
  }

  /** A duplicate-free list drawn from a set is no longer than the set. */
  lemma DistinctWithin(names: seq<string>, within: set<string>)
    requires NoDuplicates(names)
    requires forall x :: x in names ==> x in within
    ensures |names| <= |within|
  {
    var present := set x | x in names;
    Helpers.DistinctCardinality(names);
    assert within == present + (within - present) && present * (within - present) == {};
  }

  /** `projects`. */
  function Projects(filtered: seq<Entry>): seq<Count>
  {
    CountBy(filtered, ProjectOf)
  }

  /** One row per project in use, by descending count, each counting its entries,
      together counting every entry. */
  lemma ProjectsSpec(filtered: seq<Entry>)
    ensures NonIncreasing(Projects(filtered)) && SumCounts(Projects(filtered)) == |filtered|
    ensures NoDuplicates(Names(Projects(filtered)))
    ensures forall p :: p in Names(Projects(filtered)) <==> exists i :: 0 <= i < |filtered| && filtered[i].project == p
    ensures forall c :: c in Projects(filtered) ==> c.count == |Filter(filtered, KeyIs(ProjectOf, c.name))| && c.count > 0
  {
    CountBySortedAndTotal(filtered, ProjectOf);
    CountByNames(filtered, ProjectOf);
    CountByCounts(filtered, ProjectOf);
    forall p ensures p in MapKeys(filtered, ProjectOf) <==> exists i :: 0 <= i < |filtered| && filtered[i].project == p {
      if exists i :: 0 <= i < |filtered| && filtered[i].project == p {
        var i :| 0 <= i < |filtered| && filtered[i].project == p;
        assert MapKeys(filtered, ProjectOf)[i] == p;
      }
    }
  }

  // ---------------------------------------------------------------------------
  // History

  /** One day of the history. */
  datatype HistoryDay = HistoryDay(date: string, dayNumber: nat, entries: seq<Entry>)

  /** `({ date, dayNumber: entries[0].dayNumber, entries })`; the groups `groupBy`
      builds are never empty, so the 0 is never used. */
  function DayOf(g: Group<Entry>): HistoryDay
  {
    HistoryDay(g.key, if |g.items| > 0 then g.items[0].dayNumber else 0, g.items)
  }

  /** The days of a list of date groups. */
  function Days(gs: seq<Group<Entry>>): (r: seq<HistoryDay>)
    ensures |r| == |gs|
    ensures forall i :: 0 <= i < |gs| ==> r[i] == DayOf(gs[i])
  {
    if |gs| == 0 then [] else [DayOf(gs[0])] + Days(gs[1..])
  }

  /** `history`: the days, newest first. */
  function History(filtered: seq<Entry>): seq<HistoryDay>
  {
    Days(DateGroups(filtered, true))
  }

  /** The days come in strictly descending date order. */
  lemma HistoryOrdered(filtered: seq<Entry>)
    ensures forall i, j :: 0 <= i < j < |History(filtered)| ==> StrLess(History(filtered)[j].date, History(filtered)[i].date)
  {
    var dg := DateGroups(filtered, true);
    var r := History(filtered);
    DateGroupsOrdered(filtered, true);
    forall i, j | 0 <= i < j < |r| ensures StrLess(r[j].date, r[i].date) {
      assert KeyBefore(dg[i], dg[j], true);
    }
  }

  /** Each day holds exactly the entries of its date, in order, is not empty and
      carries its first entry's day number. */
  lemma HistoryDays(filtered: seq<Entry>)
    ensures forall i :: 0 <= i < |History(filtered)| ==>
      var d := History(filtered)[i];
      d.entries == Filter(filtered, KeyIs(DateOf, d.date)) && |d.entries| > 0 &&
      d.dayNumber == d.entries[0].dayNumber
  {
    DateGroupsItems(filtered, true);
  }

  /** Every entry's day is in the history. */
  lemma HistoryCover(filtered: seq<Entry>)
    ensures forall e :: e in filtered ==> exists i :: 0 <= i < |History(filtered)| && History(filtered)[i].date == e.date
  {
    var dg := DateGroups(filtered, true);
    var r := History(filtered);
    DateGroupsCover(filtered, true);
    forall e | e in filtered ensures exists i :: 0 <= i < |r| && r[i].date == e.date {
      var i :| 0 <= i < |dg| && Keys(dg)[i] == e.date;
      assert r[i].date == e.date;
    }
  }

  /** For the unfiltered log, the history has as many days as `daysLogged`. */
  lemma HistoryMatchesDaysLogged(entries: seq<Entry>)
    ensures |History(entries)| == |TasksOverTime(entries)| == ComputeStats(entries).daysLogged
  {
    DaysLoggedSpec(entries);
  }

  // ---------------------------------------------------------------------------
  // Sub-technology breakdown

  /** A value of a breakdown row: the technology's name or a sub-technology count. */
  datatype Cell = Label(text: string) | Amount(amount: nat)

  /** `row[k] = v` on an association list: replaces the value of an existing key in
      place, or appends the key. */
  function SetKey(row: seq<(string, Cell)>, k: string, v: Cell): seq<(string, Cell)>
  {
    if |row| == 0 then [(k, v)]
    else if row[0].0 == k then [(k, v)] + row[1..]
    else [row[0]] + SetKey(row[1..], k, v)
  }

  /** `row[k]`, or `None` when the key is absent. */
  function Get(row: seq<(string, Cell)>, k: string): Option<Cell>
  {
    if |row| == 0 then None else if row[0].0 == k then Some(row[0].1) else Get(row[1..], k)
  }

  /** Assigning a key changes what that key reads and nothing else. */
  lemma {:induction false} GetSetKey(row: seq<(string, Cell)>, k: string, v: Cell, k': string)
    ensures Get(SetKey(row, k, v), k') == if k' == k then Some(v) else Get(row, k')
    decreases |row|
  {
    if |row| > 0 && row[0].0 != k {
      GetSetKey(row[1..], k, v, k');
      assert SetKey(row, k, v)[1..] == SetKey(row[1..], k, v);
    }
  }

  /** `.forEach(([s, c]) => { row[s] = c; })`. */
  function FillRow(row: seq<(string, Cell)>, subs: seq<Count>): seq<(string, Cell)>
    decreases |subs|
  {
    if |subs| == 0 then row else FillRow(SetKey(row, subs[0].name, Amount(subs[0].count)), subs[1..])
  }

  /** After filling, a key no count names reads as before, and (names being
      distinct) each count's name reads that count. */
  lemma {:induction false} FillRowGet(row: seq<(string, Cell)>, subs: seq<Count>, k: string)
    requires NoDuplicates(Names(subs))
    ensures k !in Names(subs) ==> Get(FillRow(row, subs), k) == Get(row, k)
    ensures forall i :: 0 <= i < |subs| && subs[i].name == k ==> Get(FillRow(row, subs), k) == Some(Amount(subs[i].count))
    decreases |subs|
  {
    if |subs| > 0 {
      var next := SetKey(row, subs[0].name, Amount(subs[0].count));
      assert Names(subs[1..]) == Names(subs)[1..];
      FillRowGet(next, subs[1..], k);
      GetSetKey(row, subs[0].name, Amount(subs[0].count), k);
      forall i | 0 < i < |subs| ensures subs[i].name != subs[0].name {
        assert Names(subs)[i] != Names(subs)[0];
      }
      forall i | 0 <= i < |subs| && subs[i].name == k ensures Get(FillRow(row, subs), k) == Some(Amount(subs[i].count)) {
        if i > 0 {
          assert subs[1..][i - 1] == subs[i];
        }
      }
    }
  }

  /** The row the source builds for technology `name`: `{ tech: name }`, then the
      four most chosen sub-technologies assigned as keys of the same object. */
  function RowAsWritten(filtered: seq<Entry>, name: string): seq<(string, Cell)>
  {
    FillRow([("tech", Label(name))], TopN(SubOccurrences(filtered, name), 4))
  }

  /** A sub-technology called "tech" overwrites the row's label: for one entry
      selecting "Docker" with the sub-technology "tech", the row's "tech" key holds
      the count 1 and the name "Docker" is gone. */
  lemma RowAsWrittenLosesLabel()
    ensures var e := Entry("e1", "2024-05-01", 1, "p", [], "t", "", [TechSelection("Docker", ["tech"])], Solo, "c");
      Get(RowAsWritten([e], "Docker"), "tech") == Some(Amount(1))
  {
    var e := Entry("e1", "2024-05-01", 1, "p", [], "t", "", [TechSelection("Docker", ["tech"])], Solo, "c");
    var occ := SubOccurrences([e], "Docker");
    assert SelectionSubs([TechSelection("Docker", ["tech"])], "Docker") == ["tech"];
    assert [e][1..] == [];
    assert SubOccurrences([e][1..], "Docker") == [];
    assert occ == SelectionSubs(e.technologies, "Docker") + SubOccurrences([e][1..], "Docker");
    assert occ == ["tech"];
    assert Tally(["tech"][..0]) == [];
    assert Tally(occ) == [Count("tech", 1)];
    assert SortByCountDesc([Count("tech", 1)]) == [Count("tech", 1)];
    var subs := TopN(occ, 4);
    assert subs == [Count("tech", 1)];
    GetSetKey([("tech", Label("Docker"))], "tech", Amount(1), "tech");
  }

  /** One row of the breakdown, with the technology's name kept apart from the
      sub-technology counts. */
  datatype SubTechRow = SubTechRow(tech: string, subs: seq<Count>)

  /** The row for technology `name`: its four most chosen sub-technologies. */
  function SubTechRowFor(filtered: seq<Entry>, name: string): SubTechRow
  {
    SubTechRow(name, TopN(SubOccurrences(filtered, name), 4))
  }

  /** The rows for a list of technologies. */
  function SubTechRows(filtered: seq<Entry>, techs: seq<Count>): (r: seq<SubTechRow>)
    ensures |r| == |techs|
    ensures forall i :: 0 <= i < |techs| ==> r[i] == SubTechRowFor(filtered, techs[i].name)
  {
    if |techs| == 0 then [] else [SubTechRowFor(filtered, techs[0].name)] + SubTechRows(filtered, techs[1..])
  }

  /** `subTechData`: a row for each of the five most used technologies. */
  function SubTechData(filtered: seq<Entry>): seq<SubTechRow>
  {
    SubTechRows(filtered, Take(TechUsage(filtered), 5))
  }

  /** One row per technology among the first five of `techUsage`, in that order;
      each row holds at most four sub-technologies, by descending count, each once,
      each counting its uses under that technology, and leaves out a used
      sub-technology only when four others are used at least as often. */
  lemma SubTechDataSpec(filtered: seq<Entry>)
    ensures |SubTechData(filtered)| == if |TechUsage(filtered)| < 5 then |TechUsage(filtered)| else 5
    ensures forall i :: 0 <= i < |SubTechData(filtered)| ==>
      i < |TechUsage(filtered)| && SubTechData(filtered)[i].tech == TechUsage(filtered)[i].name
    ensures forall i :: 0 <= i < |SubTechData(filtered)| ==>
      var row := SubTechData(filtered)[i];
      var occ := SubOccurrences(filtered, row.tech);
      |row.subs| <= 4 && NonIncreasing(row.subs) && NoDuplicates(Names(row.subs)) &&
      (forall c :: c in row.subs ==> c.count == multiset(occ)[c.name] && c.count > 0) &&
      (forall x :: x in occ && x !in Names(row.subs) ==> |row.subs| == 4 && multiset(occ)[x] <= row.subs[3].count)
  {
    var r := SubTechData(filtered);
    forall i | 0 <= i < |r|
      ensures var occ := SubOccurrences(filtered, r[i].tech);
        |r[i].subs| <= 4 && NonIncreasing(r[i].subs) && NoDuplicates(Names(r[i].subs)) &&
        (forall c :: c in r[i].subs ==> c.count == multiset(occ)[c.name] && c.count > 0) &&
        (forall x :: x in occ && x !in Names(r[i].subs) ==> |r[i].subs| == 4 && multiset(occ)[x] <= r[i].subs[3].count)
    {
      var occ := SubOccurrences(filtered, r[i].tech);
      TopNShape(occ, 4);
      TopNCounts(occ, 4);
      TopNMissing(occ, 4);
    }
  }

  /** Whenever no sub-technology in a row is called "tech", the source's row carries
      exactly the same information as the corrected one: the label under "tech" and
      each count under its sub-technology's name. */
  lemma RowAsWrittenAgrees(filtered: seq<Entry>, name: string)
    ensures var row := SubTechRowFor(filtered, name);
      "tech" !in Names(row.subs) ==>
        Get(RowAsWritten(filtered, name), "tech") == Some(Label(row.tech)) &&
        forall c :: c in row.subs ==> Get(RowAsWritten(filtered, name), c.name) == Some(Amount(c.count))
  {
    var subs := TopN(SubOccurrences(filtered, name), 4);
    TopNShape(SubOccurrences(filtered, name), 4);
    FillRowGet([("tech", Label(name))], subs, "tech");
    forall c | c in subs ensures Get(RowAsWritten(filtered, name), c.name) == Some(Amount(c.count)) {
      var i :| 0 <= i < |subs| && subs[i] == c;
      FillRowGet([("tech", Label(name))], subs, c.name);
    }
  }
}
