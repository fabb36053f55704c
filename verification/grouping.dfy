/** `groupBy`, `countBy` (src/utils/helpers.ts) and the counting records the
    dashboard builds inline. A `Record<string, T>` built by inserting keys one at
    a time is modelled as an association list in insertion order. */
module Grouping {
  import opened Seqs
  import opened Text

  /** One key of a `Record<string, T[]>` with its array. */
  datatype Group<T> = Group(key: string, items: seq<T>)

  /** `Object.keys(record)`, in insertion order. */
  function Keys<T>(gs: seq<Group<T>>): (ks: seq<string>)
    ensures |ks| == |gs|
    ensures forall i :: 0 <= i < |gs| ==> ks[i] == gs[i].key
  {
    seq(|gs|, i requires 0 <= i < |gs| => gs[i].key)
  }

  /** `record[k] ?? []`: the array stored under `k`, empty when the key is absent. */
  function Lookup<T>(gs: seq<Group<T>>, k: string): seq<T>
  {
    if |gs| == 0 then [] else if gs[0].key == k then gs[0].items else Lookup(gs[1..], k)
  }

  /** The number of items over all groups. */
  function Total<T>(gs: seq<Group<T>>): nat
  {
    if |gs| == 0 then 0 else |gs[0].items| + Total(gs[1..])
  }

  /** Appends `x` when `keep` holds (`acc[k].push(x)` under a condition). */
  function Push<T>(items: seq<T>, x: T, keep: bool): seq<T>
  {
    if keep then items + [x] else items
  }

  /** One step of the source's fold: create the key `k` at the end when it is
      missing, then push `x` onto its array when `keep` holds. */
  function AddTo<T>(gs: seq<Group<T>>, k: string, x: T, keep: bool): seq<Group<T>>
  {
    if |gs| == 0 then [Group(k, Push([], x, keep))]
    else if gs[0].key == k then [Group(k, Push(gs[0].items, x, keep))] + gs[1..]
    else [gs[0]] + AddTo(gs[1..], k, x, keep)
  }

  /** A step adds `k` to the keys exactly when it was missing, at the end. */
  lemma {:induction false} AddToKeys<T>(gs: seq<Group<T>>, k: string, x: T, keep: bool)
    ensures Keys(AddTo(gs, k, x, keep)) == if k in Keys(gs) then Keys(gs) else Keys(gs) + [k]
    decreases |gs|
  {
    if |gs| > 0 {
      var r := AddTo(gs, k, x, keep);
      KeysCons(gs);
      KeysCons(r);
      assert r[0].key == gs[0].key;
      if gs[0].key != k {
        AddToKeys(gs[1..], k, x, keep);
        assert r[1..] == AddTo(gs[1..], k, x, keep);
        var ks := Keys(gs[1..]);
        assert k in Keys(gs) <==> k in ks;
        assert [gs[0].key] + (ks + [k]) == [gs[0].key] + ks + [k];
      } else {
        assert r[1..] == gs[1..];
      }
    }
  }

  /** The keys of groups are the first group's key followed by the keys of the rest. */
  lemma KeysCons<T>(gs: seq<Group<T>>)
    requires |gs| > 0
    ensures Keys(gs) == [gs[0].key] + Keys(gs[1..])
  {
  }

  /** A step changes only the array under `k`, and only by pushing `x` when `keep` holds. */
  lemma {:induction false} AddToLookup<T>(gs: seq<Group<T>>, k: string, x: T, keep: bool, k': string)
    ensures Lookup(AddTo(gs, k, x, keep), k') == if k' == k then Push(Lookup(gs, k), x, keep) else Lookup(gs, k')
    decreases |gs|
  {
    if |gs| > 0 {
      var r := AddTo(gs, k, x, keep);
      if gs[0].key == k {
        assert r[1..] == gs[1..];
      } else {
        AddToLookup(gs[1..], k, x, keep, k');
        assert r[1..] == AddTo(gs[1..], k, x, keep);
      }
    }
  }

  /** A step adds one item overall when `keep` holds and none otherwise. */
  lemma {:induction false} AddToTotal<T>(gs: seq<Group<T>>, k: string, x: T, keep: bool)
    ensures Total(AddTo(gs, k, x, keep)) == Total(gs) + (if keep then 1 else 0)
    decreases |gs|
  {
    if |gs| > 0 {
      var r := AddTo(gs, k, x, keep);
      if gs[0].key == k {
        assert r[1..] == gs[1..];
      } else {
        AddToTotal(gs[1..], k, x, keep);
        assert r[1..] == AddTo(gs[1..], k, x, keep);
      }
    }
  }

  /** `arr.map(key)`. */
  function MapKeys<T>(arr: seq<T>, key: T -> string): (ks: seq<string>)
    ensures |ks| == |arr|
    ensures forall i :: 0 <= i < |arr| ==> ks[i] == key(arr[i])
  {
    if |arr| == 0 then [] else MapKeys(arr[..|arr| - 1], key) + [key(arr[|arr| - 1])]
  }

  /** The distinct elements of `s`, each at the position of its first occurrence. */
  function Dedup(s: seq<string>): (r: seq<string>)
    ensures NoDuplicates(r)
    ensures forall x :: x in r <==> x in s
  {
    if |s| == 0 then []
    else
      var d := Dedup(s[..|s| - 1]);
      var x := s[|s| - 1];
      assert s == s[..|s| - 1] + [x];
      if x in d then d else AppendFreshNoDuplicates(d, x); d + [x]
  }

  /** The predicate selecting the items that go into group `k`. */
  function InGroup<T>(key: T -> string, keep: T -> bool, k: string): T -> bool
  {
    x => key(x) == k && keep(x)
  }

  /** The fold behind `groupBy` and the tech selector's grouping: every item
      creates its key, and only the items satisfying `keep` are pushed. */
  function GroupWhere<T>(arr: seq<T>, key: T -> string, keep: T -> bool): seq<Group<T>>
  {
    if |arr| == 0 then []
    else AddTo(GroupWhere(arr[..|arr| - 1], key, keep), key(arr[|arr| - 1]), arr[|arr| - 1], keep(arr[|arr| - 1]))
  }

  /** The fold creates one key per distinct key of `arr`, in first-occurrence order. */
  lemma {:induction false} GroupWhereKeys<T>(arr: seq<T>, key: T -> string, keep: T -> bool)
    ensures Keys(GroupWhere(arr, key, keep)) == Dedup(MapKeys(arr, key))
    decreases |arr|
  {
    if |arr| > 0 {
      var pre, x := arr[..|arr| - 1], arr[|arr| - 1];
      GroupWhereKeys(pre, key, keep);
      AddToKeys(GroupWhere(pre, key, keep), key(x), x, keep(x));
      var ks := MapKeys(arr, key);
      assert ks[..|ks| - 1] == MapKeys(pre, key);
    }
  }

  /** Each array holds exactly the kept items with that key, in input order. */
  lemma {:induction false} GroupWhereLookup<T>(arr: seq<T>, key: T -> string, keep: T -> bool, k: string)
    ensures Lookup(GroupWhere(arr, key, keep), k) == Filter(arr, InGroup(key, keep, k))
    decreases |arr|
  {
    if |arr| > 0 {
      var pre, x := arr[..|arr| - 1], arr[|arr| - 1];
      GroupWhereLookup(pre, key, keep, k);
      GroupWhereLookup(pre, key, keep, key(x));
      AddToLookup(GroupWhere(pre, key, keep), key(x), x, keep(x), k);
      assert arr == pre + [x];
      FilterAppend(pre, x, InGroup(key, keep, k));
    }
  }

  /** Together the arrays hold every kept item once. */
  lemma {:induction false} GroupWhereTotal<T>(arr: seq<T>, key: T -> string, keep: T -> bool)
    ensures Total(GroupWhere(arr, key, keep)) == |Filter(arr, keep)|
    decreases |arr|
  {
    if |arr| > 0 {
      var pre, x := arr[..|arr| - 1], arr[|arr| - 1];
      GroupWhereTotal(pre, key, keep);
      AddToTotal(GroupWhere(pre, key, keep), key(x), x, keep(x));
      assert arr == pre + [x];
      FilterAppend(pre, x, keep);
    }
  }

  /** Keeps every item. */
  function Always<T>(): T -> bool
  {
    _ => true
  }

  /** The predicate selecting the items whose key is `k`. */
  function KeyIs<T>(key: T -> string, k: string): T -> bool
  {
    x => key(x) == k
  }

  /** Filtering with two predicates that agree everywhere gives the same result. */
  lemma {:induction false} FilterSamePredicate<T>(s: seq<T>, p: T -> bool, q: T -> bool)
    requires forall x :: p(x) == q(x)
    ensures Filter(s, p) == Filter(s, q)
    decreases |s|
  {
    if |s| > 0 {
      FilterSamePredicate(s[1..], p, q);
    }
  }

  /** Under a duplicate-free key list, looking up a group's key finds that group. */
  lemma {:induction false} LookupAt<T>(gs: seq<Group<T>>, i: nat)
    requires NoDuplicates(Keys(gs))
    requires i < |gs|
    ensures Lookup(gs, gs[i].key) == gs[i].items
    decreases i
  {
    if i > 0 {
      assert Keys(gs)[0] != Keys(gs)[i];
      assert Keys(gs[1..]) == Keys(gs)[1..];
      LookupAt(gs[1..], i - 1);
    }
  }

  /** `groupBy(arr, key)`. */
  function GroupBy<T>(arr: seq<T>, key: T -> string): seq<Group<T>>
  {
    GroupWhere(arr, key, Always())
  }

  /** `groupBy` has one group per distinct key, in first-occurrence order. */
  lemma GroupByKeys<T>(arr: seq<T>, key: T -> string)
    ensures Keys(GroupBy(arr, key)) == Dedup(MapKeys(arr, key))
    ensures NoDuplicates(Keys(GroupBy(arr, key)))
  {
    GroupWhereKeys(arr, key, Always());
  }

  /** `groupBy` has a group for `k` exactly when some item has key `k`. */
  lemma GroupByHasKey<T>(arr: seq<T>, key: T -> string, k: string)
    ensures k in Keys(GroupBy(arr, key)) <==> exists x :: x in arr && key(x) == k
  {
    GroupByKeys(arr, key);
    var ks := MapKeys(arr, key);
    if k in ks {
      var i :| 0 <= i < |ks| && ks[i] == k;
      assert arr[i] in arr && key(arr[i]) == k;
    }
    if exists x :: x in arr && key(x) == k {
      var x :| x in arr && key(x) == k;
      var i :| 0 <= i < |arr| && arr[i] == x;
      assert ks[i] == k;
    }
  }

  /** The array under `k` is exactly the items whose key is `k`, in input order
      (empty when no item has that key). */
  lemma GroupByLookup<T>(arr: seq<T>, key: T -> string, k: string)
    ensures Lookup(GroupBy(arr, key), k) == Filter(arr, KeyIs(key, k))
  {
    GroupWhereLookup(arr, key, Always(), k);
    FilterSamePredicate(arr, InGroup(key, Always(), k), KeyIs(key, k));
  }

  /** The groups together hold every item once. */
  lemma GroupByTotal<T>(arr: seq<T>, key: T -> string)
    ensures Total(GroupBy(arr, key)) == |arr|
  {
    GroupWhereTotal(arr, key, Always());
    FilterAll(arr, Always());
  }

  /** Every group holds the items with its key and is never empty. */
  lemma GroupByGroups<T>(arr: seq<T>, key: T -> string)
    ensures forall i :: 0 <= i < |GroupBy(arr, key)| ==>
      GroupBy(arr, key)[i].items == Filter(arr, KeyIs(key, GroupBy(arr, key)[i].key))
      && |GroupBy(arr, key)[i].items| > 0
  {
    var r := GroupBy(arr, key);
    GroupByKeys(arr, key);
    forall i | 0 <= i < |r|
      ensures r[i].items == Filter(arr, KeyIs(key, r[i].key)) && |r[i].items| > 0
    {
      var k := r[i].key;
      LookupAt(r, i);
      GroupByLookup(arr, key, k);
      assert k in Keys(r);
      var j :| 0 <= j < |arr| && MapKeys(arr, key)[j] == k;
      FilterContents(arr, KeyIs(key, k));
      assert arr[j] in Filter(arr, KeyIs(key, k));
    }
  }

  /** `{ name, count }`: a key with its number of occurrences. */
  datatype Count = Count(name: string, count: nat)

  /** The names of a list of counts, in order. */
  function Names(cs: seq<Count>): (ns: seq<string>)
    ensures |ns| == |cs|
    ensures forall i :: 0 <= i < |cs| ==> ns[i] == cs[i].name
  {
    if |cs| == 0 then [] else [cs[0].name] + Names(cs[1..])
  }

  /** The sum of the counts. */
  function SumCounts(cs: seq<Count>): nat
  {
    if |cs| == 0 then 0 else cs[0].count + SumCounts(cs[1..])
  }

  /** `Object.entries(groups).map(([name, items]) => ({ name, count: items.length }))`. */
  function Sizes<T>(gs: seq<Group<T>>): (cs: seq<Count>)
    ensures |cs| == |gs|
    ensures forall i :: 0 <= i < |gs| ==> cs[i] == Count(gs[i].key, |gs[i].items|)
  {
    if |gs| == 0 then [] else [Count(gs[0].key, |gs[0].items|)] + Sizes(gs[1..])
  }

  /** The sizes carry the keys as names and add up to the number of items. */
  lemma {:induction false} SizesNamesAndSum<T>(gs: seq<Group<T>>)
    ensures Names(Sizes(gs)) == Keys(gs)
    ensures SumCounts(Sizes(gs)) == Total(gs)
    decreases |gs|
  {
    if |gs| > 0 {
      SizesNamesAndSum(gs[1..]);
      assert Sizes(gs)[1..] == Sizes(gs[1..]);
    }
  }

  /** Counts never grow from left to right. */
  predicate NonIncreasing(cs: seq<Count>)
  {
    forall i, j :: 0 <= i < j < |cs| ==> cs[i].count >= cs[j].count
  }

  /** One step of a stable insertion sort by descending count: `c` goes after
      every element whose count is at least its own. */
  function InsertByCount(c: Count, s: seq<Count>): (r: seq<Count>)
    ensures |r| == |s| + 1
  {
    if |s| == 0 then [c]
    else if s[0].count >= c.count then [s[0]] + InsertByCount(c, s[1..])
    else [c] + s
  }

  /** Insertion adds `c` and loses nothing. */
  lemma {:induction false} InsertByCountContents(c: Count, s: seq<Count>)
    ensures multiset(InsertByCount(c, s)) == multiset(s) + multiset{c}
    decreases |s|
  {
    if |s| > 0 {
      assert s == [s[0]] + s[1..];
      if s[0].count >= c.count {
        InsertByCountContents(c, s[1..]);
      }
    }
  }

  /** Insertion adds the inserted count to the sum. */
  lemma {:induction false} InsertByCountSum(c: Count, s: seq<Count>)
    ensures SumCounts(InsertByCount(c, s)) == SumCounts(s) + c.count
    decreases |s|
  {
    var r := InsertByCount(c, s);
    if |s| > 0 {
      if s[0].count >= c.count {
        InsertByCountSum(c, s[1..]);
        assert r[1..] == InsertByCount(c, s[1..]);
      } else {
        assert r[1..] == s;
      }
    }
  }

  /** Insertion adds the inserted name to the names. */
  lemma {:induction false} InsertByCountNames(c: Count, s: seq<Count>)
    ensures multiset(Names(InsertByCount(c, s))) == multiset(Names(s)) + multiset{c.name}
    decreases |s|
  {
    var r := InsertByCount(c, s);
    if |s| > 0 {
      assert Names(s) == [s[0].name] + Names(s[1..]);
      if s[0].count >= c.count {
        InsertByCountNames(c, s[1..]);
        assert r[1..] == InsertByCount(c, s[1..]);
        assert Names(r) == [s[0].name] + Names(r[1..]);
      } else {
        assert r[1..] == s;
        assert Names(r) == [c.name] + Names(s);
      }
    }
  }

  /** `c` lands in front exactly when the old first element has a smaller count. */
  lemma InsertByCountFront(c: Count, s: seq<Count>)
    ensures |s| > 0 && s[0].count >= c.count ==> InsertByCount(c, s)[0] == s[0]
    ensures (|s| == 0 || s[0].count < c.count) ==> InsertByCount(c, s)[0] == c
  {
  }

  /** Insertion keeps the order by descending count. */
  lemma {:induction false} InsertByCountSorted(c: Count, s: seq<Count>)
    requires NonIncreasing(s)
    ensures NonIncreasing(InsertByCount(c, s))
    decreases |s|
  {
    var r := InsertByCount(c, s);
    if |s| > 0 && s[0].count >= c.count {
      var rest := InsertByCount(c, s[1..]);
      InsertByCountSorted(c, s[1..]);
      InsertByCountContents(c, s[1..]);
      assert r == [s[0]] + rest;
      forall j | 0 < j < |r| ensures r[0].count >= r[j].count {
        assert r[j] == rest[j - 1];
        assert r[j] in multiset(rest);
        assert r[j] in multiset(s[1..]) || r[j] == c;
      }
    }
  }

  /** `.sort((a, b) => b.count - a.count)`: the stable sort (ECMAScript 2019) by
      descending count, as an insertion sort that puts each later element after
      the earlier ones it ties with. */
  function SortByCountDesc(cs: seq<Count>): (r: seq<Count>)
    ensures |r| == |cs|
  {
    if |cs| == 0 then [] else InsertByCount(cs[|cs| - 1], SortByCountDesc(cs[..|cs| - 1]))
  }

  /** Summing after appending one count adds that count. */
  lemma {:induction false} SumCountsAppend(s: seq<Count>, c: Count)
    ensures SumCounts(s + [c]) == SumCounts(s) + c.count
    decreases |s|
  {
    if |s| > 0 {
      assert (s + [c])[1..] == s[1..] + [c];
      SumCountsAppend(s[1..], c);
    }
  }

  /** The sort is a permutation. */
  lemma {:induction false} SortByCountDescContents(cs: seq<Count>)
    ensures multiset(SortByCountDesc(cs)) == multiset(cs)
    decreases |cs|
  {
    if |cs| > 0 {
      var pre, c := cs[..|cs| - 1], cs[|cs| - 1];
      SortByCountDescContents(pre);
      InsertByCountContents(c, SortByCountDesc(pre));
      InitLast(cs);
    }
  }

  /** The sort orders by descending count. */
  lemma {:induction false} SortByCountDescSorted(cs: seq<Count>)
    ensures NonIncreasing(SortByCountDesc(cs))
    decreases |cs|
  {
    if |cs| > 0 {
      var pre, c := cs[..|cs| - 1], cs[|cs| - 1];
      SortByCountDescSorted(pre);
      InsertByCountSorted(c, SortByCountDesc(pre));
    }
  }

  /** The sort keeps the sum of the counts. */
  lemma {:induction false} SortByCountDescSum(cs: seq<Count>)
    ensures SumCounts(SortByCountDesc(cs)) == SumCounts(cs)
    decreases |cs|
  {
    if |cs| > 0 {
      var pre, c := cs[..|cs| - 1], cs[|cs| - 1];
      SortByCountDescSum(pre);
      InsertByCountSum(c, SortByCountDesc(pre));
      assert cs == pre + [c];
      SumCountsAppend(pre, c);
    }
  }

  /** The names after appending one count. */
  lemma NamesAppend(s: seq<Count>, c: Count)
    ensures Names(s + [c]) == Names(s) + [c.name]
  {
    assert forall i :: 0 <= i < |s| ==> (s + [c])[i] == s[i];
  }

  /** The sort keeps the names, each as often as before. */
  lemma {:induction false} SortByCountDescNames(cs: seq<Count>)
    ensures multiset(Names(SortByCountDesc(cs))) == multiset(Names(cs))
    decreases |cs|
  {
    if |cs| > 0 {
      var pre, c := cs[..|cs| - 1], cs[|cs| - 1];
      var sorted := SortByCountDesc(pre);
      calc {
        multiset(Names(SortByCountDesc(cs)));
        multiset(Names(InsertByCount(c, sorted)));
        { InsertByCountNames(c, sorted); }
        multiset(Names(sorted)) + multiset{c.name};
        { SortByCountDescNames(pre); }
        multiset(Names(pre)) + multiset{c.name};
        multiset(Names(pre) + [c.name]);
        { NamesAppend(pre, c); }
        multiset(Names(pre + [c]));
        { assert cs == pre + [c]; }
        multiset(Names(cs));
      }
    }
  }

  /** `cs[i]` has a maximal count and is the first element that does. */
  predicate IsEarliestMax(cs: seq<Count>, i: int)
  {
    && 0 <= i < |cs|
    && (forall j :: 0 <= j < |cs| ==> cs[j].count <= cs[i].count)
    && (forall j :: 0 <= j < i ==> cs[j].count < cs[i].count)
  }

  /** A record has at most one earliest maximal element. */
  lemma EarliestMaxUnique(cs: seq<Count>, i: int, j: int)
    requires IsEarliestMax(cs, i) && IsEarliestMax(cs, j)
    ensures i == j
  {
    assert cs[i].count == cs[j].count;
    if i < j {
      assert false;
    } else if j < i {
      assert false;
    }
  }

  /** Because the sort is stable, its first element is the earliest element with
      the largest count: ties go to the key inserted first. */
  lemma {:induction false} SortFirstIsEarliestMax(cs: seq<Count>)
    requires |cs| > 0
    ensures exists i :: IsEarliestMax(cs, i) && SortByCountDesc(cs)[0] == cs[i]
    decreases |cs|
  {
    var pre, c := cs[..|cs| - 1], cs[|cs| - 1];
    var sorted := SortByCountDesc(pre);
    InsertByCountFront(c, sorted);
    if |pre| == 0 {
      assert IsEarliestMax(cs, 0);
    } else {
      SortFirstIsEarliestMax(pre);
      var i :| IsEarliestMax(pre, i) && sorted[0] == pre[i];
      EarliestMaxExtend(cs, i);
    }
  }

  /** Appending an element keeps the earliest maximum unless the new element is
      strictly larger, in which case it becomes the earliest maximum. */
  lemma EarliestMaxExtend(cs: seq<Count>, i: int)
    requires |cs| > 0 && IsEarliestMax(cs[..|cs| - 1], i)
    ensures cs[i].count >= cs[|cs| - 1].count ==> IsEarliestMax(cs, i)
    ensures cs[i].count < cs[|cs| - 1].count ==> IsEarliestMax(cs, |cs| - 1)
  {
    var pre := cs[..|cs| - 1];
    assert forall j :: 0 <= j < |pre| ==> pre[j] == cs[j];
  }

  /** `countBy(arr, key)`: the group sizes sorted by descending count. */
  function CountBy<T>(arr: seq<T>, key: T -> string): seq<Count>
  {
    SortByCountDesc(Sizes(GroupBy(arr, key)))
  }

  /** `countBy` is sorted by descending count and its counts add up to `|arr|`. */
  lemma CountBySortedAndTotal<T>(arr: seq<T>, key: T -> string)
    ensures NonIncreasing(CountBy(arr, key))
    ensures SumCounts(CountBy(arr, key)) == |arr|
  {
    var gs := GroupBy(arr, key);
    SortByCountDescSorted(Sizes(gs));
    SortByCountDescSum(Sizes(gs));
    SizesNamesAndSum(gs);
    GroupByTotal(arr, key);
  }

  /** `countBy` names every distinct key once and nothing else. */
  lemma CountByNames<T>(arr: seq<T>, key: T -> string)
    ensures NoDuplicates(Names(CountBy(arr, key)))
    ensures forall n :: n in Names(CountBy(arr, key)) <==> n in MapKeys(arr, key)
  {
    var gs := GroupBy(arr, key);
    var sizes := Sizes(gs);
    var r := CountBy(arr, key);
    SortByCountDescNames(sizes);
    SizesNamesAndSum(gs);
    GroupByKeys(arr, key);
    PermutationKeepsNoDuplicates(Names(sizes), Names(r));
    forall n ensures n in Names(r) <==> n in MapKeys(arr, key) {
      assert n in Names(r) <==> n in multiset(Names(r));
      assert n in Names(sizes) <==> n in multiset(Names(sizes));
    }
  }

  /** Each count is the positive number of items with that name as key. */
  lemma CountByCounts<T>(arr: seq<T>, key: T -> string)
    ensures forall c :: c in CountBy(arr, key) ==> c.count == |Filter(arr, KeyIs(key, c.name))| && c.count > 0
  {
    var gs := GroupBy(arr, key);
    var sizes := Sizes(gs);
    var r := CountBy(arr, key);
    SortByCountDescContents(sizes);
    GroupByGroups(arr, key);
    forall c | c in r
      ensures c.count == |Filter(arr, KeyIs(key, c.name))| && c.count > 0
    {
      assert c in multiset(sizes);
      var i :| 0 <= i < |gs| && sizes[i] == c;
    }
  }

  /** `record[k] = (record[k] || 0) + 1`: bumps the count of `k`, creating it at the end. */
  function Bump(cs: seq<Count>, k: string): seq<Count>
  {
    if |cs| == 0 then [Count(k, 1)]
    else if cs[0].name == k then [Count(k, cs[0].count + 1)] + cs[1..]
    else [cs[0]] + Bump(cs[1..], k)
  }

  /** The counting record the dashboard builds with `forEach` over all occurrences. */
  function Tally(names: seq<string>): seq<Count>
  {
    if |names| == 0 then [] else Bump(Tally(names[..|names| - 1]), names[|names| - 1])
  }

  /** The name itself, as a grouping key. */
  function Id(s: string): string
  {
    s
  }

  /** Bumping a count is pushing onto the corresponding group. */
  lemma {:induction false} BumpIsAddTo(gs: seq<Group<string>>, k: string)
    ensures Bump(Sizes(gs), k) == Sizes(AddTo(gs, k, k, true))
    decreases |gs|
  {
    if |gs| > 0 {
      assert Sizes(gs)[1..] == Sizes(gs[1..]);
      var r := AddTo(gs, k, k, true);
      if gs[0].key != k {
        BumpIsAddTo(gs[1..], k);
        assert r[1..] == AddTo(gs[1..], k, k, true);
        assert Sizes(r)[1..] == Sizes(r[1..]);
      } else {
        assert r[1..] == gs[1..];
        assert Sizes(r)[1..] == Sizes(r[1..]);
      }
    }
  }

  /** The counting record equals the sizes of `groupBy` on the names. */
  lemma {:induction false} TallyIsGroupSizes(names: seq<string>)
    ensures Tally(names) == Sizes(GroupBy(names, Id))
    decreases |names|
  {
    if |names| > 0 {
      var pre, x := names[..|names| - 1], names[|names| - 1];
      TallyIsGroupSizes(pre);
      BumpIsAddTo(GroupBy(pre, Id), x);
    }
  }

  /** The count recorded for `k`, or 0 when `k` was never seen. */
  function CountOf(cs: seq<Count>, k: string): nat
  {
    if |cs| == 0 then 0 else if cs[0].name == k then cs[0].count else CountOf(cs[1..], k)
  }

  /** Reading a count off the sizes is measuring the looked-up group. */
  lemma {:induction false} CountOfSizes<T>(gs: seq<Group<T>>, k: string)
    ensures CountOf(Sizes(gs), k) == |Lookup(gs, k)|
    decreases |gs|
  {
    if |gs| > 0 {
      assert Sizes(gs)[1..] == Sizes(gs[1..]);
      CountOfSizes(gs[1..], k);
    }
  }

  /** The names equal to `k` are as many as the occurrences of `k`. */
  lemma {:induction false} FilterCountsOccurrences(names: seq<string>, k: string)
    ensures |Filter(names, KeyIs(Id, k))| == multiset(names)[k]
    decreases |names|
  {
    if |names| > 0 {
      FilterCountsOccurrences(names[1..], k);
      assert names == [names[0]] + names[1..];
      assert multiset(names) == multiset{names[0]} + multiset(names[1..]);
      assert Id(names[0]) == names[0];
      assert KeyIs(Id, k)(names[0]) == (Id(names[0]) == k);
      if names[0] == k {
        assert Filter(names, KeyIs(Id, k)) == [names[0]] + Filter(names[1..], KeyIs(Id, k));
      } else {
        assert Filter(names, KeyIs(Id, k)) == Filter(names[1..], KeyIs(Id, k));
      }
    }
  }

  /** The counting record has each name once, with the number of its occurrences;
      the counts add up to the number of names. */
  lemma TallyCounts(names: seq<string>)
    ensures NoDuplicates(Names(Tally(names)))
    ensures forall k :: CountOf(Tally(names), k) == multiset(names)[k]
    ensures SumCounts(Tally(names)) == |names|
  {
    TallyIsGroupSizes(names);
    var gs := GroupBy(names, Id);
    SizesNamesAndSum(gs);
    GroupByKeys(names, Id);
    GroupByTotal(names, Id);
    forall k ensures CountOf(Sizes(gs), k) == multiset(names)[k] {
      CountOfSizes(gs, k);
      GroupByLookup(names, Id, k);
      FilterCountsOccurrences(names, k);
    }
  }

  /** `a` comes before `b`: ascending or descending character order of the keys
      (standing for code-unit order). */
  predicate KeyBefore<T>(a: Group<T>, b: Group<T>, descending: bool)
  {
    if descending then StrLess(b.key, a.key) else StrLess(a.key, b.key)
  }

  /** Keys strictly ordered in the chosen direction. */
  predicate StrictlyOrdered<T>(gs: seq<Group<T>>, descending: bool)
  {
    forall i, j :: 0 <= i < j < |gs| ==> KeyBefore(gs[i], gs[j], descending)
  }

  /** One step of an insertion sort on keys. */
  function InsertByKey<T>(g: Group<T>, s: seq<Group<T>>, descending: bool): (r: seq<Group<T>>)
    ensures |r| == |s| + 1
  {
    if |s| == 0 || KeyBefore(g, s[0], descending) then [g] + s
    else [s[0]] + InsertByKey(g, s[1..], descending)
  }

  /** Insertion by key adds `g` and loses nothing. */
  lemma {:induction false} InsertByKeyContents<T>(g: Group<T>, s: seq<Group<T>>, descending: bool)
    ensures multiset(InsertByKey(g, s, descending)) == multiset(s) + multiset{g}
    decreases |s|
  {
    if |s| > 0 && !KeyBefore(g, s[0], descending) {
      InsertByKeyContents(g, s[1..], descending);
      assert s == [s[0]] + s[1..];
    }
  }

  /** Inserting a new key into strictly ordered groups keeps them strictly ordered. */
  lemma {:induction false} InsertByKeySorted<T>(g: Group<T>, s: seq<Group<T>>, descending: bool)
    requires StrictlyOrdered(s, descending)
    requires g.key !in Keys(s)
    ensures StrictlyOrdered(InsertByKey(g, s, descending), descending)
    decreases |s|
  {
    if |s| > 0 {
      StrLessTrichotomy(g.key, s[0].key);
      assert Keys(s)[0] == s[0].key;
      if KeyBefore(g, s[0], descending) {
        PrependSorted(g, s, descending);
      } else {
        assert Keys(s[1..]) == Keys(s)[1..];
        InsertByKeySorted(g, s[1..], descending);
        InsertAfterFirstSorted(g, s, descending);
      }
    }
  }

  /** A group that comes before the first of strictly ordered groups can be put
      in front of them. */
  lemma PrependSorted<T>(g: Group<T>, s: seq<Group<T>>, descending: bool)
    requires StrictlyOrdered(s, descending)
    requires |s| > 0 && KeyBefore(g, s[0], descending)
    ensures StrictlyOrdered([g] + s, descending)
  {
    var r := [g] + s;
    forall i, j | 0 <= i < j < |r| ensures KeyBefore(r[i], r[j], descending) {
      if i == 0 && j > 1 {
        assert r[j] == s[j - 1];
        if descending { StrLessTransitive(s[j - 1].key, s[0].key, g.key); }
        else { StrLessTransitive(g.key, s[0].key, s[j - 1].key); }
      }
    }
  }

  /** Inserting behind the first group keeps the order once the insertion into the
      rest does. */
  lemma InsertAfterFirstSorted<T>(g: Group<T>, s: seq<Group<T>>, descending: bool)
    requires StrictlyOrdered(s, descending)
    requires |s| > 0 && !KeyBefore(g, s[0], descending) && g.key != s[0].key
    requires StrictlyOrdered(InsertByKey(g, s[1..], descending), descending)
    ensures StrictlyOrdered(InsertByKey(g, s, descending), descending)
  {
    var rest := InsertByKey(g, s[1..], descending);
    var r := InsertByKey(g, s, descending);
    StrLessTrichotomy(g.key, s[0].key);
    InsertByKeyContents(g, s[1..], descending);
    assert r == [s[0]] + rest;
    forall j | 0 <= j < |rest| ensures KeyBefore(s[0], rest[j], descending) {
      assert rest[j] in multiset(rest);
      assert rest[j] in multiset(s[1..]) || rest[j] == g;
      if rest[j] != g {
        var m :| 0 <= m < |s[1..]| && s[1..][m] == rest[j];
        assert s[m + 1] == rest[j];
      }
    }
    ConsSorted(s[0], rest, descending);
  }

  /** A group that comes before every one of strictly ordered groups can be put
      in front of them. */
  lemma ConsSorted<T>(g: Group<T>, s: seq<Group<T>>, descending: bool)
    requires StrictlyOrdered(s, descending)
    requires forall j :: 0 <= j < |s| ==> KeyBefore(g, s[j], descending)
    ensures StrictlyOrdered([g] + s, descending)
  {
    var r := [g] + s;
    forall i, j | 0 <= i < j < |r| ensures KeyBefore(r[i], r[j], descending) {
      assert r[j] == s[j - 1];
      if i > 0 {
        assert r[i] == s[i - 1];
      }
    }
  }

  /** Sorts groups by key, ascending or descending (`localeCompare` on ISO
      dates, which orders them by code units). */
  function SortByKey<T>(gs: seq<Group<T>>, descending: bool): (r: seq<Group<T>>)
    ensures |r| == |gs|
  {
    if |gs| == 0 then []
    else InsertByKey(gs[|gs| - 1], SortByKey(gs[..|gs| - 1], descending), descending)
  }

  /** Sorting by key is a permutation. */
  lemma {:induction false} SortByKeyContents<T>(gs: seq<Group<T>>, descending: bool)
    ensures multiset(SortByKey(gs, descending)) == multiset(gs)
    decreases |gs|
  {
    if |gs| > 0 {
      var pre, g := gs[..|gs| - 1], gs[|gs| - 1];
      SortByKeyContents(pre, descending);
      InsertByKeyContents(g, SortByKey(pre, descending), descending);
      InitLast(gs);
    }
  }

  /** Sorting by key neither loses nor adds a key. */
  lemma SortByKeyKeys<T>(gs: seq<Group<T>>, descending: bool)
    ensures forall k :: k in Keys(gs) <==> k in Keys(SortByKey(gs, descending))
  {
    var dg := SortByKey(gs, descending);
    SortByKeyContents(gs, descending);
    forall k | k in Keys(gs) ensures k in Keys(dg) {
      var j :| 0 <= j < |gs| && Keys(gs)[j] == k;
      assert gs[j] in multiset(dg);
      var i :| 0 <= i < |dg| && dg[i] == gs[j];
      assert Keys(dg)[i] == k;
    }
    forall k | k in Keys(dg) ensures k in Keys(gs) {
      var i :| 0 <= i < |dg| && Keys(dg)[i] == k;
      assert dg[i] in multiset(gs);
      var j :| 0 <= j < |gs| && gs[j] == dg[i];
      assert Keys(gs)[j] == k;
    }
  }

  /** Groups with distinct keys come out strictly ordered. */
  lemma {:induction false} SortByKeySorted<T>(gs: seq<Group<T>>, descending: bool)
    requires NoDuplicates(Keys(gs))
    ensures StrictlyOrdered(SortByKey(gs, descending), descending)
    decreases |gs|
  {
    if |gs| > 0 {
      var pre, g := gs[..|gs| - 1], gs[|gs| - 1];
      var sorted := SortByKey(pre, descending);
      LastKeyFresh(gs);
      SortByKeySorted(pre, descending);
      SortByKeyKeys(pre, descending);
      InsertByKeySorted(g, sorted, descending);
    }
  }

  /** In groups with distinct keys, the last key is not among the others, which
      are distinct too. */
  lemma LastKeyFresh<T>(gs: seq<Group<T>>)
    requires |gs| > 0 && NoDuplicates(Keys(gs))
    ensures NoDuplicates(Keys(gs[..|gs| - 1]))
    ensures gs[|gs| - 1].key !in Keys(gs[..|gs| - 1])
  {
    KeysInit(gs);
    NoDuplicatesInit(Keys(gs));
  }

  /** The keys of all but the last group are all but the last key. */
  lemma KeysInit<T>(gs: seq<Group<T>>)
    requires |gs| > 0
    ensures Keys(gs[..|gs| - 1]) == Keys(gs)[..|gs| - 1]
    ensures Keys(gs)[|gs| - 1] == gs[|gs| - 1].key
  {
    var pre := gs[..|gs| - 1];
    var kp, kg := Keys(pre), Keys(gs);
    forall i | 0 <= i < |kp| ensures kp[i] == kg[i] {
      assert kp[i] == pre[i].key;
      assert kg[i] == gs[i].key;
    }
  }

  /** Insertion by key adds the inserted group's items to the total. */
  lemma {:induction false} InsertByKeyTotal<T>(g: Group<T>, s: seq<Group<T>>, descending: bool)
    ensures Total(InsertByKey(g, s, descending)) == Total(s) + |g.items|
    decreases |s|
  {
    if |s| > 0 && !KeyBefore(g, s[0], descending) {
      InsertByKeyTotal(g, s[1..], descending);
      assert InsertByKey(g, s, descending)[1..] == InsertByKey(g, s[1..], descending);
    }
  }

  /** Sorting by key keeps the total number of items. */
  lemma {:induction false} SortByKeyTotal<T>(gs: seq<Group<T>>, descending: bool)
    ensures Total(SortByKey(gs, descending)) == Total(gs)
    decreases |gs|
  {
    if |gs| > 0 {
      var pre, g := gs[..|gs| - 1], gs[|gs| - 1];
      SortByKeyTotal(pre, descending);
      InsertByKeyTotal(g, SortByKey(pre, descending), descending);
      TotalAppend(pre, g);
      assert gs == pre + [g];
    }
  }

  /** Appending a group adds its items to the total. */
  lemma {:induction false} TotalAppend<T>(gs: seq<Group<T>>, g: Group<T>)
    ensures Total(gs + [g]) == Total(gs) + |g.items|
    decreases |gs|
  {
    if |gs| > 0 {
      TotalAppend(gs[1..], g);
      assert (gs + [g])[1..] == gs[1..] + [g];
    }
  }

  /** With distinct names, the count read for an element's name is its own count. */
  lemma {:induction false} CountOfAt(cs: seq<Count>, i: nat)
    requires NoDuplicates(Names(cs))
    requires i < |cs|
    ensures CountOf(cs, cs[i].name) == cs[i].count
    decreases |cs|
  {
    if i > 0 {
      assert Names(cs)[0] != Names(cs)[i];
      assert Names(cs[1..]) == Names(cs)[1..];
      CountOfAt(cs[1..], i - 1);
    }
  }

  /** A positive count read for `n` is the count of some element named `n`. */
  lemma {:induction false} CountOfFound(cs: seq<Count>, n: string)
    requires CountOf(cs, n) > 0
    ensures exists j :: 0 <= j < |cs| && cs[j].name == n && cs[j].count == CountOf(cs, n)
    decreases |cs|
  {
    if cs[0].name != n {
      CountOfFound(cs[1..], n);
      var j :| 0 <= j < |cs[1..]| && cs[1..][j].name == n && cs[1..][j].count == CountOf(cs, n);
      assert cs[j + 1] == cs[1..][j];
    }
  }

  /** Every element of the counting record names an occurring key and has a
      positive count. */
  lemma TallyPositive(names: seq<string>)
    ensures forall c :: c in Tally(names) ==> c.count > 0 && c.name in names
  {
    var gs := GroupBy(names, Id);
    TallyIsGroupSizes(names);
    GroupByGroups(names, Id);
    GroupByKeys(names, Id);
    forall c | c in Tally(names) ensures c.count > 0 && c.name in names {
      var i :| 0 <= i < |gs| && Sizes(gs)[i] == c;
      assert gs[i].key in Keys(gs);
      var j :| 0 <= j < |names| && MapKeys(names, Id)[j] == gs[i].key;
    }
  }

  /** The counting record has a row for exactly the occurring names. */
  lemma TallyNames(names: seq<string>)
    ensures forall n :: n in Names(Tally(names)) <==> n in names
  {
    var t := Tally(names);
    TallyCounts(names);
    TallyPositive(names);
    forall n ensures n in Names(t) <==> n in names {
      if n in Names(t) {
        var i :| 0 <= i < |t| && Names(t)[i] == n;
        assert t[i] in t;
      }
      if n in names {
        CountOfFound(t, n);
        var j :| 0 <= j < |t| && t[j].name == n && t[j].count == CountOf(t, n);
        assert Names(t)[j] == n;
      }
    }
  }
}
