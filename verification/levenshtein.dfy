/** `levenshtein` (src/utils/helpers.ts): unit-cost edit distance computed with a
    full (m+1) x (n+1) dynamic-programming table, related to the recursive
    definition of edit distance that the table fills in. */
module Levenshtein {

  function Min3(x: nat, y: nat, z: nat): (r: nat)
    ensures r <= x && r <= y && r <= z
    ensures r == x || r == y || r == z
  {
    if x <= y && x <= z then x else if y <= z then y else z
  }

  /** Edit distance between `a` and `b` (insertions, deletions and substitutions of
      one character, each costing one), defined on prefixes exactly as the table
      cell `dp[|a|][|b|]` is: a matching last character costs nothing, otherwise
      one edit is added to the cheapest of delete, insert and substitute. */
  function Distance(a: string, b: string): nat
    decreases |a| + |b|
  {
    if |a| == 0 then |b|
    else if |b| == 0 then |a|
    else if a[|a| - 1] == b[|b| - 1] then Distance(a[..|a| - 1], b[..|b| - 1])
    else 1 + Min3(Distance(a[..|a| - 1], b), Distance(a, b[..|b| - 1]), Distance(a[..|a| - 1], b[..|b| - 1]))
  }

  /** The value the table holds in row `p`, column `q`: the distance between the
      first `p` characters of `a` and the first `q` characters of `b`. */
  function Cell(a: string, b: string, p: nat, q: nat): nat
    requires p <= |a| && q <= |b|
  {
    Distance(a[..p], b[..q])
  }

  /** The recurrence of one inner cell, phrased on table positions. */
  lemma CellStep(a: string, b: string, i: nat, j: nat)
    requires 1 <= i <= |a| && 1 <= j <= |b|
    ensures Cell(a, b, i, j) ==
            if a[i - 1] == b[j - 1] then Cell(a, b, i - 1, j - 1)
            else 1 + Min3(Cell(a, b, i - 1, j), Cell(a, b, i, j - 1), Cell(a, b, i - 1, j - 1))
  {
    assert a[..i][..i - 1] == a[..i - 1] && b[..j][..j - 1] == b[..j - 1];
  }

  /** The first row and column: distances to the empty prefix. */
  lemma CellBorder(a: string, b: string, p: nat, q: nat)
    requires p <= |a| && q <= |b|
    ensures Cell(a, b, 0, q) == q && Cell(a, b, p, 0) == p
  {
  }

  /** The source's table-filling algorithm. Row 0 and column 0 start as the
      distances to the empty string; every other cell is filled row by row from
      its left, upper and upper-left neighbours. */
  method ComputeDistance(a: string, b: string) returns (d: nat)
    ensures d == Distance(a, b)
  {
    var m, n := |a|, |b|;
    var dp := new nat[m + 1, n + 1]((i, j) => if i == 0 then j else if j == 0 then i else 0);
    forall q | 0 <= q <= n
      ensures dp[0, q] == Cell(a, b, 0, q)
    {
      CellBorder(a, b, 0, q);
    }
    var i := 1;
    while i <= m
      invariant 1 <= i <= m + 1
      invariant forall p, q :: 0 <= p < i && 0 <= q <= n ==> dp[p, q] == Cell(a, b, p, q)
      invariant forall p :: i <= p <= m ==> dp[p, 0] == p
    {
      CellBorder(a, b, i, 0);
      var j := 1;
      while j <= n
        invariant 1 <= j <= n + 1
        invariant forall p, q :: 0 <= p < i && 0 <= q <= n ==> dp[p, q] == Cell(a, b, p, q)
        invariant forall q :: 0 <= q < j ==> dp[i, q] == Cell(a, b, i, q)
        invariant forall p :: i < p <= m ==> dp[p, 0] == p
      {
        CellStep(a, b, i, j);
        var up, left, diag := dp[i - 1, j], dp[i, j - 1], dp[i - 1, j - 1];
        if a[i - 1] == b[j - 1] {
          dp[i, j] := diag;
        } else {
          dp[i, j] := 1 + Min3(up, left, diag);
        }
        j := j + 1;
      }
      i := i + 1;
    }
    assert a[..m] == a && b[..n] == b;
    d := dp[m, n];
  }

  /** A string is at distance 0 from itself and at its own length from the empty string. */
  lemma {:induction false} DistanceToSelfAndEmpty(a: string)
    ensures Distance(a, a) == 0
    ensures Distance(a, []) == |a| && Distance([], a) == |a|
    decreases |a|
  {
    if |a| > 0 {
      DistanceToSelfAndEmpty(a[..|a| - 1]);
    }
  }

  /** Edit distance does not depend on the order of its arguments. */
  lemma {:induction false} DistanceSymmetric(a: string, b: string)
    ensures Distance(a, b) == Distance(b, a)
    decreases |a| + |b|
  {
    if |a| > 0 && |b| > 0 {
      var a', b' := a[..|a| - 1], b[..|b| - 1];
      DistanceSymmetric(a', b');
      if a[|a| - 1] != b[|b| - 1] {
        DistanceSymmetric(a', b);
        DistanceSymmetric(a, b');
      }
    }
  }

  /** The distance is at least the difference of the lengths and at most the longer length. */
  lemma {:induction false} DistanceBounds(a: string, b: string)
    ensures |a| - |b| <= Distance(a, b) && |b| - |a| <= Distance(a, b)
    ensures Distance(a, b) <= if |a| >= |b| then |a| else |b|
    decreases |a| + |b|
  {
    if |a| > 0 && |b| > 0 {
      var a', b' := a[..|a| - 1], b[..|b| - 1];
      DistanceBounds(a', b');
      if a[|a| - 1] != b[|b| - 1] {
        DistanceBounds(a', b);
        DistanceBounds(a, b');
      }
    }
  }

  /** The distance is zero exactly for equal strings. */
  lemma {:induction false} DistanceZeroIffEqual(a: string, b: string)
    ensures Distance(a, b) == 0 <==> a == b
    decreases |a| + |b|
  {
    if a == b {
      DistanceToSelfAndEmpty(a);
    } else if |a| > 0 && |b| > 0 && a[|a| - 1] == b[|b| - 1] {
      var a', b' := a[..|a| - 1], b[..|b| - 1];
      DistanceZeroIffEqual(a', b');
      assert a == a' + [a[|a| - 1]] && b == b' + [b[|b| - 1]];
    }
  }

  /** The textbook recursive definition of edit distance: the cheapest of deleting
      the last character of `a`, inserting the last character of `b`, or
      matching/substituting the two last characters. */
  function Classic(a: string, b: string): nat
    decreases |a| + |b|
  {
    if |a| == 0 then |b|
    else if |b| == 0 then |a|
    else
      var cost := if a[|a| - 1] == b[|b| - 1] then 0 else 1;
      Min3(Classic(a[..|a| - 1], b) + 1, Classic(a, b[..|b| - 1]) + 1, Classic(a[..|a| - 1], b[..|b| - 1]) + cost)
  }

  /** Appending one character to `b` lowers the classic distance by at most one. */
  lemma {:induction false} ClassicAppendRight(a: string, b: string, c: char)
    ensures Classic(a, b) <= Classic(a, b + [c]) + 1
    decreases |a|
  {
    var bc := b + [c];
    assert bc[..|bc| - 1] == b;
    if |a| > 0 {
      var a' := a[..|a| - 1];
      ClassicAppendRight(a', b, c);
    }
  }

  /** Appending one character to `a` lowers the classic distance by at most one. */
  lemma {:induction false} ClassicAppendLeft(a: string, b: string, c: char)
    ensures Classic(a, b) <= Classic(a + [c], b) + 1
    decreases |b|
  {
    var ac := a + [c];
    assert ac[..|ac| - 1] == a;
    if |b| > 0 {
      var b' := b[..|b| - 1];
      ClassicAppendLeft(a, b', c);
    }
  }

  /** The table's recurrence, which takes the diagonal unconditionally on a match,
      computes the textbook edit distance. */
  lemma {:induction false} DistanceIsClassic(a: string, b: string)
    ensures Distance(a, b) == Classic(a, b)
    decreases |a| + |b|
  {
    if |a| > 0 && |b| > 0 {
      var a', b' := a[..|a| - 1], b[..|b| - 1];
      DistanceIsClassic(a', b');
      if a[|a| - 1] == b[|b| - 1] {
        assert b == b' + [b[|b| - 1]] && a == a' + [b[|b| - 1]];
        ClassicMatch(a', b', b[|b| - 1]);
      } else {
        DistanceIsClassic(a', b);
        DistanceIsClassic(a, b');
        MismatchStep(a, b);
      }
    }
  }

  /** On different last characters both definitions add one edit to the cheapest
      of the same three sub-problems. */
  lemma MismatchStep(a: string, b: string)
    requires |a| > 0 && |b| > 0 && a[|a| - 1] != b[|b| - 1]
    requires Distance(a[..|a| - 1], b) == Classic(a[..|a| - 1], b)
    requires Distance(a, b[..|b| - 1]) == Classic(a, b[..|b| - 1])
    requires Distance(a[..|a| - 1], b[..|b| - 1]) == Classic(a[..|a| - 1], b[..|b| - 1])
    ensures Distance(a, b) == Classic(a, b)
  {
  }

  /** A common last character costs nothing in the classic distance. */
  lemma ClassicMatch(a: string, b: string, c: char)
    ensures Classic(a + [c], b + [c]) == Classic(a, b)
  {
    var ac, bc := a + [c], b + [c];
    assert ac[..|ac| - 1] == a && bc[..|bc| - 1] == b;
    assert ac[|ac| - 1] == bc[|bc| - 1];
    ClassicAppendRight(a, b, c);
    ClassicAppendLeft(a, b, c);
  }
}
