/** The typo-tolerant peer-name distance of bs-config.h: a two-row table computes the length of
    the shortest edit script between two case-folded names. */
module Levenshtein {
  import opened Sequences
  import opened Keys

  /** One edit, at any position of the current string. */
  datatype Edit = Insert(at: nat, c: char) | Delete(at: nat) | Substitute(at: nat, c: char)

  predicate Applies(e: Edit, s: string) {
    if e.Insert? then e.at <= |s| else e.at < |s|
  }

  function Apply(e: Edit, s: string): string
    requires Applies(e, s)
  {
    match e
    case Insert(k, c) => s[..k] + [c] + s[k..]
    case Delete(k) => s[..k] + s[k + 1..]
    case Substitute(k, c) => s[..k] + [c] + s[k + 1..]
  }

  /** The script, edit after edit, turns a into b. */
  predicate Turns(script: seq<Edit>, a: string, b: string) {
    if script == [] then a == b
    else Applies(script[0], a) && Turns(script[1..], Apply(script[0], a), b)
  }

  /** d is the least number of edits that turn a into b. */
  ghost predicate IsDistance(a: string, b: string, d: nat) {
    && (exists script :: Turns(script, a, b) && |script| == d)
    && (forall script :: Turns(script, a, b) ==> d <= |script|)
  }

  function Cost(x: char, y: char): nat { if x == y then 0 else 1 }

  /** The Wagner-Fischer recurrence: the distance of the first i characters of a to the first j of b. */
  function Dist(a: string, b: string, i: nat, j: nat): nat
    requires i <= |a| && j <= |b|
    decreases i + j
  {
    if i == 0 then j
    else if j == 0 then i
    else Min(Min(Dist(a, b, i - 1, j) + 1, Dist(a, b, i, j - 1) + 1),
             Dist(a, b, i - 1, j - 1) + Cost(a[i - 1], b[j - 1]))
  }

  lemma DistStep(a: string, b: string, i: nat, j: nat)
    requires i <= |a| && j <= |b|
    ensures i == 0 ==> Dist(a, b, i, j) == j
    ensures j == 0 ==> Dist(a, b, i, j) == i
    ensures i > 0 && j > 0 ==>
              Dist(a, b, i, j) == Min(Min(Dist(a, b, i - 1, j) + 1, Dist(a, b, i, j - 1) + 1),
                                      Dist(a, b, i - 1, j - 1) + Cost(a[i - 1], b[j - 1]))
  {
    hide Min, Cost;
  }

  ghost predicate IsRow(row: seq<nat>, a: string, b: string, i: nat, upTo: nat)
    requires i <= |a| && upTo <= |b| + 1 <= |row|
  {
    forall k :: 0 <= k < upTo ==> row[k] == Dist(a, b, i, k)
  }

  /** The source's loop: row i of the table from row i - 1, then the rows swap. */
  method Compute(a: string, b: string) returns (d: nat)
    ensures IsDistance(AsciiLower(a), AsciiLower(b), d)
  {
    hide Dist, IsDistance, Min, Cost;
    ghost var fa, fb := AsciiLower(a), AsciiLower(b);
    DistIsDistance(fa, fb);
    var m, n := |a|, |b|;
    DistStep(fa, fb, m, n);
    if m == 0 { return n; }
    if n == 0 { return m; }
    var prev, curr := new nat[n + 1], new nat[n + 1];
    for j := 0 to n + 1
      invariant IsRow(prev[..], fa, fb, 0, j)
    {
      DistStep(fa, fb, 0, j);
      prev[j] := j;
    }
    for i := 1 to m + 1
      invariant prev.Length == curr.Length == n + 1 && prev != curr
      invariant fresh(prev) && fresh(curr)
      invariant IsRow(prev[..], fa, fb, i - 1, n + 1)
    {
      DistStep(fa, fb, i, 0);
      curr[0] := i;
      for j := 1 to n + 1
        invariant IsRow(prev[..], fa, fb, i - 1, n + 1)
        invariant IsRow(curr[..], fa, fb, i, j)
      {
        DistStep(fa, fb, i, j);
        var cost := Cost(LowerChar(a[i - 1]), LowerChar(b[j - 1]));
        assert prev[..][j] == Dist(fa, fb, i - 1, j) && prev[..][j - 1] == Dist(fa, fb, i - 1, j - 1);
        assert curr[..][j - 1] == Dist(fa, fb, i, j - 1);
        curr[j] := Min(Min(prev[j] + 1, curr[j - 1] + 1), prev[j - 1] + cost);
      }
      prev, curr := curr, prev;
    }
    assert prev[..][n] == Dist(fa, fb, m, n);
    d := prev[n];
  }

  // ── The recurrence gives the least script length ──────────────────────────────

  lemma {:induction false} DistBounds(a: string, b: string, i: nat, j: nat)
    requires i <= |a| && j <= |b|
    ensures Dist(a, b, i, j) <= i + j
    ensures i <= Dist(a, b, i, j) + j && j <= Dist(a, b, i, j) + i
    decreases i + j
  {
    hide Dist;
    DistStep(a, b, i, j);
    if i > 0 && j > 0 {
      DistBounds(a, b, i - 1, j);
      DistBounds(a, b, i, j - 1);
      DistBounds(a, b, i - 1, j - 1);
    }
  }

  lemma {:induction false} DistSymmetric(a: string, b: string, i: nat, j: nat)
    requires i <= |a| && j <= |b|
    ensures Dist(a, b, i, j) == Dist(b, a, j, i)
    decreases i + j
  {
    hide Dist;
    DistStep(a, b, i, j);
    DistStep(b, a, j, i);
    if i > 0 && j > 0 {
      DistSymmetric(a, b, i - 1, j);
      DistSymmetric(a, b, i, j - 1);
      DistSymmetric(a, b, i - 1, j - 1);
    }
  }

  lemma {:induction false} DistTriangle(a: string, b: string, c: string, i: nat, j: nat, k: nat)
    requires i <= |a| && j <= |b| && k <= |c|
    ensures Dist(a, c, i, k) <= Dist(a, b, i, j) + Dist(b, c, j, k)
    decreases i + j + k
  {
    hide Dist;
    DistStep(a, b, i, j);
    DistStep(b, c, j, k);
    DistStep(a, c, i, k);
    if i == 0 || j == 0 || k == 0 {
      DistBounds(b, c, j, k);
      DistBounds(a, b, i, j);
      DistBounds(a, c, i, k);
    } else if Dist(a, b, i, j) == Dist(a, b, i - 1, j) + 1 {
      DistTriangle(a, b, c, i - 1, j, k);
    } else if Dist(b, c, j, k) == Dist(b, c, j, k - 1) + 1 {
      DistTriangle(a, b, c, i, j, k - 1);
    } else {
      var inserts, deletes := Dist(a, b, i, j) == Dist(a, b, i, j - 1) + 1, Dist(b, c, j, k) == Dist(b, c, j - 1, k) + 1;
      if inserts && deletes { DistTriangle(a, b, c, i, j - 1, k); }
      else if inserts { DistTriangle(a, b, c, i, j - 1, k - 1); }
      else if deletes { DistTriangle(a, b, c, i - 1, j - 1, k); }
      else { DistTriangle(a, b, c, i - 1, j - 1, k - 1); }
    }
  }

  lemma {:induction false} DistSamePrefix(a: string, b: string, i: nat)
    requires i <= |a| && i <= |b| && a[..i] == b[..i]
    ensures Dist(a, b, i, i) == 0
  {
    if i > 0 {
      assert a[..i][i - 1] == b[..i][i - 1];
      assert a[..i - 1] == a[..i][..i - 1] && b[..i - 1] == b[..i][..i - 1];
      DistSamePrefix(a, b, i - 1);
    }
  }

  /** A shared tail never adds to the distance. */
  lemma {:induction false} DistSameTail(a: string, b: string, i: nat, j: nat)
    requires i <= |a| && j <= |b| && a[i..] == b[j..]
    ensures Dist(a, b, |a|, |b|) <= Dist(a, b, i, j)
    decreases |a| - i
  {
    hide Dist;
    assert |a[i..]| == |b[j..]|;
    if i < |a| {
      assert a[i] == a[i..][0] == b[j..][0] == b[j];
      assert a[i + 1..] == a[i..][1..] == b[j..][1..] == b[j + 1..];
      DistSameTail(a, b, i + 1, j + 1);
      DistStep(a, b, i + 1, j + 1);
    }
  }

  lemma DistAtEdit(a: string, b: string, k: nat, i: nat, j: nat)
    requires k <= i <= |a| && k <= j <= |b| && i <= k + 1 && j <= k + 1 && a[..k] == b[..k]
    ensures Dist(a, b, i, j) <= 1
  {
    hide Dist;
    DistSamePrefix(a, b, k);
    DistStep(a, b, i, j);
  }

  /** Equal around the edited place, where a has i characters and b has j. */
  lemma DistAround(a: string, b: string, k: nat, i: nat, j: nat)
    requires k <= i <= |a| && k <= j <= |b| && i <= k + 1 && j <= k + 1
    requires a[..k] == b[..k] && a[i..] == b[j..]
    ensures Dist(a, b, |a|, |b|) <= 1
  {
    hide Dist;
    DistAtEdit(a, b, k, i, j);
    DistSameTail(a, b, i, j);
  }

  lemma DistOneEdit(e: Edit, s: string)
    requires Applies(e, s)
    ensures Dist(s, Apply(e, s), |s|, |Apply(e, s)|) <= 1
  {
    hide Dist;
    var t, k := Apply(e, s), e.at;
    assert s[..k] == t[..k];
    match e
    case Insert(_, _) => assert s[k..] == t[k + 1..]; DistAround(s, t, k, k, k + 1);
    case Delete(_) => assert s[k + 1..] == t[k..]; DistAround(s, t, k, k + 1, k);
    case Substitute(_, _) => assert s[k + 1..] == t[k + 1..]; DistAround(s, t, k, k + 1, k + 1);
  }

  lemma {:induction false} ScriptsAreNoShorter(script: seq<Edit>, a: string, b: string)
    requires Turns(script, a, b)
    ensures Dist(a, b, |a|, |b|) <= |script|
  {
    if script == [] {
      DistSamePrefix(a, b, |a|);
    } else {
      var s := Apply(script[0], a);
      ScriptsAreNoShorter(script[1..], s, b);
      DistOneEdit(script[0], a);
      DistTriangle(a, s, b, |a|, |s|, |b|);
    }
  }

  lemma {:induction false} TurnsWithLast(p: seq<Edit>, e: Edit, a: string, b: string)
    requires Turns(p, a, b) && Applies(e, b)
    ensures Turns(p + [e], a, Apply(e, b))
  {
    var r := p + [e];
    if p == [] {
      assert r[1..] == [] && r[0] == e;
    } else {
      TurnsWithLast(p[1..], e, Apply(p[0], a), b);
      assert r[0] == p[0] && r[1..] == p[1..] + [e];
    }
  }

  lemma ApplyBeforeTail(e: Edit, a: string, s: string)
    requires Applies(e, a)
    ensures Applies(e, a + s) && Apply(e, a + s) == Apply(e, a) + s
  {
    var (t, k) := (a + s, e.at);
    assert t[..k] == a[..k];
    if e.Insert? { assert t[k..] == a[k..] + s; } else { assert t[k + 1..] == a[k + 1..] + s; }
  }

  lemma {:induction false} TurnsBeforeTail(p: seq<Edit>, a: string, b: string, s: string)
    requires Turns(p, a, b)
    ensures Turns(p, a + s, b + s)
  {
    hide Apply;
    if p != [] {
      ApplyBeforeTail(p[0], a, s);
      TurnsBeforeTail(p[1..], Apply(p[0], a), b, s);
    }
  }

  /** A shortest script, read off the recurrence. */
  lemma {:induction false} ShortestScript(a: string, b: string, i: nat, j: nat) returns (script: seq<Edit>)
    requires i <= |a| && j <= |b|
    ensures Turns(script, a[..i], b[..j]) && |script| == Dist(a, b, i, j)
    decreases i + j
  {
    hide Dist, Turns, Apply;
    DistStep(a, b, i, j);
    if i > 0 { assert a[..i] == a[..i - 1] + [a[i - 1]]; }
    if j > 0 { assert b[..j] == b[..j - 1] + [b[j - 1]]; }
    if i == 0 && j == 0 {
      script := NoEdits(a[..0], b[..0]);
    } else if j == 0 || (i > 0 && Dist(a, b, i, j) == Dist(a, b, i - 1, j) + 1) {
      DistStep(a, b, i - 1, j);
      script := ShortestScript(a, b, i - 1, j);
      script := DeleteThen(script, a[..i - 1], a[i - 1], b[..j]);
    } else if i == 0 || Dist(a, b, i, j) == Dist(a, b, i, j - 1) + 1 {
      DistStep(a, b, i, j - 1);
      script := ShortestScript(a, b, i, j - 1);
      script := ThenInsert(script, a[..i], b[..j - 1], b[j - 1]);
    } else {
      script := ShortestScript(a, b, i - 1, j - 1);
      script := MatchLast(script, a[..i - 1], b[..j - 1], a[i - 1], b[j - 1]);
    }
  }

  lemma NoEdits(a: string, b: string) returns (script: seq<Edit>)
    requires a == b
    ensures Turns(script, a, b) && |script| == 0
  {
    script := [];
  }

  lemma DeleteThen(rest: seq<Edit>, a: string, x: char, b: string) returns (script: seq<Edit>)
    requires Turns(rest, a, b)
    ensures Turns(script, a + [x], b) && |script| == |rest| + 1
  {
    script := [Delete(|a|)] + rest;
    assert Apply(script[0], a + [x]) == a;
    assert script[1..] == rest;
  }

  lemma ThenInsert(front: seq<Edit>, a: string, b: string, y: char) returns (script: seq<Edit>)
    requires Turns(front, a, b)
    ensures Turns(script, a, b + [y]) && |script| == |front| + 1
  {
    TurnsWithLast(front, Insert(|b|, y), a, b);
    assert Apply(Insert(|b|, y), b) == b + [y];
    script := front + [Insert(|b|, y)];
  }

  lemma MatchLast(front: seq<Edit>, a: string, b: string, x: char, y: char) returns (script: seq<Edit>)
    requires Turns(front, a, b)
    ensures Turns(script, a + [x], b + [y]) && |script| == |front| + Cost(x, y)
  {
    TurnsBeforeTail(front, a, b, [x]);
    script := front;
    if x != y {
      TurnsWithLast(front, Substitute(|b|, y), a + [x], b + [x]);
      assert Apply(Substitute(|b|, y), b + [x]) == b + [y];
      script := front + [Substitute(|b|, y)];
    }
  }

  lemma DistIsDistance(a: string, b: string)
    ensures IsDistance(a, b, Dist(a, b, |a|, |b|))
  {
    hide Dist, Turns;
    var script := ShortestScript(a, b, |a|, |b|);
    assert a[..|a|] == a && b[..|b|] == b;
    forall s | Turns(s, a, b) ensures Dist(a, b, |a|, |b|) <= |s| {
      ScriptsAreNoShorter(s, a, b);
    }
  }

  /** What callers of the fuzzy resolver rely on: the number Compute returns is a metric on names
      taken without case. */
  lemma DistanceIsAMetric(a: string, b: string, c: string, ab: nat, ba: nat, bc: nat, ac: nat)
    requires IsDistance(AsciiLower(a), AsciiLower(b), ab) && IsDistance(AsciiLower(b), AsciiLower(a), ba)
    requires IsDistance(AsciiLower(b), AsciiLower(c), bc) && IsDistance(AsciiLower(a), AsciiLower(c), ac)
    ensures ab == 0 <==> |a| == |b| && forall i :: 0 <= i < |a| ==> LowerChar(a[i]) == LowerChar(b[i])
    ensures ab == ba
    ensures ac <= ab + bc
  {
    hide Dist;
    var x, y, z := AsciiLower(a), AsciiLower(b), AsciiLower(c);
    DistIsDistance(x, y);
    DistIsDistance(y, x);
    DistIsDistance(y, z);
    DistIsDistance(x, z);
    DistSymmetric(x, y, |x|, |y|);
    DistTriangle(x, y, z, |x|, |y|, |z|);
    assert ab == 0 ==> x == y by {
      if ab == 0 {
        var script :| Turns(script, x, y) && |script| == 0;
      }
    }
    if |a| == |b| && (forall i :: 0 <= i < |a| ==> LowerChar(a[i]) == LowerChar(b[i])) {
      assert x == y;
      assert Turns([], x, y);
    }
    if x == y {
      forall i | 0 <= i < |a| ensures LowerChar(a[i]) == LowerChar(b[i]) {
        assert x[i] == y[i];
      }
    }
  }
}
