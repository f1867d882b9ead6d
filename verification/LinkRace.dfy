/** Two peers that dial each other: each end promotes, drops and loses links on its own, following
    the rule of Duplicates. What they agree on, and when. */
module LinkRace {
  import opened Bytes
  import opened Keys
  import opened Sequences
  import Duplicates

  /** The end with the lexicographically smaller key, and the other. */
  datatype Side = Smaller | Larger

  function Other(side: Side): Side { if side.Smaller? then Larger else Smaller }

  /** A physical connection and the side that dialled it. */
  datatype Link = Link(id: nat, opener: Side)

  /** One end: its links in the order they were promoted, those still in their handshake, those it
      has closed. */
  datatype End = End(links: seq<Link>, pending: set<Link>, closed: set<Link>)

  datatype State = State(smaller: End, larger: End, dialled: set<Link>) {
    function At(side: Side): End { if side.Smaller? then smaller else larger }

    function With(side: Side, e: End): State {
      if side.Smaller? then this.(smaller := e) else this.(larger := e)
    }
  }

  const Idle := State(End([], {}, {}), End([], {}, {}), {})

  /** Both ends want the links that the smaller side opened (Duplicates.BothEndsWantTheSame). */
  predicate Wanted(l: Link) { l.opener.Smaller? }

  datatype Step =
    | Dial(link: Link)
    | Promote(side: Side, link: Link)
    | Drop(side: Side, i: nat, j: nat)
    | Notice(side: Side, link: Link)

  /** The index that the rule drops of positions i < j. */
  function Loser(links: seq<Link>, i: nat, j: nat): (d: nat)
    requires i < j < |links|
    ensures d == i || d == j
  {
    if Duplicates.DuplicateIndexToDrop(Wanted(links[i]), Wanted(links[j])) == 0 then i else j
  }

  function Removed(links: seq<Link>, l: Link): (r: seq<Link>)
    ensures forall m :: m in r <==> m in links && m != l
  {
    if links == [] then []
    else if links[0] == l then Removed(links[1..], l)
    else [links[0]] + Removed(links[1..], l)
  }

  predicate Enabled(s: State, step: Step) {
    match step
    case Dial(l) => l !in s.dialled
    case Promote(side, l) => l in s.At(side).pending
    case Drop(side, i, j) => i < j < |s.At(side).links|
    case Notice(side, l) =>
      l in s.At(Other(side)).closed && (l in s.At(side).links || l in s.At(side).pending)
  }

  function Do(s: State, step: Step): State
    requires Enabled(s, step)
  {
    match step
    case Dial(l) =>
      State(s.smaller.(pending := s.smaller.pending + {l}), s.larger.(pending := s.larger.pending + {l}), s.dialled + {l})
    case Promote(side, l) =>
      var e := s.At(side);
      s.With(side, e.(links := e.links + [l], pending := e.pending - {l}))
    case Drop(side, i, j) =>
      var e := s.At(side);
      var d := Loser(e.links, i, j);
      s.With(side, e.(links := Without(e.links, d), closed := e.closed + {e.links[d]}))
    case Notice(side, l) =>
      var e := s.At(side);
      s.With(side, End(Removed(e.links, l), e.pending - {l}, e.closed + {l}))
  }

  predicate Valid(s: State, steps: seq<Step>)
    decreases |steps|
  {
    steps == [] || (Enabled(s, steps[0]) && Valid(Do(s, steps[0]), steps[1..]))
  }

  function DoAll(s: State, steps: seq<Step>): State
    requires Valid(s, steps)
    decreases |steps|
  {
    if steps == [] then s else DoAll(Do(s, steps[0]), steps[1..])
  }

  // ── Safety ────────────────────────────────────────────────────────────────────

  /** Another link was dialled that the rule does not rank below l. */
  ghost predicate Replaceable(s: State, l: Link) {
    exists m :: m in s.dialled && m != l && (Wanted(l) ==> Wanted(m))
  }

  predicate Distinct(links: seq<Link>) {
    forall i, j :: 0 <= i < j < |links| ==> links[i] != links[j]
  }

  ghost predicate EndInv(s: State, e: End) {
    && (forall l :: l in s.dialled <==> l in e.links || l in e.pending || l in e.closed)
    && (forall l :: l in e.closed ==> Replaceable(s, l))
    && Distinct(e.links)
    && (forall l :: l in e.pending ==> l !in e.links)
  }

  ghost predicate Inv(s: State) {
    EndInv(s, s.smaller) && EndInv(s, s.larger)
  }

  lemma {:induction false} RemovedDistinct(links: seq<Link>, l: Link)
    requires Distinct(links)
    ensures Distinct(Removed(links, l))
  {
    if links != [] {
      var t := links[1..];
      assert forall k :: 0 <= k < |t| ==> t[k] == links[k + 1];
      RemovedDistinct(t, l);
      if links[0] != l { ConsDistinct(links[0], Removed(t, l)); }
    }
  }

  lemma ConsDistinct(first: Link, rest: seq<Link>)
    requires first !in rest && Distinct(rest)
    ensures Distinct([first] + rest)
  {
  }

  /** A link that the smaller side opened is dropped only in favour of another one it dialled. */
  lemma DropFavoursWanted(links: seq<Link>, i: nat, j: nat)
    requires i < j < |links|
    ensures var d := Loser(links, i, j);
            Wanted(links[d]) ==> Wanted(links[if d == i then j else i])
  {
  }

  lemma OpenedGrows(s: State, step: Step, e: End)
    requires Enabled(s, step) && EndInv(s, e)
    ensures s.dialled <= Do(s, step).dialled
    ensures forall l :: Replaceable(s, l) ==> Replaceable(Do(s, step), l)
  {
  }

  lemma DistinctWithout(links: seq<Link>, d: nat)
    requires d < |links| && Distinct(links)
    ensures var r := Without(links, d);
            && (forall l :: l in r <==> l in links && l != links[d])
            && Distinct(r)
  {
    var r := Without(links, d);
    forall l ensures l in r <==> l in links && l != links[d] {
      if l in links && l != links[d] {
        var k :| 0 <= k < |links| && links[k] == l;
        assert r[if k < d then k else k - 1] == l;
      }
    }
  }

  lemma DropKeepsEndInv(s: State, e: End, i: nat, j: nat)
    requires EndInv(s, e) && i < j < |e.links|
    ensures var d := Loser(e.links, i, j);
            EndInv(s, e.(links := Without(e.links, d), closed := e.closed + {e.links[d]}))
  {
    hide Wanted, Loser, Without;
    var d := Loser(e.links, i, j);
    DropFavoursWanted(e.links, i, j);
    DistinctWithout(e.links, d);
    var kept := e.links[if d == i then j else i];
    assert kept in s.dialled && kept != e.links[d];
    assert Replaceable(s, e.links[d]);
  }

  lemma DropKeepsInv(s: State, side: Side, i: nat, j: nat)
    requires Inv(s) && Enabled(s, Drop(side, i, j))
    ensures Inv(Do(s, Drop(side, i, j)))
  {
    hide EndInv, Loser, Without;
    DropKeepsEndInv(s, s.At(side), i, j);
    SameDialled(s, side, s.At(side).(links := Without(s.At(side).links, Loser(s.At(side).links, i, j)),
                                     closed := s.At(side).closed + {s.At(side).links[Loser(s.At(side).links, i, j)]}));
  }

  /** Changing one end says nothing about the other. */
  lemma SameDialled(s: State, side: Side, e: End)
    requires Inv(s) && EndInv(s, e)
    ensures Inv(s.With(side, e))
  {
    var t := s.With(side, e);
    assert forall l :: Replaceable(s, l) ==> Replaceable(t, l);
    assert EndInv(s, s.smaller) ==> EndInv(t, s.smaller);
    assert EndInv(s, s.larger) ==> EndInv(t, s.larger);
    assert EndInv(t, e);
  }

  lemma NoticeKeepsInv(s: State, side: Side, l: Link)
    requires Inv(s) && Enabled(s, Notice(side, l))
    ensures Inv(Do(s, Notice(side, l)))
  {
    var e := s.At(side);
    RemovedDistinct(e.links, l);
    assert EndInv(s, s.At(Other(side)));
    assert EndInv(s, End(Removed(e.links, l), e.pending - {l}, e.closed + {l}));
  }

  lemma DialKeepsInv(s: State, l: Link)
    requires Inv(s) && Enabled(s, Dial(l))
    ensures Inv(Do(s, Dial(l)))
  {
    var t := Do(s, Dial(l));
    OpenedGrows(s, Dial(l), s.smaller);
    assert EndInv(t, t.smaller);
    assert EndInv(t, t.larger);
  }

  lemma PromoteKeepsInv(s: State, side: Side, l: Link)
    requires Inv(s) && Enabled(s, Promote(side, l))
    ensures Inv(Do(s, Promote(side, l)))
  {
    var e := s.At(side);
    assert EndInv(s, e);
    var e' := e.(links := e.links + [l], pending := e.pending - {l});
    assert EndInv(s, e');
  }

  lemma {:induction false} RunKeepsInv(s: State, steps: seq<Step>)
    requires Inv(s) && Valid(s, steps)
    ensures Inv(DoAll(s, steps))
    decreases |steps|
  {
    hide Inv, Enabled, Do;
    if steps != [] {
      match steps[0] {
        case Dial(l) => DialKeepsInv(s, l);
        case Promote(side, l) => PromoteKeepsInv(s, side, l);
        case Drop(side, i, j) => DropKeepsInv(s, side, i, j);
        case Notice(side, l) => NoticeKeepsInv(s, side, l);
      }
      RunKeepsInv(Do(s, steps[0]), steps[1..]);
    }
  }

  /** Nothing is left to do but dial again. */
  ghost predicate Quiet(s: State) {
    forall step :: Enabled(s, step) ==> step.Dial?
  }

  /** One link is all there is, or the smaller side opened exactly one. */
  ghost predicate OnlyChoice(all: set<Link>, l: Link) {
    l in all && (Wanted(l) || all == {l}) && forall m :: m in all && Wanted(m) ==> m == l
  }

  /** Crossing dials converge: in every run in which the smaller side opens one link a, and the other
      side as many as it likes, or in which a is the only link, neither end ever closes a; and once
      everything is promoted, resolved and noticed, a is the one link of both ends. */
  lemma CrossingDialsConverge(steps: seq<Step>, a: Link)
    requires Valid(Idle, steps) && OnlyChoice(DoAll(Idle, steps).dialled, a)
    ensures var s := DoAll(Idle, steps);
            && a !in s.smaller.closed && a !in s.larger.closed
            && (Quiet(s) ==> s.smaller.links == [a] && s.larger.links == [a])
  {
    hide Valid, DoAll, OnlyChoice;
    RunKeepsInv(Idle, steps);
    var s := DoAll(Idle, steps);
    OnlyChoiceStaysOpen(s, a, Smaller);
    OnlyChoiceStaysOpen(s, a, Larger);
  }

  lemma OnlyChoiceStaysOpen(s: State, a: Link, side: Side)
    requires Inv(s) && OnlyChoice(s.dialled, a)
    ensures a !in s.At(side).closed
    ensures Quiet(s) ==> s.At(side).links == [a]
  {
    assert !Replaceable(s, a);
    var e := s.At(side);
    if Quiet(s) {
      assert !Enabled(s, Promote(side, a));
      assert !Enabled(s, Drop(side, 0, 1));
    }
  }

  // ── Where agreement ends ──────────────────────────────────────────────────────

  /** What an end is left with: the last link that the smaller side opened; if there is none, the
      last link. */
  function Survivor(links: seq<Link>): Link
    requires links != []
    decreases |links|
  {
    var last := links[|links| - 1];
    if Wanted(last) || forall l :: l in links ==> !Wanted(l) then last
    else if |links| == 1 then last
    else Survivor(links[..|links| - 1])
  }

  /** Position k is last, or wanted with nothing wanted after it; and wanted if anything is. */
  ghost predicate LastOfItsKind(links: seq<Link>, k: nat) {
    && k < |links|
    && (forall m :: k < m < |links| ==> Wanted(links[k]) && !Wanted(links[m]))
    && (!Wanted(links[k]) ==> forall m :: 0 <= m < |links| ==> !Wanted(links[m]))
  }

  lemma {:induction false} SurvivorPosition(links: seq<Link>) returns (k: nat)
    requires links != []
    ensures LastOfItsKind(links, k) && links[k] == Survivor(links)
    decreases |links|
  {
    var n := |links| - 1;
    if Wanted(links[n]) || (forall l :: l in links ==> !Wanted(l)) {
      k := n;
    } else {
      var l :| l in links && Wanted(l);
      assert |links| > 1;
      var t := links[..n];
      k := SurvivorPosition(t);
      var m :| 0 <= m < |links| && links[m] == l;
      assert t[m] == l;
    }
  }

  lemma OneIsLastOfItsKind(links: seq<Link>, k: nat, m: nat)
    requires LastOfItsKind(links, k) && LastOfItsKind(links, m)
    ensures k == m
  {
  }

  lemma LoserIsNotLast(links: seq<Link>, i: nat, j: nat, k: nat)
    requires i < j < |links| && LastOfItsKind(links, k)
    ensures Loser(links, i, j) != k
  {
  }

  lemma LastWithout(links: seq<Link>, d: nat, k: nat)
    requires d < |links| && d != k && LastOfItsKind(links, k)
    ensures LastOfItsKind(Without(links, d), if k < d then k else k - 1)
    ensures Without(links, d)[if k < d then k else k - 1] == links[k]
  {
    hide Wanted;
    var r := Without(links, d);
    var k' := if k < d then k else k - 1;
    assert r[k'] == links[k];
    forall m | k' < m < |r| ensures !Wanted(r[m]) && Wanted(r[k']) {
      var n := if m < d then m else m + 1;
      assert r[m] == links[n] && k < n;
    }
    if !Wanted(links[k]) {
      forall m | 0 <= m < |r| ensures !Wanted(r[m]) {
        var n := if m < d then m else m + 1;
        assert r[m] == links[n];
      }
    }
    assert LastOfItsKind(r, k');
  }

  /** Whichever pair is resolved, the survivor stays. */
  lemma DropKeepsSurvivor(links: seq<Link>, i: nat, j: nat)
    requires i < j < |links|
    ensures var r := Without(links, Loser(links, i, j));
            r != [] && Survivor(r) == Survivor(links)
  {
    hide Survivor, Loser, Without, LastOfItsKind;
    var d := Loser(links, i, j);
    var r := Without(links, d);
    var k := SurvivorPosition(links);
    LoserIsNotLast(links, i, j, k);
    LastWithout(links, d, k);
    var m := SurvivorPosition(r);
    OneIsLastOfItsKind(r, if k < d then k else k - 1, m);
  }

  predicate ValidDrops(links: seq<Link>, pairs: seq<(nat, nat)>)
    decreases |pairs|
  {
    pairs == [] || (pairs[0].0 < pairs[0].1 < |links|
                    && ValidDrops(Without(links, Loser(links, pairs[0].0, pairs[0].1)), pairs[1..]))
  }

  function DropAll(links: seq<Link>, pairs: seq<(nat, nat)>): seq<Link>
    requires ValidDrops(links, pairs)
    decreases |pairs|
  {
    if pairs == [] then links
    else DropAll(Without(links, Loser(links, pairs[0].0, pairs[0].1)), pairs[1..])
  }

  /** One end that resolves pair after pair, in any order, keeps its survivor, alone at the end. */
  lemma {:induction false} DropsLeaveSurvivor(links: seq<Link>, pairs: seq<(nat, nat)>)
    requires links != [] && ValidDrops(links, pairs)
    ensures Survivor(links) in DropAll(links, pairs)
    ensures |DropAll(links, pairs)| == 1 ==> DropAll(links, pairs) == [Survivor(links)]
    decreases |pairs|
  {
    hide Survivor;
    if pairs == [] {
      var k := SurvivorPosition(links);
    } else {
      DropKeepsSurvivor(links, pairs[0].0, pairs[0].1);
      DropsLeaveSurvivor(Without(links, Loser(links, pairs[0].0, pairs[0].1)), pairs[1..]);
    }
  }

  /** links lists the set in some order, each once. */
  ghost predicate OrderOf(links: seq<Link>, all: set<Link>) {
    && (forall l :: l in all <==> l in links)
    && Distinct(links)
  }

  lemma {:induction false} SomeOrder(all: set<Link>) returns (p: seq<Link>)
    ensures OrderOf(p, all)
    decreases |all|
  {
    if all == {} {
      p := [];
    } else {
      var l :| l in all;
      var q := SomeOrder(all - {l});
      p := q + [l];
    }
  }

  /** l can be the newest at an end. */
  lemma OrderEndingWith(all: set<Link>, l: Link) returns (p: seq<Link>)
    requires l in all
    ensures OrderOf(p, all) && p != [] && p[|p| - 1] == l
  {
    var q := SomeOrder(all - {l});
    p := q + [l];
  }

  lemma LastSurvives(p: seq<Link>, all: set<Link>, l: Link)
    requires OrderOf(p, all) && p != [] && p[|p| - 1] == l
    requires Wanted(l) || forall m :: m in all ==> !Wanted(m)
    ensures Survivor(p) == l
  {
  }

  lemma TwoChoices(all: set<Link>) returns (l: Link, m: Link)
    requires all != {} && forall x :: !OnlyChoice(all, x)
    ensures l in all && m in all && l != m
    ensures (Wanted(l) && Wanted(m)) || forall x :: x in all ==> !Wanted(x)
  {
    if x :| x in all && Wanted(x) {
      assert !OnlyChoice(all, x);
      l := x;
      m :| m in all && Wanted(m) && m != l;
    } else {
      l :| l in all;
      assert !OnlyChoice(all, l);
      m :| m in all && m != l;
    }
  }

  ghost predicate Leads(s: State, steps: seq<Step>, t: State) {
    Valid(s, steps) && DoAll(s, steps) == t
  }

  lemma LeadsByOne(s: State, step: Step)
    requires Enabled(s, step)
    ensures Leads(s, [step], Do(s, step))
  {
    hide Enabled, Do;
    var t := Do(s, step);
    assert Valid(t, []) && DoAll(t, []) == t;
    assert [step][1..] == [];
  }

  lemma {:induction false} LeadsOn(s: State, a: seq<Step>, t: State, b: seq<Step>, u: State)
    requires Leads(s, a, t) && Leads(t, b, u)
    ensures Leads(s, a + b, u)
    decreases |a|
  {
    hide Enabled, Do;
    if a == [] {
      assert a + b == b;
    } else {
      assert (a + b)[1..] == a[1..] + b;
      LeadsOn(Do(s, a[0]), a[1..], t, b, u);
    }
  }

  /** Both ends know the links of the set, and none is promoted yet. */
  function Pending(all: set<Link>): State {
    State(End([], all, {}), End([], all, {}), all)
  }

  lemma {:induction false} DialAll(all: set<Link>) returns (steps: seq<Step>)
    ensures Leads(Idle, steps, Pending(all))
    decreases |all|
  {
    if all == {} {
      steps := [];
    } else {
      hide Leads;
      var l :| l in all;
      var s := Pending(all - {l});
      assert all - {l} + {l} == all;
      var first := DialAll(all - {l});
      LeadsByOne(s, Dial(l));
      LeadsOn(Idle, first, s, [Dial(l)], Pending(all));
      steps := first + [Dial(l)];
    }
  }

  lemma {:induction false} PromoteAll(s: State, side: Side, p: seq<Link>) returns (steps: seq<Step>)
    requires OrderOf(p, s.At(side).pending)
    ensures Leads(s, steps, s.With(side, s.At(side).(links := s.At(side).links + p, pending := {})))
    decreases |p|
  {
    var e := s.At(side);
    if p == [] {
      assert e.links + p == e.links && e.pending == {};
      steps := [];
    } else {
      var t := Do(s, Promote(side, p[0]));
      assert OrderOf(p[1..], t.At(side).pending) by { TailOrder(p, e.pending); }
      assert e.links + [p[0]] + p[1..] == e.links + p;
      hide Leads, OrderOf;
      var rest := PromoteAll(t, side, p[1..]);
      LeadsByOne(s, Promote(side, p[0]));
      LeadsOn(s, [Promote(side, p[0])], t, rest, s.With(side, e.(links := e.links + p, pending := {})));
      steps := [Promote(side, p[0])] + rest;
    }
  }

  lemma TailOrder(p: seq<Link>, all: set<Link>)
    requires OrderOf(p, all) && p != []
    ensures OrderOf(p[1..], all - {p[0]}) && p[0] in all
  {
    assert forall k :: 0 < k < |p| ==> p[k] == p[1..][k - 1];
    assert p[0] !in p[1..];
  }

  /** Every link is either open at this end or closed there. */
  ghost predicate Settling(e: End, all: set<Link>) {
    && e.links != [] && Distinct(e.links) && e.pending == {}
    && (forall l :: l in all <==> l in e.links || l in e.closed)
    && (forall l :: l in e.links ==> l !in e.closed)
  }

  lemma {:induction false} DropToOne(s: State, side: Side, all: set<Link>) returns (steps: seq<Step>)
    requires Settling(s.At(side), all)
    ensures var l := Survivor(s.At(side).links);
            l in all && Leads(s, steps, s.With(side, End([l], {}, all - {l})))
    decreases |s.At(side).links|
  {
    var e := s.At(side);
    if |e.links| == 1 {
      assert e.links == [e.links[0]] && e.closed == all - {e.links[0]};
      assert Survivor(e.links) == e.links[0];
      steps := [];
    } else {
      hide Survivor, Leads, Loser, Without, Settling;
      var t := Do(s, Drop(side, 0, 1));
      DropSettles(e, all);
      DropKeepsSurvivor(e.links, 0, 1);
      var rest := DropToOne(t, side, all);
      var l := Survivor(e.links);
      LeadsByOne(s, Drop(side, 0, 1));
      LeadsOn(s, [Drop(side, 0, 1)], t, rest, s.With(side, End([l], {}, all - {l})));
      steps := [Drop(side, 0, 1)] + rest;
    }
  }

  lemma DropSettles(e: End, all: set<Link>)
    requires Settling(e, all) && |e.links| >= 2
    ensures var d := Loser(e.links, 0, 1);
            Settling(e.(links := Without(e.links, d), closed := e.closed + {e.links[d]}), all)
            && |Without(e.links, d)| < |e.links|
  {
    DistinctWithout(e.links, Loser(e.links, 0, 1));
  }

  lemma NoticeLast(s: State, side: Side, l: Link, all: set<Link>)
    requires s.At(side) == End([l], {}, all - {l}) && l in all && l in s.At(Other(side)).closed
    ensures Leads(s, [Notice(side, l)], s.With(side, End([], {}, all)))
  {
    hide Leads;
    assert Removed([l], l) == [];
    assert all - {l} + {l} == all && {} - {l} == {};
    LeadsByOne(s, Notice(side, l));
  }

  /** One end promotes in the order p and resolves until its survivor is alone. */
  lemma SettleSide(s: State, side: Side, p: seq<Link>, all: set<Link>, l: Link) returns (steps: seq<Step>)
    requires s.At(side) == End([], all, {}) && OrderOf(p, all) && p != [] && Survivor(p) == l
    ensures l in all && Leads(s, steps, s.With(side, End([l], {}, all - {l})))
  {
    hide Leads, Survivor;
    var first := PromoteAll(s, side, p);
    var t := s.With(side, End(p, {}, {}));
    assert [] + p == p;
    assert Settling(t.At(side), all);
    var rest := DropToOne(t, side, all);
    LeadsOn(s, first, t, rest, s.With(side, End([l], {}, all - {l})));
    steps := first + rest;
  }

  /** Nothing is open at either end, and every link is closed at both. */
  function AllLost(all: set<Link>): State {
    State(End([], {}, all), End([], {}, all), all)
  }

  /** Where there is a choice, the two ends may make different ones: each keeps a link that the other
      drops, and in the end every link is gone. */
  lemma LosingRun(all: set<Link>) returns (steps: seq<Step>)
    requires forall l :: !OnlyChoice(all, l)
    ensures Leads(Idle, steps, AllLost(all))
  {
    if all == {} { return []; }
    hide Leads, OnlyChoice, OrderOf, Survivor;
    var l, m := TwoChoices(all);
    var p := OrderEndingWith(all, l);
    var q := OrderEndingWith(all, m);
    LastSurvives(p, all, l);
    LastSurvives(q, all, m);
    var (a, b) := (End([l], {}, all - {l}), End([m], {}, all - {m}));
    var dials := DialAll(all);
    var left := SettleSide(Pending(all), Smaller, p, all, l);
    LeadsOn(Idle, dials, Pending(all), left, Pending(all).(smaller := a));
    var right := SettleSide(Pending(all).(smaller := a), Larger, q, all, m);
    LeadsOn(Idle, dials + left, Pending(all).(smaller := a), right, State(a, b, all));
    NoticeLast(State(a, b, all), Smaller, l, all);
    LeadsOn(Idle, dials + left + right, State(a, b, all), [Notice(Smaller, l)], AllLost(all).(larger := b));
    NoticeLast(AllLost(all).(larger := b), Larger, m, all);
    steps := dials + left + right + [Notice(Smaller, l)];
    LeadsOn(Idle, steps, AllLost(all).(larger := b), [Notice(Larger, m)], AllLost(all));
    steps := steps + [Notice(Larger, m)];
  }

  lemma AllLostIsQuiet(all: set<Link>)
    ensures Quiet(AllLost(all))
  {
  }

  /** In every run with these dials that comes to rest, both ends have one link, and the same. */
  ghost predicate SureToConverge(all: set<Link>) {
    forall steps | Valid(Idle, steps) :: Converges(DoAll(Idle, steps), all)
  }

  ghost predicate Converges(s: State, all: set<Link>) {
    s.dialled == all && Quiet(s) ==> exists a :: s.smaller.links == [a] && s.larger.links == [a]
  }

  /** The two ends are sure to agree on a link exactly when the rule leaves them no choice. */
  lemma AgreementIff(all: set<Link>)
    ensures SureToConverge(all) <==> exists l :: OnlyChoice(all, l)
  {
    hide OnlyChoice, Valid, DoAll, Quiet;
    if l :| OnlyChoice(all, l) {
      forall steps | Valid(Idle, steps) ensures Converges(DoAll(Idle, steps), all) {
        if DoAll(Idle, steps).dialled == all { CrossingDialsConverge(steps, l); }
      }
    } else {
      var steps := LosingRun(all);
      AllLostIsQuiet(all);
      assert !Converges(DoAll(Idle, steps), all);
    }
  }

  /** The steps that are left without another dial: two for a link in its handshake, one for an open one. */
  function Work(s: State): nat {
    2 * |s.smaller.pending| + |s.smaller.links| + 2 * |s.larger.pending| + |s.larger.links|
  }

  lemma {:induction false} RemovedIsShorter(links: seq<Link>, l: Link)
    ensures |Removed(links, l)| <= |links|
    ensures l in links ==> |Removed(links, l)| < |links|
  {
    if links != [] { RemovedIsShorter(links[1..], l); }
  }

  lemma StepDoesWork(s: State, step: Step)
    requires Enabled(s, step) && !step.Dial?
    ensures Work(Do(s, step)) < Work(s) && Do(s, step).dialled == s.dialled
  {
    match step {
      case Promote(side, l) => assert |s.At(side).pending - {l}| == |s.At(side).pending| - 1;
      case Drop(side, i, j) =>
      case Notice(side, l) =>
        var e := s.At(side);
        RemovedIsShorter(e.links, l);
        if l in e.pending { assert |e.pending - {l}| == |e.pending| - 1; } else { assert e.pending - {l} == e.pending; }
    }
  }

  /** Every run comes to rest, in whatever order its steps are taken, unless someone dials again. */
  lemma {:induction false} ComesToRest(s: State) returns (steps: seq<Step>, t: State)
    ensures Leads(s, steps, t) && Quiet(t) && t.dialled == s.dialled
    decreases Work(s)
  {
    hide Do, Enabled, Work;
    if Quiet(s) {
      steps, t := [], s;
    } else {
      hide Leads;
      var step :| Enabled(s, step) && !step.Dial?;
      StepDoesWork(s, step);
      var rest;
      rest, t := ComesToRest(Do(s, step));
      LeadsByOne(s, step);
      LeadsOn(s, [step], Do(s, step), rest, t);
      steps := [step] + rest;
    }
  }

  /** Two links from the smaller side are enough to lose both. */
  lemma TwoDialsMayLoseBoth() returns (steps: seq<Step>)
    ensures Leads(Idle, steps, AllLost({Link(1, Smaller), Link(2, Smaller)}))
  {
    hide Leads, AllLost;
    steps := LosingRun({Link(1, Smaller), Link(2, Smaller)});
  }

  // ── The rule of one end ───────────────────────────────────────────────────────

  /** A link as the connection that the given side has of it. */
  function Seen(side: Side, peerKey: string, l: Link): Duplicates.Conn {
    Duplicates.Conn(l.id, peerKey, "", "", l.opener == side, true, true, false, false,
                    Duplicates.Attachment(None, 0, false), Duplicates.Receive("", false))
  }

  function AllSeen(side: Side, peerKey: string, links: seq<Link>): seq<Duplicates.Conn> {
    seq(|links|, i requires 0 <= i < |links| => Seen(side, peerKey, links[i]))
  }

  lemma SurvivesIsLast(our: string, peerKey: string, side: Side, links: seq<Link>, k: nat)
    requires peerKey != "" && (side.Smaller? <==> Less(our, peerKey)) && k < |links|
    ensures Duplicates.Survives(our, AllSeen(side, peerKey, links), k) <==> LastOfItsKind(links, k)
  {
    hide Less;
    var cs := AllSeen(side, peerKey, links);
    assert Duplicates.Wanted(our, cs[k]) == Wanted(links[k]);
    forall j: nat | j < |cs|
      ensures Duplicates.Newer(cs, k, j) <==> k < j
      ensures Duplicates.WantedRival(our, cs, k, j) <==> Wanted(links[j])
    {
    }
    if !LastOfItsKind(links, k) {
      if Wanted(links[k]) {
        var j :| k < j < |links| && Wanted(links[j]);
        assert Duplicates.Newer(cs, k, j) && Duplicates.WantedRival(our, cs, k, j);
      } else if k + 1 < |links| {
        assert Duplicates.Newer(cs, k, k + 1);
      } else {
        var j :| 0 <= j < |links| && Wanted(links[j]);
        assert Duplicates.WantedRival(our, cs, k, j);
      }
    }
  }

  lemma {:induction false} OnlyOneKept(our: string, cs: seq<Duplicates.Conn>, j: nat, k: nat)
    requires j <= |cs| && k < |cs| && forall m: nat :: m < |cs| ==> (Duplicates.Survives(our, cs, m) <==> m == k)
    ensures Duplicates.KeptFrom(our, cs, j) == if j <= k then [cs[k]] else []
    decreases |cs| - j
  {
    hide Duplicates.Survives;
    if j < |cs| { OnlyOneKept(our, cs, j + 1, k); }
  }

  /** What an end keeps by the rule of Duplicates, of links all to the one peer, is its survivor. */
  lemma KeptIsSurvivor(our: string, peerKey: string, side: Side, links: seq<Link>)
    requires peerKey != "" && (side.Smaller? <==> Less(our, peerKey)) && links != []
    ensures Duplicates.Kept(our, AllSeen(side, peerKey, links)) == [Seen(side, peerKey, Survivor(links))]
  {
    hide Survivor, LastOfItsKind, Less, Duplicates.Survives;
    var cs := AllSeen(side, peerKey, links);
    var k := SurvivorPosition(links);
    forall m: nat | m < |cs| ensures Duplicates.Survives(our, cs, m) <==> m == k {
      SurvivesIsLast(our, peerKey, side, links, m);
      if LastOfItsKind(links, m) { OneIsLastOfItsKind(links, k, m); }
    }
    OnlyOneKept(our, cs, 0, k);
  }
}
