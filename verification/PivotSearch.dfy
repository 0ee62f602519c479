/** Finding the execution block for a point in time: a pivot search over block numbers that
    halves its stride, remembers the closest header, and finally walks back past the target. */
module PivotSearch {
  datatype Dist = Infinite | Finite(d: nat)

  /** The variables of the search loop. */
  datatype Search = Search(candidate: nat, pivot: nat, best: nat, minDist: Dist)

  /** How the search ends; FellBelow stands for a request below block zero, which the node
      answers with something other than the numbered block. */
  datatype Outcome = Found(block: nat, walkedBack: bool) | FellBelow

  datatype Round = Done(outcome: Outcome) | Go(next: Search)

  function Distance(time: int, target: int): nat {
    if target >= time then target - time else time - target
  }

  predicate Improves(d: nat, minDist: Dist) {
    minDist.Infinite? || d < minDist.d
  }

  /** Times of the blocks 0..latest never decrease; the search needs latest >= 2. */
  ghost predicate Chain(times: seq<int>) {
    |times| >= 3 && forall i, j :: 0 <= i <= j < |times| ==> times[i] <= times[j]
  }

  function Latest(times: seq<int>): nat
    requires |times| >= 3
  {
    |times| - 1
  }

  /** The last of the first n blocks that is not after the target; -1 if there is none. */
  function LastNotAfter(times: seq<int>, n: nat, target: int): (l: int)
    requires n <= |times|
    ensures -1 <= l < n
    ensures l >= 0 ==> times[l] <= target
    ensures forall i :: l < i < n ==> times[i] > target
  {
    if n == 0 then -1
    else if times[n - 1] <= target then n - 1
    else LastNotAfter(times, n - 1, target)
  }

  ghost predicate Sound(times: seq<int>, target: int, s: Search) {
    |times| >= 3 && s.pivot >= 1 && s.candidate < Latest(times) && s.best < Latest(times) &&
    (s.minDist.Finite? ==> s.minDist.d == Distance(times[s.best], target))
  }

  function Start(latest: nat): Search {
    Search(latest / 2, latest / 2, latest / 2, Infinite)
  }

  /** Halve the stride (rounding up) and step towards the target; clamp at the right end. */
  function Move(latest: nat, goLeft: bool, s: Search): Round
    requires latest >= 1
  {
    var pivot := (s.pivot + 1) / 2;
    if goLeft then
      if s.candidate < pivot then Done(FellBelow) else Go(s.(candidate := s.candidate - pivot, pivot := pivot))
    else
      var c := s.candidate + pivot;
      Go(s.(candidate := if c > latest - 1 then latest - 1 else c, pivot := pivot))
  }

  /** One round of the loop. */
  function NextRound(times: seq<int>, target: int, s: Search): Round
    requires |times| >= 3 && s.candidate < Latest(times)
  {
    var time := times[s.candidate];
    var d := Distance(time, target);
    if Improves(d, s.minDist) then
      Move(Latest(times), target < time, s.(best := s.candidate, minDist := Finite(d)))
    else if s.pivot == 1 then
      if time > target then
        var l := LastNotAfter(times, s.candidate, target);
        Done(if l < 0 then FellBelow else Found(l, true))
      else Done(Found(s.best, false))
    else Move(Latest(times), target < time, s)
  }

  lemma NextRoundSound(times: seq<int>, target: int, s: Search)
    requires Sound(times, target, s)
    ensures NextRound(times, target, s).Go? ==> Sound(times, target, NextRound(times, target, s).next)
    ensures NextRound(times, target, s).Go? ==>
              var n := NextRound(times, target, s).next;
              n.pivot < s.pivot || (n.pivot == s.pivot == 1 && n.minDist.Finite? &&
                                    (s.minDist.Finite? ==> n.minDist.d < s.minDist.d))
  {}

  /** The whole search. It ends because the stride shrinks to one, and from then on every
      further round must come strictly closer. */
  function Result(times: seq<int>, target: int, s: Search): Outcome
    requires Sound(times, target, s)
    decreases s.pivot, s.minDist.Infinite?, if s.minDist.Finite? then s.minDist.d else 0
  {
    NextRoundSound(times, target, s);
    match NextRound(times, target, s)
    case Done(o) => o
    case Go(n) => Result(times, target, n)
  }

  /** The states a search goes through, one round after the other. */
  ghost predicate IsPath(times: seq<int>, target: int, path: seq<Search>)
    requires |times| >= 3
  {
    path != [] &&
    forall k :: 0 <= k < |path| - 1 ==>
      path[k].candidate < Latest(times) && NextRound(times, target, path[k]) == Go(path[k + 1])
  }

  /** The header of a block is one the search looks at. */
  ghost predicate LooksAt(times: seq<int>, target: int, s: Search, v: nat)
    requires |times| >= 3
  {
    exists path: seq<Search> :: IsPath(times, target, path) && path[0] == s && path[|path| - 1].candidate == v
  }

  lemma ResultStep(times: seq<int>, target: int, s: Search)
    requires Sound(times, target, s)
    ensures var round := NextRound(times, target, s);
            if round.Done? then Result(times, target, s) == round.outcome
            else
              var n := round.next;
              Sound(times, target, n) && Result(times, target, n) == Result(times, target, s) &&
              (n.pivot < s.pivot ||
               (n.pivot == s.pivot && n.minDist.Finite? && (s.minDist.Finite? ==> n.minDist.d < s.minDist.d)))
  {
    NextRoundSound(times, target, s);
  }

  // ------------------------------------------------------------------- the bracket

  /** The last block not after the target, among the blocks that can be candidates. */
  function Goal(times: seq<int>, target: int): int
    requires |times| >= 3
  {
    LastNotAfter(times, Latest(times), target)
  }

  /** The goal lies within one stride of the candidate. */
  ghost predicate Bracketed(times: seq<int>, target: int, s: Search)
    requires |times| >= 3
  {
    s.candidate - s.pivot <= Goal(times, target) <= s.candidate + s.pivot
  }

  lemma GoLeftOfGoal(times: seq<int>, target: int, c: nat)
    requires Chain(times) && c < Latest(times)
    ensures target < times[c] <==> c > Goal(times, target)
  {
    var l := Goal(times, target);
    if c <= l { assert times[c] <= times[l]; }
  }

  lemma StartBracketed(times: seq<int>, target: int)
    requires Chain(times) && Goal(times, target) >= 0
    ensures Sound(times, target, Start(Latest(times))) && Bracketed(times, target, Start(Latest(times)))
  {}

  /** Every halving, every move and the clamp keep the goal bracketed. */
  lemma RoundKeepsBracket(times: seq<int>, target: int, s: Search)
    requires Chain(times) && Sound(times, target, s) && Bracketed(times, target, s)
    ensures NextRound(times, target, s).Go? ==> Bracketed(times, target, NextRound(times, target, s).next)
  {
    GoLeftOfGoal(times, target, s.candidate);
  }

  /** An exit through the walk-back returns the goal itself. */
  lemma {:induction false} WalkBackFindsGoal(times: seq<int>, target: int, s: Search)
    requires Chain(times) && Sound(times, target, s) && Bracketed(times, target, s)
    ensures var r := Result(times, target, s);
            r.Found? && r.walkedBack ==> r.block == Goal(times, target)
    decreases s.pivot, s.minDist.Infinite?, if s.minDist.Finite? then s.minDist.d else 0
  {
    NextRoundSound(times, target, s);
    RoundKeepsBracket(times, target, s);
    GoLeftOfGoal(times, target, s.candidate);
    match NextRound(times, target, s) {
      case Done(_) =>
        var l := LastNotAfter(times, s.candidate, target);
        if l >= 0 && l < s.candidate { GoLeftOfGoal(times, target, l); }
      case Go(n) => WalkBackFindsGoal(times, target, n);
    }
  }

  lemma {:induction false} OtherExitNotFarther(times: seq<int>, target: int, s: Search)
    requires Sound(times, target, s)
    ensures var r := Result(times, target, s);
            r.Found? && !r.walkedBack ==>
              r.block < Latest(times) && Distance(times[r.block], target) <= Distance(times[s.candidate], target) &&
              (s.minDist.Finite? ==> Distance(times[r.block], target) <= s.minDist.d)
    decreases s.pivot, s.minDist.Infinite?, if s.minDist.Finite? then s.minDist.d else 0
  {
    NextRoundSound(times, target, s);
    var round := NextRound(times, target, s);
    if round.Go? { OtherExitNotFarther(times, target, round.next); }
  }

  lemma {:induction false} AlongPath(times: seq<int>, target: int, path: seq<Search>)
    requires |times| >= 3 && IsPath(times, target, path) && Sound(times, target, path[0])
    ensures Sound(times, target, path[|path| - 1])
    ensures Result(times, target, path[|path| - 1]) == Result(times, target, path[0])
    decreases |path|
  {
    if |path| > 1 {
      ResultStep(times, target, path[0]);
      AlongPath(times, target, path[1..]);
    }
  }

  /** One time misses the target by no more than another. */
  ghost predicate NoFarther(time: int, other: int, target: int) {
    (if time > target then time - target else target - time) <= (if other > target then other - target else target - other)
  }

  /** Any other exit returns the closest of all headers looked at. */
  lemma OtherExitIsClosest(times: seq<int>, target: int, s: Search)
    requires Sound(times, target, s)
    ensures var r := Result(times, target, s);
            r.Found? && !r.walkedBack ==>
              r.block < Latest(times) &&
              forall v: nat :: LooksAt(times, target, s, v) ==>
                v < Latest(times) && NoFarther(times[r.block], times[v], target)
  {
    OtherExitNotFarther(times, target, s);
    forall v: nat | LooksAt(times, target, s, v)
      ensures v < Latest(times)
      ensures var r := Result(times, target, s);
              r.Found? && !r.walkedBack ==> NoFarther(times[r.block], times[v], target)
    {
      var path: seq<Search> :| IsPath(times, target, path) && path[0] == s && path[|path| - 1].candidate == v;
      AlongPath(times, target, path);
      OtherExitNotFarther(times, target, path[|path| - 1]);
    }
  }

  /** That header is at least as close as the block before the goal. */
  lemma {:induction false} OtherExitNearGoal(times: seq<int>, target: int, s: Search)
    requires Chain(times) && Sound(times, target, s) && Bracketed(times, target, s)
    ensures var r := Result(times, target, s);
            r.Found? && !r.walkedBack && Goal(times, target) >= 1 ==>
              r.block < Latest(times) &&
              Distance(times[r.block], target) <= target - times[Goal(times, target) - 1]
    decreases s.pivot, s.minDist.Infinite?, if s.minDist.Finite? then s.minDist.d else 0
  {
    NextRoundSound(times, target, s);
    RoundKeepsBracket(times, target, s);
    GoLeftOfGoal(times, target, s.candidate);
    var round := NextRound(times, target, s);
    if round.Go? { OtherExitNearGoal(times, target, round.next); }
  }

  // ------------------------------------------------------------ staying above genesis

  /** How many halvings bring a stride down to one: the binary logarithm, rounded up. */
  function Halvings(p: nat): nat {
    if p <= 1 then 0 else 1 + Halvings((p + 1) / 2)
  }

  /** Whether a halving path leaves the chain: no times, only block numbers. */
  predicate PathFalls(latest: nat, goal: int, c: nat, pivot: nat)
    requires latest >= 1
    decreases pivot
  {
    if pivot <= 1 then false
    else
      var half := (pivot + 1) / 2;
      if c > goal then c < half || PathFalls(latest, goal, c - half, half)
      else PathFalls(latest, goal, if c + half > latest - 1 then latest - 1 else c + half, half)
  }

  /** One round in terms of block numbers only. */
  lemma RoundByNumbers(times: seq<int>, target: int, s: Search)
    requires Chain(times) && Sound(times, target, s) && Goal(times, target) >= 0
    ensures var latest, goal, half := Latest(times), Goal(times, target), (s.pivot + 1) / 2;
            var round := NextRound(times, target, s);
            if s.pivot == 1 then (round.Done? ==> round.outcome.Found?) && (round.Go? ==> round.next.pivot == 1)
            else if s.candidate > goal && s.candidate < half then round == Done(FellBelow)
            else round.Go? && round.next.pivot == half &&
                 round.next.candidate ==
                 (if s.candidate > goal then s.candidate - half
                  else if s.candidate + half > latest - 1 then latest - 1 else s.candidate + half)
  {
    GoLeftOfGoal(times, target, s.candidate);
    GoLeftOfGoal(times, target, 0);
  }

  lemma PathFollowsRound(times: seq<int>, target: int, s: Search)
    requires Chain(times) && Sound(times, target, s) && Goal(times, target) >= 0
    ensures var latest, goal, round := Latest(times), Goal(times, target), NextRound(times, target, s);
            PathFalls(latest, goal, s.candidate, s.pivot) <==>
            if round.Done? then round.outcome.FellBelow?
            else PathFalls(latest, goal, round.next.candidate, round.next.pivot)
  {
    RoundByNumbers(times, target, s);
  }

  /** For a goal inside the chain, the search falls when its path of block numbers does. */
  lemma {:induction false} FallsByNumbers(times: seq<int>, target: int, s: Search)
    requires Chain(times) && Sound(times, target, s) && Goal(times, target) >= 0
    ensures Result(times, target, s).FellBelow? <==>
            PathFalls(Latest(times), Goal(times, target), s.candidate, s.pivot)
    decreases s.pivot, s.minDist.Infinite?, if s.minDist.Finite? then s.minDist.d else 0
  {
    ResultStep(times, target, s);
    NextRoundSound(times, target, s);
    PathFollowsRound(times, target, s);
    var round := NextRound(times, target, s);
    if round.Go? { FallsByNumbers(times, target, round.next); }
  }

  /** Without any block before the target every search falls. */
  lemma {:induction false} BeforeGenesisFalls(times: seq<int>, target: int, s: Search)
    requires Chain(times) && Sound(times, target, s) && Goal(times, target) < 0
    ensures Result(times, target, s).FellBelow?
    decreases s.pivot, s.minDist.Infinite?, if s.minDist.Finite? then s.minDist.d else 0
  {
    ResultStep(times, target, s);
    NextRoundSound(times, target, s);
    GoLeftOfGoal(times, target, s.candidate);
    assert LastNotAfter(times, s.candidate, target) < 0;
    var round := NextRound(times, target, s);
    if round.Go? { BeforeGenesisFalls(times, target, round.next); }
  }

  /** Each halving costs at most one block by rounding up; a goal that makes up for what is
      still to come keeps the path inside the chain. */
  lemma {:induction false} PathStays(latest: nat, goal: nat, c: nat, pivot: nat)
    requires pivot >= 2 ==> pivot + Halvings(pivot) <= latest - 1 && c + goal >= pivot + Halvings(pivot)
    requires latest >= 1
    ensures !PathFalls(latest, goal, c, pivot)
    decreases pivot
  {
    if pivot >= 2 {
      var half := (pivot + 1) / 2;
      assert Halvings(pivot) == 1 + Halvings(half);
      if c > goal { PathStays(latest, goal, c - half, half); }
      else { PathStays(latest, goal, if c + half > latest - 1 then latest - 1 else c + half, half); }
    }
  }

  /** If a path falls for a goal, it falls for every smaller one. */
  lemma {:induction false} FallsDownwards(latest: nat, goal: nat, goal': nat, c: nat, pivot: nat)
    requires latest >= 1 && pivot + Halvings(pivot) <= latest - 1
    requires goal <= goal' && PathFalls(latest, goal', c, pivot)
    ensures PathFalls(latest, goal, c, pivot)
    decreases pivot
  {
    var half := (pivot + 1) / 2;
    var right := if c + half > latest - 1 then latest - 1 else c + half;
    HalvingsBound(half);
    if c > goal' {
      if c >= half { FallsDownwards(latest, goal, goal', c - half, half); }
    } else if c > goal {
      if c >= half { PathStays(latest, goal', right, half); }
    } else {
      FallsDownwards(latest, goal, goal', right, half);
    }
  }

  function LeastSafe(latest: nat, goal: nat): (g: nat)
    requires latest >= 2 && goal <= Halvings(latest / 2)
    ensures goal <= g <= Halvings(latest / 2)
    ensures g == Halvings(latest / 2) || !PathFalls(latest, g, latest / 2, latest / 2)
    ensures forall h: nat :: goal <= h < g ==> PathFalls(latest, h, latest / 2, latest / 2)
    decreases Halvings(latest / 2) - goal
  {
    if goal == Halvings(latest / 2) || !PathFalls(latest, goal, latest / 2, latest / 2) then goal
    else LeastSafe(latest, goal + 1)
  }

  /** The first block number for which a search from the given head is safe; it depends on
      the number of the head alone and is at most its binary logarithm. */
  function FirstSafe(latest: nat): (g: nat)
    requires latest >= 2
    ensures g <= Halvings(latest / 2)
  {
    LeastSafe(latest, 0)
  }

  lemma SafeFrom(latest: nat, goal: nat)
    requires latest >= 2
    ensures PathFalls(latest, goal, latest / 2, latest / 2) <==> goal < FirstSafe(latest)
    ensures FirstSafe(latest) < latest
  {
    var p := latest / 2;
    var f := FirstSafe(latest);
    HalvingsBound(p);
    PathStays(latest, Halvings(p), p, p);
    if goal >= f && PathFalls(latest, goal, p, p) { FallsDownwards(latest, f, goal, p, p); }
  }

  /** The search asks for a block below genesis if and only if the target lies before the
      first safe block, which a caller can find out with one header request. */
  lemma FallsExactly(times: seq<int>, target: int)
    requires Chain(times)
    ensures Sound(times, target, Start(Latest(times))) && FirstSafe(Latest(times)) < Latest(times)
    ensures Result(times, target, Start(Latest(times))).FellBelow? <==> target < times[FirstSafe(Latest(times))]
    ensures target < times[FirstSafe(Latest(times))] <==> Goal(times, target) < FirstSafe(Latest(times))
  {
    var latest, goal, s := Latest(times), Goal(times, target), Start(Latest(times));
    SafeFrom(latest, if goal < 0 then 0 else goal);
    GoLeftOfGoal(times, target, FirstSafe(latest));
    if goal < 0 { BeforeGenesisFalls(times, target, s); } else { FallsByNumbers(times, target, s); }
  }

  /** With nineteen blocks and a target between the first two, the search asks for a block
      below genesis: it visits 9, 4, 1 and then wants -1. From block 1 on it is safe. */
  lemma FallsBelowExample(times: seq<int>, target: int)
    requires Chain(times) && |times| == 19 && times[0] <= target < times[1]
    ensures Result(times, target, Start(18)).FellBelow?
    ensures FirstSafe(18) == 1
  {
    assert PathFalls(18, 0, 1, 3);
    assert PathFalls(18, 0, 4, 5);
    assert !PathFalls(18, 1, 2, 1);
    assert !PathFalls(18, 1, 3, 2);
    assert !PathFalls(18, 1, 1, 3);
    assert !PathFalls(18, 1, 4, 5);
    assert Halvings(9) >= 1;
    assert LeastSafe(18, 1) == 1;
    FallsExactly(times, target);
  }

  /** The search as a whole: if the target is not before the first safe block it stays in the
      chain, and then returns the goal, or the closest header it looked at. */
  lemma SearchCorrect(times: seq<int>, target: int)
    requires Chain(times) && target >= times[SafeIndex(times)]
    ensures Sound(times, target, Start(Latest(times)))
    ensures var r := Result(times, target, Start(Latest(times)));
            r.Found? && r.block < Latest(times) &&
            if r.walkedBack then r.block == Goal(times, target)
            else forall v: nat :: LooksAt(times, target, Start(Latest(times)), v) ==>
                   v < Latest(times) && NoFarther(times[r.block], times[v], target)
  {
    var s := Start(Latest(times));
    StartBracketed(times, target);
    FallsExactly(times, target);
    WalkBackFindsGoal(times, target, s);
    OtherExitIsClosest(times, target, s);
  }

  /** The last block before the head that is not after the target. */
  ghost predicate LastBefore(times: seq<int>, target: int, l: nat) {
    l + 1 < |times| && times[l] <= target && forall i :: l < i < |times| - 1 ==> times[i] > target
  }

  /** What a caller can rely on: a block before the head, which is the last one not after the
      target or else misses it by no more than the one before that does; and none for a target
      before the first block. */
  ghost predicate Finds(times: seq<int>, target: int, r: Outcome) {
    (|times| > 0 && target < times[0] ==> r.FellBelow?) &&
    (r.Found? ==>
       r.block + 1 < |times| &&
       (r.walkedBack ==> LastBefore(times, target, r.block)) &&
       forall l: nat :: LastBefore(times, target, l) && l >= 1 ==>
         times[l - 1] <= times[r.block] <= target + (target - times[l - 1]))
  }

  lemma ResultFinds(times: seq<int>, target: int)
    requires Chain(times)
    ensures Sound(times, target, Start(Latest(times))) && Finds(times, target, Result(times, target, Start(Latest(times))))
  {
    var s, goal := Start(Latest(times)), Goal(times, target);
    var r := Result(times, target, s);
    if goal < 0 {
      BeforeGenesisFalls(times, target, s);
    } else {
      StartBracketed(times, target);
      WalkBackFindsGoal(times, target, s);
      OtherExitIsClosest(times, target, s);
      OtherExitNearGoal(times, target, s);
      assert times[0] <= times[goal];
      forall l: nat | LastBefore(times, target, l) ensures l == goal {}
    }
  }

  /** The block a caller looks up before searching. */
  function SafeIndex(times: seq<int>): (i: nat)
    requires |times| >= 3
    ensures i < Latest(times)
  {
    SafeFrom(Latest(times), 0);
    FirstSafe(Latest(times))
  }

  lemma {:induction false} HalvingsBound(p: nat)
    ensures p >= 1 ==> Halvings(p) <= p - 1
  {
    if p > 1 { HalvingsBound((p + 1) / 2); }
  }

  /** The final loop: previous blocks until one is not after the target. */
  method WalkBack(times: seq<int>, target: int, from: nat) returns (l: int)
    requires from < |times| && times[from] > target
    ensures l == LastNotAfter(times, from, target)
  {
    l := from;
    while l >= 0 && times[l] > target
      invariant -1 <= l <= from
      invariant forall i :: l < i <= from ==> times[i] > target
    {
      l := l - 1;
    }
  }

  /** A state of the loop from which the search ends as expected. */
  ghost predicate OnTrack(times: seq<int>, target: int, s: Search, expected: Outcome) {
    Sound(times, target, s) && Result(times, target, s) == expected
  }

  predicate Smaller(n: Search, s: Search) {
    n.pivot < s.pivot ||
    (n.pivot == s.pivot && n.minDist.Finite? && (s.minDist.Finite? ==> n.minDist.d < s.minDist.d))
  }

  /** What a round decided leads to the expected end. */
  ghost predicate Leads(times: seq<int>, target: int, round: Round, s: Search, expected: Outcome) {
    if round.Done? then round.outcome == expected
    else OnTrack(times, target, round.next, expected) && Smaller(round.next, s)
  }

  /** One round of a search that is on track, branch by branch. */
  lemma StaysOnTrack(times: seq<int>, target: int, s: Search, expected: Outcome)
    requires OnTrack(times, target, s, expected)
    ensures s.candidate < Latest(times) && s.pivot >= 1
    ensures var time, latest := times[s.candidate], Latest(times);
            var d := Distance(time, target);
            if Improves(d, s.minDist) then
              Leads(times, target, Move(latest, target < time, s.(best := s.candidate, minDist := Finite(d))), s, expected)
            else if s.pivot > 1 then Leads(times, target, Move(latest, target < time, s), s, expected)
            else if time > target then
              var l := LastNotAfter(times, s.candidate, target);
              expected == if l < 0 then FellBelow else Found(l, true)
            else expected == Found(s.best, false)
  {
    ResultStep(times, target, s);
  }

  /** The part of the loop that picks the next candidate. */
  method HalveAndStep(latest: nat, goLeft: bool, s: Search) returns (candidate: int, pivot: nat)
    requires s.candidate < latest
    ensures Move(latest, goLeft, s) ==
            if candidate < 0 then Done(FellBelow) else Go(s.(candidate := candidate, pivot := pivot))
  {
    pivot := (s.pivot + 1) / 2;
    if goLeft {
      candidate := s.candidate - pivot;
    } else {
      candidate := s.candidate + pivot;
    }
    if candidate > latest - 1 {
      candidate := latest - 1;
    }
  }

  /** GetELBlockHeaderForTime, on the header times of blocks 0..latest. */
  method GetELBlockHeaderForTime(times: seq<int>, target: int) returns (r: Outcome)
    requires |times| >= 3
    ensures Sound(times, target, Start(Latest(times)))
    ensures r == Result(times, target, Start(Latest(times)))
    ensures Chain(times) ==> Finds(times, target, r)
  {
    if Chain(times) { ResultFinds(times, target); }
    var latest := |times| - 1;
    var candidate: int := latest / 2;
    var best: nat := latest / 2;
    var pivot: nat := latest / 2;
    var minDist := Infinite;
    ghost var expected := Result(times, target, Start(latest));
    while true
      invariant 0 <= candidate < latest && pivot >= 1
      invariant OnTrack(times, target, Search(candidate, pivot, best, minDist), expected)
      decreases pivot, minDist.Infinite?, if minDist.Finite? then minDist.d else 0
    {
      ghost var s := Search(candidate, pivot, best, minDist);
      StaysOnTrack(times, target, s, expected);
      var time := times[candidate];
      var distance := Distance(time, target);
      if Improves(distance, minDist) {
        minDist, best := Finite(distance), candidate;
      } else if pivot == 1 {
        if time > target {
          var l := WalkBack(times, target, candidate);
          return if l < 0 then FellBelow else Found(l, true);
        }
        return Found(best, false);
      }
      candidate, pivot := HalveAndStep(latest, target < time, Search(candidate, pivot, best, minDist));
      if candidate < 0 {
        return FellBelow;
      }
    }
  }
}
