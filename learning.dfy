/**
 The learning cycle of the line follower and the read-only policy step.
 The sensor reading after a manoeuvre and the explore/exploit coin (with the
 randomly picked action) are inputs; a cycle then updates exactly one entry
 of the Q table by the one-step temporal-difference rule and advances the
 mode, the light state and the iteration count.
 */
module Learning {
  import opened Robot
  import opened QTable
  import opened ModeClassifier

  /** alpha: how far one update moves an entry towards its target. */
  const LearningRate: real := 0.1

  /** gamma: weight of the best value reachable from the next state. */
  const DiscountFactor: real := 0.9

  /**
   First iteration count at which the exploration probability
   2.7321^(-iterations/1000) falls below 0.01, where learning stops.
   */
  const StopIteration: nat := 4582

  /** The target the update moves towards. */
  function Target(reward: real, maxNext: real): real
  {
    reward + DiscountFactor * maxNext
  }

  /**
   One temporal-difference step from `q` towards the target: the result lies
   between the old value and the target, and moves strictly towards the
   target unless the two already agree.
   */
  function TdUpdate(q: real, reward: real, maxNext: real): (r: real)
    ensures q <= Target(reward, maxNext) ==> q <= r <= Target(reward, maxNext)
    ensures Target(reward, maxNext) <= q ==> Target(reward, maxNext) <= r <= q
    ensures q < Target(reward, maxNext) ==> q < r
    ensures Target(reward, maxNext) < q ==> r < q
    ensures r - Target(reward, maxNext) == (1.0 - LearningRate) * (q - Target(reward, maxNext))
  {
    q + LearningRate * (reward + DiscountFactor * maxNext - q)
  }

  /** A positive reward on an all-zero neighbourhood strictly raises the entry. */
  lemma PositiveRewardRaisesZero(reward: real, maxNext: real)
    requires reward > 0.0 && maxNext >= 0.0
    ensures TdUpdate(0.0, reward, maxNext) > 0.0
  {
  }

  /** The variables the learning loop carries from one cycle to the next. */
  datatype Session = Session(table: Table, mode: Mode, light: LightState, iterations: nat)

  /** What one cycle does: the action taken and its reward, or the key whose lookup failed. */
  datatype StepResult =
    | Stepped(next: Session, action: Action, reward: int)
    | Crashed(missing: Key)

  /** The action a cycle takes: the random pick when exploring, the greedy choice otherwise. */
  function Choice(s: Session, explore: bool, pick: Action): Lookup
  {
    if explore then Found(pick, 0.0) else Best(s.table, s.mode, s.light)
  }

  /**
   The rest of a cycle once action `a` is chosen: act (observing
   `newLight`), re-derive the mode, look up the best next value, compute the
   reward and update the entry for the pre-action (mode, light, action).
   */
  function Act(s: Session, a: Action, newLight: LightState): StepResult
  {
    var newMode := GetMode(s.light, newLight, a, s.mode);
    var next := Best(s.table, newMode, newLight);
    if next.MissingKey? then Crashed(next.key)
    else
      var reward := Reward(newLight, DirectionOf(a));
      var k := Key(s.mode, s.light, a);
      if k !in s.table then Crashed(k)
      else Stepped(Session(s.table[k := TdUpdate(s.table[k], reward as real, next.value)], newMode, newLight, s.iterations + 1), a, reward)
  }

  /** One cycle of the learning loop. */
  function Step(s: Session, explore: bool, pick: Action, newLight: LightState): StepResult
  {
    var choice := Choice(s, explore, pick);
    if choice.MissingKey? then Crashed(choice.key) else Act(s, choice.action, newLight)
  }

  /**
   A cycle that succeeds changes only the entry of the pre-action key,
   moving it by one temporal-difference step towards the reward plus the
   discounted best value of the post-action state; it keeps every key, and
   advances mode, light state and iteration count. A cycle fails only on a
   key the table lacks.
   */
  lemma StepUpdatesOneEntry(s: Session, explore: bool, pick: Action, newLight: LightState)
    ensures var r := Step(s, explore, pick, newLight);
      r.Stepped? ==>
      var k := Key(s.mode, s.light, r.action);
      var next := Best(s.table, r.next.mode, newLight);
      && (explore ==> r.action == pick)
      && (!explore ==> Best(s.table, s.mode, s.light).Found? && r.action == Best(s.table, s.mode, s.light).action)
      && next.Found?
      && k in s.table
      && r.next.table.Keys == s.table.Keys
      && (forall k' :: k' in s.table && k' != k ==> r.next.table[k'] == s.table[k'])
      && r.next.table[k] == TdUpdate(s.table[k], r.reward as real, next.value)
      && r.reward == Reward(newLight, DirectionOf(r.action))
      && r.next.mode == GetMode(s.light, newLight, r.action, s.mode)
      && r.next.light == newLight
      && r.next.iterations == s.iterations + 1
    ensures var r := Step(s, explore, pick, newLight);
      r.Crashed? ==> r.missing !in s.table
  {
    var choice := Choice(s, explore, pick);
    if choice.MissingKey? {
      BestIsGreedyChoice(s.table, s.mode, s.light);
    } else {
      BestIsGreedyChoice(s.table, GetMode(s.light, newLight, choice.action, s.mode), newLight);
    }
  }

  /** The lookups a cycle makes all succeed when the table is total, and it stays total. */
  lemma TotalTableNeverCrashes(s: Session, explore: bool, pick: Action, newLight: LightState)
    requires Total(s.table)
    ensures Step(s, explore, pick, newLight).Stepped?
    ensures Total(Step(s, explore, pick, newLight).next.table)
  {
    BestIsGreedyChoice(s.table, s.mode, s.light);
    var a := Choice(s, explore, pick).action;
    BestIsGreedyChoice(s.table, GetMode(s.light, newLight, a, s.mode), newLight);
  }

  /**
   With the table as the source initialises it, the first right turn from
   BLACK onto MIDDLE already fails: the lookahead row (INNER_LINE, MIDDLE)
   has no entries.
   */
  lemma InitialTableCrashesOnFirstTurn()
    ensures Step(Session(InitialTable(), InnerLine, Black, 0), true, TurnRight, Middle)
      == Crashed(Key(InnerLine, Middle, Forward))
  {
    InitialTableKeys();
    assert Key(InnerLine, Middle, Forward) !in InitialTable();
    assert FirstMissing(InitialTable(), InnerLine, Middle, 1) == Some(Key(InnerLine, Middle, Forward));
    FirstMissingStays(InitialTable(), InnerLine, Middle, 1);
  }

  /**
   The same cycle on the corrected table: the mode stays INNER_LINE (rule
   BLACK, turn_right, MIDDLE), a turn earns the backward reward 5, and the
   entry (INNER_LINE, BLACK, turn_right) rises from 0 to 0.5.
   */
  lemma FirstTurnOnFullTable()
    ensures var r := Step(Session(FullTable(), InnerLine, Black, 0), true, TurnRight, Middle);
      && r.Stepped?
      && r.next.mode == InnerLine
      && r.reward == 5
      && r.next.table[Key(InnerLine, Black, TurnRight)] == 0.5
  {
    var s := Session(FullTable(), InnerLine, Black, 0);
    FullTableIsTotal();
    TotalTableNeverCrashes(s, true, TurnRight, Middle);
    ZeroRowPicksForward(FullTable(), InnerLine, Middle);
  }

  /** The learning loop: cycles until the exploration schedule stops it, the observations run out, or a lookup fails. */
  function Train(s: Session, observations: seq<(bool, Action, LightState)>): (Session, Option<Key>)
    decreases |observations|
  {
    if s.iterations >= StopIteration || observations == [] then (s, None)
    else
      var (explore, pick, newLight) := observations[0];
      match Step(s, explore, pick, newLight)
      case Crashed(k) => (s, Some(k))
      case Stepped(next, _, _) => Train(next, observations[1..])
  }

  /** Learning never adds or removes a key of the table. */
  lemma {:induction false} TrainKeepsKeys(s: Session, observations: seq<(bool, Action, LightState)>)
    ensures Train(s, observations).0.table.Keys == s.table.Keys
    decreases |observations|
  {
    if s.iterations < StopIteration && observations != [] {
      var (explore, pick, newLight) := observations[0];
      var r := Step(s, explore, pick, newLight);
      if r.Stepped? {
        TrainKeepsKeys(r.next, observations[1..]);
      }
    }
  }

  /**
   From a total table learning never fails, and it runs one cycle per
   observation up to the stopping iteration.
   */
  lemma {:induction false} TrainOnTotalTable(s: Session, observations: seq<(bool, Action, LightState)>)
    requires Total(s.table)
    requires s.iterations <= StopIteration
    ensures Train(s, observations).1 == None
    ensures Total(Train(s, observations).0.table)
    ensures Train(s, observations).0.iterations ==
      if s.iterations + |observations| <= StopIteration then s.iterations + |observations| else StopIteration
    decreases |observations|
  {
    if s.iterations < StopIteration && observations != [] {
      var (explore, pick, newLight) := observations[0];
      TotalTableNeverCrashes(s, explore, pick, newLight);
      TrainOnTotalTable(Step(s, explore, pick, newLight).next, observations[1..]);
    }
  }

  /**
   The learner's state: the Q table it updates in place, and the loop
   variables of the learning loop.
   */
  class Learner {
    var table: Table
    var mode: Mode
    var light: LightState
    var iterations: nat

    function State(): Session
      reads this
    {
      Session(table, mode, light, iterations)
    }

    /** A learning session starts on the inner edge at iteration 0. */
    constructor (t: Table, startLight: LightState)
      ensures State() == Session(t, InnerLine, startLight, 0)
    {
      table, mode, light, iterations := t, InnerLine, startLight, 0;
    }

    /**
     Explore or exploit: the coin `explore` and the random `pick` are
     inputs; exploiting takes the greedy choice for the current state.
     */
    method ChooseAction(explore: bool, pick: Action) returns (c: Lookup)
      ensures explore ==> c == Found(pick, 0.0)
      ensures !explore ==> c == Best(table, mode, light)
    {
      if explore {
        c := Found(pick, 0.0);
      } else {
        c := GetBestAction(table, mode, light);
      }
    }

    /** One cycle, updating the table entry in place. */
    method Cycle(explore: bool, pick: Action, newLight: LightState) returns (r: StepResult)
      modifies this
      ensures r == Step(old(State()), explore, pick, newLight)
      ensures r.Stepped? ==> State() == r.next
      ensures r.Crashed? ==> State() == old(State())
    {
      var choice := ChooseAction(explore, pick);
      if choice.MissingKey? {
        return Crashed(choice.key);
      }
      var action := choice.action;
      var newMode := GetMode(light, newLight, action, mode);
      var next := GetBestAction(table, newMode, newLight);
      if next.MissingKey? {
        return Crashed(next.key);
      }
      var reward := Reward(newLight, DirectionOf(action));
      var k := Key(mode, light, action);
      if k !in table {
        return Crashed(k);
      }
      table := table[k := TdUpdate(table[k], reward as real, next.value)];
      light, mode, iterations := newLight, newMode, iterations + 1;
      r := Stepped(State(), action, reward);
    }

    /** The learning loop over a sequence of observations. */
    method Learn(observations: seq<(bool, Action, LightState)>) returns (crash: Option<Key>)
      modifies this
      ensures (State(), crash) == Train(old(State()), observations)
    {
      var i := 0;
      while i < |observations| && iterations < StopIteration
        invariant 0 <= i <= |observations|
        invariant Train(old(State()), observations) == Train(State(), observations[i..])
      {
        var (explore, pick, newLight) := observations[i];
        var r := Cycle(explore, pick, newLight);
        if r.Crashed? {
          return Some(r.missing);
        }
        assert observations[i..][1..] == observations[i + 1..];
        i := i + 1;
      }
      crash := None;
    }
  }

  /** Outcome of one policy step. */
  datatype Follow = Followed(action: Action, mode: Mode, light: LightState) | FollowCrashed(missing: Key)

  /**
   One step of line following with a learned table: take the greedy action,
   observe `newLight`, re-derive the mode. The table is only read.
   */
  method LineFollowing(t: Table, m: Mode, l: LightState, newLight: LightState) returns (r: Follow)
    ensures r.Followed? <==> RowComplete(t, m, l)
    ensures r.Followed? ==>
      && Key(m, l, r.action) in t
      && (forall b: Action :: t[Key(m, l, b)] <= t[Key(m, l, r.action)])
      && (forall b: Action :: Rank(b) < Rank(r.action) ==> t[Key(m, l, b)] < t[Key(m, l, r.action)])
      && r.mode == GetMode(l, newLight, r.action, m)
      && r.light == newLight
    ensures r.FollowCrashed? ==> r.missing !in t
  {
    var best := GetBestAction(t, m, l);
    BestIsGreedyChoice(t, m, l);
    if best.MissingKey? {
      return FollowCrashed(best.key);
    }
    var action := best.action;
    var newMode := GetMode(l, newLight, action, m);
    r := Followed(action, newMode, newLight);
  }
}
