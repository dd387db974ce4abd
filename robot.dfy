/**
 The fixed vocabulary of the line follower: the three light states the
 reflectance sensor is thresholded into, the two line edges the robot can be
 tracking, the four manoeuvres, the direction of travel derived from a
 manoeuvre, and the reward the learner receives after a manoeuvre.
 */
module Robot {

  datatype Option<T> = None | Some(value: T)

  /** The three discretised readings of the reflectance sensor. */
  datatype LightState = White | Middle | Black

  /** Which edge of the line the robot is straddling. */
  datatype Mode = InnerLine | OuterLine

  /** The four manoeuvres, in the order of the source's `actions` list. */
  datatype Action = Forward | Backward | TurnLeft | TurnRight

  /** Direction of travel, as recorded for the reward. */
  datatype Direction = Forwards | Backwards

  /** Reflectance thresholds (percent). */
  const WhiteThreshold: int := 25
  const BlackThreshold: int := 8

  /** The action list; its order decides ties in the greedy choice. */
  const Actions: seq<Action> := [Forward, Backward, TurnLeft, TurnRight]

  const Modes: seq<Mode> := [InnerLine, OuterLine]

  const LightStates: seq<LightState> := [White, Middle, Black]

  /** Every mode, light state and action appears in its list. */
  lemma Listed(m: Mode, l: LightState, a: Action)
    ensures m in Modes && l in LightStates && a in Actions
  {
    assert Modes[if m == InnerLine then 0 else 1] == m;
    assert LightStates[Darkness(l)] == l;
    assert Actions[Rank(a)] == a;
  }

  /** Position of an action in the action list. */
  function Rank(a: Action): (i: nat)
    ensures i < |Actions| && Actions[i] == a
  {
    match a
    case Forward => 0
    case Backward => 1
    case TurnLeft => 2
    case TurnRight => 3
  }

  /** Darkness of a light state: White 0, Middle 1, Black 2. */
  function Darkness(l: LightState): (d: nat)
    ensures d <= 2
  {
    match l
    case White => 0
    case Middle => 1
    case Black => 2
  }

  /** Distinct light states have distinct darkness. */
  lemma DarknessInjective(l: LightState, l': LightState)
    ensures Darkness(l) == Darkness(l') ==> l == l'
  {
  }

  /**
   Thresholding of a reflectance reading: bright readings are WHITE, dark
   ones BLACK and everything strictly between is MIDDLE.
   */
  function LightStateOf(reading: int): (r: LightState)
    ensures r == White <==> reading >= WhiteThreshold
    ensures r == Black <==> reading <= BlackThreshold
    ensures r == Middle <==> BlackThreshold < reading < WhiteThreshold
  {
    if reading >= WhiteThreshold then White
    else if reading <= BlackThreshold then Black
    else Middle
  }

  /** A brighter reading never yields a darker light state. */
  lemma LightStateMonotonic(r1: int, r2: int)
    requires r1 <= r2
    ensures Darkness(LightStateOf(r2)) <= Darkness(LightStateOf(r1))
  {
  }

  /** The name under which an action is known (Python's `__name__`). */
  function Name(a: Action): string
  {
    match a
    case Forward => "forward"
    case Backward => "backward"
    case TurnLeft => "turn_left"
    case TurnRight => "turn_right"
  }

  /** Resolving a name back to the action it names; unknown names resolve to nothing. */
  function ActionNamed(name: string): (r: Option<Action>)
    ensures r.Some? ==> Name(r.value) == name
    ensures r.None? <==> forall a: Action :: Name(a) != name
  {
    if name == "forward" then Some(Forward)
    else if name == "backward" then Some(Backward)
    else if name == "turn_left" then Some(TurnLeft)
    else if name == "turn_right" then Some(TurnRight)
    else None
  }

  /** Distinct actions have distinct names, so a name identifies its action. */
  lemma NameRoundTrip(a: Action)
    ensures ActionNamed(Name(a)) == Some(a)
    ensures forall b: Action :: Name(b) == Name(a) ==> b == a
  {
  }

  /** Only `forward` drives forwards; every other action counts as backwards. */
  function DirectionOf(a: Action): (d: Direction)
    ensures d == Forwards <==> a == Forward
  {
    if a == Forward then Forwards else Backwards
  }

  /**
   Reward after a manoeuvre: BLACK is penalised, otherwise forward travel
   earns more than backward travel. The source's last fallback (10) has no
   counterpart: a direction is always one of the two values.
   */
  function Reward(newLight: LightState, d: Direction): (r: int)
    ensures r < 0 <==> newLight == Black
    ensures newLight != Black ==> (r == 15 <==> d == Forwards) && (r == 5 <==> d == Backwards)
    ensures r == -10 || r == 5 || r == 15
  {
    if newLight in [Black, Black] then -10
    else match d
      case Forwards => 15
      case Backwards => 5
  }

  /** The reward as a function of the manoeuvre taken. */
  lemma RewardOfAction(a: Action, newLight: LightState)
    ensures Reward(newLight, DirectionOf(a)) ==
      if newLight == Black then -10 else if a == Forward then 15 else 5
    ensures Reward(newLight, DirectionOf(a)) != 10
  {
  }
}
