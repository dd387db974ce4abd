/**
 The edge-mode classifier: a (prior light, action name, new light) triple is
 looked up first in the inner-edge rules, then in the outer-edge rules; a
 triple in neither leaves the mode as it was.
 */
module ModeClassifier {
  import opened Robot

  type Rule = (LightState, string, LightState)

  /** Transitions that show the robot is on the inner edge. */
  const InnerRules: seq<Rule> := [
    (Middle, "turn_right", White),
    (Black, "turn_right", Middle),
    (White, "turn_left", Middle),
    (Middle, "turn_left", Black)
  ]

  /** Transitions that show the robot is on the outer edge. */
  const OuterRules: seq<Rule> := [
    (Middle, "turn_right", Black),
    (White, "turn_right", Middle),
    (Black, "turn_left", Middle),
    (Middle, "turn_left", White)
  ]

  /**
   Reference reading of the two rule tables: a turn that moves the sensor one
   step of darkness identifies the edge. On the inner edge a right turn
   brightens and a left turn darkens; on the outer edge it is the other way
   round. Anything else (driving straight, no change, or a jump from WHITE
   straight to BLACK) identifies nothing.
   */
  function Crossing(light: LightState, a: Action, newLight: LightState): Option<Mode>
  {
    var step := Darkness(newLight) - Darkness(light);
    if (a == TurnRight && step == -1) || (a == TurnLeft && step == 1) then Some(InnerLine)
    else if (a == TurnRight && step == 1) || (a == TurnLeft && step == -1) then Some(OuterLine)
    else None
  }

  /** The mode after observing `light` turn into `newLight` under action `a`. */
  function GetMode(light: LightState, newLight: LightState, a: Action, mode: Mode): (r: Mode)
    ensures r == (if Crossing(light, a, newLight).Some? then Crossing(light, a, newLight).value else mode)
  {
    if (light, Name(a), newLight) in InnerRules then InnerLine
    else if (light, Name(a), newLight) in OuterRules then OuterLine
    else mode
  }

  /** No triple is in both rule tables, so the lookup order never matters. */
  lemma RuleTablesDisjoint()
    ensures forall i, j :: 0 <= i < |InnerRules| && 0 <= j < |OuterRules| ==> InnerRules[i] != OuterRules[j]
  {
  }

  /** Driving straight never changes the mode. */
  lemma StraightMovesKeepMode(light: LightState, newLight: LightState, a: Action, mode: Mode)
    requires a == Forward || a == Backward
    ensures GetMode(light, newLight, a, mode) == mode
  {
  }

  /** A manoeuvre after which the light state has not changed keeps the mode. */
  lemma NoChangeKeepsMode(light: LightState, a: Action, mode: Mode)
    ensures GetMode(light, light, a, mode) == mode
  {
  }

  /** A matched triple decides the mode whatever the mode was before. */
  lemma MatchedTripleIgnoresMode(light: LightState, newLight: LightState, a: Action, m1: Mode, m2: Mode)
    requires (light, Name(a), newLight) in InnerRules + OuterRules
    ensures GetMode(light, newLight, a, m1) == GetMode(light, newLight, a, m2)
  {
  }

  /** MIDDLE to WHITE under a right turn always means the inner edge. */
  lemma RightTurnToWhiteIsInner(mode: Mode)
    ensures GetMode(Middle, White, TurnRight, mode) == InnerLine
  {
  }
}
