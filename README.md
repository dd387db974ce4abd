# Q-learning line follower: decision engine

A Dafny model of the decision engine of an EV3 line-following robot that
learns by tabular Q-learning (`main.py`). The robot reads a reflectance
sensor, thresholds it into WHITE, MIDDLE or BLACK, and keeps a Q table keyed by
(mode, light state, action), where the mode says whether it tracks the inner
or the outer edge of the line and the action is one of `forward`, `backward`,
`turn_left`, `turn_right`. During learning each cycle chooses an action
(random when exploring, greedy otherwise), performs it, observes the new light
state, re-derives the mode from the (old light, action name, new light)
triple, and moves the table entry for the pre-action key one temporal-difference
step towards `reward + 0.9 * best value of the new state`, with learning rate
0.1. The table is saved with each action replaced by its name and loaded back
by resolving the names. At run time the robot follows the line by taking the
greedy action for its current (mode, light state) and re-deriving the mode.

The model covers the second, complete copy of the program (`main.py:247-500`);
the first copy (`main.py:1-246`) is the same program without the reward
function.

Files and modules:

- `robot.dfy`, module `Robot`: light states, modes, actions, directions, the
  thresholds 25 and 8, action names, thresholding, direction and reward.
- `modes.dfy`, module `ModeClassifier`: the inner and outer rule tables and
  the mode classifier, with a reference reading of the tables in terms of
  one-step changes of darkness.
- `qtable.dfy`, module `QTable`: keys, the table as a `map`, the greedy
  scan (`GetBestAction`, a loop proved equal to the function `Best`), the
  argmax-with-first-wins property, and the nested-loop initialiser.
- `learning.dfy`, module `Learning`: the temporal-difference update, one
  learning cycle as a function (`Step`) and as a method of the class
  `Learner` that updates its table in place, the learning loop over a
  sequence of observations, and the read-only policy step `LineFollowing`.
- `persistence.dfy`, module `Persistence`: the name mapping of saving and
  loading, as loops over the dictionary, with the round trip proved both ways.

Sensors and randomness are inputs: the light state observed after a
manoeuvre, the explore/exploit coin and the randomly picked action are
parameters of a cycle. A dictionary lookup of a missing key, which raises
`KeyError` in Python, is an explicit outcome (`MissingKey`, `Crashed`,
`FollowCrashed`); loading a table that names an unknown action is the outcome
`UnknownName`.

Where the program and its design description differ, the model follows the
program:

- The initialiser creates only the 8 keys whose light state is BLACK, not the
  24 keys of the full key space (see Findings).
- The reward function's last fallback (10) cannot be reached: the direction
  is FORWARD exactly for `forward` and BACKWARD for every other action, so a
  turn is rewarded like reversing (5). The model's direction type has only
  these two values.
- The reward penalises BLACK alone; the program's test is membership in the
  list `[BLACK, BLACK]`, modelled as written.

## Model

| member | source | states |
|---|---|---|
| Robot.LightStateOf | main.py:364-370 | a reading is WHITE iff it is at least 25, BLACK iff it is at most 8, MIDDLE iff strictly between; so every reading has exactly one light state |
| Robot.LightStateMonotonic | main.py:364-370 | a brighter reading never gives a darker light state |
| Robot.ActionNamed | main.py:329 | a name resolves to an action whose name it is, and resolves to nothing exactly when no action has that name |
| Robot.NameRoundTrip | main.py:317-330 | resolving an action's name gives back that action, and no two actions share a name |
| Robot.DirectionOf | main.py:434-437 | the direction is FORWARD exactly when the action is `forward` |
| Robot.Reward | main.py:372-380 | the reward is negative exactly when the new light state is BLACK; otherwise it is 15 exactly for FORWARD and 5 exactly for BACKWARD; it is always -10, 5 or 15 |
| Robot.RewardOfAction | main.py:372-380 | by action: -10 on BLACK, else 15 for `forward` and 5 for every other action; the fallback 10 never occurs |
| ModeClassifier.GetMode | main.py:397-403 | the classifier agrees with the reference reading: a right turn that brightens by one step or a left turn that darkens by one step gives INNER_LINE, the mirror cases OUTER_LINE, anything else keeps the mode |
| ModeClassifier.RuleTablesDisjoint | main.py:295-308 | no triple is in both the inner and the outer rule table |
| ModeClassifier.StraightMovesKeepMode | main.py:397-403 | `forward` and `backward` never change the mode |
| ModeClassifier.NoChangeKeepsMode | main.py:397-403 | a manoeuvre that leaves the light state unchanged keeps the mode |
| ModeClassifier.MatchedTripleIgnoresMode | main.py:397-403 | for a triple in either rule table the result does not depend on the previous mode |
| ModeClassifier.RightTurnToWhiteIsInner | main.py:295-308 | MIDDLE, `turn_right`, WHITE always gives INNER_LINE |
| QTable.FirstMissing | main.py:388-390 | the scan fails on a key exactly when some key of the row is missing, and the key reported is the first missing one in action-list order |
| QTable.ScanPrefixIsFirstMax | main.py:384-394 | after scanning a prefix of the action list the kept action's value is the entry of that action, at least every scanned entry, and strictly above every entry before it |
| QTable.BestIsGreedyChoice | main.py:382-395 | the greedy lookup succeeds exactly when the row is complete; its value is the entry of the returned action, at least every action's entry, and strictly above the entry of every earlier action (ties go to the first in `[forward, backward, turn_left, turn_right]`); on failure it names the first missing key |
| QTable.GreedyChoiceUnique | main.py:388-394 | the max-with-first-wins conditions determine the action uniquely |
| QTable.ZeroRowPicksForward | main.py:382-395 | on an all-zero row the greedy choice is `forward` with value 0 |
| QTable.GetBestAction | main.py:382-395 | the loop with running maximum starting at minus infinity and strict comparison returns exactly the greedy lookup `Best` |
| QTable.FirstMissingStays | main.py:388-390 | once a key is found missing, scanning further actions still reports that key |
| QTable.InitTable | main.py:358-362 | the nested loops create exactly the keys whose light state is in the iterated list, for both modes and all four actions, all with value 0 |
| QTable.InitialTableKeys | main.py:358-362 | the source's initial table has exactly the eight keys (INNER_LINE or OUTER_LINE, BLACK, any action), all 0 |
| QTable.FullTableIsTotal | main.py:358-362 | iterating over all three light states instead gives an entry for every key, all 0 |
| Learning.TdUpdate | main.py:445-446 | the new value lies between the old value and the target reward + 0.9 * maxNext, moves strictly towards the target unless they agree, and its distance to the target shrinks by the factor 0.9 |
| Learning.PositiveRewardRaisesZero | main.py:445-446 | a positive reward with a non-negative lookahead strictly raises a zero entry |
| Learning.StepUpdatesOneEntry | main.py:421-457 | a successful cycle takes the random pick when exploring and the greedy action otherwise, changes only the entry (mode, light, action), sets it by one update step towards the reward plus 0.9 times the best value at (new mode, new light), keeps every key, and advances mode, light state and iteration count; a cycle fails only on a key the table lacks |
| Learning.TotalTableNeverCrashes | main.py:428-446 | on a table with every key a cycle always succeeds and the table keeps every key |
| Learning.InitialTableCrashesOnFirstTurn | main.py:358-362 | with the source's initial table, a right turn from BLACK onto MIDDLE fails on the missing key (INNER_LINE, MIDDLE, `forward`) |
| Learning.FirstTurnOnFullTable | main.py:433-446 | on the full zero table that cycle keeps INNER_LINE, earns 5 and raises (INNER_LINE, BLACK, `turn_right`) from 0 to 0.5 |
| Learning.TrainKeepsKeys | main.py:414-459 | the learning loop never adds or removes a key |
| Learning.TrainOnTotalTable | main.py:414-459 | from a table with every key the loop never fails and runs one cycle per observation until iteration 4582, where exploration stops |
| Learning.Learner.constructor | main.py:406-412 | a session starts on the inner edge at iteration 0 with the given table and light state |
| Learning.Learner.ChooseAction | main.py:423-429 | exploring takes the random pick, exploiting takes the greedy lookup of the current state |
| Learning.Learner.Cycle | main.py:421-457 | updating the table in place gives the same outcome and new state as the cycle `Step`; a failed lookup leaves the state unchanged |
| Learning.Learner.Learn | main.py:414-459 | the loop's final state and outcome are those of the learning loop `Train` over the observations |
| Learning.LineFollowing | main.py:461-473 | the policy step succeeds exactly when the row is complete, takes the greedy action (maximal entry, earliest among equals), returns the mode the classifier derives and the new light state, and only reads the table |
| Persistence.Encode | main.py:317-320 | every entry of the table is saved under its key with the action replaced by its name, and every saved name is an action's name |
| Persistence.DecodeEncode | main.py:317-330 | loading a saved table always resolves every name and gives back the same keys and values |
| Persistence.EncodeDecode | main.py:317-330 | saving a loaded table gives back the saved table |
| Persistence.EncodeInsert | main.py:319-320 | saving one more entry adds exactly its named key |
| Persistence.DecodeInsert | main.py:328-329 | loading one more entry adds exactly its resolved key |
| Persistence.SaveTable | main.py:317-320 | the loop over the dictionary builds exactly the saved table |
| Persistence.LoadTable | main.py:324-330 | loading succeeds exactly when every name is an action's name, and then gives the decoded table; otherwise it reports a name in the saved table that is not an action's name |
| Persistence.SaveThenLoad | main.py:317-330 | a table saved and loaded again comes back unchanged |

## Left out

- Hardware setup and the drive primitives (`main.py:310-315`, `main.py:332-354`): foreign motor and sensor calls and waits. The turn actions poll the sensor until the light state changes; the model takes the light state observed afterwards as an input and does not assume it differs.
- Action dispatch: `forward` and `backward` take one parameter but `learn` and `line_following` call every action with two (`main.py:332`, `main.py:336`, `main.py:433`, `main.py:468`), which in Python fails for those two actions; the model treats every action as invokable.
- Obstacle avoidance, infrared polling and the endless `run` loop (`main.py:350-354`, `main.py:475-496`): sensor-driven and non-terminating.
- The exploration schedule `2.7321 ** (iterations / -1000)` and its 0.01 stop test (`main.py:416`, `main.py:423`): floating-point exponentiation. The model stops at iteration 4582, the first count at which that value is below 0.01, and takes the explore/exploit outcome as an input.
- `random.uniform` and `random.choice` (`main.py:423-425`): inputs of a cycle.
- File I/O with pickle, the screen, the speaker and `print` (`main.py:321-326`, `main.py:431`, `main.py:448-453`, `main.py:459`): only the in-memory name mapping is modelled.
- Persistence.LoadTable: `globals()[name]` also resolves names of globals that are not actions (for example `learn`) without an error; the model treats every name that is not an action's name as a failed load.
- Learning.TdUpdate: Q values are exact reals; the rounding of Python floats is not modelled.
- Learning.Learner.Learn: the observations are a finite sequence, so the loop also ends when they run out, which the source's sensor-driven loop never does.
- The first copy of the program (`main.py:1-246`): the same program without the reward function; it is not modelled.

## Findings

| source | as written | input that shows it | evidently intended | confidence | as-written member | corrected member |
|---|---|---|---|---|---|---|
| main.py:359-362 | the initialiser iterates over `[BLACK, BLACK]`, so the table holds only the 8 keys with light state BLACK | mode INNER_LINE on BLACK, explore with `turn_right`, sensor then reads MIDDLE: the lookahead `get_best_action(Q_table, INNER_LINE, MIDDLE)` raises KeyError on (INNER_LINE, MIDDLE, `forward`) | iterate over WHITE, MIDDLE and BLACK, giving all 24 keys, so that every lookup succeeds | high; not executed | Learning.InitialTableCrashesOnFirstTurn | Learning.TotalTableNeverCrashes |
