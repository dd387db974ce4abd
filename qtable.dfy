/**
 The Q table: a dictionary from (mode, light state, action) to a learned
 value, its initialisation, and the greedy choice of the best action for a
 (mode, light state) pair. Reading a key the dictionary lacks is an error
 (Python raises KeyError), modelled by the `MissingKey` outcome.
 */
module QTable {
  import opened Robot

  datatype Key = Key(mode: Mode, light: LightState, action: Action)

  type Table = map<Key, real>

  /** Outcome of the greedy lookup. */
  datatype Lookup = Found(action: Action, value: real) | MissingKey(key: Key)

  /** Every action has an entry for this (mode, light state). */
  predicate RowComplete(t: Table, m: Mode, l: LightState)
  {
    forall a: Action :: Key(m, l, a) in t
  }

  /** Every key of the whole key space has an entry. */
  ghost predicate Total(t: Table)
  {
    forall k: Key :: k in t
  }

  /** The first key, in action-list order among the first `n` actions, that the table lacks. */
  function FirstMissing(t: Table, m: Mode, l: LightState, n: nat): (r: Option<Key>)
    requires n <= |Actions|
    ensures r.None? <==> forall i :: 0 <= i < n ==> Key(m, l, Actions[i]) in t
    ensures r.Some? ==>
      && r.value !in t && r.value.mode == m && r.value.light == l && Rank(r.value.action) < n
      && forall i :: 0 <= i < Rank(r.value.action) ==> Key(m, l, Actions[i]) in t
  {
    if n == 0 then None
    else match FirstMissing(t, m, l, n - 1)
      case Some(k) => Some(k)
      case None => if Key(m, l, Actions[n - 1]) !in t then Some(Key(m, l, Actions[n - 1])) else None
  }

  /**
   The scan of the greedy choice over the first `n` actions: `None` stands
   for the starting value minus infinity, and an entry replaces the current
   best only when it is strictly greater.
   */
  function ScanPrefix(t: Table, m: Mode, l: LightState, n: nat): Option<(Action, real)>
    requires n <= |Actions|
    requires forall i :: 0 <= i < n ==> Key(m, l, Actions[i]) in t
  {
    if n == 0 then None
    else
      var prev := ScanPrefix(t, m, l, n - 1);
      var q := t[Key(m, l, Actions[n - 1])];
      if prev.None? || q > prev.value.1 then Some((Actions[n - 1], q)) else prev
  }

  /** The greedy choice for (m, l), or the first key it fails to find. */
  function Best(t: Table, m: Mode, l: LightState): Lookup
  {
    match FirstMissing(t, m, l, |Actions|)
    case Some(k) => MissingKey(k)
    case None =>
      var p := ScanPrefix(t, m, l, |Actions|);
      if p.Some? then Found(p.value.0, p.value.1) else MissingKey(Key(m, l, Forward))
  }

  /**
   The greedy property of the first `n` actions: the scan keeps a maximum
   that is strictly above every entry before it.
   */
  lemma {:induction false} ScanPrefixIsFirstMax(t: Table, m: Mode, l: LightState, n: nat)
    requires 0 < n <= |Actions|
    requires forall i :: 0 <= i < n ==> Key(m, l, Actions[i]) in t
    ensures ScanPrefix(t, m, l, n).Some?
    ensures var (a, v) := ScanPrefix(t, m, l, n).value;
      && Rank(a) < n && v == t[Key(m, l, a)]
      && (forall i :: 0 <= i < n ==> t[Key(m, l, Actions[i])] <= v)
      && (forall i :: 0 <= i < Rank(a) ==> t[Key(m, l, Actions[i])] < v)
  {
    if n > 1 {
      ScanPrefixIsFirstMax(t, m, l, n - 1);
    }
  }

  /**
   `Best` is the argmax over the action list with ties going to the earliest
   action, and it fails exactly when a key of the row is missing, naming the
   first missing one.
   */
  lemma BestIsGreedyChoice(t: Table, m: Mode, l: LightState)
    ensures Best(t, m, l).Found? <==> RowComplete(t, m, l)
    ensures Best(t, m, l).Found? ==>
      var (a, v) := (Best(t, m, l).action, Best(t, m, l).value);
      && Key(m, l, a) in t && v == t[Key(m, l, a)]
      && (forall b: Action :: Key(m, l, b) in t && t[Key(m, l, b)] <= v)
      && (forall b: Action :: Rank(b) < Rank(a) ==> t[Key(m, l, b)] < v)
    ensures Best(t, m, l).MissingKey? ==>
      var k := Best(t, m, l).key;
      && k !in t && k.mode == m && k.light == l
      && forall b: Action :: Rank(b) < Rank(k.action) ==> Key(m, l, b) in t
  {
    if FirstMissing(t, m, l, |Actions|).None? {
      ScanPrefixIsFirstMax(t, m, l, |Actions|);
      var (a, v) := ScanPrefix(t, m, l, |Actions|).value;
      forall b: Action ensures Key(m, l, b) in t && t[Key(m, l, b)] <= v {
        assert Actions[Rank(b)] == b;
      }
      forall b: Action | Rank(b) < Rank(a) ensures t[Key(m, l, b)] < v {
        assert Actions[Rank(b)] == b;
      }
    } else {
      var k := FirstMissing(t, m, l, |Actions|).value;
      forall b: Action | Rank(b) < Rank(k.action) ensures Key(m, l, b) in t {
        assert Actions[Rank(b)] == b;
      }
    }
  }

  /** The greedy conditions pin down a single action. */
  lemma GreedyChoiceUnique(t: Table, m: Mode, l: LightState, a1: Action, a2: Action)
    requires RowComplete(t, m, l)
    requires forall b: Action :: t[Key(m, l, b)] <= t[Key(m, l, a1)]
    requires forall b: Action :: Rank(b) < Rank(a1) ==> t[Key(m, l, b)] < t[Key(m, l, a1)]
    requires forall b: Action :: t[Key(m, l, b)] <= t[Key(m, l, a2)]
    requires forall b: Action :: Rank(b) < Rank(a2) ==> t[Key(m, l, b)] < t[Key(m, l, a2)]
    ensures a1 == a2
  {
    var v1, v2 := t[Key(m, l, a1)], t[Key(m, l, a2)];
    assert v1 == v2;
    assert Rank(a1) < Rank(a2) ==> v1 < v2;
    assert Rank(a2) < Rank(a1) ==> v2 < v1;
    assert Actions[Rank(a1)] == a1 && Actions[Rank(a2)] == a2;
  }

  /** On a row of zeros the greedy choice is the first action, `forward`. */
  lemma ZeroRowPicksForward(t: Table, m: Mode, l: LightState)
    requires RowComplete(t, m, l)
    requires forall a: Action :: t[Key(m, l, a)] == 0.0
    ensures Best(t, m, l) == Found(Forward, 0.0)
  {
    BestIsGreedyChoice(t, m, l);
  }

  /**
   The greedy scan as the source runs it: the running maximum starts below
   every value (`None`), a later action takes over only on a strictly
   greater entry, and a missing key stops the scan.
   */
  method GetBestAction(t: Table, m: Mode, l: LightState) returns (r: Lookup)
    ensures r == Best(t, m, l)
  {
    var best: Option<Action> := None;
    var maxQ: Option<real> := None;
    var i := 0;
    while i < |Actions|
      invariant 0 <= i <= |Actions|
      invariant forall j :: 0 <= j < i ==> Key(m, l, Actions[j]) in t
      invariant best.None? <==> ScanPrefix(t, m, l, i).None?
      invariant best.None? <==> maxQ.None?
      invariant ScanPrefix(t, m, l, i).Some? ==>
        best == Some(ScanPrefix(t, m, l, i).value.0) && maxQ == Some(ScanPrefix(t, m, l, i).value.1)
    {
      var k := Key(m, l, Actions[i]);
      if k !in t {
        assert FirstMissing(t, m, l, i).None?;
        assert FirstMissing(t, m, l, i + 1) == Some(k);
        FirstMissingStays(t, m, l, i + 1);
        return MissingKey(k);
      }
      var q := t[k];
      if maxQ.None? || q > maxQ.value {
        best := Some(Actions[i]);
        maxQ := Some(q);
      }
      i := i + 1;
    }
    ScanPrefixIsFirstMax(t, m, l, |Actions|);
    r := Found(best.value, maxQ.value);
  }

  /** Once a key is found missing, scanning further actions reports the same key. */
  lemma {:induction false} FirstMissingStays(t: Table, m: Mode, l: LightState, n: nat)
    requires 0 < n <= |Actions|
    requires FirstMissing(t, m, l, n).Some?
    ensures FirstMissing(t, m, l, |Actions|) == FirstMissing(t, m, l, n)
    decreases |Actions| - n
  {
    if n < |Actions| {
      assert FirstMissing(t, m, l, n + 1) == FirstMissing(t, m, l, n);
      FirstMissingStays(t, m, l, n + 1);
    }
  }

  /** The keys the initialiser creates when it iterates over `lights`. */
  function KeysFor(lights: seq<LightState>): set<Key>
  {
    set m, l, a | m in Modes && l in lights && a in Actions :: Key(m, l, a)
  }

  lemma KeysForMembership(lights: seq<LightState>, k: Key)
    ensures k in KeysFor(lights) <==> k.light in lights
  {
    if k.light in lights {
      Listed(k.mode, k.light, k.action);
      assert k == Key(k.mode, k.light, k.action);
    }
  }

  /** The table of zeros over a set of keys. */
  function Zeros(keys: set<Key>): Table
  {
    map k | k in keys :: 0.0
  }

  /**
   The source's initialiser: for each mode, for each action, for each light
   state of `lights`, set the entry to 0.
   */
  method InitTable(lights: seq<LightState>) returns (t: Table)
    ensures forall k: Key :: k in t <==> k.light in lights
    ensures forall k :: k in t ==> t[k] == 0.0
    ensures t == Zeros(KeysFor(lights))
  {
    t := map[];
    for i := 0 to |Modes|
      invariant forall k: Key :: k in t <==> k.mode in Modes[..i] && k.light in lights
      invariant forall k :: k in t ==> t[k] == 0.0
    {
      for j := 0 to |Actions|
        invariant forall k: Key :: k in t <==>
          (k.mode in Modes[..i] && k.light in lights) ||
          (k.mode == Modes[i] && k.action in Actions[..j] && k.light in lights)
        invariant forall k :: k in t ==> t[k] == 0.0
      {
        for n := 0 to |lights|
          invariant forall k: Key :: k in t <==>
            (k.mode in Modes[..i] && k.light in lights) ||
            (k.mode == Modes[i] && k.action in Actions[..j] && k.light in lights) ||
            (k.mode == Modes[i] && k.action == Actions[j] && k.light in lights[..n])
          invariant forall k :: k in t ==> t[k] == 0.0
        {
          assert lights[..n + 1] == lights[..n] + [lights[n]];
          t := t[Key(Modes[i], lights[n], Actions[j]) := 0.0];
        }
        assert lights[..|lights|] == lights;
        assert Actions[..j + 1] == Actions[..j] + [Actions[j]];
      }
      assert Modes[..i + 1] == Modes[..i] + [Modes[i]];
      forall k: Key ensures k.mode == Modes[i] && k.light in lights ==> k.action in Actions {
        assert Actions[Rank(k.action)] == k.action;
      }
    }
    forall k: Key ensures k in t <==> k.light in lights {
      Listed(k.mode, k.light, k.action);
    }
    forall k: Key ensures k in t <==> k in KeysFor(lights) {
      KeysForMembership(lights, k);
    }
  }

  /** The table the source starts from: it iterates over BLACK twice. */
  function InitialTable(): Table
  {
    Zeros(KeysFor([Black, Black]))
  }

  /** The table the initialiser evidently means to build: all three light states. */
  function FullTable(): Table
  {
    Zeros(KeysFor(LightStates))
  }

  /** The initial table holds exactly the eight BLACK keys, all zero. */
  lemma InitialTableKeys()
    ensures InitialTable().Keys == {
      Key(InnerLine, Black, Forward), Key(InnerLine, Black, Backward),
      Key(InnerLine, Black, TurnLeft), Key(InnerLine, Black, TurnRight),
      Key(OuterLine, Black, Forward), Key(OuterLine, Black, Backward),
      Key(OuterLine, Black, TurnLeft), Key(OuterLine, Black, TurnRight)}
    ensures forall k :: k in InitialTable() ==> InitialTable()[k] == 0.0
  {
    forall k: Key ensures k in InitialTable() <==> k.light == Black {
      KeysForMembership([Black, Black], k);
    }
  }

  /** The corrected initial table has an entry for every key, all zero. */
  lemma FullTableIsTotal()
    ensures Total(FullTable())
    ensures forall k :: k in FullTable() ==> FullTable()[k] == 0.0
  {
    forall k: Key ensures k in FullTable() {
      Listed(k.mode, k.light, k.action);
      KeysForMembership(LightStates, k);
    }
  }
}
