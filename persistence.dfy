/**
 The in-memory half of saving and loading the Q table: saving replaces the
 action in every key by its name, loading resolves every name back to the
 action and fails on a name that is not an action. Writing the result to a
 file and reading it back are not modelled.
 */
module Persistence {
  import opened Robot
  import opened QTable

  /** A key as it is written: mode, light state and the action's name. */
  type SavedKey = (Mode, LightState, string)

  type SavedTable = map<SavedKey, real>

  datatype Loaded = Loaded(table: Table) | UnknownName(name: string)

  function SavedKeyOf(k: Key): SavedKey
  {
    (k.mode, k.light, Name(k.action))
  }

  /** The table as it is saved: the same entries under named keys. */
  function Encode(t: Table): (s: SavedTable)
    ensures forall k :: k in t ==> SavedKeyOf(k) in s && s[SavedKeyOf(k)] == t[k]
    ensures forall sk :: sk in s ==> ActionNamed(sk.2).Some?
  {
    map k | k in t :: SavedKeyOf(k) := t[k]
  }

  /** Every action name in a saved table resolves to an action. */
  predicate NamesKnown(s: SavedTable)
  {
    forall sk :: sk in s ==> ActionNamed(sk.2).Some?
  }

  function KeyOf(sk: SavedKey): Key
    requires ActionNamed(sk.2).Some?
  {
    Key(sk.0, sk.1, ActionNamed(sk.2).value)
  }

  /** The table a saved table loads as, when all its names are known. */
  function Decode(s: SavedTable): Table
    requires NamesKnown(s)
  {
    map sk | sk in s :: KeyOf(sk) := s[sk]
  }

  /** Loading what was saved gives back the same table. */
  lemma {:induction false} DecodeEncode(t: Table)
    ensures NamesKnown(Encode(t))
    ensures Decode(Encode(t)) == t
  {
    var s := Encode(t);
    forall k ensures k in Decode(s) <==> k in t {
      if k in t {
        NameRoundTrip(k.action);
        assert KeyOf(SavedKeyOf(k)) == k;
      }
      if k in Decode(s) {
        var sk :| sk in s && KeyOf(sk) == k;
        var k0 :| k0 in t && SavedKeyOf(k0) == sk;
        NameRoundTrip(k0.action);
      }
    }
    forall k | k in t ensures Decode(s)[k] == t[k] {
      NameRoundTrip(k.action);
      assert KeyOf(SavedKeyOf(k)) == k;
    }
  }

  /** Saving what was loaded gives back the same saved table. */
  lemma {:induction false} EncodeDecode(s: SavedTable)
    requires NamesKnown(s)
    ensures Encode(Decode(s)) == s
  {
    var t := Decode(s);
    forall sk ensures sk in Encode(t) <==> sk in s {
      if sk in s {
        assert SavedKeyOf(KeyOf(sk)) == sk;
      }
      if sk in Encode(t) {
        var k :| k in t && SavedKeyOf(k) == sk;
        var sk0 :| sk0 in s && KeyOf(sk0) == k;
        assert SavedKeyOf(KeyOf(sk0)) == sk0;
      }
    }
    forall sk | sk in s ensures Encode(t)[sk] == s[sk] {
      assert SavedKeyOf(KeyOf(sk)) == sk;
    }
  }

  /** Saving one more entry adds its named key to the saved table. */
  lemma EncodeInsert(t: Table, rest: set<Key>, k: Key)
    requires k in rest && rest <= t.Keys
    ensures Encode(t - (rest - {k})) == Encode(t - rest)[SavedKeyOf(k) := t[k]]
  {
    var a, b := Encode(t - (rest - {k})), Encode(t - rest)[SavedKeyOf(k) := t[k]];
    forall sk ensures sk in a <==> sk in b {
      if sk in a {
        var k0 :| k0 in t - (rest - {k}) && SavedKeyOf(k0) == sk;
        if k0 != k {
          assert k0 in t - rest;
        }
      }
      if sk in b && sk != SavedKeyOf(k) {
        var k0 :| k0 in t - rest && SavedKeyOf(k0) == sk;
        assert k0 in t - (rest - {k});
      }
    }
    forall sk | sk in a ensures a[sk] == b[sk] {
      var k0 :| k0 in t - (rest - {k}) && SavedKeyOf(k0) == sk;
      NameRoundTrip(k0.action);
      NameRoundTrip(k.action);
    }
  }

  /** Loading one more entry adds its resolved key to the table. */
  lemma DecodeInsert(s: SavedTable, rest: set<SavedKey>, sk: SavedKey)
    requires sk in rest && rest <= s.Keys
    requires NamesKnown(s - rest) && ActionNamed(sk.2).Some?
    ensures NamesKnown(s - (rest - {sk}))
    ensures Decode(s - (rest - {sk})) == Decode(s - rest)[KeyOf(sk) := s[sk]]
  {
    var a, b := Decode(s - (rest - {sk})), Decode(s - rest)[KeyOf(sk) := s[sk]];
    forall k ensures k in a <==> k in b {
      if k in a {
        var sk0 :| sk0 in s - (rest - {sk}) && KeyOf(sk0) == k;
        if sk0 != sk {
          assert sk0 in s - rest;
        }
      }
      if k in b && k != KeyOf(sk) {
        var sk0 :| sk0 in s - rest && KeyOf(sk0) == k;
        assert sk0 in s - (rest - {sk});
      }
    }
    forall k | k in a ensures a[k] == b[k] {
      var sk0 :| sk0 in s - (rest - {sk}) && KeyOf(sk0) == k;
      assert SavedKeyOf(KeyOf(sk0)) == sk0;
      assert SavedKeyOf(KeyOf(sk)) == sk;
    }
  }

  /** save_qtable without the file: build the named-key dictionary entry by entry. */
  method SaveTable(t: Table) returns (s: SavedTable)
    ensures s == Encode(t)
  {
    s := map[];
    var rest := t.Keys;
    while rest != {}
      invariant rest <= t.Keys
      invariant s == Encode(t - rest)
      decreases rest
    {
      var k :| k in rest;
      EncodeInsert(t, rest, k);
      s := s[SavedKeyOf(k) := t[k]];
      rest := rest - {k};
    }
    assert t - {} == t;
  }

  /** load_qtable without the file: resolve every name, failing on an unknown one. */
  method LoadTable(s: SavedTable) returns (r: Loaded)
    ensures r.Loaded? <==> NamesKnown(s)
    ensures r.Loaded? ==> NamesKnown(s) && r.table == Decode(s)
    ensures r.UnknownName? ==> ActionNamed(r.name).None? && exists sk :: sk in s && sk.2 == r.name
  {
    var table: Table := map[];
    var rest := s.Keys;
    while rest != {}
      invariant rest <= s.Keys
      invariant NamesKnown(s - rest)
      invariant table == Decode(s - rest)
      decreases rest
    {
      var sk :| sk in rest;
      var action := ActionNamed(sk.2);
      if action.None? {
        return UnknownName(sk.2);
      }
      DecodeInsert(s, rest, sk);
      table := table[Key(sk.0, sk.1, action.value) := s[sk]];
      rest := rest - {sk};
    }
    assert s - {} == s;
    r := Loaded(table);
  }

  /** A table saved and loaded again comes back whole: same keys, same values. */
  method SaveThenLoad(t: Table) returns (r: Loaded)
    ensures r == Loaded(t)
  {
    var saved := SaveTable(t);
    DecodeEncode(t);
    r := LoadTable(saved);
  }
}
