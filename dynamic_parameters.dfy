/**
 The parameter store of Blazor.SsrButton: a mutable table from string keys
 to untyped values, with insert-or-overwrite, an untyped lookup that answers
 null for a missing key, a non-throwing type-checked lookup, and a snapshot
 copy.

 The module has three layers: the meaning of the lookups on a plain map
 (Get, TryGet), the history of writes that produced a table (Replay,
 IsLastWrite), and the classes that hold the table in place.
 */
module SsrButton {
  import opened ClrValues

  // ---------------------------------------------------------------------
  // Lookups on the table's contents

  /** GetParameter on contents `m`: the stored value, or null when `key`
      is missing. A null answer therefore means "missing or stored null". */
  function Get(m: map<string, Value>, key: string): (r: Value)
    ensures key in m ==> r == m[key]
    ensures r == Null <==> key !in m || m[key] == Null
  {
    if key in m then m[key] else Null
  }

  /** TryGetParameter<T> on contents `m`: `TryGetValue` followed by the
      pattern `obj is T castValue`; on failure the out value is `default(T)`.
      Whatever happens, the out value is one a variable of type `T` can hold. */
  function TryGet(m: map<string, Value>, key: string, t: TypeTag): (r: (bool, Value))
    ensures AssignableTo(r.1, t)
    ensures r.0 ==> IsInstance(r.1, t)
  {
    if key in m && IsInstance(m[key], t) then (true, m[key]) else (false, Default(t))
  }

  /** Get after an insert: the inserted key answers the new value, every
      other key answers what it answered before. */
  lemma GetAfterAdd(m: map<string, Value>, key: string, value: Value, other: string)
    ensures Get(m[key := value], key) == value
    ensures other != key ==> Get(m[key := value], other) == Get(m, other)
  {
  }

  /** Inserting twice under one key leaves only the second value: the
      indexer overwrites and never fails on an existing key. */
  lemma LastWriteWins(m: map<string, Value>, key: string, v1: Value, v2: Value)
    ensures m[key := v1][key := v2] == m[key := v2]
    ensures Get(m[key := v1][key := v2], key) == v2
  {
  }

  /** A missing key and a key stored with null give the same answer to
      every lookup: neither Get nor any TryGet<T> can tell them apart. */
  lemma MissingLooksLikeNull(m: map<string, Value>, key: string, t: TypeTag)
    requires key !in m
    ensures Get(m, key) == Get(m[key := Null], key) == Null
    ensures TryGet(m, key, t) == TryGet(m[key := Null], key, t) == (false, Default(t))
  {
  }

  /** Typed lookup after an insert: success for the value's own type (and
      for `object`), `(false, default(U))` for every incompatible `U`. */
  lemma TryGetAfterAdd(m: map<string, Value>, key: string, value: Value, t: TypeTag)
    ensures TryGet(m[key := value], key, t) ==
            if IsInstance(value, t) then (true, value) else (false, Default(t))
  {
  }

  /** The typed lookup agrees with the untyped one whenever it succeeds,
      and TryGet<object> succeeds exactly when Get answers non-null. */
  lemma TryGetAgreesWithGet(m: map<string, Value>, key: string, t: TypeTag)
    ensures TryGet(m, key, t).0 ==> TryGet(m, key, t).1 == Get(m, key)
    ensures TryGet(m, key, ObjectType).0 <==> Get(m, key) != Null
  {
  }

  // ---------------------------------------------------------------------
  // The history of writes behind a table

  /** One call `AddParameter(key, value)`. */
  datatype Write = Write(key: string, value: Value)

  /** The keys that some write in `ws` names. */
  ghost function WrittenKeys(ws: seq<Write>): set<string> {
    set i | 0 <= i < |ws| :: ws[i].key
  }

  /** The table that results from performing the writes `ws`, in order, on
      a freshly constructed (empty) store. Its keys are exactly the keys
      that were ever written. */
  function Replay(ws: seq<Write>): (m: map<string, Value>)
    ensures m.Keys == WrittenKeys(ws)
  {
    if ws == [] then map[]
    else
      var w := ws[|ws| - 1];
      assert WrittenKeys(ws) == WrittenKeys(ws[..|ws| - 1]) + {w.key} by {
        assert forall i | 0 <= i < |ws| - 1 :: ws[..|ws| - 1][i] == ws[i];
      }
      Replay(ws[..|ws| - 1])[w.key := w.value]
  }

  /** `i` is the last write to `key` in `ws`: it names `key` and no later
      write does. */
  ghost predicate IsLastWrite(ws: seq<Write>, key: string, i: int) {
    && 0 <= i < |ws|
    && ws[i].key == key
    && forall j | i < j < |ws| :: ws[j].key != key
  }

  /** Appending a write to the history is one indexer assignment on the
      table. */
  lemma ReplayAppend(ws: seq<Write>, w: Write)
    ensures Replay(ws + [w]) == Replay(ws)[w.key := w.value]
  {
  }

  /** Last write wins, over any history: the table binds a written key to
      the value of its last write. */
  lemma {:induction false} ReplayIsLastWrite(ws: seq<Write>, key: string, i: int)
    requires IsLastWrite(ws, key, i)
    ensures key in Replay(ws) && Replay(ws)[key] == ws[i].value
  {
    if i < |ws| - 1 {
      var prefix := ws[..|ws| - 1];
      assert IsLastWrite(prefix, key, i);
      ReplayIsLastWrite(prefix, key, i);
    }
  }

  /** Conversely, every key of the table has a last write, which is where
      its value came from. */
  lemma {:induction false} LastWriteOf(ws: seq<Write>, key: string) returns (i: int)
    requires key in Replay(ws)
    ensures IsLastWrite(ws, key, i)
    ensures Replay(ws)[key] == ws[i].value
  {
    var last := |ws| - 1;
    if ws[last].key == key {
      i := last;
    } else {
      var prefix := ws[..last];
      assert key in Replay(prefix);
      i := LastWriteOf(prefix, key);
      assert forall j | 0 <= j < last :: prefix[j] == ws[j];
    }
  }

  /** The typed lookup over any history: it answers from the key's last
      write, `(true, v)` when that value `v` is an instance of `T` and
      `(false, default(T))` when it is not (null included). */
  lemma TryGetAtLastWrite(ws: seq<Write>, key: string, i: int, t: TypeTag)
    requires IsLastWrite(ws, key, i)
    ensures TryGet(Replay(ws), key, t) ==
            if IsInstance(ws[i].value, t) then (true, ws[i].value) else (false, Default(t))
  {
    ReplayIsLastWrite(ws, key, i);
  }

  /** A key that was never written answers `(false, default(T))` for every
      `T`, and null to the untyped lookup. */
  lemma LookupNeverWritten(ws: seq<Write>, key: string, t: TypeTag)
    requires forall i | 0 <= i < |ws| :: ws[i].key != key
    ensures Get(Replay(ws), key) == Null
    ensures TryGet(Replay(ws), key, t) == (false, Default(t))
  {
  }

  /** Overwriting: two writes to one key in a row leave the same table as
      the second write alone. */
  lemma OverwriteForgetsEarlierValue(ws: seq<Write>, key: string, v1: Value, v2: Value)
    ensures Replay(ws + [Write(key, v1), Write(key, v2)]) == Replay(ws + [Write(key, v2)])
  {
    var w1, w2 := Write(key, v1), Write(key, v2);
    assert ws + [w1, w2] == (ws + [w1]) + [w2];
    ReplayAppend(ws + [w1], w2);
    ReplayAppend(ws, w1);
    ReplayAppend(ws, w2);
    LastWriteWins(Replay(ws), key, v1, v2);
  }

  /** Writes to different keys commute: the order of their AddParameter
      calls is not observable. */
  lemma WritesToDistinctKeysCommute(ws: seq<Write>, a: Write, b: Write)
    requires a.key != b.key
    ensures Replay(ws + [a, b]) == Replay(ws + [b, a])
  {
    ReplayAppend(ws, a);
    ReplayAppend(ws + [a], b);
    assert ws + [a] + [b] == ws + [a, b];
    ReplayAppend(ws, b);
    ReplayAppend(ws + [b], a);
    assert ws + [b] + [a] == ws + [b, a];
  }

  // ---------------------------------------------------------------------
  // The objects

  /** A `Dictionary<string, object>`. Of its mutators the model offers only
      the indexer assignment, the one the store itself uses. */
  class Dictionary {
    var entries: map<string, Value>

    /** `new Dictionary<string, object>()` */
    constructor ()
      ensures entries == map[]
    {
      entries := map[];
    }

    /** `new Dictionary<string, object>(source)`: a new table with the
        same entries. */
    constructor Copy(source: Dictionary)
      ensures entries == source.entries
    {
      entries := source.entries;
    }

    /** `this[key] = value`: insert, or overwrite an existing entry. */
    method Set(key: string, value: Value)
      modifies this
      ensures entries == old(entries)[key := value]
    {
      entries := entries[key := value];
    }
  }

  /** The store. Its private, read-only field holds the dictionary; the
      ghost history `writes` records every AddParameter call since
      construction, and the dictionary is always that history replayed. */
  class DynamicParameters {
    const parameters: Dictionary
    ghost var writes: seq<Write>

    ghost predicate Valid()
      reads this, parameters
    {
      parameters.entries == Replay(writes)
    }

    /** The store's current contents. */
    function Contents(): map<string, Value>
      reads this, parameters
    {
      parameters.entries
    }

    /** A new store is empty: no key is present. */
    constructor ()
      ensures Valid() && fresh(parameters)
      ensures writes == [] && Contents() == map[]
      ensures forall key :: key !in Contents()
    {
      parameters := new Dictionary();
      writes := [];
    }

    /** Insert or overwrite the value under `key`; every other entry is
        left as it was. */
    method AddParameter(key: string, value: Value)
      requires Valid()
      modifies this, parameters
      ensures Valid()
      ensures writes == old(writes) + [Write(key, value)]
      ensures Contents() == old(Contents())[key := value]
      ensures forall other | other != key :: Get(Contents(), other) == old(Get(Contents(), other))
    {
      parameters.Set(key, value);
      ReplayAppend(writes, Write(key, value));
      writes := writes + [Write(key, value)];
    }

    /** The value under `key`, or null when it is missing. Read against the
        history: the value of the last AddParameter call for `key`, and null
        when there has been none. */
    method GetParameter(key: string) returns (r: Value)
      requires Valid()
      ensures r == Get(Contents(), key)
      ensures forall i | IsLastWrite(writes, key, i) :: r == writes[i].value
      ensures (forall i | 0 <= i < |writes| :: writes[i].key != key) ==> r == Null
    {
      if key in parameters.entries {
        r := parameters.entries[key];
      } else {
        r := Null;
      }
      forall i | IsLastWrite(writes, key, i)
        ensures r == writes[i].value
      {
        ReplayIsLastWrite(writes, key, i);
      }
    }

    /** The typed lookup: `true` with the stored value exactly when `key` is
        present and its value is a non-null instance of `t`, otherwise
        `false` with `default(T)`. Never fails and changes nothing. */
    method TryGetParameter(key: string, t: TypeTag) returns (found: bool, value: Value)
      requires Valid()
      ensures (found, value) == TryGet(Contents(), key, t)
      ensures found <==> key in Contents() && Contents()[key] != Null && IsInstance(Contents()[key], t)
      ensures found ==> value == Contents()[key]
      ensures !found ==> value == Default(t)
      ensures found <==> exists i | IsLastWrite(writes, key, i) :: IsInstance(writes[i].value, t)
    {
      if key in parameters.entries && IsInstance(parameters.entries[key], t) {
        found, value := true, parameters.entries[key];
        var i := LastWriteOf(writes, key);
      } else {
        found, value := false, Default(t);
        forall i | IsLastWrite(writes, key, i)
          ensures !IsInstance(writes[i].value, t)
        {
          ReplayIsLastWrite(writes, key, i);
        }
      }
    }

    /** A snapshot: a new dictionary, not aliased to the store's, holding
        the current contents. */
    method GetAllParameters() returns (snapshot: Dictionary)
      requires Valid()
      ensures fresh(snapshot)
      ensures snapshot.entries == Contents()
    {
      snapshot := new Dictionary.Copy(parameters);
    }
  }

  /** Snapshot independence in both directions: a later AddParameter does
      not reach a snapshot taken before it, and writing into the snapshot
      does not reach the store. */
  method SnapshotIsIndependent(store: DynamicParameters, k1: string, v1: Value, k2: string, v2: Value)
    returns (snapshot: Dictionary)
    requires store.Valid()
    modifies store, store.parameters
    ensures store.Valid() && fresh(snapshot)
    ensures store.Contents() == old(store.Contents())[k1 := v1]
    ensures snapshot.entries == old(store.Contents())[k2 := v2]
  {
    snapshot := store.GetAllParameters();
    store.AddParameter(k1, v1);
    snapshot.Set(k2, v2);
  }

  /** A store filled with one string parameter, read back in every way. */
  method OneStringParameter() returns (snapshot: Dictionary)
    ensures snapshot.entries == map["name" := Str("Alice")]
  {
    var store := new DynamicParameters();
    store.AddParameter("name", Str("Alice"));
    var v := store.GetParameter("name");
    assert v == Str("Alice");
    var found, n := store.TryGetParameter("name", Int32Type);
    assert !found && n == Int(0);
    found, v := store.TryGetParameter("name", StringType);
    assert found && v == Str("Alice");
    v := store.GetParameter("missing");
    assert v == Null;
    snapshot := store.GetAllParameters();
  }
}
