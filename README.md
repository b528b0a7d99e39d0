# DynamicParameters, modelled in Dafny

Blazor.SsrButton's `DynamicParameters` is a keyed parameter bag handed to a
rendering component: a private, read-only `Dictionary<string, object>` with
four operations. `AddParameter` inserts or overwrites. `GetParameter` is an
untyped lookup that answers `null` for a missing key. `TryGetParameter<T>`
is a non-throwing lookup guarded by the pattern `obj is T`. `GetAllParameters`
returns a copy of the dictionary.

The model has two files:

- `values.dfy`, module `ClrValues`: what an `object` slot can hold (`Value`:
  null, a string, a boxed `int`, `long` or `bool`, or a reference to an
  instance of some other class), the type arguments a typed lookup can be
  asked for (`TypeTag`), the `is T` test (`IsInstance`) and `default(T)`
  (`Default`).
- `dynamic_parameters.dfy`, module `SsrButton`:
  - the meaning of both lookups on a plain map (`Get`, `TryGet`);
  - the history of `AddParameter` calls behind a table (`Replay`,
    `IsLastWrite`). This gives last-write-wins an independent definition:
    the value of the last write to the key;
  - the classes. `Dictionary` holds `entries: map<string, Value>` and is
    changed only by its indexer assignment `Set`. `DynamicParameters` holds
    the dictionary in a `const` field. Its ghost `writes` history satisfies
    `Valid()`: the dictionary equals the history replayed.

`GetAllParameters` returns a `fresh` `Dictionary`, so whether a snapshot
shares state with the store is part of the model. The two tables share no
bindings: an insert into either one does not reach the other
(`SnapshotIsIndependent`). The copy is shallow, though. A stored reference
`Ref(id)` points to the same object in both tables, and that object's own
state is outside the model (see the line on reference identity under
"## Left out").

`obj is T` is false for `null`. So a key stored with `null` fails every
`TryGetParameter<T>`, `object` included, and the model has `IsInstance(Null, t)`
false for every `t`. As a result, a missing key and a key stored with `null`
cannot be told apart by any lookup (`MissingLooksLikeNull`). Only a snapshot
shows the difference.

## Model

| member | source | states |
|---|---|---|
| `ClrValues.IsInstance` | Blazor.SsrButton/DynamicParameters.cs:24 | the pattern `obj is T`: false for null; true for a value of the tag's own runtime type, or for any non-null value when `T` is `object`; unboxing is exact. Its contract states that an instance is never null and that every non-null value is an `object` |
| `ClrValues.AssignableTo` | Blazor.SsrButton/DynamicParameters.cs:22 | what the `out T value` variable can hold: every instance of `T`, and null only when `T` is a reference type (a value-type variable never holds null) |
| `ClrValues.Default` | Blazor.SsrButton/DynamicParameters.cs:29 | `default(T)` is null exactly for the reference types `string` and `object`; for a value type it is an instance of that type; either way a variable of type `T` can hold it |
| `ClrValues.IsInstanceCharacterised` | Blazor.SsrButton/DynamicParameters.cs:24 | `obj is T` is false for null for every `T`; every non-null value is an `object`; a value is an instance of at most one tag besides `object` |
| `SsrButton.Get` | Blazor.SsrButton/DynamicParameters.cs:17-20 | the definition both lookups are stated against: the stored value when the key is present; a null answer means exactly that the key is missing or stored with null |
| `SsrButton.TryGet` | Blazor.SsrButton/DynamicParameters.cs:22-31 | the typed lookup's out value can always be held by a variable of type `T`, and on success it is a non-null instance of `T` |
| `SsrButton.GetAfterAdd` | Blazor.SsrButton/DynamicParameters.cs:12-20 | after inserting `value` under `key`, `Get` of `key` answers `value` and `Get` of any other key answers what it answered before |
| `SsrButton.LastWriteWins` | Blazor.SsrButton/DynamicParameters.cs:14 | two inserts under one key leave the same table as the second insert alone; the key then answers the second value |
| `SsrButton.MissingLooksLikeNull` | Blazor.SsrButton/DynamicParameters.cs:17-31 | a missing key and a key stored with null give the same answer to `Get` (null) and to every `TryGet<T>` (`false`, `default(T)`) |
| `SsrButton.TryGetAfterAdd` | Blazor.SsrButton/DynamicParameters.cs:12-31 | after inserting `value` under `key`, `TryGet<T>` of `key` answers `(true, value)` when `value is T` and `(false, default(T))` otherwise |
| `SsrButton.TryGetAgreesWithGet` | Blazor.SsrButton/DynamicParameters.cs:17-31 | a successful typed lookup returns what the untyped lookup returns; `TryGet<object>` succeeds exactly when `Get` answers non-null |
| `SsrButton.Replay` | Blazor.SsrButton/DynamicParameters.cs:7-15 | the table produced by a sequence of inserts on a new store has as keys exactly the keys that were written |
| `SsrButton.ReplayAppend` | Blazor.SsrButton/DynamicParameters.cs:14 | one more insert in the history is one indexer assignment on the table |
| `SsrButton.ReplayIsLastWrite` | Blazor.SsrButton/DynamicParameters.cs:12-15 | over any history of inserts, a key is present and bound to the value of its last insert |
| `SsrButton.LastWriteOf` | Blazor.SsrButton/DynamicParameters.cs:12-15 | conversely, every present key has a last insert in the history, and its value came from that insert |
| `SsrButton.TryGetAtLastWrite` | Blazor.SsrButton/DynamicParameters.cs:12-31 | over any history of inserts, the typed lookup of a written key answers `(true, v)` when the value `v` of its last insert is of type `T`, and `(false, default(T))` otherwise |
| `SsrButton.LookupNeverWritten` | Blazor.SsrButton/DynamicParameters.cs:17-31 | a key never inserted answers null to `Get` and `(false, default(T))` to every typed lookup |
| `SsrButton.OverwriteForgetsEarlierValue` | Blazor.SsrButton/DynamicParameters.cs:14 | over any history, two inserts under one key in a row leave the same table as the second alone |
| `SsrButton.WritesToDistinctKeysCommute` | Blazor.SsrButton/DynamicParameters.cs:14 | inserts under different keys commute: their order cannot be observed |
| `SsrButton.Dictionary.constructor` | Blazor.SsrButton/DynamicParameters.cs:9 | a new dictionary has no entries |
| `SsrButton.Dictionary.Copy` | Blazor.SsrButton/DynamicParameters.cs:35 | the copy constructor gives a new dictionary with the source's entries |
| `SsrButton.Dictionary.Set` | Blazor.SsrButton/DynamicParameters.cs:14 | the indexer assignment inserts or overwrites one entry and leaves the rest |
| `SsrButton.DynamicParameters.constructor` | Blazor.SsrButton/DynamicParameters.cs:7-10 | a new store owns a fresh, empty dictionary and an empty history: every key is absent |
| `SsrButton.DynamicParameters.AddParameter` | Blazor.SsrButton/DynamicParameters.cs:12-15 | the contents become the old contents with `key` bound to `value`; every other key answers as before; the history grows by this write; the invariant is kept |
| `SsrButton.DynamicParameters.GetParameter` | Blazor.SsrButton/DynamicParameters.cs:17-20 | answers the stored value or null when the key is missing; against the history, the value of the key's last insert, and null when it was never inserted; changes nothing |
| `SsrButton.DynamicParameters.TryGetParameter` | Blazor.SsrButton/DynamicParameters.cs:22-31 | `true` with the stored value exactly when the key is present with a non-null value of type `T` (against the history: the key's last insert is of type `T`); otherwise `false` with `default(T)`; never fails, changes nothing |
| `SsrButton.DynamicParameters.GetAllParameters` | Blazor.SsrButton/DynamicParameters.cs:33-36 | returns a newly allocated dictionary, so not the store's own, holding exactly the current contents; changes nothing |
| `SsrButton.SnapshotIsIndependent` | Blazor.SsrButton/DynamicParameters.cs:33-36 | after taking a snapshot, inserting into the store and then into the snapshot, each has only its own insert: neither reaches the other |
| `SsrButton.OneStringParameter` | Blazor.SsrButton/DynamicParameters.cs:7-36 | storing the string "Alice" under "name": `Get` answers it, `TryGet<int>` answers `(false, 0)`, `TryGet<string>` answers `(true, "Alice")`, a missing key answers null, and the snapshot is the one-entry table |

## Left out

- A `null` key: `Dictionary` throws `ArgumentNullException` for one. Keys are Dafny strings, which cannot be null, so the model has no such path.
- The full CLR `is T` relation: inheritance, interfaces, nullable value types and user-defined classes as type arguments. The model has a closed set of value shapes and type tags. A boxed value is an instance of its own tag and of `object` only.
- Floating-point and other primitive types as stored values: they would add tags of the same kind and nothing new about the store.
- Dictionary enumeration order: a map has none, and the store promises none.
- Concurrent use: the class has no locking, and the model is single-threaded.
- The Blazor component that consumes the store: it is not part of this model.
- Reference identity of stored objects beyond the `Ref(id)` shape: stored values are compared as values, with a reference standing for its identity. The state of a referenced object is not modelled, so a change made to a mutable object through a snapshot, which the shallow copy shares with the store, is not captured.
- The dictionary mutators other than the indexer (`Add`, `TryAdd`, `Remove`, `Clear`), which a caller of `GetAllParameters` may use on the snapshot: the model offers only `Set`. Each would change only the snapshot, for the same reason `Set` does (the snapshot is freshly allocated and such a method modifies only its own object).
- UTF-16 strings: C# keys and string values are UTF-16 sequences that may hold lone surrogates, while a Dafny `string` is a sequence of Unicode scalar values. Such strings cannot be represented; ordinal comparison of keys is kept.
