# RakNet utilities and server description, modelled in Dafny

This project models two parts of a Rust RakNet implementation.

- `util`:
  - `SafeGenerator<T>` is an unsigned counter. It starts at the type's default, 0. `next` increments it with wrap-around and returns the new value. `get` reads the value.
  - `CacheStore<K, V>` is a table from a key to `(time first added, list of buffers)`. It supports `add`, `add_bulk`, `flush`, `flush_key` and `has`.
- `protocol`:
  - `Motd` is the server description.
  - `Motd::default` gives its default values.
  - `Motd::encode` writes twelve fields in a fixed order, each followed by `;`.

Files:

- `util.dfy` (module `Util`):
  - `SafeGenerator` is a class with a `width` and a `sequence` field below `2^width`. It is instantiated at U8, U16, U32, U64, U128 or Usize.
  - `CacheStore` is a class over a `map<K, Entry<V>>`.
  - Beside them are the pure specifications `WrappingAdd`, `Advanced`, `AddedBulk` and `Entries`, with lemmas about them.
- `decimal.dfy` (module `Decimal`): Rust's `to_string` for integers (`FromNat`, `FromInt`), and a reader (`Value`, `ParseInt`) that it is proved against.
- `protocol.dfy` (module `Protocol`):
  - `Motd` is a datatype.
  - `Fields` gives the twelve wire fields and `Joined` joins them.
  - `Encode` is the loop `encode` runs, proved equal to `Joined(Fields(m))`.
  - The lemmas cover the frame of the string, splitting it on `;`, the numeric fields and the fields of the default description.
- `wrappers.dfy` (module `Wrappers`): the `Option` type that `flush_key` and the decimal reader return.

The clock is a parameter. `SystemTime::now()` becomes an argument `now: Time` of `Add` and `AddBulk`.

`SERVER_ID` is declared as a constant with no value, so every property holds whatever its value is. It is defined outside the modelled files.

`encode` writes the crate-wide `SERVER_ID` as the seventh field, never the Motd's own `server_id` (src/protocol/mod.rs:40). `EncodedIgnoresServerId` states this.

## Model

| member | source | states |
|---|---|---|
| `Util.SafeGenerator.constructor` | src/util/mod.rs:14-16 | a new counter holds 0, the default of every unsigned type, and satisfies the range invariant |
| `Util.SafeGenerator.Next` | src/util/mod.rs:22-25 | the counter becomes `(old + 1) mod 2^w` and the returned value is exactly the new counter, so a `get` right after returns it |
| `Util.SafeGenerator.Get` | src/util/mod.rs:27-29 | reads the counter without changing state; the value is below `2^w` |
| `Util.WrappingAdd` | src/util/mod.rs:23 | `wrapping_add` gives a value below `2^w`: the plain sum when it fits, the sum minus `2^w` when it overflows |
| `Util.NextWrapsAtMax` | src/util/mod.rs:23 | incrementing the type's maximum gives 0 instead of failing |
| `Util.AdvancedFromZero` | src/util/mod.rs:22-25 | `k` increments from a fresh counter give `k mod 2^w` |
| `Util.FirstNextIsOne` | src/util/mod.rs:14-25 | the first `next` on a fresh counter returns 1, not 0 |
| `Util.ModulusValues` | src/util/mod.rs:34-39 | the six instantiations wrap at 2^8, 2^16, 2^32, 2^64, 2^128 and, for usize, 2^64 |
| `Util.CacheStore.constructor` | src/util/mod.rs:68-72 | a new store is empty |
| `Util.AddedBulk` | src/util/mod.rs:74-88 | after an insert-or-append, the table's keys are the old keys plus `key`; every other key keeps its entry; an existing key keeps its timestamp and gets the buffers appended; a new key gets `(now, buffers)` |
| `Util.CacheStore.Add` | src/util/mod.rs:74-80 | `add` changes the store to `AddedBulk(old store, key, now, [buffer])` |
| `Util.CacheStore.AddBulk` | src/util/mod.rs:82-88 | `add_bulk` changes the store to `AddedBulk(old store, key, now, buffers)`: buffers appended in order, `now` stamped only on a new key |
| `Util.AddIsSingletonBulk` | src/util/mod.rs:74-80 | `add` on an absent key creates `(now, [b])`; on a present key it appends `b` and keeps the timestamp |
| `Util.AddedBulkTwice` | src/util/mod.rs:82-88 | two bulk additions to one key equal one addition of the concatenated lists; the first call's timestamp is kept |
| `Util.CacheStore.Flush` | src/util/mod.rs:91-97 | the store ends empty; the returned multiset of `(key, time, buffers)` triples is exactly the old store's entries, one per key, in no stated order |
| `Util.EntriesRemove` | src/util/mod.rs:93-94 | draining one key moves exactly that key's triple out of the remaining entries |
| `Util.EntriesCard` | src/util/mod.rs:91-97 | a table has exactly as many entries as keys, so a flush returns one triple per key |
| `Util.EntriesDetermine` | src/util/mod.rs:91-97 | two tables with the same flushed entries are equal, so a flush loses no information |
| `Util.CacheStore.FlushKey` | src/util/mod.rs:99-101 | returns `Some(entry)` exactly when the key was present, with that key's old entry; afterwards the key is gone and every other key is unchanged |
| `Util.AddThenRemove` | src/util/mod.rs:74-101 | adding under a key and then removing that key leaves every other key as before |
| `Util.CacheStore.Has` | src/util/mod.rs:103-105 | true exactly when some entry that a flush would return carries the key |
| `Util.EntriesKeys` | src/util/mod.rs:103-105 | a key is in the table exactly when an entry triple carries it |
| `Protocol.DefaultMotd` | src/protocol/mod.rs:23-33 | the default description has name "Netrex Server", protocol 448, version "1.17.10", 10 of 100 players, gamemode "Creative" and `server_id` equal to `SERVER_ID` |
| `Protocol.Fields` | src/protocol/mod.rs:37-54 | the `props` vector holds twelve fields, and the protocol and player-count fields are canonical decimal digit strings |
| `Protocol.Encode` | src/protocol/mod.rs:35-62 | the loop builds exactly the twelve fields in wire order, each followed by `;` |
| `Protocol.JoinedConcat` | src/protocol/mod.rs:56-59 | writing field lists one after another equals writing their concatenation |
| `Protocol.SplitJoined` | src/protocol/mod.rs:56-59 | if no field contains `;`, the output has one `;` per field, and splitting it on `;` gives back the fields plus one empty trailing piece |
| `Protocol.EncodedSplits` | src/protocol/mod.rs:41-59 | if name, version and gamemode contain no `;`, the encoding has exactly 12 `;`, and splitting it gives the 12 fields and an empty tail |
| `Protocol.EncodedFrame` | src/protocol/mod.rs:41-59 | every encoding starts with `MCPE;` and ends with `19132;19133;` |
| `Protocol.EncodedIgnoresServerId` | src/protocol/mod.rs:40-48 | two Motds that differ only in `server_id` encode identically; the seventh field renders `SERVER_ID` |
| `Protocol.NumericFieldsDecode` | src/protocol/mod.rs:37-47 | the protocol and player-count fields are canonical digit strings whose value is the Motd's number; the server-id field parses back to `SERVER_ID` |
| `Protocol.DefaultFields` | src/protocol/mod.rs:23-33 | the default Motd's wire fields are `MCPE`, `Netrex Server`, `448`, `1.17.10`, `10`, `100`, the rendering of `SERVER_ID`, `Netrex`, `Creative`, `1`, `19132`, `19133` |
| `Decimal.FromNat` | src/protocol/mod.rs:37-39 | an unsigned `to_string` is a non-empty digit string with no leading zero whose value is the number |
| `Decimal.FromInt` | src/protocol/mod.rs:40 | a signed `to_string` is the digit rendering, with a leading `-` followed by a non-zero canonical magnitude for negative values |
| `Decimal.FromNatOfValue` | src/protocol/mod.rs:37-39 | every canonical digit string is the rendering of its own value, so rendering and reading are inverse |
| `Decimal.ParseOfFromInt` | src/protocol/mod.rs:40 | reading a signed rendering gives back the number |

## Left out

- `to_address_token` and `from_address_token` (src/util/mod.rs:108-120) are not modelled. They depend on `SocketAddr` formatting and on name resolution through `to_socket_addrs`. Both belong to the standard library's networking, and the second does I/O.
- `SystemTime::now()` (src/util/mod.rs:78, 86) is not modelled. The caller passes the stamp as `now`, and a time is a natural number.
- Util.CacheStore.Flush: states only the multiset of returned entries, not their order, because the source returns them in hash-iteration order (src/util/mod.rs:93).
- `usize` is taken to be 64 bits wide. The real width depends on the target platform.
- The generator's type parameter `T` becomes a runtime `Width` value. The model therefore has one counter class for all six widths, not one type per width.
- The value of `SERVER_ID` is not modelled. It is defined outside the modelled files, so it is an unspecified `i64` constant.
- The `Packet` struct (src/protocol/mod.rs:6-9) is not modelled. It only carries bytes and an id and has no behaviour.
- The derived `Clone` and `Debug` implementations are not modelled.
- src/lib.rs is not modelled. It holds only module declarations.
- The `connection`, `server`, `client`, `protocol::offline`, `protocol::online`, `notify` and `util::debug` modules are not part of this model.
