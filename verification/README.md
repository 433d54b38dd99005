# Identity-placeholder marshalling strategy, modelled in Dafny

This project models `IdentityPlaceholderResolverStrategy` from drools-core. That is the
object-marshalling strategy that records an object by a small integer surrogate key instead
of by its contents, so that an object shared across a persisted session is restored as one
reference.

The strategy keeps two maps:

- `ids`, a `HashMap` from key to object;
- `objects`, an `IdentityHashMap` from object back to key.

The first time an object is presented to `write` or `marshal`, it gets key `ids.size()` and
goes into both maps. Later presentations reuse that key. The key travels as four big-endian
two's-complement bytes. `read` and `unmarshal` decode the key and answer `ids.get(key)`.
`setIds` replaces the forward map wholesale and rebuilds the reverse map from it. `getIds`
returns the forward map.

Files, one module each:

- `wrappers.dfy`: `Option` (a Java reference that may be `null`) and `Result` (an operation that may throw).
- `java_int.dfy`: Java `int` and `byte` as newtypes, with the truncating operators the codec uses.
- `int_codec.dfy`: `intToByteArray` and `byteArrayToInt`, and their round trips in both directions.
- `identity_table.dfy`: the two maps, key allocation, lookup, `setIds`/`getIds`, the table invariant and the collision hazard.
- `placeholder_strategy.dfy`: `write`, `read`, `marshal` and `unmarshal` on byte sequences, plus end-to-end stream properties.

Objects are values of a type parameter `O`. Dafny equality on `O` stands for Java's reference
`==`, which is what the `IdentityHashMap` keys on. Two distinct instances with equal fields
are therefore two different values of `O`. A stream is the sequence of data bytes written to
it or still to be read from it.

The table invariant `Valid` has two parts:

- the keys of `ids` are exactly `0 .. |ids|-1`;
- `objects` is the exact inverse of `ids`.

`setIds` accepts any map. After a map whose keys are not `0 .. n-1`, the next fresh allocation
`ids.size()` can land on a key that is already in use. It overwrites that entry, and the
displaced object's key now reads back as the new object. `SparseAllocationCollides` states
this for any table whose two maps are inverse. `SparseRehydrationLosesObject` shows it on the
map `{1: a}`. `SetIdsValidIff` states exactly which maps leave the table satisfying the
invariant. Those maps are enough to avoid the hazard.

## Model

| member | source | states |
|---|---|---|
| `IdentityTable.Empty` | drools/drools-core/src/main/java/org/drools/core/marshalling/impl/IdentityPlaceholderResolverStrategy.java:44-48 | The constructor's two empty maps satisfy the table invariant. |
| `IdentityTable.AssignOrGet` | drools/drools-core/src/main/java/org/drools/core/marshalling/impl/IdentityPlaceholderResolverStrategy.java:78-83 | After the call the object is recorded under the returned key in `objects`. A first-seen object is also stored under that key in `ids`. |
| `IdentityTable.Size` | drools/drools-core/src/main/java/org/drools/core/marshalling/impl/IdentityPlaceholderResolverStrategy.java:80 | The fresh key `ids.size()` is the number of entries in `ids` whenever that number fits in an `int`. |
| `IdentityTable.Lookup` | drools/drools-core/src/main/java/org/drools/core/marshalling/impl/IdentityPlaceholderResolverStrategy.java:73 | `ids.get(key)` finds an object exactly when the key is in `ids`, and then it is the stored one. On a valid table, the object found is recorded in `objects` under that same key, so `write`/`marshal` would encode it as this key. |
| `IdentityTable.AssignTwice` | drools/drools-core/src/main/java/org/drools/core/marshalling/impl/IdentityPlaceholderResolverStrategy.java:94-95 | An object that already has a key gets that same key back, and both maps stay unchanged. Presenting an object a second time repeats the first answer. |
| `IdentityTable.AssignFresh` | drools/drools-core/src/main/java/org/drools/core/marshalling/impl/IdentityPlaceholderResolverStrategy.java:94-99 | A first-seen object gets key equal to the size of `ids`, and `ids[k] == o` and `objects[o] == k` afterwards. On a dense table, `ids` grows by exactly one entry and every earlier entry of both maps is kept. |
| `IdentityTable.AssignPreservesValid` | drools/drools-core/src/main/java/org/drools/core/marshalling/impl/IdentityPlaceholderResolverStrategy.java:76-85 | `write`/`marshal` preserve the invariant, keep every earlier entry, and return a key that looks up the presented object. Only that object can gain a key. |
| `IdentityTable.SparseAllocationCollides` | drools/drools-core/src/main/java/org/drools/core/marshalling/impl/IdentityPlaceholderResolverStrategy.java:96-98 | When `ids.size()` is already a key, a fresh allocation overwrites that entry and `ids` does not grow. The displaced object's reverse entry then points at a key holding another object, so the maps are no longer inverse. |
| `IdentityTable.AssignAllValid` | drools/drools-core/src/main/java/org/drools/core/marshalling/impl/IdentityPlaceholderResolverStrategy.java:94-100 | Across any run of presentations, the invariant holds after every step. Every returned key still looks up the object it was returned for, and only presented objects gain keys. |
| `IdentityTable.FreshKeysConsecutive` | drools/drools-core/src/main/java/org/drools/core/marshalling/impl/IdentityPlaceholderResolverStrategy.java:94-99 | Distinct, never-seen objects get consecutive keys starting at the table size, in presentation order. |
| `IdentityTable.DistinctObjectsGetSequentialKeys` | drools/drools-core/src/main/java/org/drools/core/marshalling/impl/IdentityPlaceholderResolverStrategy.java:44-48 | Starting from the constructor's tables, N distinct objects get keys 0, 1, …, N-1 in order, and the table stays valid. |
| `IdentityTable.SameKeyIffSameObject` | drools/drools-core/src/main/java/org/drools/core/marshalling/impl/IdentityPlaceholderResolverStrategy.java:76-83 | Two presentations get the same key if and only if they present the same reference. |
| `IdentityTable.Reverse` | drools/drools-core/src/main/java/org/drools/core/marshalling/impl/IdentityPlaceholderResolverStrategy.java:138-140 | Each rebuilt reverse entry names a key in the visited order under which the map holds that object. Every visited entry's object gets a reverse entry. |
| `IdentityTable.SetIds` | drools/drools-core/src/main/java/org/drools/core/marshalling/impl/IdentityPlaceholderResolverStrategy.java:135-141 | After `setIds(m)`, the forward map is `m`. The reverse map's objects are exactly `m`'s values, each pointing to a key of `m` that holds it, so nothing from before survives. |
| `IdentityTable.WithIds` | drools/drools-core/src/main/java/org/drools/core/marshalling/impl/IdentityPlaceholderResolverStrategy.java:55-58 | The map-taking constructor starts with forward map `m`. It satisfies the invariant whenever `m` is dense and injective. |
| `IdentityTable.SetThenGet` | drools/drools-core/src/main/java/org/drools/core/marshalling/impl/IdentityPlaceholderResolverStrategy.java:131-141 | `getIds()` after `setIds(m)` is `m`. Every key looks up `m`'s entry, or nothing when absent. No reverse entry outside `m` remains. |
| `IdentityTable.SetIdsInverse` | drools/drools-core/src/main/java/org/drools/core/marshalling/impl/IdentityPlaceholderResolverStrategy.java:135-141 | For an injective `m`, the rebuilt reverse map is exactly the inverse of `m`. |
| `IdentityTable.SetIdsOrderIrrelevant` | drools/drools-core/src/main/java/org/drools/core/marshalling/impl/IdentityPlaceholderResolverStrategy.java:138-140 | For an injective `m`, the result does not depend on the order in which the HashMap iterates its entries. |
| `IdentityTable.SetIdsValidIff` | drools/drools-core/src/main/java/org/drools/core/marshalling/impl/IdentityPlaceholderResolverStrategy.java:135-141 | After `setIds(m)` the invariant holds if and only if `m`'s keys are 0 up to the size of `m` minus one and no object appears under two keys. |
| `IdentityTable.GetIds` | drools/drools-core/src/main/java/org/drools/core/marshalling/impl/IdentityPlaceholderResolverStrategy.java:131-133 | On a valid table, the map `getIds()` returns has keys exactly `0 .. n-1` and no object under two keys, so it is a map `setIds` accepts without the collision hazard. |
| `IdentityTable.RestoreFromGetIds` | drools/drools-core/src/main/java/org/drools/core/marshalling/impl/IdentityPlaceholderResolverStrategy.java:55-58 | Handing `getIds()` of a valid table to the map-taking constructor rebuilds that very table, both maps included, whatever the HashMap's iteration order. |
| `IntCodec.IntToByteArray` | drools/drools-core/src/main/java/org/drools/core/marshalling/impl/IdentityPlaceholderResolverStrategy.java:111-117 | The encoding of an `int` is always exactly four bytes. |
| `IntCodec.IntToByteArrayIsBigEndian` | drools/drools-core/src/main/java/org/drools/core/marshalling/impl/IdentityPlaceholderResolverStrategy.java:111-117 | The four bytes, most significant first, are the base-256 digits of the value's 32-bit two's-complement pattern. This is the `DataOutput.writeInt` layout. |
| `IntCodec.ByteArrayToInt` | drools/drools-core/src/main/java/org/drools/core/marshalling/impl/IdentityPlaceholderResolverStrategy.java:119-124 | Decoding fails with an index error exactly when fewer than four bytes are given. Otherwise the wrapping sum equals the big-endian reading of the first four bytes. |
| `IntCodec.DecodeEncode` | drools/drools-core/src/main/java/org/drools/core/marshalling/impl/IdentityPlaceholderResolverStrategy.java:111-124 | `byteArrayToInt(intToByteArray(v)) == v` for every 32-bit `v`. |
| `IntCodec.EncodeDecode` | drools/drools-core/src/main/java/org/drools/core/marshalling/impl/IdentityPlaceholderResolverStrategy.java:111-124 | Re-encoding a decoded array gives back its first four bytes, so the codec is a bijection. |
| `IntCodec.DecodeIgnoresTrailing` | drools/drools-core/src/main/java/org/drools/core/marshalling/impl/IdentityPlaceholderResolverStrategy.java:119-124 | Bytes past the fourth do not affect the decoded key. |
| `IntCodec.BoundaryEncodings` | drools/drools-core/src/main/java/org/drools/core/marshalling/impl/IdentityPlaceholderResolverStrategy.java:111-117 | The exact bytes for 0, 1, 255, 65535, -1, 2^31-1 and -2^31. |
| `PlaceholderStrategy.Write` | drools/drools-core/src/main/java/org/drools/core/marshalling/impl/IdentityPlaceholderResolverStrategy.java:76-85 | `write` appends exactly four bytes to the stream and leaves what was already written intact. The object ends up with a key. |
| `PlaceholderStrategy.Read` | drools/drools-core/src/main/java/org/drools/core/marshalling/impl/IdentityPlaceholderResolverStrategy.java:70-74 | `read` fails with end-of-stream exactly when fewer than four bytes remain. Otherwise it consumes exactly four. |
| `PlaceholderStrategy.Marshal` | drools/drools-core/src/main/java/org/drools/core/marshalling/impl/IdentityPlaceholderResolverStrategy.java:91-101 | `marshal` returns four bytes that decode to the key the object now has. |
| `PlaceholderStrategy.Unmarshal` | drools/drools-core/src/main/java/org/drools/core/marshalling/impl/IdentityPlaceholderResolverStrategy.java:103-109 | `unmarshal` fails exactly when the array is shorter than four bytes. |
| `PlaceholderStrategy.WriteIsMarshal` | drools/drools-core/src/main/java/org/drools/core/marshalling/impl/IdentityPlaceholderResolverStrategy.java:76-101 | `write` and `marshal` allocate identically, and `write` appends the bytes `marshal` returns. |
| `PlaceholderStrategy.MarshalUnmarshal` | drools/drools-core/src/main/java/org/drools/core/marshalling/impl/IdentityPlaceholderResolverStrategy.java:91-109 | On a valid table, `unmarshal(marshal(o))` returns `o` itself, whatever context, stream, type name or class loader is passed. |
| `PlaceholderStrategy.MarshalIgnoresArguments` | drools/drools-core/src/main/java/org/drools/core/marshalling/impl/IdentityPlaceholderResolverStrategy.java:91-101 | `marshal`'s result depends only on the table and the object, not on the context or the stream. |
| `PlaceholderStrategy.UnmarshalIgnoresArguments` | drools/drools-core/src/main/java/org/drools/core/marshalling/impl/IdentityPlaceholderResolverStrategy.java:103-109 | `unmarshal`'s result depends only on the table and the bytes. |
| `PlaceholderStrategy.UnmarshalOutcomes` | drools/drools-core/src/main/java/org/drools/core/marshalling/impl/IdentityPlaceholderResolverStrategy.java:103-109 | A short array is an index error. A key not in `ids` yields `null` with no error. Bytes past the fourth are ignored. |
| `PlaceholderStrategy.UnmarshalEncoded` | drools/drools-core/src/main/java/org/drools/core/marshalling/impl/IdentityPlaceholderResolverStrategy.java:103-109 | `unmarshal` of the four-byte encoding of any key is `ids.get` of that key, on any table, including one restored by `setIds` or the map-taking constructor. |
| `PlaceholderStrategy.ReadMissingKey` | drools/drools-core/src/main/java/org/drools/core/marshalling/impl/IdentityPlaceholderResolverStrategy.java:70-74 | Reading a key that is not in `ids` yields `null` and consumes its four bytes, with no error. |
| `PlaceholderStrategy.WriteAllTable` | drools/drools-core/src/main/java/org/drools/core/marshalling/impl/IdentityPlaceholderResolverStrategy.java:76-83 | A run of `write`s leaves the same table as presenting the objects in turn. |
| `PlaceholderStrategy.WriteAllEncodesKeys` | drools/drools-core/src/main/java/org/drools/core/marshalling/impl/IdentityPlaceholderResolverStrategy.java:76-85 | A run of `write`s appends exactly the concatenated encodings of the assigned keys. |
| `PlaceholderStrategy.ReadAllDecodesKeys` | drools/drools-core/src/main/java/org/drools/core/marshalling/impl/IdentityPlaceholderResolverStrategy.java:70-74 | Reading a stream of encoded keys to its end looks up each key in turn. |
| `PlaceholderStrategy.WriteThenRead` | drools/drools-core/src/main/java/org/drools/core/marshalling/impl/IdentityPlaceholderResolverStrategy.java:70-85 | Writing a run of objects and reading the stream back in the same order gives the very same references, repeats included. |
| `PlaceholderStrategy.SharedReferenceScenario` | drools/drools-core/src/main/java/org/drools/core/marshalling/impl/IdentityPlaceholderResolverStrategy.java:70-85 | Writing `a, b, a` gives keys `0, 1, 0` and the corresponding bytes. The table rehydrated from `{0: a, 1: b}` equals the one the writes built, and it reads the stream back as `a, b, a`. |
| `PlaceholderStrategy.SparseRehydrationLosesObject` | drools/drools-core/src/main/java/org/drools/core/marshalling/impl/IdentityPlaceholderResolverStrategy.java:94-99 | After `setIds({1: a})`, marshalling a new `b` takes key 1. `a` still marshals to key 1, and that key unmarshals to `b`. |

## Left out

- `toString`: the class does not declare one and inherits `Object.toString`, which is not modelled.
- `JavaSerializableResolverStrategy`: it only delegates to Java object serialization and class loading, and has no logic of its own to state.
- `marshalToJson` and `unmarshalFromJson`: these are calls into the Jackson `ObjectMapper` and the thread's context class loader, which are foreign code.
- `accept`: it only delegates to the injected acceptor, which is an external predicate.
- `getName`, the constructors that take a name, and `createContext` (returns `null`): they have no behaviour beyond storing or returning a constant.
- Streams are byte sequences. `ObjectOutputStream`'s block-data framing and `IOException` are not modelled, and `readInt` reads the same four-byte layout as `byteArrayToInt`.
- A `null` byte array passed to `unmarshal` (a `NullPointerException`) is not modelled, because Dafny sequences are never null.
- The model keeps a stored `null` object distinct from a missing key (`Some(null)` against `None`). Java returns `null` for both.
- Maps `setIds` and the map-taking constructor accept but the model cannot express are not modelled. A map with a `null` key makes `objects` record an object under `null`, so a later `write` of that object allocates it a second key. A `null` map throws a `NullPointerException` after `ids` has already been replaced and `objects` cleared. An unmodifiable map (such as `Map.of`) makes the next fresh allocation's `ids.put` throw `UnsupportedOperationException`. Keys here are `Int32` values and maps are Dafny values, which are never null or read-only.
- `setIds` stores the caller's map by reference, and `getIds` hands out the live map. Mutation through that alias, and concurrent use, are not modelled.
- `IdentityTable.SetIds`: HashMap's iteration order is a parameter (`order`, any duplicate-free listing of the keys). The contract does not say which key wins when an object appears under several keys; for injective maps the order provably does not matter.
- `IdentityTable.Size`: `ids.size()` is taken as HashMap's `int` counter, wrapped to 32 bits. The allocation lemmas require fewer than 2^31 entries, so that fresh keys stay non-negative.

`read` and `unmarshal` return `null` for a key that was never assigned (`ids.get` on a
missing key); `UnmarshalOutcomes` and `ReadMissingKey` state this.
