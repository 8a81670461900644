# Hash / byte-slice codec of dolt's remote storage client

Dolt's remote chunk-storage client names chunks by content hash. A `hash.Hash`
is a fixed-width byte array. Its width, 20, is taken as given from the
store/hash package, which is not part of this model. On the wire it travels as a raw `[]byte`
holding exactly those bytes in order, with no length prefix and no encoding.
Three operations of the `remotestorage` package convert between the two forms:

- `HashesToSlices` turns a list of hashes into a list of byte slices, position
  by position.
- `HashSetToSlices` enumerates a `hash.HashSet` into a list of hashes and the
  parallel list of their byte slices.
- `ParseByteSlices` rebuilds a set of hashes from a list of byte slices. It also
  returns a map from each hash to an index of the input where its bytes occur.

The model has two modules.

- `StoreHash` (`store_hash.dfy`) models the part of the external hash type that
  the codec uses. `Hash` is a sequence of exactly `ByteLen` = 20 bytes, and
  `byte` is the integers 0..255. `Bytes` is `h[:]`, `New` is the slice-to-hash
  conversion that `ParseByteSlices` performs, and `Zero` is the zero hash.
- `RemoteStorage` (`remote_storage.dfy`) holds the three operations. Each is a
  method whose loop builds its outputs step by step, as the Go code appends to
  slices and inserts into a set and a map. Two specification functions go
  with them. `ToSlices` is the position-wise wire form of a sequence of
  hashes. `ParsedSet` is the set of hashes a sequence of slices spells out.
  Lemmas about these two functions give the round trip, the membership
  characterisation and the size laws.

A Go `HashSet` is a Dafny `set<Hash>`. The index map is a `map<Hash, nat>`. A
nil slice and an empty slice are both the empty sequence, and a nil set and an
empty set are both `{}`. So the "test nil" and "test empty" cases are one case
here.

The contracts below are those the table tests in
`go/libraries/doltcore/remotestorage/utils_test.go` assert.

## Model

| member | source | states |
|---|---|---|
| StoreHash.Bytes | go/libraries/doltcore/remotestorage/utils_test.go:19-26 | the wire form of a hash is its `len(h)` = 20 bytes, in order, with nothing added |
| StoreHash.New | go/libraries/doltcore/remotestorage/utils_test.go:192-197 | a hash parsed from a 20-byte slice has exactly the bytes of that slice |
| StoreHash.Zero | go/libraries/doltcore/remotestorage/utils_test.go:29 | the zero value of `hash.Hash` has all bytes 0 |
| StoreHash.NewBytes | go/libraries/doltcore/remotestorage/utils_test.go:195 | parsing the wire form of a hash gives back that hash |
| StoreHash.BytesNew | go/libraries/doltcore/remotestorage/utils_test.go:195 | the wire form of a parsed hash is the slice it was parsed from |
| StoreHash.BytesInjective | go/libraries/doltcore/remotestorage/utils_test.go:137 | two hashes have equal wire forms if and only if they are equal |
| RemoteStorage.HashesToSlices | go/libraries/doltcore/remotestorage/utils_test.go:16-27 | returns as many slices as it was given hashes; slice i is the bytes of hash i; equals `ToSlices` of the input (empty in, empty out) |
| RemoteStorage.ToSlicesAt | go/libraries/doltcore/remotestorage/utils_test.go:50-61 | the reference wire form `ToSlices` keeps the length and holds the bytes of hash i at position i |
| RemoteStorage.ToSlicesWidth | go/libraries/doltcore/remotestorage/utils_test.go:26 | every wire form of a hash sequence is exactly hash-wide, so it can be parsed back |
| RemoteStorage.ToSlicesDistinct | go/libraries/doltcore/remotestorage/utils_test.go:124-139 | a hash sequence has no duplicates if and only if its wire forms have none |
| RemoteStorage.ZeroHashCase | go/libraries/doltcore/remotestorage/utils_test.go:45-49 | one zero hash gives one slice of 20 zero bytes, and that slice parses back to the set holding only the zero hash |
| RemoteStorage.HashSetToSlices | go/libraries/doltcore/remotestorage/utils_test.go:122-142 | both outputs have the size of the set (0 for an empty set); every output hash is in the set and every set member is output, none twice; slice i is the bytes of hash i |
| RemoteStorage.ParseByteSlices | go/libraries/doltcore/remotestorage/utils_test.go:184-199 | the result set is `ParsedSet` of the input and contains the hash of every input slice; the map's keys are the set; each hash maps to an input index whose slice is that hash's bytes; the set has at most as many hashes as there are slices, and exactly as many, with hash i mapped to i, when the slices are pairwise distinct |
| RemoteStorage.ParsedSetMembers | go/libraries/doltcore/remotestorage/utils_test.go:192-197 | a hash is in the parsed set if and only if some input slice equals its bytes |
| RemoteStorage.ParsedSetAtMost | go/libraries/doltcore/remotestorage/utils_test.go:188 | parsing yields no more hashes than there are slices |
| RemoteStorage.ParsedSetSize | go/libraries/doltcore/remotestorage/utils_test.go:166-190 | pairwise distinct slices parse to exactly as many hashes as there are slices (none for an empty input) |
| RemoteStorage.ParsedSetOfSlices | go/libraries/doltcore/remotestorage/utils_test.go:150-186 | round trip: parsing the wire forms of a sequence of hashes gives exactly the hashes of that sequence |

## Left out

- Random test data (`math/rand` seeded from the clock), the `testing.T` harness and `reflect.DeepEqual`: these are test scaffolding. Plain sequence equality stands in for `DeepEqual`.
- Go's distinction between a nil and an empty result: both are the empty sequence here. So the promise that the result is never nil is only stated as "empty in, empty out".
- The internals of `hash.Hash` and `hash.HashSet` (`Insert`, `Has`, hashing of map keys). That package is not part of this model. A hash is a 20-element byte sequence and a set is a Dafny set.
- RemoteStorage.ParseByteSlices: requires every slice to be exactly 20 bytes wide instead of reporting a malformed-input error. `ParseByteSlices` returns no error value (utils_test.go:186), and every table case passes 20-byte slices (utils_test.go:166-181), so the width is a caller obligation. What happens on a slice of another width is not modelled.
- RemoteStorage.ParseByteSlices: does not say which index is recorded when a hash occurs more than once in the input. The tests never pass duplicates. The modelled loop overwrites the entry, so the last occurrence wins, but the contract promises only "some occurrence".
- RemoteStorage.HashSetToSlices: does not fix the order of the output. Go's map iteration order is unspecified, and the method picks an arbitrary remaining element at each step.
