# Gossip Glomers storage components in Dafny

This project models the sequential state of four storage components from a set
of Maelstrom workload nodes written in Go, and proves properties of them:

- **Transactional key/value store** (`maelstrom-transactions/main.go`, module
  `Transactions`). It has a node-local key/value map and a lock table mapping
  each key to the id of the transaction that holds it (`""` means free).
  `Lock` claims a sorted key list for one transaction in a single pass. At the
  first key whose owner is not empty it resets the keys it already claimed and
  fails. The `txn` handler does four things:
  - builds the key list: every key of the batch, once, ascending;
  - makes one lock attempt;
  - applies the batch in request order, filling read slots and recording a
    last-write-wins replication map, then releases the keys;
  - builds the write-only request it sends to peers.
- **In-memory per-topic append log** (`maelstrom-kafka/storage.go`, module
  `TopicLog`). It maps a topic name to a topic object holding the topic's
  entries and its committed offset. `Append` stores the entry at offset
  `len(data)`. `Poll` returns the suffix from an offset. `Commit` and
  `GetCommitedOffset` overwrite and read a per-topic cursor that defaults to 0.
  The object invariant is that entry `i` of every topic has offset `i`.
- **In-memory key/value double** (`maelstrom-kafka/storage_test.go`, module
  `StorageTest`). It offers read, write and compare-and-swap with the
  `KeyDoesNotExist` and `PreconditionFailed` outcomes. The same module replays
  the file's two tests against the in-memory log.
- **Broadcast message list** (`maelstrom-broadcast/storage.go`, module
  `Broadcast`). An append-only list whose read returns a fresh copy.

State the source updates in place is a class whose methods carry `modifies`
clauses. Examples are the lock table and map of `Storage`, the topic objects,
the map of the double, and the message list. Each such method states its whole
new state in terms of the old one. Pure specification functions describe that
state as a value: `Reach`, `ApplyBatch`, `Appended`, `CommittedTo`,
`AppendAll`. The lemmas beside them prove what the source promises.

## Model

| member | source | states |
|---|---|---|
| `Transactions.Storage.constructor` | maelstrom-transactions/main.go:28-33 | A new store has an empty map and an empty lock table. |
| `Transactions.ClaimReach` | maelstrom-transactions/main.go:38-44 | The result is the first index where the claiming pass finds a non-empty owner, counting keys it claimed earlier in the same pass. It is the list's length when no key blocks. |
| `Transactions.Storage.Lock` | maelstrom-transactions/main.go:35-46 | The attempt succeeds iff the claiming pass gets through every key. On success every listed key is owned by `msgID`. On failure only the keys before the conflict are reset to `""`, so the conflicting key and later keys are untouched, and every key reads the owner it had before. The map never changes. |
| `Transactions.LockSucceedsIff` | maelstrom-transactions/main.go:35-45 | For a non-empty id, the attempt succeeds iff every listed key has an empty owner on entry and no key is listed twice. A key held by the same id still makes it fail. |
| `Transactions.ClaimedWereFree` | maelstrom-transactions/main.go:38-43 | Every key an attempt claimed had an empty owner before the attempt, including a key listed twice. |
| `Transactions.RollbackRestoresOwners` | maelstrom-transactions/main.go:38-52 | Resetting the keys a failed attempt claimed leaves every key of the lock table with its old owner. |
| `Transactions.Storage.UnlockUnsafe` | maelstrom-transactions/main.go:48-52 | Every listed key's owner becomes `""`. Every other owner is unchanged. |
| `Transactions.Storage.Unlock` | maelstrom-transactions/main.go:54-58 | Every listed key is released. No other owner changes and no value changes. |
| `Transactions.Storage.Read` | maelstrom-transactions/main.go:60-65 | The result is `(data[key], true)` for a stored key and `(0, false)` otherwise. |
| `Transactions.Storage.Write` | maelstrom-transactions/main.go:67-71 | Only `key` changes, and it now holds `value`. The lock table is unchanged. |
| `Transactions.SortedElements` | maelstrom-transactions/main.go:92-93 | The result is strictly ascending and holds exactly the elements of the set. |
| `Transactions.LockKeys` | maelstrom-transactions/main.go:88-93 | The key list holds exactly the keys the batch touches. It is strictly ascending, so it has no duplicates. |
| `Transactions.ApplyBatchAnswers` | maelstrom-transactions/main.go:114-131 | Response entry i is request entry i, answered against the map as the first i operations left it. |
| `Transactions.ResponseEchoesRequest` | maelstrom-transactions/main.go:114-131 | The response keeps the request's modes and keys. Writes, and operations of any other mode, are echoed unchanged. |
| `Transactions.ApplyBatchData` | maelstrom-transactions/main.go:116-131 | After the batch, the map is the old map overlaid with the replication map. |
| `Transactions.ReplicationIsLastWrite` | maelstrom-transactions/main.go:115-130 | The replication map's keys are exactly the keys the batch writes. Each holds the value of the batch's last write to it. |
| `Transactions.ReadSeesLatestWrite` | maelstrom-transactions/main.go:116-131 | A read after a write to the same key, with no write to that key between them, is answered with that write's value. |
| `Transactions.ReadOfUnwrittenKey` | maelstrom-transactions/main.go:120-125 | A read of a key no earlier operation writes gets the stored value when the key is present. Otherwise its slot stays as the request gave it. |
| `Transactions.ApplyTxn` | maelstrom-transactions/main.go:114-131 | The handler's loop leaves the response, the replication map and the key/value map exactly as `ApplyBatch` of the old map describes. The lock table is untouched. |
| `Transactions.ReplicationRequest` | maelstrom-transactions/main.go:134-138 | The peer request holds only `"w"` operations, exactly one per key of the replication map, each with that key's value. |
| `Transactions.HandleTxn` | maelstrom-transactions/main.go:86-132 | The key list is the batch's keys, ascending. With a non-empty id, the lock attempt succeeds iff all those keys are free. On failure the map is unchanged and the lock table is logically unchanged. On success the response and map are those of `ApplyBatch`, the request replicates the batch's last writes, and every locked key is released. |
| `TopicLog.AppendFrame` | maelstrom-kafka/storage.go:21-28 | An append adds exactly one entry, at the end of its topic, with the topic's old length as offset. It keeps `data[i].offset == i` for every topic. It changes no committed offset and no other topic. |
| `TopicLog.CommitFrame` | maelstrom-kafka/storage.go:45-51 | A commit sets the topic's committed offset to the given value with no monotonicity check, creating the topic if absent. It changes no entries and no other topic. |
| `TopicLog.SuccessiveAppends` | maelstrom-kafka/storage.go:21-28 | Successive appends to one topic store their values at consecutive offsets starting at the topic's old length. Earlier entries are kept. |
| `TopicLog.AppendOffsetsCountUp` | maelstrom-kafka/storage.go:26-27 | The i-th of successive appends returns the topic's old length plus i, which gives 0, 1, 2, … on a fresh topic. |
| `TopicLog.Topic.constructor` | maelstrom-kafka/storage.go:10-15 | A new topic has committed offset 0 and no entries. |
| `TopicLog.TopicStorage.constructor` | maelstrom-kafka/storage.go:17-19 | The zero-value storage holds no topics. |
| `TopicLog.TopicStorage.LoadOrStore` | maelstrom-kafka/storage.go:22 | It returns the topic stored under the name, or stores and returns a fresh zero topic. No other topic changes. |
| `TopicLog.TopicStorage.Append` | maelstrom-kafka/storage.go:21-28 | It returns the topic's length before the call. The new state is `Appended` of the old one. The invariant `data[i].offset == i` is kept. |
| `TopicLog.TopicStorage.Poll` | maelstrom-kafka/storage.go:30-43 | The result is `data[offset..]` in ascending offset order, with entry j at offset `offset + j`. It is empty for an unknown topic or an offset past the end. State is unchanged. |
| `TopicLog.TopicStorage.Commit` | maelstrom-kafka/storage.go:45-51 | The new state is `CommittedTo` of the old one: the cursor is overwritten and the topic is created if absent. |
| `TopicLog.TopicStorage.GetCommitedOffset` | maelstrom-kafka/storage.go:53-62 | It returns the topic's committed offset, or 0 for an unknown topic. |
| `StorageTest.InMemoryKV.constructor` | maelstrom-kafka/storage_test.go:15-17 | A new store is empty. |
| `StorageTest.InMemoryKV.ReadInt` | maelstrom-kafka/storage_test.go:19-24 | It returns the stored value for a present key, and `(0, KeyDoesNotExist)` for an absent one. State is unchanged. |
| `StorageTest.InMemoryKV.Write` | maelstrom-kafka/storage_test.go:26-29 | It stores the value unconditionally and changes only that key. |
| `StorageTest.InMemoryKV.CompareAndSwap` | maelstrom-kafka/storage_test.go:31-41 | An absent key without create gives `KeyDoesNotExist`. A present key holding a value other than `from` gives `PreconditionFailed`. Both leave the store unchanged. Otherwise the key is set to `to` and nothing else changes; for an absent key with create, `from` is ignored. |
| `StorageTest.CompareAndSwapOutcomes` | maelstrom-kafka/storage_test.go:19-41 | On a fresh store, each compare-and-swap outcome is then observed through `ReadInt`, and so is a write. |
| `StorageTest.AppendPollScenario` | maelstrom-kafka/storage_test.go:43-65 | Two appends to `k1` return 0 and 1. Polling from the first yields `(0,123), (1,321)`. The first append to `k2` returns 0, and polling from it yields `(0,1234)`. |
| `StorageTest.CommitsScenario` | maelstrom-kafka/storage_test.go:67-79 | Committed offsets read back exactly per topic: 1234 for the appended topic `k1`, and 1 for `k2`, which was never appended to. |
| `Broadcast.MessageStorage.constructor` | maelstrom-broadcast/storage.go:5-8 | The zero-value storage holds no messages. |
| `Broadcast.MessageStorage.Store` | maelstrom-broadcast/storage.go:10-14 | The message is appended at the end and earlier messages are unchanged. |
| `Broadcast.MessageStorage.Read` | maelstrom-broadcast/storage.go:16-22 | The result is a newly allocated buffer holding every stored message in insertion order. The list is unchanged. |
| `Broadcast.ReadThenStore` | maelstrom-broadcast/storage.go:16-22 | A later `Store` changes the list but not a buffer returned earlier by `Read`. |

## Left out

- The lock retry loop (maelstrom-transactions/main.go:105-112) sleeps and retries until other goroutines release keys. `HandleTxn` models one attempt and returns `locked == false` where the source would sleep and retry.
- The background replication goroutine (maelstrom-transactions/main.go:134-149) sends the request to every peer over RPC and ignores failures. Only the construction of the request is modelled.
- Mutexes, `sync.Map` and goroutines are left out, and the model is sequential. `Unlock` writes the lock table under a read lock only (maelstrom-transactions/main.go:55-57), which is a data race that a sequential model cannot express.
- `copy(resp, body.Txn)` (maelstrom-transactions/main.go:114) copies only the outer slice. Filling a read slot therefore also writes into the request's inner slice. The model builds the response as a fresh sequence. This makes no difference to the response, because later iterations never read a read operation's third slot.
- JSON decoding, the `float64` type assertions and the replies of every handler are left out. Keys and values are unbounded integers. The source's `int64` and `int` widths never matter, because the modelled code does no arithmetic on them. The only exception is `len(data)`.
- A `"w"` operation without a number in its third slot panics in the source (a type assertion). `ApplyBatch`, `ApplyTxn` and `HandleTxn` require every write to carry a value.
- `TopicLog.TopicStorage.Poll` requires a non-negative offset on a known topic. The source's loop indexes `data[offset]` first, and that panics for a negative offset even when the topic is empty. An unknown topic returns nothing for any offset.
- maelstrom-kafka/main.go and the test file call `NewTopicStorage(kv)` and a two-result `Append`. That KV-backed log variant is not part of this model. `AppendPollScenario` and `CommitsScenario` replay the tests' steps against the in-memory log of maelstrom-kafka/storage.go instead.
- `StorageTest.InMemoryKV`: the double stores values of type `any`, and the model narrows them to `int`. The model therefore leaves out the panic of `ReadInt`'s type assertion on a non-integer value. It also leaves out the way `!=` on interface values treats equal numbers of different dynamic types as different.
- `Transactions.SortedElements` models `slices.Sort(maps.Keys(...))` by its result only: the set's elements, ascending. The sorting algorithm is not modelled.
- maelstrom-counter, maelstrom-echo, maelstrom-unique-ids and the broadcast handler glue are not part of this model: they are message wrappers or retry loops against an external service.
