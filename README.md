# Batch address aggregation of the bithyve wrapper, modelled in Dafny

The wrapper sits in front of a single-address blockchain indexer (electrs).
A client posts a list of addresses. The wrapper removes repeated
addresses, queries the indexer once per address, and merges the answers.
This project models the two sequential parts of `endpoints.go` in Dafny
and proves their properties:

- **Address filtering** (the end of `checkReq`). A single loop with a
  membership map keeps the first occurrence of every address, in request
  order. `Dedup.RemoveDuplicates` is that loop. `Dedup.Dedup` is its
  reference definition. The lemmas prove four things about the filter:
  - the output has no repeats;
  - it holds the same addresses as the input;
  - it is a subsequence of the input, ordered by first occurrence;
  - it is the only sequence with those properties, and filtering twice
    gives the same result as filtering once.
- **Per-address transaction results** (`multiAddr`). The method allocates
  one zero slot per address and takes one chain-height snapshot. A failed
  snapshot returns the error. Otherwise the method writes the address into
  each slot and runs that slot's task. A task fetches the address's
  transactions. If the fetch succeeds, the task stores the list and its
  length, then scores every transaction against the snapshot in place:
  height minus block height if confirmed, 0 if not. Finally it stores the
  two counts from `GetBalanceCount`.
  - In the source every task is a goroutine that writes only its own slot.
    The model fills the slots one after another.
    `MultiAddr.CompletionOrderIrrelevant` proves that any completion order
    in which every task runs leaves the same slots.
- **The `/data` handler** (`MultiData`) combines the two: filter, then
  assemble. It is modelled without its HTTP shell.

The upstream calls are parameters of the model:
- the height snapshot is a `Result` value, passed once;
- `GetTxsAddress` and `GetBalanceCount` are total functions, held in the
  `Indexer` datatype.

Heights and counts are unbounded `int`s.

The intended behaviour of a batch endpoint differs from the code in some
places: a deadline, a list of per-address errors, and no upstream call
at all for an empty request. The model follows the code on these points:
- there is no deadline and no per-address error list;
- a failed fetch is only logged, and its slot stays empty;
- `multiAddr` returns its zero-filled slots together with the snapshot
  error;
- an empty request still takes the height snapshot (endpoints.go:62). So
  `/data` on an empty list fails when that call fails: `MultiData`
  returns an error exactly when the snapshot is an error, for every
  request, the empty one included.

The intended behaviour also includes a real join on all tasks, which the
code does not have. For the join the model gives both sides. `MultiAddr` states the slots
once every task has finished. `SleepReturnsUnfinishedSlot` states what
the code's return after a fixed 100 ms yields when a task is still
running (see "## Findings").

## Model

| member | source | states |
|---|---|---|
| Dedup.Dedup | endpoints.go:44-55 | the filtered list has no repeats, holds exactly the addresses of the request, and is no longer than it |
| Dedup.RemoveDuplicates | endpoints.go:45-53 | the map-tracking loop returns the reference filter's result, which has no repeats, holds the request's addresses, is ordered by first occurrence and is a subsequence of the request |
| Dedup.DedupFirstSeenOrder | endpoints.go:48-53 | the kept addresses appear in strictly increasing order of their first position in the request |
| Dedup.DedupIsSubsequence | endpoints.go:48-53 | the kept list is obtained from the request by deleting elements only |
| Dedup.FirstSeenOrderUnique | endpoints.go:48-53 | two lists holding the same request addresses, both ordered by first occurrence, are equal |
| Dedup.DedupCharacterised | endpoints.go:48-53 | any list with the request's addresses in first-occurrence order is the filter's output, so element k is the k-th distinct address met |
| Dedup.DedupOfDistinct | endpoints.go:45-55 | a request without repeats is returned unchanged (the empty one included) |
| Dedup.DedupIdempotent | endpoints.go:45-55 | filtering an already filtered list changes nothing |
| Dedup.DedupExample | endpoints.go:48-53 | [A, B, A, C, B] is filtered to [A, B, C] |
| MultiAddr.Scored | endpoints.go:79-84 | a scored transaction keeps its txid and status; if confirmed, its confirmations plus its block height equal the snapshot, otherwise it has 0 confirmations |
| MultiAddr.SlotFor | endpoints.go:70-93 | what one task leaves in its slot: the address and a total equal to the number of transactions; after a failed fetch, no transactions and zero counts; after a successful one, GetBalanceCount's counts and the fetched list's length, with txid and status kept at each position |
| MultiAddr.Assembled | endpoints.go:61-94 | the answer once all tasks have finished has one slot per address, and slot i carries address i |
| MultiAddr.Stamped | endpoints.go:61-70 | right after the stamping loop, slot i holds address i and nothing else: no transactions and zero counts |
| MultiAddr.ApplyWrites | endpoints.go:69-94 | slot writes applied in completion order keep the slot count, and a slot whose task has not run keeps its earlier content |
| MultiAddr.FillInAnyOrder | endpoints.go:69-94 | stamping every slot and then running the task bodies in any order, each at most once, gives exactly the slots ApplyWrites describes from the stamped state |
| MultiAddr.RunAllInAnyOrder | endpoints.go:61-94 | stamping every slot and then running every slot's task exactly once, in any completion order, leaves exactly the assembled answer |
| MultiAddr.FillSlot | endpoints.go:72-93 | one task leaves its slot equal to the slot function: after a failed fetch, the address with zero fields; after a successful one, the fields described under FetchedSlot. No other slot changes |
| MultiAddr.MultiAddr | endpoints.go:58-98 | as many slots as addresses; a failed snapshot returns that error with all slots zero; otherwise no error, and slot i is address i's assembled result against the one snapshot |
| MultiAddr.FetchedSlot | endpoints.go:74-89 | after a succeeded fetch, the slot has the same transactions in the same order with txid and status untouched, the total equals the list length, the counts are GetBalanceCount's, and confirmations are height minus block height if confirmed, else 0 |
| MultiAddr.FailedSlot | endpoints.go:61-92 | after a failed fetch, the slot keeps its address and has no transactions and zero counts |
| MultiAddr.SingleSnapshot | endpoints.go:62-85 | every confirmed transaction in every slot has confirmations plus block height equal to the one snapshot; unconfirmed ones have 0 |
| MultiAddr.ApplyWritesAt | endpoints.go:69-94 | after a series of slot writes, a slot holds its own task's result if that task ran and its old content otherwise |
| MultiAddr.CompletionOrderIrrelevant | endpoints.go:69-94 | any completion order that runs every slot's task yields exactly the sequential assembly |
| MultiAddr.SleepReturnsUnfinishedSlot | endpoints.go:96-97 | if the sleep ends before a task whose fetch succeeded with a non-empty list, that slot is returned with no transactions, and the answer differs from the assembled one |
| MultiAddr.ConfirmationExample | endpoints.go:79-84 | snapshot 700000 and a transaction confirmed at 699995 give 5 confirmations; an unconfirmed one gets 0 |
| MultiAddr.MultiData | endpoints.go:148-161 | the /data answer has no error exactly when the snapshot succeeds; then it is the assembly over the filtered request, no two slots share an address, and every requested address has a slot |

## Left out

- HTTP plumbing: `CheckPost`, reading the body, JSON decoding of the request, status codes, `MarshalSend` and logging (endpoints.go:20-41, 120-270). The model starts from the decoded address list.
- The electrs calls themselves are network calls. They are parameters: `CurrentBlockHeight` is a `Result` value, and `GetTxsAddress` and `GetBalanceCount` are fields of `Indexer`.
- The goroutines are not modelled as real concurrency. The slots are filled sequentially. `ApplyWrites` models completion order at slot granularity, so the field-level interleaving inside one slot is not modelled. This includes the nested `GetBalanceCount` goroutine: the model treats it as the last write to its own slot.
- The `wait()` sleep is not modelled as timing. `MultiAddr` models the state after every task has finished. `SleepReturnsUnfinishedSlot` shows what an early return yields. The data race between the tasks' writes and the caller's read is not modelled.
- `multiBalance` (endpoints.go:100-115): float64 sums into a shared total without synchronisation.
- `MultiUtxos` and `MultiTxs` (endpoints.go:118-143, 200-226): concurrent unsynchronised `append` to a shared slice, whose order depends on completion order.
- The `MultiBalTxs` handler (endpoints.go:165-182): its balance half is `multiBalance`, left out above, and its transaction half is the modelled `multiAddr`. Only `MultiData` is modelled as a handler.
- MultiAddr.FillSlot: in Go, `x[i].Transactions = allTxs` shares the backing array of the slice `GetTxsAddress` returned. The in-place scoring at endpoints.go:80-83 therefore also writes into that slice. The model's slot holds its own copy of the list (a `seq`), so this aliasing is not modelled. Nothing else in the core reads that slice.
- `GetFees` and `PostTx` (endpoints.go:229-271): passthroughs to the indexer.
- MultiAddr.MultiAddr: `TotalTransactions` is a Go `float64`. The model uses the exact `int` length, which equals the float for lists shorter than 2^53.
- The types of the `format` and `electrs` packages are not part of this model. A transaction carries only `txid`, its status (confirmed, block height) and the derived confirmation count. Heights and counts are unbounded `int`s, so Go integer overflow is not modelled.

## Findings

| source | as written | input that shows it | evidently intended | confidence | as-written member | corrected member |
|---|---|---|---|---|---|---|
| endpoints.go:96-97 | `multiAddr` waits a fixed 100 ms and then returns the slots, whether or not every task has written its slot | one address whose transaction fetch succeeds with a non-empty list but answers after more than 100 ms: its slot is returned with no transactions | wait for every task to finish, then return | high (not executed) | MultiAddr.SleepReturnsUnfinishedSlot | MultiAddr.CompletionOrderIrrelevant |
