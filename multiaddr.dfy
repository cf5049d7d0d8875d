/** Assembly of the per-address transaction results (multiAddr) and the
    handler that feeds it the filtered request (MultiData). The goroutines of
    the source each write only their own slot; the model fills the slots one
    after the other and proves separately that the order of the slot writes
    does not matter. */
module MultiAddr {
  import opened Wrappers
  import Dedup

  /** Confirmation status as the indexer reports it. */
  datatype Status = Status(confirmed: bool, blockHeight: int)

  /** One transaction of an address. Only numberOfConfirmations is derived
      here; txid and status come from the indexer. */
  datatype Tx = Tx(txid: string, status: Status, numberOfConfirmations: int)

  /** The result slot of one requested address. */
  datatype AddrReturn = AddrReturn(
    address: string,
    totalTransactions: int,
    confirmedTransactions: int,
    unconfirmedTransactions: int,
    transactions: seq<Tx>)

  /** The zero value of a slot, which make() gives every slot. */
  const ZeroSlot := AddrReturn("", 0, 0, 0, [])

  datatype UpstreamError = UpstreamError(reason: string)

  /** The two per-address indexer calls multiAddr makes. A failed
      GetTxsAddress is None. */
  datatype Indexer = Indexer(
    getTxsAddress: string -> Option<seq<Tx>>,
    getBalanceCount: string -> (int, int))

  /** Confirmations of a fetched transaction relative to the height snapshot. */
  function Scored(t: Tx, currentBh: int): (r: Tx)
    ensures r.txid == t.txid && r.status == t.status
    ensures r.status.confirmed ==> r.numberOfConfirmations + r.status.blockHeight == currentBh
    ensures !r.status.confirmed ==> r.numberOfConfirmations == 0
  {
    t.(numberOfConfirmations := if t.status.confirmed then currentBh - t.status.blockHeight else 0)
  }

  /** What slot i holds once every task has finished: its address, and, when
      the transaction fetch succeeded, the scored list, its length and the
      two counts. */
  function SlotFor(elem: string, currentBh: int, ix: Indexer): (r: AddrReturn)
    ensures r.address == elem && r.totalTransactions == |r.transactions|
    ensures ix.getTxsAddress(elem).None? ==>
              r.transactions == [] && r.confirmedTransactions == 0 && r.unconfirmedTransactions == 0
    ensures ix.getTxsAddress(elem).Some? ==>
              var allTxs := ix.getTxsAddress(elem).value;
              && (r.confirmedTransactions, r.unconfirmedTransactions) == ix.getBalanceCount(elem)
              && |r.transactions| == |allTxs|
              && forall j :: 0 <= j < |allTxs| ==>
                   r.transactions[j].txid == allTxs[j].txid && r.transactions[j].status == allTxs[j].status
  {
    match ix.getTxsAddress(elem)
    case None => ZeroSlot.(address := elem)
    case Some(allTxs) =>
      var counts := ix.getBalanceCount(elem);
      AddrReturn(elem, |allTxs|, counts.0, counts.1,
                 seq(|allTxs|, j requires 0 <= j < |allTxs| => Scored(allTxs[j], currentBh)))
  }

  /** The whole answer, one slot per requested address, in request order. */
  function Assembled(arr: seq<string>, currentBh: int, ix: Indexer): (r: seq<AddrReturn>)
    ensures |r| == |arr|
    ensures forall i :: 0 <= i < |arr| ==> r[i].address == arr[i]
  {
    seq(|arr|, i requires 0 <= i < |arr| => SlotFor(arr[i], currentBh, ix))
  }

  /** The body of the task for slot i: fetch, store list and length, reset
      the counts, score every transaction in place, then store the counts. */
  method FillSlot(x: array<AddrReturn>, i: nat, elem: string, currentBh: int, ix: Indexer)
    requires i < x.Length && x[i] == ZeroSlot.(address := elem)
    modifies x
    ensures x[i] == SlotFor(elem, currentBh, ix)
    ensures forall k :: 0 <= k < x.Length && k != i ==> x[k] == old(x[k])
  {
    match ix.getTxsAddress(elem)
    case None =>
      // the error is only logged; the slot keeps its address and zeros
    case Some(allTxs) =>
      x[i] := x[i].(totalTransactions := |allTxs|, transactions := allTxs);
      x[i] := x[i].(confirmedTransactions := 0, unconfirmedTransactions := 0);
      var j := 0;
      while j < |x[i].transactions|
        invariant 0 <= j <= |allTxs| == |x[i].transactions|
        invariant x[i].address == elem && x[i].totalTransactions == |allTxs|
        invariant x[i].confirmedTransactions == 0 && x[i].unconfirmedTransactions == 0
        invariant forall k :: 0 <= k < j ==> x[i].transactions[k] == Scored(allTxs[k], currentBh)
        invariant forall k :: j <= k < |allTxs| ==> x[i].transactions[k] == allTxs[k]
        invariant forall k :: 0 <= k < x.Length && k != i ==> x[k] == old(x[k])
      {
        var t := x[i].transactions[j];
        if t.status.confirmed {
          t := t.(numberOfConfirmations := currentBh - t.status.blockHeight);
        } else {
          t := t.(numberOfConfirmations := 0);
        }
        x[i] := x[i].(transactions := x[i].transactions[j := t]);
        j := j + 1;
      }
      var counts := ix.getBalanceCount(elem);
      x[i] := x[i].(confirmedTransactions := counts.0, unconfirmedTransactions := counts.1);
  }

  /** multiAddr: allocate one zero slot per address, take the height snapshot
      once (failure ends the call with the error and the zero slots), then
      stamp each slot with its address and run its task. */
  method MultiAddr(arr: seq<string>, currentBlockHeight: Result<int, UpstreamError>, ix: Indexer)
    returns (x: array<AddrReturn>, err: Option<UpstreamError>)
    ensures fresh(x) && x.Length == |arr|
    ensures currentBlockHeight.Err? ==>
              err == Some(currentBlockHeight.error) && forall i :: 0 <= i < x.Length ==> x[i] == ZeroSlot
    ensures currentBlockHeight.Ok? ==>
              err == None && x[..] == Assembled(arr, currentBlockHeight.value, ix)
  {
    x := new AddrReturn[|arr|](_ => ZeroSlot);
    if currentBlockHeight.Err? {
      return x, Some(currentBlockHeight.error);
    }
    var currentBh := currentBlockHeight.value;
    for i := 0 to |arr|
      invariant forall k :: 0 <= k < i ==> x[k] == SlotFor(arr[k], currentBh, ix)
      invariant forall k :: i <= k < |arr| ==> x[k] == ZeroSlot
    {
      x[i] := x[i].(address := arr[i]);
      FillSlot(x, i, arr[i], currentBh, ix);
    }
    err := None;
  }

  /** A slot whose fetch succeeded holds the fetched list in the same order,
      with each transaction's other fields untouched, its length as the
      total, the counts of GetBalanceCount, and every confirmation count
      taken against the one snapshot. */
  lemma FetchedSlot(arr: seq<string>, currentBh: int, ix: Indexer, i: nat, allTxs: seq<Tx>)
    requires i < |arr| && ix.getTxsAddress(arr[i]) == Some(allTxs)
    ensures var r := Assembled(arr, currentBh, ix)[i];
      && |r.transactions| == |allTxs|
      && r.totalTransactions == |allTxs|
      && (r.confirmedTransactions, r.unconfirmedTransactions) == ix.getBalanceCount(arr[i])
      && forall j :: 0 <= j < |allTxs| ==>
           && r.transactions[j].txid == allTxs[j].txid
           && r.transactions[j].status == allTxs[j].status
           && r.transactions[j].numberOfConfirmations ==
                (if allTxs[j].status.confirmed then currentBh - allTxs[j].status.blockHeight else 0)
  {
  }

  /** A slot whose fetch failed keeps only its address. */
  lemma FailedSlot(arr: seq<string>, currentBh: int, ix: Indexer, i: nat)
    requires i < |arr| && ix.getTxsAddress(arr[i]).None?
    ensures var r := Assembled(arr, currentBh, ix)[i];
      r.address == arr[i] && r.transactions == [] && r.totalTransactions == 0
      && r.confirmedTransactions == 0 && r.unconfirmedTransactions == 0
  {
  }

  /** Every confirmed transaction anywhere in the answer satisfies
      confirmations + block height == the snapshot, and an unconfirmed one
      has none, so no two transactions were scored against different heights. */
  lemma SingleSnapshot(arr: seq<string>, currentBh: int, ix: Indexer)
    ensures forall i, j :: 0 <= i < |arr| && 0 <= j < |Assembled(arr, currentBh, ix)[i].transactions| ==>
      var t := Assembled(arr, currentBh, ix)[i].transactions[j];
      if t.status.confirmed then t.numberOfConfirmations + t.status.blockHeight == currentBh
      else t.numberOfConfirmations == 0
  {
  }

  /** The state of the slots after the tasks listed in order have finished,
      oldest first. A write stands for the final content the task gives its
      slot, SlotFor; for a failed fetch the task writes nothing, so this
      agrees with the source when a slot starts as Stamped gives it (see
      FillInAnyOrder). */
  function ApplyWrites(init: seq<AddrReturn>, order: seq<nat>, arr: seq<string>, currentBh: int, ix: Indexer): (r: seq<AddrReturn>)
    requires |init| == |arr|
    requires forall k :: 0 <= k < |order| ==> order[k] < |arr|
    ensures |r| == |arr|
    ensures forall k :: 0 <= k < |arr| && k !in order ==> r[k] == init[k]
    decreases |order|
  {
    if order == [] then init
    else
      var i := order[|order| - 1];
      ApplyWrites(init, order[..|order| - 1], arr, currentBh, ix)[i := SlotFor(arr[i], currentBh, ix)]
  }

  /** A slot's final content is its own task's write if that task ran, and
      otherwise what it held before. */
  lemma {:induction false} ApplyWritesAt(init: seq<AddrReturn>, order: seq<nat>, arr: seq<string>, currentBh: int, ix: Indexer, k: nat)
    requires |init| == |arr| && k < |arr|
    requires forall m :: 0 <= m < |order| ==> order[m] < |arr|
    ensures ApplyWrites(init, order, arr, currentBh, ix)[k] ==
              if k in order then SlotFor(arr[k], currentBh, ix) else init[k]
    decreases |order|
  {
    if order != [] {
      var prefix := order[..|order| - 1];
      assert order == prefix + [order[|order| - 1]];
      ApplyWritesAt(init, prefix, arr, currentBh, ix, k);
    }
  }

  /** Whatever order the tasks complete in, once each slot's task has run
      the slots equal the sequential assembly. */
  lemma CompletionOrderIrrelevant(init: seq<AddrReturn>, order: seq<nat>, arr: seq<string>, currentBh: int, ix: Indexer)
    requires |init| == |arr|
    requires forall m :: 0 <= m < |order| ==> order[m] < |arr|
    requires forall k :: 0 <= k < |arr| ==> k in order
    ensures ApplyWrites(init, order, arr, currentBh, ix) == Assembled(arr, currentBh, ix)
  {
    forall k | 0 <= k < |arr|
      ensures ApplyWrites(init, order, arr, currentBh, ix)[k] == Assembled(arr, currentBh, ix)[k]
    {
      ApplyWritesAt(init, order, arr, currentBh, ix, k);
    }
  }

  /** The slots right after the stamping loop: each holds its address only. */
  function Stamped(arr: seq<string>): (r: seq<AddrReturn>)
    ensures |r| == |arr|
    ensures forall i :: 0 <= i < |arr| ==>
              r[i].address == arr[i] && r[i].transactions == [] && r[i].totalTransactions == 0
              && r[i].confirmedTransactions == 0 && r[i].unconfirmedTransactions == 0
  {
    seq(|arr|, i requires 0 <= i < |arr| => ZeroSlot.(address := arr[i]))
  }

  /** The task bodies run in an arbitrary completion order, each task at
      most once, after every slot has been stamped: the slots are then those
      ApplyWrites gives from Stamped. */
  method FillInAnyOrder(arr: seq<string>, currentBh: int, ix: Indexer, order: seq<nat>)
    returns (x: array<AddrReturn>)
    requires forall m :: 0 <= m < |order| ==> order[m] < |arr|
    requires forall a, b :: 0 <= a < b < |order| ==> order[a] != order[b]
    ensures fresh(x)
    ensures x[..] == ApplyWrites(Stamped(arr), order, arr, currentBh, ix)
  {
    x := new AddrReturn[|arr|](_ => ZeroSlot);
    for i := 0 to |arr|
      invariant forall k :: 0 <= k < i ==> x[k] == Stamped(arr)[k]
      invariant forall k :: i <= k < |arr| ==> x[k] == ZeroSlot
    {
      x[i] := x[i].(address := arr[i]);
    }
    assert x[..] == Stamped(arr);
    for n := 0 to |order|
      invariant x.Length == |arr|
      invariant x[..] == ApplyWrites(Stamped(arr), order[..n], arr, currentBh, ix)
    {
      var i := order[n];
      ghost var before := ApplyWrites(Stamped(arr), order[..n], arr, currentBh, ix);
      assert i !in order[..n] by {
        forall m | 0 <= m < n ensures order[..n][m] != i {
          assert order[..n][m] == order[m];
        }
      }
      assert x[i] == before[i] == Stamped(arr)[i];
      FillSlot(x, i, arr[i], currentBh, ix);
      assert order[..n + 1][..n] == order[..n] && order[..n + 1][n] == i;
      assert ApplyWrites(Stamped(arr), order[..n + 1], arr, currentBh, ix)
             == before[i := SlotFor(arr[i], currentBh, ix)];
      assert x[..] == before[i := SlotFor(arr[i], currentBh, ix)];
    }
    assert order[..|order|] == order;
  }

  /** The joined outcome: stamp every slot, then run every slot's task once,
      in any completion order. The slots are then exactly the sequential
      assembly. */
  method RunAllInAnyOrder(arr: seq<string>, currentBh: int, ix: Indexer, order: seq<nat>)
    returns (x: array<AddrReturn>)
    requires forall m :: 0 <= m < |order| ==> order[m] < |arr|
    requires forall a, b :: 0 <= a < b < |order| ==> order[a] != order[b]
    requires forall k :: 0 <= k < |arr| ==> k in order
    ensures fresh(x)
    ensures x[..] == Assembled(arr, currentBh, ix)
  {
    x := FillInAnyOrder(arr, currentBh, ix, order);
    CompletionOrderIrrelevant(Stamped(arr), order, arr, currentBh, ix);
  }

  /** The source returns after a fixed 100 ms sleep instead of joining the
      tasks. If the task of slot i has not written by then (i is missing from
      the tasks that completed), the slot is returned with no transactions
      although its fetch succeeded, and the answer differs from the
      assembled one. */
  lemma SleepReturnsUnfinishedSlot(arr: seq<string>, currentBh: int, ix: Indexer, finished: seq<nat>, i: nat, allTxs: seq<Tx>)
    requires forall m :: 0 <= m < |finished| ==> finished[m] < |arr|
    requires i < |arr| && i !in finished
    requires ix.getTxsAddress(arr[i]) == Some(allTxs) && allTxs != []
    ensures ApplyWrites(Stamped(arr), finished, arr, currentBh, ix)[i].transactions == []
    ensures ApplyWrites(Stamped(arr), finished, arr, currentBh, ix) != Assembled(arr, currentBh, ix)
  {
    ApplyWritesAt(Stamped(arr), finished, arr, currentBh, ix, i);
    assert |Assembled(arr, currentBh, ix)[i].transactions| == |allTxs|;
  }

  /** With snapshot 700000, a transaction confirmed at 699995 has 5
      confirmations, and an unconfirmed one has 0. */
  lemma ConfirmationExample(t: Tx)
    ensures Scored(Tx(t.txid, Status(true, 699995), t.numberOfConfirmations), 700000).numberOfConfirmations == 5
    ensures Scored(t.(status := t.status.(confirmed := false)), 700000).numberOfConfirmations == 0
  {
  }

  /** The /data handler: filter the request, then assemble. Each slot is
      then a distinct requested address, and every requested address has a
      slot, at the position of its first occurrence among the kept ones. */
  method MultiData(addresses: seq<string>, currentBlockHeight: Result<int, UpstreamError>, ix: Indexer)
    returns (x: array<AddrReturn>, err: Option<UpstreamError>)
    ensures fresh(x)
    ensures err == None <==> currentBlockHeight.Ok?
    ensures err == None ==>
      && x[..] == Assembled(Dedup.Dedup(addresses), currentBlockHeight.value, ix)
      && (forall i, j :: 0 <= i < j < x.Length ==> x[i].address != x[j].address)
      && (forall a :: a in addresses <==> exists i :: 0 <= i < x.Length && x[i].address == a)
  {
    var arr := Dedup.RemoveDuplicates(addresses);
    x, err := MultiAddr(arr, currentBlockHeight, ix);
    if err == None {
      forall a | a in addresses
        ensures exists i :: 0 <= i < x.Length && x[i].address == a
      {
        var i :| 0 <= i < |arr| && arr[i] == a;
        assert x[i].address == a;
      }
    }
  }
}
