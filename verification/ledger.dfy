/**
 The chaincode as a state machine: transactions are dispatched by name to the
 chaincode functions, a failed transaction commits nothing, and a sequence of
 transactions is applied one after another. The ledger invariant
 `Consistent` is defined here; the lemmas about it are in `Properties`.
 */
module Ledger {
  import opened Wrappers
  import opened Credit
  import opened World
  import opened Chaincode

  /** A transaction naming one of the chaincode's exported functions with its arguments. */
  datatype Call =
    | Register(creditId: string, owner: string, flightId: string, weight: Int64, price: Int64)
    | Read(creditId: string)
    | Transfer(creditId: string, newOwner: string)
    | Verify(creditId: string)
    | Excute(creditId: string)
    | History(creditId: string)

  /** What a transaction hands back to its client. */
  datatype Response =
    | Done
    | Found(record: LC)
    | Records(results: seq<HistoryQueryResult>)
    | Failed(error: Error)

  /** A transaction that may write to the world state. */
  predicate IsWrite(call: Call) {
    call.Register? || call.Transfer? || call.Verify? || call.Excute?
  }

  /** Commits a write's new world, or keeps the old one when the chaincode returned an error. */
  function Commit(w: World, r: Result<World, Error>): (World, Response) {
    match r
    case Ok(w') => (w', Done)
    case Err(e) => (w, Failed(e))
  }

  /** Runs one transaction: dispatches it to its chaincode function and commits the outcome. */
  function Invoke(w: World, ctx: TxContext, call: Call): (out: (World, Response))
    ensures out.1.Failed? ==> out.0 == w
    ensures !IsWrite(call) ==> out.0 == w
    ensures out.0.state.Keys >= w.state.Keys
    ensures out.0.state.Keys <= w.state.Keys + {call.creditId}
    ensures OthersUnchanged(w, out.0, call.creditId)
    ensures HistoryOf(w, call.creditId) <= HistoryOf(out.0, call.creditId)
    ensures out.1 == Done ==> |HistoryOf(out.0, call.creditId)| == |HistoryOf(w, call.creditId)| + 1
    ensures out.1 == Done <==> IsWrite(call) && (call.Register? != (call.creditId in w.state))
  {
    match call
    case Register(id, owner, flight, weight, price) => Commit(w, RegisterCredit(w, ctx, id, owner, flight, weight, price))
    case Read(id) =>
      (w, match ReadCredit(w, id) case Ok(c) => Found(c) case Err(e) => Failed(e))
    case Transfer(id, newOwner) => Commit(w, TransferCredit(w, ctx, id, newOwner))
    case Verify(id) => Commit(w, VerifyCredit(w, ctx, id))
    case Excute(id) => Commit(w, ExcuteCredit(w, ctx, id))
    case History(id) => (w, Records(GetCreditHistory(w, id)))
  }

  /** The world after the transactions `txs` ran in order. */
  function Run(w: World, txs: seq<(TxContext, Call)>): World
    decreases |txs|
  {
    if |txs| == 0 then w else Run(Invoke(w, txs[0].0, txs[0].1).0, txs[1..])
  }

  /** A record as some chaincode function wrote it under key `id`. */
  predicate WellFormed(id: string, c: LC) {
    c.creditId == id && c.docType == CreditDocType && c.status in Statuses
  }

  /** A history whose entries are all writes (no deletion, no empty value) of well-formed records for `id`. */
  ghost predicate WrittenHistory(id: string, h: seq<KeyModification>) {
    forall i | 0 <= i < |h| :: h[i].value.Some? && !h[i].isDelete && WellFormed(id, h[i].value.value)
  }

  /**
   The ledger invariant: exactly the stored keys have a history, each stored
   record is well-formed and is the value of its key's latest write.
   */
  ghost predicate Consistent(w: World) {
    && w.history.Keys == w.state.Keys
    && (forall id | id in w.state :: WellFormed(id, w.state[id]))
    && (forall id | id in w.state ::
          var h := HistoryOf(w, id); |h| > 0 && h[|h| - 1].value == Some(w.state[id]))
    && (forall id | id in w.history :: WrittenHistory(id, w.history[id]))
  }
}
