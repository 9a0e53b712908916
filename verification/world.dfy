/**
 The peer's world state as the chaincode sees it through its stub: the current
 value of every key, and the ordered write history of every key that
 `GetHistoryForKey` iterates over.
 */
module World {
  import opened Wrappers
  import opened Credit

  /** What the transaction context supplies to a write: its transaction id and timestamp (kept uninterpreted). */
  datatype TxContext = TxContext(txId: string, timestamp: int)

  /** One entry of a key's history; an empty value (as a deletion leaves) is `None`. */
  datatype KeyModification = KeyModification(txId: string, timestamp: int, value: Option<LC>, isDelete: bool)

  /** The current records and the per-key write histories. */
  datatype World = World(state: map<string, LC>, history: map<string, seq<KeyModification>>)

  /** The ledger before any transaction. */
  const Genesis: World := World(map[], map[])

  /** The history of `id`; a key never written has an empty history. */
  function HistoryOf(w: World, id: string): seq<KeyModification> {
    if id in w.history then w.history[id] else []
  }

  /** Every key other than `id` has the same record and the same history in `w` and `w'`. */
  ghost predicate OthersUnchanged(w: World, w': World, id: string) {
    && w'.state - {id} == w.state - {id}
    && w'.history - {id} == w.history - {id}
  }

  /** `PutState(id, v)` committed by transaction `ctx`: stores `v` under `id` and appends the write to the key's history. */
  function PutState(w: World, ctx: TxContext, id: string, v: LC): (w': World)
    ensures id in w'.state && w'.state[id] == v
    ensures w'.state.Keys == w.state.Keys + {id}
    ensures HistoryOf(w', id) == HistoryOf(w, id) + [KeyModification(ctx.txId, ctx.timestamp, Some(v), false)]
    ensures OthersUnchanged(w, w', id)
  {
    World(w.state[id := v], w.history[id := HistoryOf(w, id) + [KeyModification(ctx.txId, ctx.timestamp, Some(v), false)]])
  }
}
