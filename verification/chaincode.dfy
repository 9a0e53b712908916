/**
 The luggage-credit chaincode (`SimpleChaincode`): five transactions and one
 history query over the world state. A function that fails returns `Err` and no
 world, so a failed transaction changes nothing.
 */
module Chaincode {
  import opened Wrappers
  import opened Credit
  import opened World

  /** One element of the `GetCreditHistory` answer. */
  datatype HistoryQueryResult = HistoryQueryResult(record: LC, txId: string, timestamp: int, isDelete: bool)

  /** Creates the credit `creditId`, provided no record is stored under it yet. */
  function RegisterCredit(w: World, ctx: TxContext, creditId: string, owner: string, flightId: string,
                          weight: Int64, price: Int64): (r: Result<World, Error>)
    ensures r.Err? <==> creditId in w.state
    ensures r.Err? ==> r.error == AlreadyExists(creditId)
    ensures r.Ok? ==> creditId in r.value.state
    ensures r.Ok? ==>
      var c := r.value.state[creditId];
      && r.value.state.Keys == w.state.Keys + {creditId}
      && c.docType == CreditDocType && c.creditId == creditId && c.owner == owner
      && c.flightId == flightId && c.weight == weight && c.price == price && c.status == Registered
      && HistoryOf(r.value, creditId) == HistoryOf(w, creditId) + [KeyModification(ctx.txId, ctx.timestamp, Some(c), false)]
      && OthersUnchanged(w, r.value, creditId)
  {
    if creditId in w.state then
      Err(AlreadyExists(creditId))
    else
      Ok(PutState(w, ctx, creditId, LC(CreditDocType, creditId, owner, flightId, weight, price, Registered)))
  }

  /** Returns the record stored under `creditId`. */
  function ReadCredit(w: World, creditId: string): (r: Result<LC, Error>)
    ensures r.Ok? <==> creditId in w.state
    ensures r.Ok? ==> r.value == w.state[creditId]
    ensures r.Err? ==> r.error == NotFoundOnRead(creditId)
  {
    if creditId in w.state then Ok(w.state[creditId]) else Err(NotFoundOnRead(creditId))
  }

  /** `c'` is `c` with at most its owner and status rewritten. */
  predicate SameCredit(c: LC, c': LC) {
    && c'.docType == c.docType && c'.creditId == c.creditId && c'.flightId == c.flightId
    && c'.weight == c.weight && c'.price == c.price
  }

  /** The committed effect of rewriting the present record `creditId` in place: no key appears or disappears,
      the identifying fields stay, the write is appended to the key's history and no other key changes. */
  ghost predicate Rewrites(w: World, ctx: TxContext, creditId: string, w': World) {
    && creditId in w.state
    && w'.state.Keys == w.state.Keys
    && creditId in w'.state
    && SameCredit(w.state[creditId], w'.state[creditId])
    && HistoryOf(w', creditId) == HistoryOf(w, creditId) + [KeyModification(ctx.txId, ctx.timestamp, Some(w'.state[creditId]), false)]
    && OthersUnchanged(w, w', creditId)
  }

  /** Hands the present credit `creditId` to `newOwner`; any status may be transferred. */
  function TransferCredit(w: World, ctx: TxContext, creditId: string, newOwner: string): (r: Result<World, Error>)
    ensures r.Ok? <==> creditId in w.state
    ensures r.Err? ==> r.error == NotFound(creditId)
    ensures r.Ok? ==>
      && Rewrites(w, ctx, creditId, r.value)
      && r.value.state[creditId].owner == newOwner
      && r.value.state[creditId].status == Transferred
  {
    if creditId !in w.state then
      Err(NotFound(creditId))
    else
      var credit := w.state[creditId];
      Ok(PutState(w, ctx, creditId, credit.(owner := newOwner, status := Transferred)))
  }

  /** Overwrites only the status of the present record `creditId`. */
  function SetStatus(w: World, ctx: TxContext, creditId: string, status: string): (r: Result<World, Error>)
    ensures r.Ok? <==> creditId in w.state
    ensures r.Err? ==> r.error == NotFound(creditId)
    ensures r.Ok? ==>
      && Rewrites(w, ctx, creditId, r.value)
      && r.value.state[creditId].owner == w.state[creditId].owner
      && r.value.state[creditId].status == status
  {
    if creditId !in w.state then
      Err(NotFound(creditId))
    else
      var credit := w.state[creditId];
      Ok(PutState(w, ctx, creditId, credit.(status := status)))
  }

  /** Marks the present credit `creditId` verified, whatever its status was. */
  function VerifyCredit(w: World, ctx: TxContext, creditId: string): (r: Result<World, Error>)
    ensures r.Ok? <==> creditId in w.state
    ensures r.Err? ==> r.error == NotFound(creditId)
    ensures r.Ok? ==>
      && Rewrites(w, ctx, creditId, r.value)
      && r.value.state[creditId].owner == w.state[creditId].owner
      && r.value.state[creditId].status == Verified
  {
    SetStatus(w, ctx, creditId, Verified)
  }

  /** Marks the present credit `creditId` executed, whatever its status was. */
  function ExcuteCredit(w: World, ctx: TxContext, creditId: string): (r: Result<World, Error>)
    ensures r.Ok? <==> creditId in w.state
    ensures r.Err? ==> r.error == NotFound(creditId)
    ensures r.Ok? ==>
      && Rewrites(w, ctx, creditId, r.value)
      && r.value.state[creditId].owner == w.state[creditId].owner
      && r.value.state[creditId].status == Executed
  {
    SetStatus(w, ctx, creditId, Executed)
  }

  /** The answer element for one history entry: the stored record, or the id-only stub when the value is empty. */
  function ToQueryResult(creditId: string, m: KeyModification): HistoryQueryResult {
    var credit := if m.value.Some? then m.value.value else Stub(creditId);
    HistoryQueryResult(credit, m.txId, m.timestamp, m.isDelete)
  }

  /** The history loop: one result per entry, appended in iteration order. */
  function HistoryResults(creditId: string, h: seq<KeyModification>): (r: seq<HistoryQueryResult>)
    ensures |r| == |h|
    ensures forall i | 0 <= i < |h| ::
      && r[i].txId == h[i].txId && r[i].timestamp == h[i].timestamp && r[i].isDelete == h[i].isDelete
      && r[i].record == (if h[i].value.Some? then h[i].value.value else Stub(creditId))
  {
    if |h| == 0 then [] else HistoryResults(creditId, h[..|h| - 1]) + [ToQueryResult(creditId, h[|h| - 1])]
  }

  /** The order in which the peer's history iterator yields a key's writes: newest first. */
  function NewestFirst(h: seq<KeyModification>): (r: seq<KeyModification>)
    ensures |r| == |h|
    ensures forall i | 0 <= i < |h| :: r[i] == h[|h| - 1 - i]
  {
    if |h| == 0 then [] else [h[|h| - 1]] + NewestFirst(h[..|h| - 1])
  }

  /** Every write ever made to `creditId`, in the iterator's order: the latest write comes first. */
  function GetCreditHistory(w: World, creditId: string): (r: seq<HistoryQueryResult>)
    ensures |r| == |HistoryOf(w, creditId)|
    ensures forall i | 0 <= i < |r| ::
      var m := HistoryOf(w, creditId)[|r| - 1 - i];
      && r[i].txId == m.txId && r[i].timestamp == m.timestamp && r[i].isDelete == m.isDelete
      && r[i].record == (if m.value.Some? then m.value.value else Stub(creditId))
  {
    HistoryResults(creditId, NewestFirst(HistoryOf(w, creditId)))
  }
}
