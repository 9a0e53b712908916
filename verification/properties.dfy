/** Properties of the credit ledger: the invariant every transaction keeps, and how the functions relate. */
module Properties {
  import opened Wrappers
  import opened Credit
  import opened World
  import opened Chaincode
  import opened Ledger

  /** What `OthersUnchanged` says about one key other than the written one. */
  lemma OthersUnchangedAt(w: World, w': World, id: string, k: string)
    requires OthersUnchanged(w, w', id) && k != id
    ensures k in w'.state <==> k in w.state
    ensures k in w.state ==> w'.state[k] == w.state[k]
    ensures k in w'.history <==> k in w.history
    ensures HistoryOf(w', k) == HistoryOf(w, k)
  {
    assert k in w'.state <==> k in w'.state - {id};
    assert k in w.state <==> k in w.state - {id};
    assert k in w'.history <==> k in w'.history - {id};
    assert k in w.history <==> k in w.history - {id};
    if k in w.state {
      assert w'.state[k] == (w'.state - {id})[k];
    }
    if k in w.history {
      assert w'.history[k] == (w'.history - {id})[k];
    }
  }

  /** Appending the write of a well-formed record to a history of writes keeps it a history of writes. */
  lemma AppendWrittenHistory(id: string, h: seq<KeyModification>, m: KeyModification)
    requires WrittenHistory(id, h)
    requires m.value.Some? && !m.isDelete && WellFormed(id, m.value.value)
    ensures WrittenHistory(id, h + [m])
  {
  }

  /** A single committed write of a well-formed record to `id` keeps the ledger invariant. */
  lemma WriteKeepsConsistency(w: World, ctx: TxContext, id: string, w': World)
    requires Consistent(w)
    requires w'.state.Keys == w.state.Keys + {id}
    requires id in w'.state && WellFormed(id, w'.state[id])
    requires HistoryOf(w', id) == HistoryOf(w, id) + [KeyModification(ctx.txId, ctx.timestamp, Some(w'.state[id]), false)]
    requires OthersUnchanged(w, w', id)
    ensures Consistent(w')
  {
    var m := KeyModification(ctx.txId, ctx.timestamp, Some(w'.state[id]), false);
    assert id in w'.history;
    assert WrittenHistory(id, HistoryOf(w, id)) by {
      if id in w.history {
        assert HistoryOf(w, id) == w.history[id];
      }
    }
    AppendWrittenHistory(id, HistoryOf(w, id), m);
    forall k | k in w'.state
      ensures k in w'.history
      ensures WellFormed(k, w'.state[k])
      ensures var h := HistoryOf(w', k); |h| > 0 && h[|h| - 1].value == Some(w'.state[k])
      ensures WrittenHistory(k, w'.history[k])
    {
      if k != id {
        OthersUnchangedAt(w, w', id, k);
        assert HistoryOf(w, k) == w.history[k];
      }
    }
    forall k | k in w'.history
      ensures k in w'.state
    {
      if k != id {
        OthersUnchangedAt(w, w', id, k);
      }
    }
  }

  /** The empty ledger is consistent. */
  lemma GenesisConsistent()
    ensures Consistent(Genesis)
  {
  }

  /** Every transaction, successful or not, keeps the ledger invariant. */
  lemma InvokeKeepsConsistency(w: World, ctx: TxContext, call: Call)
    requires Consistent(w)
    ensures Consistent(Invoke(w, ctx, call).0)
  {
    match call
    case Register(id, owner, flight, weight, price) =>
      var r := RegisterCredit(w, ctx, id, owner, flight, weight, price);
      if r.Ok? {
        WriteKeepsConsistency(w, ctx, id, r.value);
      }
    case Transfer(id, newOwner) =>
      var r := TransferCredit(w, ctx, id, newOwner);
      if r.Ok? {
        WriteKeepsConsistency(w, ctx, id, r.value);
      }
    case Verify(id) =>
      var r := VerifyCredit(w, ctx, id);
      if r.Ok? {
        WriteKeepsConsistency(w, ctx, id, r.value);
      }
    case Excute(id) =>
      var r := ExcuteCredit(w, ctx, id);
      if r.Ok? {
        WriteKeepsConsistency(w, ctx, id, r.value);
      }
    case Read(_) =>
    case History(_) =>
  }

  /** Any sequence of transactions keeps the ledger invariant. */
  lemma {:induction false} RunKeepsConsistency(w: World, txs: seq<(TxContext, Call)>)
    requires Consistent(w)
    ensures Consistent(Run(w, txs))
    decreases |txs|
  {
    if |txs| > 0 {
      InvokeKeepsConsistency(w, txs[0].0, txs[0].1);
      RunKeepsConsistency(Invoke(w, txs[0].0, txs[0].1).0, txs[1..]);
    }
  }

  /** No transaction removes a credit, and a key's history only ever grows at its end. */
  lemma {:induction false} RunIsAppendOnly(w: World, txs: seq<(TxContext, Call)>, id: string)
    ensures Run(w, txs).state.Keys >= w.state.Keys
    ensures HistoryOf(w, id) <= HistoryOf(Run(w, txs), id)
    decreases |txs|
  {
    if |txs| > 0 {
      var w1 := Invoke(w, txs[0].0, txs[0].1).0;
      var call := txs[0].1;
      if id != call.creditId {
        OthersUnchangedAt(w, w1, call.creditId, id);
      }
      assert HistoryOf(w, id) <= HistoryOf(w1, id);
      RunIsAppendOnly(w1, txs[1..], id);
    }
  }

  /** Registering a fresh id and reading it back returns exactly the registered record. */
  lemma RegisterThenRead(w: World, ctx: TxContext, creditId: string, owner: string, flightId: string,
                         weight: Int64, price: Int64)
    requires creditId !in w.state
    ensures RegisterCredit(w, ctx, creditId, owner, flightId, weight, price).Ok?
    ensures ReadCredit(RegisterCredit(w, ctx, creditId, owner, flightId, weight, price).value, creditId)
         == Ok(LC(CreditDocType, creditId, owner, flightId, weight, price, Registered))
  {
  }

  /** A second registration of the same id fails with "already exists" and commits nothing. */
  lemma RegisterTwiceFails(w: World, ctx1: TxContext, ctx2: TxContext, call1: Call, call2: Call)
    requires call1.Register? && call2.Register? && call1.creditId == call2.creditId
    requires Invoke(w, ctx1, call1).1 == Done
    ensures var w1 := Invoke(w, ctx1, call1).0;
      Invoke(w1, ctx2, call2) == (w1, Failed(AlreadyExists(call1.creditId)))
  {
  }

  /** Transfer, verify and execute of an absent id fail with "does not exist", commit nothing and create no key. */
  lemma UpdateOfAbsentFails(w: World, ctx: TxContext, call: Call)
    requires call.Transfer? || call.Verify? || call.Excute?
    requires call.creditId !in w.state
    ensures Invoke(w, ctx, call) == (w, Failed(NotFound(call.creditId)))
  {
  }

  /** Reading an absent id fails with "does not exists" and commits nothing. */
  lemma ReadOfAbsentFails(w: World, ctx: TxContext, creditId: string)
    requires creditId !in w.state
    ensures Invoke(w, ctx, Read(creditId)) == (w, Failed(NotFoundOnRead(creditId)))
  {
  }

  /** After a transfer, reading the credit shows the new owner, status "transfered" and the old identifying fields. */
  lemma TransferThenRead(w: World, ctx: TxContext, creditId: string, newOwner: string)
    requires creditId in w.state
    ensures TransferCredit(w, ctx, creditId, newOwner).Ok?
    ensures ReadCredit(TransferCredit(w, ctx, creditId, newOwner).value, creditId)
         == Ok(w.state[creditId].(owner := newOwner, status := Transferred))
  {
  }

  /** Verifying twice leaves the same records as verifying once; only the history records the second write. */
  lemma VerifyIdempotent(w: World, ctx1: TxContext, ctx2: TxContext, creditId: string)
    requires creditId in w.state
    ensures VerifyCredit(w, ctx1, creditId).Ok?
    ensures var w1 := VerifyCredit(w, ctx1, creditId).value;
      VerifyCredit(w1, ctx2, creditId).Ok? && VerifyCredit(w1, ctx2, creditId).value.state == w1.state
  {
  }

  /** Executing twice leaves the same records as executing once; only the history records the second write. */
  lemma ExcuteIdempotent(w: World, ctx1: TxContext, ctx2: TxContext, creditId: string)
    requires creditId in w.state
    ensures ExcuteCredit(w, ctx1, creditId).Ok?
    ensures var w1 := ExcuteCredit(w, ctx1, creditId).value;
      ExcuteCredit(w1, ctx2, creditId).Ok? && ExcuteCredit(w1, ctx2, creditId).value.state == w1.state
  {
  }

  /**
   On a consistent ledger the history query agrees with the read: a credit has
   history exactly when it can be read, the first history record (the newest
   write) is what the read returns, and no history record is a deletion or a stub.
   */
  lemma HistoryAgreesWithRead(w: World, creditId: string)
    requires Consistent(w)
    ensures ReadCredit(w, creditId).Ok? <==> |GetCreditHistory(w, creditId)| > 0
    ensures ReadCredit(w, creditId).Ok? ==>
      var r := GetCreditHistory(w, creditId);
      r[0].record == ReadCredit(w, creditId).value
    ensures forall i | 0 <= i < |GetCreditHistory(w, creditId)| ::
      !GetCreditHistory(w, creditId)[i].isDelete && WellFormed(creditId, GetCreditHistory(w, creditId)[i].record)
  {
    var h := HistoryOf(w, creditId);
    if creditId in w.history {
      assert WrittenHistory(creditId, h);
    }
  }

  /** Registering a fresh id on a consistent ledger gives it a one-entry history holding the new record. */
  lemma RegisterStartsHistory(w: World, ctx: TxContext, creditId: string, owner: string, flightId: string,
                              weight: Int64, price: Int64)
    requires Consistent(w) && creditId !in w.state
    ensures var w' := RegisterCredit(w, ctx, creditId, owner, flightId, weight, price).value;
      GetCreditHistory(w', creditId)
        == [HistoryQueryResult(LC(CreditDocType, creditId, owner, flightId, weight, price, Registered),
                               ctx.txId, ctx.timestamp, false)]
  {
    assert HistoryOf(w, creditId) == [];
  }
}
