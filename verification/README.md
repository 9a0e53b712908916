# Luggage-credit ledger chaincode, modelled in Dafny

This project models the `SimpleChaincode` smart contract of the LC project. The contract is a Hyperledger Fabric chaincode that keeps one luggage-credit record (`LC`) per credit id in the ledger's world state. It exports six functions:

- `RegisterCredit` creates a record, but only under an id that is not yet stored.
- `ReadCredit` returns the stored record.
- `TransferCredit` rewrites the owner and sets the status to "transfered".
- `VerifyCredit` sets the status to "verified".
- `ExcuteCredit` sets the status to "excuted".
- `GetCreditHistory` lists every write ever made to one id, in the order the peer's history iterator yields them. On Fabric 2.x peers that order is newest first, and the model fixes it so.

The status words keep the contract's own spelling.

The world state is an immutable value `World`. It holds a `map<string, LC>` of current records and, for each key, the sequence of `KeyModification`s that the history iterator walks. Each chaincode function is a pure function. A transaction that fails returns `Err` and commits nothing. A transaction that succeeds returns the new world, where the write has also been appended to the key's history.

Files:

- `wrappers.dfy`: the `Option` and `Result` types.
- `gofmt.dfy`: Go's `fmt` formatting of a format string given no operands, which `fmt.Errorf` applies to the error texts.
- `credit.dfy`: the `LC` record, the status constants, the errors and their message texts.
- `world.dfy`: the world state, the key histories and `PutState`.
- `chaincode.dfy`: the six chaincode functions.
- `ledger.dfy`: dispatch of named transactions, runs of transactions, and the ledger invariant `Consistent`.
- `properties.dfy`: the lemmas.

The invariant `Consistent` has four parts:

- Exactly the stored keys have a history.
- Every stored record carries its own key as `creditId`, has docType "credit" and has one of the four statuses.
- Every stored record is the value of its key's latest history entry.
- Every history entry is a write, not a deletion, and its value is a well-formed record for that key.

Every transaction keeps this invariant, and so does every run of transactions.

## Model

| member | source | states |
|---|---|---|
| GoFmt.Format | Chaincode/LC/LC.go:44 | `fmt.Errorf` with no operands copies a text without `%` unchanged |
| GoFmt.FormatEscapedPercent | Chaincode/LC/LC.go:44 | `%%` prints one `%` and formatting continues with the text after it |
| GoFmt.FormatMissingVerb | Chaincode/LC/LC.go:44 | `%` followed by a plain verb character (not a flag, digit, `[`, `*`, `.` or `%`) prints Go's `%!c(MISSING)` diagnostic and formatting continues after it |
| GoFmt.FormatLonePercent | Chaincode/LC/LC.go:44 | a `%` with nothing after it prints `%!(NOVERB)` |
| GoFmt.FormatPlainPrefix | Chaincode/LC/LC.go:44 | a leading text without `%` (each error's fixed wording) passes through formatting untouched, whatever follows it |
| Credit.Message | Chaincode/LC/LC.go:43-44 | an error's text is its fixed wording followed by the credit id as Go's formatting renders it; for an id without `%` this is the id itself |
| Credit.PlainMessageInjective | Chaincode/LC/LC.go:68-90 | for ids without `%`, two errors with the same text are the same error: "already exists", the read's "does not exists" and the updates' "does not exist" never collide, and the id can be read back |
| Credit.MessageMangles | Chaincode/LC/LC.go:44 | the id `50%` is rendered as `50%!(NOVERB)`, so the id is not the end of its message |
| Credit.MessageCollision | Chaincode/LC/LC.go:44 | the distinct ids `%` and `%%!(NOVERB)` produce the same "already exists" message |
| Credit.IntendedMessage | Chaincode/LC/LC.go:43-44 | the corrected text ends with the credit id verbatim |
| Credit.IntendedMessageInjective | Chaincode/LC/LC.go:68-90 | with the id placed verbatim, two errors with the same text are the same error, for every id |
| World.PutState | Chaincode/LC/LC.go:53-57 | a committed write stores the value under its key, adds no other key, appends (txId, timestamp, value, not deleted) to that key's history and leaves every other key's record and history alone |
| Chaincode.RegisterCredit | Chaincode/LC/LC.go:36-58 | fails with AlreadyExists exactly when the id is stored; otherwise adds exactly that key, holding docType "credit", the given id, owner, flight, weight and price and status "registered"; the write is appended to its history and no other key changes |
| Chaincode.ReadCredit | Chaincode/LC/LC.go:61-79 | succeeds exactly when the id is stored and then returns the stored record; otherwise fails with the read's "does not exists" error |
| Chaincode.TransferCredit | Chaincode/LC/LC.go:82-110 | fails with NotFound exactly when the id is absent; otherwise sets owner to newOwner and status to "transfered", keeps docType, id, flight, weight and price, adds no key and leaves other keys alone; no status guard |
| Chaincode.SetStatus | Chaincode/LC/LC.go:116-134 | the shared update of VerifyCredit and ExcuteCredit: fails exactly on an absent id; otherwise rewrites only the status, in place |
| Chaincode.VerifyCredit | Chaincode/LC/LC.go:112-139 | fails with NotFound exactly when the id is absent; otherwise changes only the status, to "verified", whatever it was before; other keys untouched |
| Chaincode.ExcuteCredit | Chaincode/LC/LC.go:142-169 | fails with NotFound exactly when the id is absent; otherwise changes only the status, to "excuted", whatever it was before; other keys untouched |
| Chaincode.HistoryResults | Chaincode/LC/LC.go:182-213 | the iterator loop yields one result per history entry in order, copying txId, timestamp and isDelete; an entry with an empty value yields the zero record carrying only the credit id |
| Chaincode.NewestFirst | Chaincode/LC/LC.go:176-184 | the history iterator yields a key's writes in reverse commit order, every write exactly once |
| Chaincode.GetCreditHistory | Chaincode/LC/LC.go:173-216 | the answer has exactly as many results as the key has history entries; result i is built from the i-th newest write |
| Ledger.Invoke | Chaincode/LC/LC.go:36-169 | a failed transaction and a read or history query commit nothing; a transaction adds at most its own key and removes none; it only appends to its key's history, by exactly one entry when it succeeds; it succeeds exactly for a register of an absent id or an update of a present one |
| Properties.InvokeKeepsConsistency | Chaincode/LC/LC.go:36-169 | every transaction, whether it succeeds or fails, keeps the ledger invariant |
| Properties.RunKeepsConsistency | Chaincode/LC/LC.go:36-169 | any sequence of transactions keeps the ledger invariant |
| Properties.RunIsAppendOnly | Chaincode/LC/LC.go:53-57 | over any run no credit disappears, and every key's earlier history is a prefix of its later history |
| Properties.RegisterThenRead | Chaincode/LC/LC.go:48-78 | registering an absent id and then reading it returns exactly the registered record |
| Properties.RegisterTwiceFails | Chaincode/LC/LC.go:40-45 | after a successful registration, a second registration of the same id fails with AlreadyExists and leaves the world unchanged |
| Properties.UpdateOfAbsentFails | Chaincode/LC/LC.go:86-91 | transfer, verify and execute of an absent id (also lines 116-121 and 146-151) fail with NotFound, leave the world unchanged and create no key |
| Properties.ReadOfAbsentFails | Chaincode/LC/LC.go:65-70 | reading an absent id fails with the "does not exists" error and leaves the world unchanged |
| Properties.TransferThenRead | Chaincode/LC/LC.go:95-105 | after a transfer, the read returns the old record with only owner and status replaced |
| Properties.VerifyIdempotent | Chaincode/LC/LC.go:125-134 | verifying a present credit twice leaves the same records as verifying it once |
| Properties.ExcuteIdempotent | Chaincode/LC/LC.go:155-164 | executing a present credit twice leaves the same records as executing it once |
| Properties.HistoryAgreesWithRead | Chaincode/LC/LC.go:182-215 | on a consistent ledger a credit has history exactly when it can be read, its first history record, the newest write, is the record the read returns, and no history record is a deletion or a stub |
| Properties.RegisterStartsHistory | Chaincode/LC/LC.go:48-57 | on a consistent ledger, registering a fresh id gives it a one-entry history whose record is the registered credit, tagged with the registering transaction |

## Left out

- `GoFmt.Format` models Go's formatting on characters, where Go scans UTF-8 bytes; the two agree on valid UTF-8 text. It follows the directive scan of Go's `doPrintf` (flags, argument index, width, precision, argument index, verb) as of Go 1.x releases that print `%!(NOVERB)`, `%!v(MISSING)`, `%!v(BADINDEX)`, `%!(BADWIDTH)` and `%!(BADPREC)`.
- GoFmt.Format: the other directive forms (flags, width, precision, argument indexes, and `%` used as the verb after them, which Go prints as `%`) are modelled in its body, following Go's scan, but no lemma states their output.
- The history order is a property of the peer, not of the chaincode. The model fixes it to newest first, the order Fabric 2.x history iterators yield. An older peer that yields oldest first would reverse the answer of `Chaincode.GetCreditHistory`.

- JSON encoding: the stored value is modelled as the `LC` record itself, not as marshalled bytes (LC.go:49, 73, 96, 101, 130, 160, 191). The unmarshal errors that `TransferCredit`, `VerifyCredit` and `ExcuteCredit` ignore cannot arise, because every stored value is a record the chaincode wrote. The same holds for the unmarshal error path in the history loop. The malformed `json: "status"` struct tag (LC.go:25) only changes the JSON key name, so it is not modelled.
- Storage-layer failures: the model has no error from `GetState`, `PutState` or `GetHistoryForKey`, none from the history iterator's `Next`, and none from timestamp conversion (LC.go:41-42, 54-56, 177-179, 185-187, 202-204). They depend on the peer, not on the contract's logic. For the same reason `GetCreditHistory` returns a plain sequence and no `Result`.
- Chaincode.RegisterCredit: the shim's `PutState` refuses the empty key, so registering the id "" fails in the program (LC.go:53-56). The model lets it succeed, as part of the storage errors it leaves out.
- Properties.RegisterThenRead: holds for the id "" only in the model, because the shim refuses to store the empty key.
- Text fields are Unicode strings. `json.Marshal` (LC.go:49, 101) replaces invalid UTF-8 with U+FFFD, so the stored record equals the one built only when its ids, owner and flight are valid UTF-8. The model stores the record as built.
- Timestamps are taken from the transaction context as uninterpreted integers; `ptypes.Timestamp` conversion is not modelled.
- Fabric's endorsement, ordering and commit are collapsed into one step: a transaction reads the committed world and, if it succeeds, commits at once. The read/write-set conflicts between concurrent transactions are not modelled.
- Deletions: the chaincode has no function that deletes a key. History entries that are deletions or have empty values are still accepted by `GetCreditHistory`, but they cannot arise in a consistent ledger.
- A history query on an id with no history returns Go's nil slice; the model returns the empty sequence.
- `weight` and `price` are Go `int`, modelled as the 64-bit range `Int64`. The chaincode does no arithmetic on them, so no wrap-around is needed.
- Logging and printing (`fmt.Println`, `log.Printf`), the deferred iterator `Close` (LC.go:180) and chaincode start-up in `main()` (LC.go:219-228) are left out.
- Application/main.js: the Express HTTP server, its fabric-network gateway sessions and its CA and wallet helpers are left out. They are I/O glue over libraries that are not part of this model.
- Properties.VerifyIdempotent: idempotence holds for the stored records only. Each call appends its own entry to the key's history, so the full world differs after the second call.
- Properties.ExcuteIdempotent: idempotence holds for the stored records only, for the same reason as for VerifyIdempotent.

## Findings

| source | as written | input that shows it | evidently intended | confidence | as-written member | corrected member |
|---|---|---|---|---|---|---|
| Chaincode/LC/LC.go:44 | the credit id is concatenated into the format string of `fmt.Errorf`, as also at lines 69, 90, 120 and 150, so a `%` in the id is read as a directive | the ids `%` and `%%!(NOVERB)` both yield "This credit already exists: %!(NOVERB)" | the id appears verbatim after the fixed wording, for example through a `%s` operand | high; not executed | Credit.MessageCollision | Credit.IntendedMessageInjective |
