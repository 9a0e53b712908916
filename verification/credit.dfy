/**
 The luggage-credit record stored in the world state, the status words the
 chaincode writes into it, and the errors its functions return.
 */
module Credit {
  import opened GoFmt

  const MinInt64: int := -0x8000_0000_0000_0000
  const MaxInt64: int := 0x7FFF_FFFF_FFFF_FFFF

  /** Go's `int` on the 64-bit peers that run the chaincode. */
  type Int64 = x: int | MinInt64 <= x <= MaxInt64

  /** The document type every record written by `RegisterCredit` carries. */
  const CreditDocType: string := "credit"

  /** Status words, spelled exactly as the chaincode writes them. */
  const Registered: string := "registered"
  const Transferred: string := "transfered"
  const Verified: string := "verified"
  const Executed: string := "excuted"

  /** The statuses a record can hold once some chaincode function wrote it. */
  const Statuses: set<string> := {Registered, Transferred, Verified, Executed}

  /** One luggage credit (the `LC` struct). */
  datatype LC = LC(
    docType: string,
    creditId: string,
    owner: string,
    flightId: string,
    weight: Int64,
    price: Int64,
    status: string)

  /** The zero `LC` value with only its credit id set: what a history entry with an empty value becomes. */
  function Stub(creditId: string): LC {
    LC("", creditId, "", "", 0, 0, "")
  }

  /** The errors the chaincode functions return when the existence check fails. */
  datatype Error =
    | AlreadyExists(creditId: string)   // RegisterCredit on a present id
    | NotFoundOnRead(creditId: string)  // ReadCredit on an absent id
    | NotFound(creditId: string)        // TransferCredit, VerifyCredit, ExcuteCredit on an absent id

  /** The fixed text each error message starts with; ReadCredit's wording differs from the updates'. */
  function MessagePrefix(e: Error): string {
    match e
    case AlreadyExists(_) => "This credit already exists: "
    case NotFoundOnRead(_) => "This credit does not exists: "
    case NotFound(_) => "This credit does not exist: "
  }

  /**
   The error text the chaincode returns: the fixed wording and the credit id,
   concatenated and then used as the format string of `fmt.Errorf`, so a `%` in
   the id is read as a formatting directive.
   */
  function Message(e: Error): (m: string)
    ensures m == MessagePrefix(e) + Format(e.creditId)
    ensures '%' !in e.creditId ==> m == IntendedMessage(e)
  {
    FormatPlainPrefix(MessagePrefix(e), e.creditId);
    Format(MessagePrefix(e) + e.creditId)
  }

  /** The text the error messages are evidently meant to carry: the fixed wording followed by the credit id verbatim. */
  function IntendedMessage(e: Error): (m: string)
    ensures |m| > |e.creditId|
    ensures m[|m| - |e.creditId|..] == e.creditId
  {
    MessagePrefix(e) + e.creditId
  }

  /** Distinct prefixes differ at a position both reach: "already" against "does not" at 12, "exists" against "exist:" at 26. */
  lemma PrefixesDisagree(e1: Error, e2: Error)
    requires MessagePrefix(e1) != MessagePrefix(e2)
    ensures var k := if e1.AlreadyExists? || e2.AlreadyExists? then 12 else 26;
      k < |MessagePrefix(e1)| && k < |MessagePrefix(e2)| && MessagePrefix(e1)[k] != MessagePrefix(e2)[k]
  {
  }

  /** Different errors never share an intended message: both the kind and the id can be read back from the text. */
  lemma IntendedMessageInjective(e1: Error, e2: Error)
    requires IntendedMessage(e1) == IntendedMessage(e2)
    ensures e1 == e2
  {
    var p1, p2 := MessagePrefix(e1), MessagePrefix(e2);
    var m := IntendedMessage(e1);
    assert m == p1 + e1.creditId && m == p2 + e2.creditId;
    if p1 == p2 {
      assert e1.creditId == m[|p1|..] == e2.creditId;
    } else {
      PrefixesDisagree(e1, e2);
      assert false;
    }
  }

  /** For ids without `%` the messages as written are the intended ones, so they too tell errors apart. */
  lemma PlainMessageInjective(e1: Error, e2: Error)
    requires '%' !in e1.creditId && '%' !in e2.creditId
    requires Message(e1) == Message(e2)
    ensures e1 == e2
  {
    IntendedMessageInjective(e1, e2);
  }

  /** A trailing `%` in the id is printed as `%!(NOVERB)`, so the id is not the end of the message. */
  lemma MessageMangles()
    ensures Message(AlreadyExists("50%")) == "This credit already exists: 50%!(NOVERB)"
  {
    var prefix := MessagePrefix(AlreadyExists("50%"));
    calc {
      Message(AlreadyExists("50%"));
      prefix + Format("50%");
      { assert "50" + "%" == "50%"; FormatPlainPrefix("50", "%"); }
      prefix + ("50" + Format("%"));
      { FormatLonePercent(); }
      prefix + ("50" + NoVerb);
      "This credit already exists: 50%!(NOVERB)";
    }
  }

  /** Two different ids, `%` and `%%!(NOVERB)`, give the very same "already exists" message. */
  lemma MessageCollision()
    ensures AlreadyExists("%") != AlreadyExists("%%!(NOVERB)")
    ensures Message(AlreadyExists("%")) == Message(AlreadyExists("%%!(NOVERB)"))
  {
    var prefix := MessagePrefix(AlreadyExists("%"));
    calc {
      Message(AlreadyExists("%%!(NOVERB)"));
      prefix + Format("%%!(NOVERB)");
      { assert "%%" + "!(NOVERB)" == "%%!(NOVERB)"; FormatEscapedPercent("!(NOVERB)"); }
      prefix + ("%" + Format("!(NOVERB)"));
      { assert '%' !in "!(NOVERB)"; }
      prefix + ("%" + "!(NOVERB)");
      { assert "%" + "!(NOVERB)" == NoVerb; }
      prefix + NoVerb;
      { FormatLonePercent(); }
      prefix + Format("%");
      Message(AlreadyExists("%"));
    }
  }
}
