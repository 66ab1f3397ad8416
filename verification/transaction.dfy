/**
 * One explorer record: decoding it (Transaction.UnmarshalJSON with its counterparty
 * resolution), the derived accessors Fee, Amount, ID, Addresses and Gas, and the
 * Transaction object whose direction tag prepareTransactions later sets in place.
 */
module TransactionRecord {
  import opened Wrappers
  import opened Errors
  import opened Decimal
  import opened Hex
  import opened Codecs

  /** One element of the explorer's result array as received; None is a key the object lacks.
      hash and from are decoded by go-ethereum and arrive here already decoded. */
  datatype RawTransaction = RawTransaction(
    gasUsed: Option<JsonValue>,
    gasPrice: Option<JsonValue>,
    hash: Hash,
    timeStamp: Option<JsonValue>,
    confirmations: Option<JsonValue>,
    from: Address,
    to: Option<JsonValue>,
    contractAddress: Option<JsonValue>,
    value: Option<JsonValue>)

  /** The resolved counterparty: the direct recipient, or the address of a created contract.
      That exactly one of the two is present is a fact of the type. */
  datatype Counterparty = To(address: Address) | Contract(address: Address)

  /** One entry of Addresses(): the counterparty in text form and the amount. */
  datatype AddressAndAmount = AddressAndAmount(address: string, amount: int)

  const TwoTo64: int := 0x1_0000_0000_0000_0000

  /** A decoded record (the jsonTransaction of a Transaction). */
  datatype Record = Record(
    gasUsed: int,
    gasPrice: int,
    hash: Hash,
    time: Timestamp,
    confirmations: int,
    from: Address,
    counterparty: Counterparty,
    value: int)
  {
    /** The Go field `to`: set only when the counterparty is a direct recipient. */
    function ToField(): Option<Address> {
      if counterparty.To? then Some(counterparty.address) else None
    }

    /** The Go field `contractAddress`: set only for a contract creation. */
    function ContractAddressField(): Option<Address> {
      if counterparty.Contract? then Some(counterparty.address) else None
    }

    /** Fee(): gas used times gas price, in exact integer arithmetic: nothing is lost to
        overflow, so dividing by either factor gives the other back. */
    function Fee(): (f: int)
      ensures gasPrice != 0 ==> f / gasPrice == gasUsed
      ensures gasUsed != 0 ==> f / gasUsed == gasPrice
      ensures gasUsed >= 0 && gasPrice >= 0 ==> f >= 0
    {
      ExactQuotient(gasUsed, gasPrice);
      ExactQuotient(gasPrice, gasUsed);
      gasUsed * gasPrice
    }

    /** Amount(): the transferred value. */
    function Amount(): int { value }

    /** Timestamp(): the decoded time of the record. */
    function Timestamp(): Codecs.Timestamp { time }

    /** ID(): the hash in text form ("0x" and 64 hex digits); the key prepareTransactions
        deduplicates on. */
    function ID(): (id: string)
      ensures |id| == 2 + 2 * HashLength && id[..2] == "0x"
      ensures AllHex(id[2..])
    {
      HashHex(hash)
    }

    /** Addresses(): a single entry naming the counterparty and carrying Amount(). */
    function Addresses(): (r: seq<AddressAndAmount>)
      ensures |r| == 1
      ensures r[0].address == AddressHex(counterparty.address)
      ensures IsHexAddress(r[0].address) && HexToAddress(r[0].address) == counterparty.address
      ensures r[0].amount == Amount()
    {
      var address := match counterparty
        case To(a) => AddressHex(a)
        case Contract(a) => AddressHex(a);
      AddressHexRoundTrip(counterparty.address);
      [AddressAndAmount(address, Amount())]
    }

    /** Gas(): gasUsed converted to uint64 through int64 (Go panics when it is not an int64),
        so a negative value wraps around modulo 2^64. */
    function Gas(): (g: int)
      requires IsInt64(gasUsed)
      ensures 0 <= g < TwoTo64
      ensures (g - gasUsed) % TwoTo64 == 0
      ensures gasUsed >= 0 ==> g == gasUsed
    {
      if gasUsed < 0 then gasUsed + TwoTo64 else gasUsed
    }
  }

  function Abs(x: int): nat { if x < 0 then -x else x }

  lemma {:induction false} MultipleAtLeast(d: nat, b: nat)
    requires d >= 1
    ensures d * b >= b
    decreases d
  {
    if d > 1 {
      MultipleAtLeast(d - 1, b);
      assert d * b == (d - 1) * b + b;
    }
  }

  /** A non-zero multiple of b is at least as large as b in magnitude. */
  lemma NoSmallMultiple(d: int, b: int)
    ensures d != 0 ==> Abs(d * b) >= Abs(b)
  {
    if d != 0 {
      MultipleAtLeast(Abs(d), Abs(b));
      assert Abs(d * b) == Abs(d) * Abs(b);
    }
  }

  /** A product divided by one of its non-zero factors is the other factor. */
  lemma ExactQuotient(a: int, b: int)
    ensures b != 0 ==> (a * b) / b == a
  {
    if b != 0 {
      var q := (a * b) / b;
      assert (a - q) * b == a * b - q * b;
      NoSmallMultiple(a - q, b);
    }
  }

  /** A numeric key: a missing key leaves the zero big.Int, a present one must be a decimal string. */
  function BigIntField(f: Option<JsonValue>): (r: Result<int, Error>)
    ensures r.Ok? <==> f.None? || (f.value.JsonString? && IsLiteral(f.value.text))
    ensures r.Ok? ==> r.value == (if f.None? then 0 else LiteralValue(f.value.text))
  {
    match f
    case None => Ok(0)
    case Some(v) => UnmarshalBigInt(v)
  }

  /** The timeStamp key: a missing key leaves Go's zero time, a present one must be a decimal
      string within int64. */
  function TimestampField(f: Option<JsonValue>): (r: Result<Timestamp, Error>)
    ensures r.Ok? <==> f.None? || (f.value.JsonString? && IsLiteral(f.value.text) && IsInt64(LiteralValue(f.value.text)))
    ensures r.Ok? ==> r.value == (if f.None? then ZeroTime else Unix(LiteralValue(f.value.text)))
  {
    match f
    case None => Ok(ZeroTime)
    case Some(v) => UnmarshalTimestamp(v)
  }

  /** A string key: a missing key and null both leave the empty string, any value other than
      a string or null is a type error. */
  function StringField(f: Option<JsonValue>): (r: Result<string, Error>)
    ensures r.Ok? <==> f != Some(JsonNonString)
    ensures r.Ok? ==> r.value == (if f.Some? && f.value.JsonString? then f.value.text else "")
  {
    match f
    case None => Ok("")
    case Some(v) => UnmarshalString(v)
  }

  /** The switch of Transaction.UnmarshalJSON: a non-empty `to` is used alone and must be a
      hex address; otherwise a non-empty contractAddress, under the same check; otherwise an error. */
  function ResolveCounterparty(to: string, contractAddress: string): (r: Result<Counterparty, Error>)
    ensures r.Ok? ==> (r.value.To? <==> to != "")
    ensures to != "" ==> (r.Ok? <==> IsHexAddress(to))
    ensures to != "" && r.Ok? ==> r.value == To(HexToAddress(to))
    ensures to != "" && !IsHexAddress(to) ==> r == Err(AddressExpected(to))
    ensures to == "" && contractAddress != "" ==> (r.Ok? <==> IsHexAddress(contractAddress))
    ensures to == "" && contractAddress != "" && r.Ok? ==> r.value == Contract(HexToAddress(contractAddress))
    ensures to == "" && contractAddress != "" && !IsHexAddress(contractAddress) ==>
      r == Err(AddressExpected(contractAddress))
    ensures to == "" && contractAddress == "" ==> r == Err(MissingCounterparty)
  {
    if to != "" then
      if !IsHexAddress(to) then Err(AddressExpected(to)) else Ok(To(HexToAddress(to)))
    else if contractAddress != "" then
      if !IsHexAddress(contractAddress) then Err(AddressExpected(contractAddress))
      else Ok(Contract(HexToAddress(contractAddress)))
    else
      Err(MissingCounterparty)
  }

  /** Transaction.UnmarshalJSON: decode every field, then resolve the counterparty. */
  function DecodeTransaction(raw: RawTransaction): (r: Result<Record, Error>)
    ensures r.Ok? <==>
      && BigIntField(raw.gasUsed).Ok? && BigIntField(raw.gasPrice).Ok?
      && TimestampField(raw.timeStamp).Ok? && BigIntField(raw.confirmations).Ok?
      && StringField(raw.to).Ok? && StringField(raw.contractAddress).Ok?
      && BigIntField(raw.value).Ok?
      && ResolveCounterparty(StringField(raw.to).value, StringField(raw.contractAddress).value).Ok?
    ensures r.Ok? ==> r.value == Record(
      BigIntField(raw.gasUsed).value, BigIntField(raw.gasPrice).value, raw.hash,
      TimestampField(raw.timeStamp).value, BigIntField(raw.confirmations).value, raw.from,
      ResolveCounterparty(StringField(raw.to).value, StringField(raw.contractAddress).value).value,
      BigIntField(raw.value).value)
  {
    var gasUsed :- BigIntField(raw.gasUsed);
    var gasPrice :- BigIntField(raw.gasPrice);
    var time :- TimestampField(raw.timeStamp);
    var confirmations :- BigIntField(raw.confirmations);
    var to :- StringField(raw.to);
    var contractAddress :- StringField(raw.contractAddress);
    var value :- BigIntField(raw.value);
    var counterparty :- ResolveCounterparty(to, contractAddress);
    Ok(Record(gasUsed, gasPrice, raw.hash, time, confirmations, raw.from, counterparty, value))
  }

  /** A recipient written by Address.Hex() resolves to that address, whatever contractAddress says;
      with no recipient, a contract address resolves to itself. */
  lemma ResolveRoundTrip(a: Address, contractAddress: string)
    ensures ResolveCounterparty(AddressHex(a), contractAddress) == Ok(To(a))
    ensures ResolveCounterparty("", AddressHex(a)) == Ok(Contract(a))
  {
    AddressHexRoundTrip(a);
    assert AddressHex(a) != "" by { assert |AddressHex(a)| >= 2; }
  }

  /** On success exactly one of the Go fields `to` and `contractAddress` is set, `to` being
      the one exactly when the record's `to` text was non-empty. */
  lemma DecodeSetsExactlyOne(raw: RawTransaction)
    requires DecodeTransaction(raw).Ok?
    ensures var rec := DecodeTransaction(raw).value;
      && (rec.ToField().Some? != rec.ContractAddressField().Some?)
      && (rec.ToField().Some? <==> StringField(raw.to).value != "")
  {
  }

  /** A non-empty `to` decides the counterparty: it must be a hex address, and the
      contractAddress text is ignored (as long as it is a JSON string, null or absent). */
  lemma DecodePrefersTo(raw: RawTransaction, t: string, c: Option<JsonValue>)
    requires raw.to == Some(JsonString(t)) && t != ""
    requires raw.contractAddress != Some(JsonNonString) && c != Some(JsonNonString)
    ensures DecodeTransaction(raw.(contractAddress := c)) == DecodeTransaction(raw)
    ensures !IsHexAddress(t) ==> DecodeTransaction(raw).Err?
    ensures DecodeTransaction(raw).Ok? ==> IsHexAddress(t) && DecodeTransaction(raw).value.counterparty == To(HexToAddress(t))
  {
    assert StringField(c).Ok? && StringField(raw.contractAddress).Ok?;
  }

  /** A record with neither a recipient nor a contract address does not decode. */
  lemma DecodeNeedsCounterparty(raw: RawTransaction)
    requires StringField(raw.to) == Ok("") && StringField(raw.contractAddress) == Ok("")
    ensures DecodeTransaction(raw).Err?
  {
  }

  /** With an empty (or null, or missing) `to`, a non-empty contractAddress decides the
      counterparty: the record decodes only if it is a hex address, and then names it. */
  lemma DecodeUsesContractAddress(raw: RawTransaction, c: string)
    requires StringField(raw.to) == Ok("")
    requires raw.contractAddress == Some(JsonString(c)) && c != ""
    ensures !IsHexAddress(c) ==> DecodeTransaction(raw).Err?
    ensures DecodeTransaction(raw).Ok? ==>
      IsHexAddress(c) && DecodeTransaction(raw).value.counterparty == Contract(HexToAddress(c))
  {
  }

  /** A present numeric or time key that is null, not a string, or not a decimal integer fails
      the record; so does a present timeStamp outside int64. */
  lemma DecodeFailsOnBadField(raw: RawTransaction)
    requires || (raw.gasUsed.Some? && !BigIntField(raw.gasUsed).Ok?)
             || (raw.gasPrice.Some? && !BigIntField(raw.gasPrice).Ok?)
             || (raw.timeStamp.Some? && !TimestampField(raw.timeStamp).Ok?)
             || (raw.confirmations.Some? && !BigIntField(raw.confirmations).Ok?)
             || (raw.value.Some? && !BigIntField(raw.value).Ok?)
             || raw.to == Some(JsonNonString) || raw.contractAddress == Some(JsonNonString)
    ensures DecodeTransaction(raw).Err?
  {
  }

  /** Keys the record lacks take Go's zero values: 0 for the numbers, the zero time for timeStamp. */
  lemma DecodeMissingKeys(raw: RawTransaction)
    requires DecodeTransaction(raw).Ok?
    ensures var rec := DecodeTransaction(raw).value;
      && (raw.gasUsed.None? ==> rec.gasUsed == 0)
      && (raw.gasPrice.None? ==> rec.gasPrice == 0)
      && (raw.timeStamp.None? ==> rec.time == ZeroTime)
      && (raw.confirmations.None? ==> rec.confirmations == 0)
      && (raw.value.None? ==> rec.value == 0 && rec.Amount() == 0)
  {
  }

  /** The confirmations of a decoded record are the exact value of the decimal text received. */
  lemma DecodedConfirmations(raw: RawTransaction, text: string)
    requires raw.confirmations == Some(JsonString(text))
    requires DecodeTransaction(raw).Ok?
    ensures IsLiteral(text)
    ensures DecodeTransaction(raw).value.confirmations == LiteralValue(text)
  {
  }

  /** The fee of a decoded record is the exact product of the two decimal texts received. */
  lemma DecodedFee(raw: RawTransaction, used: string, price: string)
    requires raw.gasUsed == Some(JsonString(used))
    requires raw.gasPrice == Some(JsonString(price))
    requires DecodeTransaction(raw).Ok?
    ensures IsLiteral(used) && IsLiteral(price)
    ensures DecodeTransaction(raw).value.Fee() == LiteralValue(used) * LiteralValue(price)
  {
  }

  /** The amount of a decoded record is the exact value of the decimal text received. */
  lemma DecodedAmount(raw: RawTransaction, value: string)
    requires raw.value == Some(JsonString(value))
    requires DecodeTransaction(raw).Ok?
    ensures IsLiteral(value)
    ensures DecodeTransaction(raw).value.Amount() == LiteralValue(value)
  {
  }

  /** The time of a decoded record is the instant the received decimal text names, in seconds
      from the Unix epoch, and that text is an int64. */
  lemma DecodedTimestamp(raw: RawTransaction, text: string)
    requires raw.timeStamp == Some(JsonString(text))
    requires DecodeTransaction(raw).Ok?
    ensures IsLiteral(text) && IsInt64(LiteralValue(text))
    ensures DecodeTransaction(raw).value.Timestamp() == Unix(LiteralValue(text))
  {
  }

  /** A plain transfer: 21000 gas at a price of 1 gwei (1000000000 wei) costs 21000 gwei. */
  lemma FeeExample(raw: RawTransaction)
    requires raw.gasUsed == Some(JsonString("21000"))
    requires raw.gasPrice == Some(JsonString("1000000000"))
    requires DecodeTransaction(raw).Ok?
    ensures DecodeTransaction(raw).value.Fee() == 21_000_000_000_000
  {
    DecodedFee(raw, "21000", "1000000000");
    GasUsedExampleValue();
    GasPriceExampleValue();
  }

  /** The gas text of the example decodes to 21000. */
  lemma GasUsedExampleValue()
    ensures UnmarshalBigInt(JsonString("21000")) == Ok(21000)
  {
    assert FormatNat(21000) == "21000";
    ParseFormat(21000);
  }

  /** The price text of the example decodes to 1000000000. */
  lemma GasPriceExampleValue()
    ensures UnmarshalBigInt(JsonString("1000000000")) == Ok(1000000000)
  {
    // One power of ten at a time, so that each step unfolds FormatNat only once.
    assert FormatNat(1) == "1";
    assert FormatNat(10) == "10";
    assert FormatNat(100) == "100";
    assert FormatNat(1000) == "1000";
    assert FormatNat(10000) == "10000";
    assert FormatNat(100000) == "100000";
    assert FormatNat(1000000) == "1000000";
    assert FormatNat(10000000) == "10000000";
    assert FormatNat(100000000) == "100000000";
    assert FormatNat(1000000000) == "1000000000";
    ParseFormat(1000000000);
  }

  /** Two records have the same ID exactly when they have the same hash. */
  lemma IDIdentifiesHash(r1: Record, r2: Record)
    ensures r1.ID() == r2.ID() <==> r1.hash == r2.hash
  {
    HashHexInjective(r1.hash, r2.hash);
  }

  /** accounts.TxType, with Unclassified for the Go zero value a record has before
      prepareTransactions sets it. */
  datatype TxType = Unclassified | Receive | Send | SendSelf

  /** A decoded transaction: its record does not change after decoding; its direction tag does. */
  class Transaction {
    const json: Record
    var txType: TxType

    constructor (json: Record)
      ensures this.json == json && txType == Unclassified
    {
      this.json := json;
      txType := Unclassified;
    }

    /** Type(): the direction tag. */
    function Type(): TxType
      reads this
    {
      txType
    }
  }

  /** Every record before position i decodes: a failure at i is the first one. */
  predicate FirstFailure(raws: seq<RawTransaction>, i: nat)
    requires i <= |raws|
  {
    forall k :: 0 <= k < i ==> DecodeTransaction(raws[k]).Ok?
  }

  /** json.Unmarshal of the result array into []*Transaction: one fresh Transaction per
      element, each decoded by UnmarshalJSON, the whole array failing at the first bad element. */
  method DecodeBatch(raws: seq<RawTransaction>) returns (r: Result<seq<Transaction>, Error>)
    ensures r.Ok? <==> forall i :: 0 <= i < |raws| ==> DecodeTransaction(raws[i]).Ok?
    ensures r.Ok? ==> |r.value| == |raws|
    ensures r.Ok? ==> forall i :: 0 <= i < |raws| ==>
      && fresh(r.value[i])
      && r.value[i].json == DecodeTransaction(raws[i]).value
      && r.value[i].txType == Unclassified
    ensures r.Ok? ==> forall i, j :: 0 <= i < j < |r.value| ==> r.value[i] != r.value[j]
    ensures r.Err? ==>
      exists i :: 0 <= i < |raws| && DecodeTransaction(raws[i]) == Err(r.error) && FirstFailure(raws, i)
  {
    r := DecodeBatchWith(raws, DecodeTransaction);
    UnmarshalArrayOk(raws, DecodeTransaction);
    UnmarshalArrayErr(raws, DecodeTransaction);
  }

  /** The loop of DecodeBatch, stated against UnmarshalArray with the element decoder. */
  method DecodeBatchWith(raws: seq<RawTransaction>, decode: RawTransaction -> Result<Record, Error>)
    returns (r: Result<seq<Transaction>, Error>)
    ensures r.Ok? <==> UnmarshalArray(raws, decode).Ok?
    ensures r.Err? ==> r.error == UnmarshalArray(raws, decode).error
    ensures r.Ok? ==> |r.value| == |raws|
    ensures r.Ok? ==> forall i :: 0 <= i < |raws| ==>
      && fresh(r.value[i])
      && r.value[i].json == UnmarshalArray(raws, decode).value[i]
      && r.value[i].txType == Unclassified
    ensures r.Ok? ==> forall i, j :: 0 <= i < j < |r.value| ==> r.value[i] != r.value[j]
  {
    var out: seq<Transaction> := [];
    ghost var recs: seq<Record> := [];
    var i := 0;
    while i < |raws|
      invariant 0 <= i <= |raws| && |out| == i
      invariant UnmarshalArray(raws[..i], decode) == Ok(recs)
      invariant forall k :: 0 <= k < i ==>
        && fresh(out[k])
        && out[k].json == recs[k]
        && out[k].txType == Unclassified
      invariant forall k, m :: 0 <= k < m < i ==> out[k] != out[m]
    {
      assert raws[..i + 1][..i] == raws[..i];
      match decode(raws[i])
      case Err(e) =>
        UnmarshalArrayKeepsError(raws, decode, i + 1);
        return Err(e);
      case Ok(rec) =>
        var tx := new Transaction(rec);
        out := out + [tx];
        recs := recs + [rec];
        i := i + 1;
    }
    assert raws[..i] == raws;
    r := Ok(out);
  }
}
