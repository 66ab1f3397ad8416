# Etherscan account-history client, modelled in Dafny

This project models the Etherscan client of the BitBox wallet backend
(`backend/coins/eth/etherscan/etherscan.go`). The client asks the Etherscan explorer for
the normal transactions of one Ethereum account up to a block bound. It decodes each
record of the answer and prepares the batch for the wallet:

- repeated records are dropped;
- a record that does not involve the account fails the whole batch;
- every kept record is tagged in place as a send, a receive or a transfer to self.

The model has these parts:

- `decimal.dfy` (module `Decimal`): the base-10 grammar `[+-]?[0-9]+` that both Go's
  `big.Int.SetString(s, 10)` and `strconv.ParseInt(s, 10, 64)` accept. It holds a
  digit-by-digit parser proved against that grammar, and the base-10 printer (`Text(10)`)
  with round-trip lemmas in both directions.
- `hex.dfy` (module `Hex`): addresses (20 bytes) and hashes (32 bytes), hex encoding, and
  go-ethereum's `IsHexAddress` / `HexToAddress`. `Address.Hex()` and `Hash.Hex()` are
  modelled as lower-case `0x` text, which is injective.
- `codecs.dfy` (module `Codecs`): `jsonBigInt.UnmarshalJSON` and
  `timestamp.UnmarshalJSON`. The JSON value they receive is a string, `null` (Go leaves
  the string empty, so the parse fails) or any other JSON value (a type error). It also
  holds the decoding of a JSON array with a given element decoder, which stops at the
  first element that fails.
- `transaction.dfy` (module `TransactionRecord`): `Transaction.UnmarshalJSON` with its
  counterparty resolution. The counterparty is the datatype `To(address) | Contract(address)`,
  so the Go invariant "exactly one of `to` and `contractAddress` is set" is a fact of the
  type. The module also holds the accessors `Fee`, `Amount`, `Timestamp`, `ID`,
  `Addresses` and `Gas`, the `Transaction` class whose `txType` field is updated in place,
  and the decoding of the whole result array.
- `prepare.dfy` (module `Prepare`): `prepareTransactions`.
  - It is an imperative loop over the batch that grows a set of seen IDs, appends to the
    output and writes each kept record's `txType`.
  - It is proved against a value-level specification:
    - `Kept` lists the first occurrence of every hash;
    - `Stop` is the first position the account check rejects;
    - `Classify` is the tag, stated over addresses.
  - Lemmas show that the Go code's text comparisons agree with that specification.
- `client.dfy` (module `Client`): the `EtherScan` client.
  - Its rate limiter is modelled over an abstract clock in milliseconds.
  - `nextAllowed` is the time the limiter channel fires. It starts at "now" and is
    re-armed to the call's finish time plus 210 ms, whether the call succeeds or fails.
  - Ghost histories of the call start and finish times prove that consecutive calls start
    at least 210 ms apart.
  - `Transactions` sends the fixed query and prepares the decoded batch.
- `wrappers.dfy` (modules `Wrappers`, `Errors`): `Option`, `Result` and the error kinds.

## Model

| member | source | states |
|---|---|---|
| Decimal.Parse | backend/coins/eth/etherscan/etherscan.go:68-71 | A text parses exactly when it is an optional `+`/`-` followed by one or more decimal digits, and then to the exact integer it denotes (no width limit) |
| Decimal.ScanDigitsValue | backend/coins/eth/etherscan/etherscan.go:68 | On a string of decimal digits the left-to-right scan yields the base-10 value of the string |
| Decimal.ParseFormat | backend/coins/eth/etherscan/etherscan.go:247 | The base-10 text of any integer is canonical and parses back to that integer |
| Decimal.FormatParse | backend/coins/eth/etherscan/etherscan.go:68-72 | A canonical decimal text parses to an integer whose base-10 text is the same text |
| Decimal.FormatInt | backend/coins/eth/etherscan/etherscan.go:247 | The base-10 text of an integer is non-empty, starts with `-` exactly when the integer is negative, and is otherwise all decimal digits |
| Codecs.UnmarshalBigInt | backend/coins/eth/etherscan/etherscan.go:63-74 | Succeeds exactly when the JSON value is a string of the grammar `[+-]?[0-9]+`, with its exact value; null, a non-string value or any other text is an error |
| Codecs.UnmarshalTimestamp | backend/coins/eth/etherscan/etherscan.go:79-90 | Succeeds exactly when the JSON value is a string of that grammar whose value is within the int64 range, giving that many seconds after the Unix epoch; anything else is an error |
| Codecs.BigIntRoundTrip | backend/coins/eth/etherscan/etherscan.go:63-74 | Every integer, of any size, printed in base 10 decodes back to itself |
| Codecs.BigIntPrintsBack | backend/coins/eth/etherscan/etherscan.go:63-74 | A canonical decimal string decodes, and printing the result gives the string back |
| Codecs.BigIntPrecisionExample | backend/coins/eth/etherscan/etherscan.go:63-74 | A 30-digit amount decodes without truncation and prints back unchanged |
| Codecs.TimestampRoundTrip | backend/coins/eth/etherscan/etherscan.go:79-90 | Every int64 second count printed in base 10 decodes to that instant |
| Codecs.TimestampRejectsOutOfRange | backend/coins/eth/etherscan/etherscan.go:84-87 | A well-formed integer outside int64 is rejected as a timestamp, although the same text decodes as a big integer |
| Codecs.UnmarshalString | backend/coins/eth/etherscan/etherscan.go:64-65 | Decoding into a Go string succeeds exactly when the JSON value is not a non-string; a string gives its text, null leaves the empty string, anything else is a JSON type error |
| Codecs.UnmarshalArrayOk | backend/coins/eth/etherscan/etherscan.go:250-253 | Decoding an array with an element decoder succeeds exactly when every element decodes, and then the i-th value is the i-th element's value |
| Codecs.UnmarshalArrayErr | backend/coins/eth/etherscan/etherscan.go:250-253 | A failing array decode reports the error of an element all of whose predecessors decode, that is, of the first failing element |
| Codecs.UnmarshalArrayKeepsError | backend/coins/eth/etherscan/etherscan.go:250-253 | Once a prefix of the array fails to decode, the whole array fails with the same error |
| Hex.DecodeEncode | backend/coins/eth/etherscan/etherscan.go:128 | Decoding the hex text of a byte string gives the bytes back |
| Hex.EncodeDecode | backend/coins/eth/etherscan/etherscan.go:128 | Encoding the bytes read from hex text of even length gives that text with its digits in lowercase |
| Hex.AddressHexRoundTrip | backend/coins/eth/etherscan/etherscan.go:125-128 | The text form of an address passes `IsHexAddress` and `HexToAddress` reads it back as the same address |
| Hex.AddressHexInjective | backend/coins/eth/etherscan/etherscan.go:221-231 | Two addresses have the same text form exactly when they are equal |
| Hex.HashHexInjective | backend/coins/eth/etherscan/etherscan.go:156-158 | Two hashes have the same text form exactly when they are equal |
| Hex.HexToAddress | backend/coins/eth/etherscan/etherscan.go:128 | The address read from text that `IsHexAddress` accepts has as its text form `0x` and the given digits in lowercase |
| Hex.AddressHex | backend/coins/eth/etherscan/etherscan.go:179 | The text form of an address is `0x` followed by 40 hex digits |
| Hex.HashHex | backend/coins/eth/etherscan/etherscan.go:157 | The text form of a hash is `0x` followed by 64 hex digits |
| Hex.HexAddressPrefixOptional | backend/coins/eth/etherscan/etherscan.go:125-128 | `IsHexAddress` accepts 40 hex digits with or without a `0x` or `0X` prefix alike, and `HexToAddress` reads the same address from all three forms |
| Hex.HexToAddressIgnoresCase | backend/coins/eth/etherscan/etherscan.go:128 | Two accepted texts give the same address exactly when their digits agree up to case |
| TransactionRecord.ResolveCounterparty | backend/coins/eth/etherscan/etherscan.go:123-138 | A non-empty `to` resolves exactly when it is a hex address, to `To` of the address it names, and otherwise fails naming it; with `to` empty, a non-empty `contractAddress` resolves the same way to `Contract`; both empty is the missing-counterparty error; the result is a `To` exactly when `to` is non-empty |
| TransactionRecord.DecodeTransaction | backend/coins/eth/etherscan/etherscan.go:119-140 | Succeeds exactly when every numeric and time field decodes (or is missing), `to` and `contractAddress` are strings, null or missing, and the counterparty resolves; the record then holds each field's decoded value (zero values for missing keys), the received hash and sender, and the resolved counterparty |
| TransactionRecord.BigIntField | backend/coins/eth/etherscan/etherscan.go:92-106 | A numeric key decodes exactly when it is missing or a decimal string, to 0 when missing and to the string's exact value otherwise |
| TransactionRecord.TimestampField | backend/coins/eth/etherscan/etherscan.go:96 | The timeStamp key decodes exactly when it is missing or a decimal string within int64, to Go's zero time when missing and to that instant otherwise |
| TransactionRecord.StringField | backend/coins/eth/etherscan/etherscan.go:100-104 | A string key decodes unless it holds a non-string value, to its text when it is a string and to the empty string when it is null or missing |
| TransactionRecord.ResolveRoundTrip | backend/coins/eth/etherscan/etherscan.go:123-135 | The text form of an address in `to` resolves to `To` of that address whatever `contractAddress` holds; with `to` empty, it resolves to `Contract` of that address |
| TransactionRecord.DecodeSetsExactlyOne | backend/coins/eth/etherscan/etherscan.go:100-139 | After a successful decode exactly one of the fields `to` and `contractAddress` is set, and it is `to` exactly when the received `to` text was non-empty |
| TransactionRecord.DecodePrefersTo | backend/coins/eth/etherscan/etherscan.go:124-129 | With a non-empty `to`, the `contractAddress` text does not change the outcome, a `to` that is not a hex address fails the record, and success means `to` is the counterparty |
| TransactionRecord.DecodeNeedsCounterparty | backend/coins/eth/etherscan/etherscan.go:136-137 | A record whose `to` and `contractAddress` are both empty does not decode |
| TransactionRecord.DecodeUsesContractAddress | backend/coins/eth/etherscan/etherscan.go:130-135 | With `to` empty, null or missing, a non-empty `contractAddress` that is not a hex address fails the record, and success means it is the counterparty |
| TransactionRecord.DecodeFailsOnBadField | backend/coins/eth/etherscan/etherscan.go:119-122 | A present numeric or time field that does not decode, or a `to`/`contractAddress` that is not a string or null, fails the record |
| TransactionRecord.DecodeMissingKeys | backend/coins/eth/etherscan/etherscan.go:92-107 | A missing numeric key decodes as 0 and a missing timeStamp as Go's zero time |
| TransactionRecord.DecodedConfirmations | backend/coins/eth/etherscan/etherscan.go:97 | The confirmations of a decoded record are the exact value of the text received |
| TransactionRecord.Record.Addresses | backend/coins/eth/etherscan/etherscan.go:176-187 | One entry, whose address is the text form of the counterparty, reads back as the counterparty, and whose amount is `Amount()` |
| TransactionRecord.Record.Gas | backend/coins/eth/etherscan/etherscan.go:190-195 | For an int64 gas used, the result is in the uint64 range, equals gas used modulo 2^64, and equals it when it is not negative; outside int64 the call is not allowed (Go panics) |
| TransactionRecord.Record.Fee | backend/coins/eth/etherscan/etherscan.go:143-147 | The fee is computed without loss: divided by either non-zero factor it gives the other, and it is not negative when both factors are not |
| TransactionRecord.Record.ID | backend/coins/eth/etherscan/etherscan.go:156-158 | The ID is the text form of the hash: `0x` followed by 64 hex digits |
| TransactionRecord.DecodedFee | backend/coins/eth/etherscan/etherscan.go:143-147 | The fee of a decoded record is exactly the product of the gas-used and gas-price values received |
| TransactionRecord.DecodedAmount | backend/coins/eth/etherscan/etherscan.go:171-173 | The amount of a decoded record is exactly the value received |
| TransactionRecord.DecodedTimestamp | backend/coins/eth/etherscan/etherscan.go:150-153 | The time of a decoded record is the instant its text names, which is within int64 |
| TransactionRecord.FeeExample | backend/coins/eth/etherscan/etherscan.go:143-147 | 21000 gas at a price of 1000000000 costs exactly 21000000000000 |
| TransactionRecord.GasUsedExampleValue | backend/coins/eth/etherscan/etherscan.go:63-74 | The text `21000` decodes to 21000 |
| TransactionRecord.GasPriceExampleValue | backend/coins/eth/etherscan/etherscan.go:63-74 | The text `1000000000` decodes to 1000000000 |
| TransactionRecord.IDIdentifiesHash | backend/coins/eth/etherscan/etherscan.go:156-158 | Two records have the same ID exactly when they have the same hash |
| TransactionRecord.Transaction.constructor | backend/coins/eth/etherscan/etherscan.go:110-113 | A new transaction holds its decoded record and no direction tag yet |
| TransactionRecord.DecodeBatch | backend/coins/eth/etherscan/etherscan.go:250-253 | Succeeds exactly when every element decodes, with one fresh, distinct, untagged transaction per element holding its record; on failure the error is that of the first element that does not decode |
| TransactionRecord.DecodeBatchWith | backend/coins/eth/etherscan/etherscan.go:250-253 | With any element decoder, succeeds exactly when the array decode does, with the same error otherwise, and then holds one fresh, distinct, untagged transaction per element carrying that element's record |
| Prepare.SeenIDsMembership | backend/coins/eth/etherscan/etherscan.go:202-209 | An ID is in the seen set after n records exactly when one of those records carries it |
| Prepare.KeptExactlyFirsts | backend/coins/eth/etherscan/etherscan.go:205-209 | The kept positions are exactly the first occurrences of their hash, in increasing order |
| Prepare.DeduplicatedIsPick | backend/coins/eth/etherscan/etherscan.go:205-232 | What the walk appends is the transactions at the kept positions, in input order |
| Prepare.StopFromIsFirstRejection | backend/coins/eth/etherscan/etherscan.go:221-223 | The walk passes every position before its stop and stops at the first first-occurrence that does not involve the account |
| Prepare.StopAdvances | backend/coins/eth/etherscan/etherscan.go:221-223 | A position the walk reaches ends it when it is rejected and is passed otherwise |
| Prepare.PrepareTransactions | backend/coins/eth/etherscan/etherscan.go:200-235 | Succeeds exactly when no first occurrence is foreign to the account, returning the first occurrence of every ID in input order; otherwise fails with the ownership error; every record appended before the end is tagged with its direction and every other transaction keeps its old tag |
| Prepare.PrepareOne | backend/coins/eth/etherscan/etherscan.go:206-232 | One loop step: a repeated ID is skipped, a foreign first occurrence ends the walk with nothing appended, any other record is tagged and appended; the seen set and the output stay those of the specification |
| Prepare.PrepareStep | backend/coins/eth/etherscan/etherscan.go:206-231 | The seen-set test is the first-occurrence test, the text-based account check is the rejection test, and the text switch gives the address-level tag |
| Prepare.TextComparisonIsAddressComparison | backend/coins/eth/etherscan/etherscan.go:204-231 | Comparing the text forms of the account, sender and counterparty is comparing the addresses, for the account check and for the tag |
| Prepare.ClassifyByAddress | backend/coins/eth/etherscan/etherscan.go:224-231 | For a record of the account: SendSelf exactly when it is both sender and counterparty, Send exactly when only the sender, Receive exactly when only the counterparty |
| Prepare.Direction | backend/coins/eth/etherscan/etherscan.go:224-231 | The text switch never leaves a record untagged: SendSelf exactly when the account text equals both sender and counterparty texts, Send exactly when only the sender, Receive exactly when not the sender |
| Prepare.Classify | backend/coins/eth/etherscan/etherscan.go:224-231 | The tag over addresses: SendSelf exactly when the account is both sender and counterparty, Send exactly when it is the sender only, Receive exactly when it is not the sender |
| Prepare.DirectionDependsOnAccount | backend/coins/eth/etherscan/etherscan.go:224-231 | The same record is a send for its sender and a receive for its counterparty, or a self-transfer when they are one account |
| Prepare.FirstOccurrenceExists | backend/coins/eth/etherscan/etherscan.go:206-208 | Every record's hash has a first occurrence at or before it |
| Prepare.KeptCovers | backend/coins/eth/etherscan/etherscan.go:205-209 | Every hash among the first n records is kept, at a position no later than any of its occurrences |
| Prepare.KeptIsDeduplication | backend/coins/eth/etherscan/etherscan.go:202-232 | The kept records have pairwise different hashes, and every hash of the batch is among them |
| Prepare.PreparedBatch | backend/coins/eth/etherscan/etherscan.go:202-234 | A successful run returns every hash once, at its first occurrence and in input order, and every returned record involves the account |
| Prepare.PreparedResult | backend/coins/eth/etherscan/etherscan.go:202-234 | The transactions a successful run returns are the first occurrences of their hashes, at increasing input positions, and each involves the account |
| Prepare.PreparedIDs | backend/coins/eth/etherscan/etherscan.go:202-234 | A successful run returns no ID twice, and every ID of the batch is among those returned |
| Prepare.ForeignRecordFailsBatch | backend/coins/eth/etherscan/etherscan.go:221-222 | One first occurrence that involves neither the sender nor the counterparty being the account fails the whole batch |
| Prepare.RepeatIsSkipped | backend/coins/eth/etherscan/etherscan.go:206-208 | A repeated hash is not kept and cannot fail the batch, because it is skipped before the account check |
| Prepare.DuplicatePairKeepsFirst | backend/coins/eth/etherscan/etherscan.go:197-209 | Of two records with the same hash only the first is kept |
| Client.QueryParams | backend/coins/eth/etherscan/etherscan.go:240-248 | The query sets exactly the keys module, action, startblock, tag, sort, endblock and address |
| Client.QueryParamsRoundTrip | backend/coins/eth/etherscan/etherscan.go:240-248 | The explorer reads back exactly the block bound (in canonical base 10) and the account asked for; the query is for the account's transaction list from block 0, latest tag, newest first |
| Client.QueryParamsInjective | backend/coins/eth/etherscan/etherscan.go:240-248 | Two queries are equal exactly when they are for the same account and block bound |
| Client.WaitUntil | backend/coins/eth/etherscan/etherscan.go:39 | A call starts at the later of its arrival and the time the limiter fires |
| Client.SpacedExtend | backend/coins/eth/etherscan/etherscan.go:38-42 | A call that waits for the limiter and re-arms it when it finishes keeps every start at least 210 ms after the previous finish |
| Client.SpacedStarts | backend/coins/eth/etherscan/etherscan.go:20-42 | Consecutive calls start at least 210 ms apart |
| Client.EtherScan.constructor | backend/coins/eth/etherscan/etherscan.go:30-35 | A new client's limiter fires at creation time, so the first call does not wait |
| Client.EtherScan.Call | backend/coins/eth/etherscan/etherscan.go:37-53 | The call starts when the limiter allows it, the limiter is re-armed to finish plus 210 ms on success and failure alike, a transport error is returned unchanged, and otherwise the result is the decoding of the result array |
| Client.EtherScan.Transactions | backend/coins/eth/etherscan/etherscan.go:237-258 | Sends the fixed query for the account and block bound under the rate limit; a transport error or the first decode error is returned; a decoded batch is prepared as `PrepareTransactions` promises |

## Left out

- The HTTP GET, `url.Values.Encode` and the decoding of the JSON envelope (lines 44-52 and 250-253) are network I/O and library code. Their outcome (the result array, or a transport error) and how long they take are parameters of `Client.EtherScan.Call`.
- The `locker.Locker` and the `time.After` channel (lines 26 and 38-41) are replaced by a sequential abstract clock in milliseconds. Calls do not overlap in the model, as the lock makes them in the source, and the wait on the channel is the computed start time.
- EIP-55 checksum casing of `Address.Hex()` is left out: the text form is lower-case hex. The properties used are that it is injective and that `HexToAddress` reads it back.
- go-ethereum's JSON decoding of `hash` and `from` is left out: a raw record carries them already decoded, so their decode errors are not modelled.
- `NumConfirmations` (lines 161-163) is left out, because Go's `big.Int.Int64()` is undefined outside the int64 range. The `confirmations` field is still decoded.
- Error values are modelled by kind and offending text, not by Go's message strings or stack traces.
- TransactionRecord.DecodeTransaction: it checks the fields in a fixed order (gasUsed, gasPrice, timeStamp, confirmations, to, contractAddress, value) and reports the first bad one. Go's `encoding/json` meets the keys in the order they appear in the text and reports a string field's type error only after the whole object. When several fields are bad, the error returned by `DecodeTransaction`, and so by `DecodeBatch`, `Call` and `Transactions`, can be a different one from Go's; whether a record decodes at all is the same.
- `Record.Amount`, `Record.Timestamp` and `Transaction.Type` (lines 150-153, 165-173) are plain field reads. What they return is stated by `DecodedAmount`, `DecodedTimestamp` and `PrepareTransactions`.
- `Codecs.UnmarshalTimestamp` does not tell a syntax error from a range error (both are `ParseIntError`), and `time.Unix`'s location and nanoseconds are not modelled.
- `Prepare.PrepareTransactions`: the "must have either to address or contract address" branch (lines 218-219) cannot be reached, because the counterparty type always holds one address, so it is not modelled.
- `TransactionRecord.Record.Addresses`: the empty-address fallback (lines 177-182) cannot be reached for the same reason.
- Result-array elements that are not JSON objects are not modelled, because the model's result array holds records only. A `null` element gives a nil `*Transaction`, which `prepareTransactions` would dereference. A number, string, boolean or array element reaches `Transaction.UnmarshalJSON` (lines 119-121), where Go fails it with a type error.
- `Client.EtherScan.Transactions`: its ghost `batch` is the decoded array, and the contract states the prepared result in terms of it. When the call fails the batch is empty.
- The frontend files of the repository (the Qt server bridge, the Android activity, the web dialog and balances table) are not part of this model.
