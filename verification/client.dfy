/**
 * The EtherScan client: the fixed query of Transactions, and the rate limiter of call
 * over an abstract clock counted in milliseconds. The HTTP request and the decoding of
 * the JSON envelope are not modelled: their outcome, and how long they take, are
 * parameters. Calls are sequential, as the client's lock makes them.
 */
module Client {
  import opened Wrappers
  import opened Errors
  import opened Decimal
  import opened Hex
  import opened TransactionRecord
  import opened Prepare

  /** callInterval: one request per 0.2 seconds, with a 10 ms margin. */
  const CallInterval: nat := 210

  /** The keys of the query Transactions sends. */
  const QueryKeys: set<string> := {"module", "action", "startblock", "tag", "sort", "endblock", "address"}

  /** The query of Transactions: the account's normal transactions from block 0 up to endBlock,
      newest first, for the address in text form. */
  function QueryParams(address: Address, endBlock: int): (params: map<string, string>)
    ensures params.Keys == QueryKeys
  {
    map[
      "module" := "account",
      "action" := "txlist",
      "startblock" := "0",
      "tag" := "latest",
      "sort" := "desc",
      "endblock" := FormatInt(endBlock),
      "address" := AddressHex(address)]
  }

  /** The explorer reads back exactly the block bound and the account that were asked for,
      and the fixed parameters ask for the account's transactions from block 0, newest first. */
  lemma QueryParamsRoundTrip(address: Address, endBlock: int)
    ensures var params := QueryParams(address, endBlock);
      && Parse(params["endblock"]) == Some(endBlock)
      && IsCanonical(params["endblock"])
      && IsHexAddress(params["address"]) && HexToAddress(params["address"]) == address
      && Parse(params["startblock"]) == Some(0)
      && params["module"] == "account" && params["action"] == "txlist"
      && params["tag"] == "latest" && params["sort"] == "desc"
  {
    ParseFormat(endBlock);
    ParseFormat(0);
    assert FormatInt(0) == "0";
    AddressHexRoundTrip(address);
  }

  /** Two queries are the same exactly when they are for the same account and block bound. */
  lemma QueryParamsInjective(a1: Address, e1: int, a2: Address, e2: int)
    ensures QueryParams(a1, e1) == QueryParams(a2, e2) <==> a1 == a2 && e1 == e2
  {
    if QueryParams(a1, e1) == QueryParams(a2, e2) {
      QueryParamsRoundTrip(a1, e1);
      QueryParamsRoundTrip(a2, e2);
    }
  }

  /** When a call that arrives at the given time gets past the rate limiter: the later of its
      arrival and the time the limiter fires. */
  function WaitUntil(nextAllowed: int, arrival: int): (start: int)
    ensures start >= arrival && start >= nextAllowed
    ensures start == arrival || start == nextAllowed
  {
    if arrival < nextAllowed then nextAllowed else arrival
  }

  /** The history of calls as the rate limiter shapes it: every call finishes no earlier than it
      starts, each call starts at least CallInterval after the previous one finished, and the
      limiter next fires CallInterval after the last finish. */
  ghost predicate Spaced(starts: seq<int>, finishes: seq<int>, nextAllowed: int) {
    && |starts| == |finishes|
    && (forall k :: 0 <= k < |starts| ==> starts[k] <= finishes[k])
    && (forall k :: 0 <= k < |starts| - 1 ==> finishes[k] + CallInterval <= starts[k + 1])
    && (|finishes| > 0 ==> nextAllowed == finishes[|finishes| - 1] + CallInterval)
  }

  /** A call that waits for the limiter and re-arms it when it finishes keeps the history spaced. */
  lemma SpacedExtend(starts: seq<int>, finishes: seq<int>, nextAllowed: int, arrival: int, latency: nat)
    requires Spaced(starts, finishes, nextAllowed)
    ensures var start := WaitUntil(nextAllowed, arrival);
      Spaced(starts + [start], finishes + [start + latency], start + latency + CallInterval)
  {
    var start := WaitUntil(nextAllowed, arrival);
    var s', f' := starts + [start], finishes + [start + latency];
    forall k | 0 <= k < |s'| - 1 ensures f'[k] + CallInterval <= s'[k + 1] {
      if k + 1 < |starts| {
        assert f'[k] == finishes[k] && s'[k + 1] == starts[k + 1];
      } else {
        assert f'[k] == finishes[k] && s'[k + 1] == start;
      }
    }
  }

  /** Consecutive calls start at least CallInterval apart. */
  lemma SpacedStarts(starts: seq<int>, finishes: seq<int>, nextAllowed: int)
    requires Spaced(starts, finishes, nextAllowed)
    ensures forall k :: 0 <= k < |starts| - 1 ==> starts[k] + CallInterval <= starts[k + 1]
  {
    forall k | 0 <= k < |starts| - 1 ensures starts[k] + CallInterval <= starts[k + 1] {
      assert starts[k] <= finishes[k];
    }
  }

  /** The client. nextAllowed is when the rateLimiter channel fires; the ghost fields record
      the queries sent and when each call started and finished. */
  class EtherScan {
    const url: string
    var nextAllowed: int
    ghost var requests: seq<map<string, string>>
    ghost var starts: seq<int>
    ghost var finishes: seq<int>

    ghost predicate Valid()
      reads this
    {
      |requests| == |starts| && Spaced(starts, finishes, nextAllowed)
    }

    /** NewEtherScan at time now: the limiter fires at once, so the first call does not wait. */
    constructor (url: string, now: int)
      ensures this.url == url && nextAllowed == now
      ensures requests == [] && starts == [] && finishes == []
      ensures Valid()
    {
      this.url := url;
      nextAllowed := now;
      requests := [];
      starts := [];
      finishes := [];
    }

    /** call: wait for the limiter, send the query, decode the result array, and re-arm the
        limiter when done, whether or not the request and the decoding succeeded. fetched is
        the outcome of the request and of the envelope decoding, latency how long they take. */
    method Call(params: map<string, string>, arrival: int, latency: nat,
                fetched: Result<seq<RawTransaction>, Error>)
      returns (r: Result<seq<Transaction>, Error>)
      requires Valid()
      modifies this
      ensures Valid()
      ensures requests == old(requests) + [params]
      ensures starts == old(starts) + [WaitUntil(old(nextAllowed), arrival)]
      ensures finishes == old(finishes) + [WaitUntil(old(nextAllowed), arrival) + latency]
      ensures nextAllowed == WaitUntil(old(nextAllowed), arrival) + latency + CallInterval
      ensures arrival >= old(nextAllowed) ==> starts[|starts| - 1] == arrival
      ensures fetched.Err? ==> r == Err(fetched.error)
      ensures fetched.Ok? ==>
        (r.Ok? <==> forall i :: 0 <= i < |fetched.value| ==> DecodeTransaction(fetched.value[i]).Ok?)
      ensures fetched.Ok? && r.Err? ==>
        exists i :: 0 <= i < |fetched.value| && DecodeTransaction(fetched.value[i]) == Err(r.error) && FirstFailure(fetched.value, i)
      ensures r.Ok? ==> fetched.Ok? && |r.value| == |fetched.value|
      ensures r.Ok? ==> forall i :: 0 <= i < |r.value| ==>
        && fresh(r.value[i])
        && r.value[i].json == DecodeTransaction(fetched.value[i]).value
        && r.value[i].txType == Unclassified
      ensures r.Ok? ==> forall i, j :: 0 <= i < j < |r.value| ==> r.value[i] != r.value[j]
    {
      var start := WaitUntil(nextAllowed, arrival);
      var finish := start + latency;
      SpacedExtend(starts, finishes, nextAllowed, arrival, latency);
      requests := requests + [params];
      starts := starts + [start];
      finishes := finishes + [finish];
      nextAllowed := finish + CallInterval;
      match fetched
      case Err(e) =>
        r := Err(e);
      case Ok(raws) =>
        r := DecodeBatch(raws);
    }

    /** Transactions: query the account's history up to endBlock and prepare it for the account.
        batch is the decoded result array prepareTransactions works on. */
    method Transactions(address: Address, endBlock: int, arrival: int, latency: nat,
                        fetched: Result<seq<RawTransaction>, Error>)
      returns (r: Result<seq<Transaction>, Error>, ghost batch: seq<Transaction>)
      requires Valid()
      modifies this
      ensures Valid()
      ensures requests == old(requests) + [QueryParams(address, endBlock)]
      ensures starts == old(starts) + [WaitUntil(old(nextAllowed), arrival)]
      ensures finishes == old(finishes) + [WaitUntil(old(nextAllowed), arrival) + latency]
      ensures nextAllowed == WaitUntil(old(nextAllowed), arrival) + latency + CallInterval
      ensures fetched.Err? ==> r == Err(fetched.error)
      ensures fetched.Ok? && (exists i :: 0 <= i < |fetched.value| && DecodeTransaction(fetched.value[i]).Err?) ==>
        r.Err? && exists i :: 0 <= i < |fetched.value| && DecodeTransaction(fetched.value[i]) == Err(r.error) && FirstFailure(fetched.value, i)
      ensures fetched.Ok? && (forall i :: 0 <= i < |fetched.value| ==> DecodeTransaction(fetched.value[i]).Ok?) ==>
        && |batch| == |fetched.value|
        && (forall i :: 0 <= i < |batch| ==> fresh(batch[i]) && batch[i].json == DecodeTransaction(fetched.value[i]).value)
        && (r.Ok? <==> Stop(Records(batch), address) == |batch|)
        && (r.Ok? ==> r.value == Deduplicated(batch, |batch|))
        && (r.Err? ==> r.error == NotOurAccount)
        && (forall t :: t in Deduplicated(batch, Stop(Records(batch), address)) ==> t.txType == Classify(address, t.json))
    {
      var params := QueryParams(address, endBlock);
      var result := Call(params, arrival, latency, fetched);
      batch := [];
      if result.Err? {
        return Err(result.error), batch;
      }
      batch := result.value;
      r := PrepareTransactions(result.value, address);
    }
  }
}
