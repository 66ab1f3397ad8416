/**
 * prepareTransactions: walk the decoded batch in order, drop every record whose ID was
 * already seen, fail the whole batch on a record that does not involve the account,
 * and tag every kept record, in place, as SendSelf, Send or Receive.
 *
 * The walk itself compares text, as the Go code does: IDs (hash text) in the seen set,
 * and the text forms of the account, the sender and the counterparty. The specification
 * below compares the values behind the text (hashes and addresses); PrepareStep and
 * TextComparisonIsAddressComparison show that the two agree.
 */
module Prepare {
  import opened Wrappers
  import opened Errors
  import opened Hex
  import opened TransactionRecord

  /** The decoded records behind a batch of transactions. */
  function Records(txs: seq<Transaction>): (recs: seq<Record>)
    ensures |recs| == |txs|
    ensures forall i :: 0 <= i < |txs| ==> recs[i] == txs[i].json
  {
    seq(|txs|, i requires 0 <= i < |txs| => txs[i].json)
  }

  /** Position i holds the first occurrence of its hash in the batch. */
  predicate IsFirst(recs: seq<Record>, i: nat)
    requires i < |recs|
  {
    forall j :: 0 <= j < i ==> recs[j].hash != recs[i].hash
  }

  /** The IDs of the first n records. */
  function SeenIDs(recs: seq<Record>, n: nat): set<string>
    requires n <= |recs|
  {
    if n == 0 then {} else SeenIDs(recs, n - 1) + {recs[n - 1].ID()}
  }

  /** An ID is among the first n IDs exactly when one of the first n records carries it. */
  lemma {:induction false} SeenIDsMembership(recs: seq<Record>, n: nat, id: string)
    requires n <= |recs|
    ensures id in SeenIDs(recs, n) <==> exists j :: 0 <= j < n && recs[j].ID() == id
  {
    if n > 0 {
      SeenIDsMembership(recs, n - 1, id);
    }
  }

  /** The positions below n that hold the first occurrence of their hash, in input order. */
  function Kept(recs: seq<Record>, n: nat): (ks: seq<nat>)
    requires n <= |recs|
    ensures forall k :: 0 <= k < |ks| ==> ks[k] < n
  {
    if n == 0 then []
    else Kept(recs, n - 1) + (if IsFirst(recs, n - 1) then [n - 1] else [])
  }

  /** Kept holds exactly the first occurrences below n, in increasing order. */
  lemma {:induction false} KeptExactlyFirsts(recs: seq<Record>, n: nat)
    requires n <= |recs|
    ensures forall k :: 0 <= k < |Kept(recs, n)| ==> IsFirst(recs, Kept(recs, n)[k])
    ensures forall i :: 0 <= i < n && IsFirst(recs, i) ==> i in Kept(recs, n)
    ensures forall a, b :: 0 <= a < b < |Kept(recs, n)| ==> Kept(recs, n)[a] < Kept(recs, n)[b]
  {
    if n > 0 {
      KeptExactlyFirsts(recs, n - 1);
      var prev := Kept(recs, n - 1);
      var ks := Kept(recs, n);
      assert ks == prev + (if IsFirst(recs, n - 1) then [n - 1] else []);
      forall a, b | 0 <= a < b < |ks| ensures ks[a] < ks[b] {
        if b < |prev| {
          assert ks[a] == prev[a] && ks[b] == prev[b];
        } else {
          assert ks[a] == prev[a] < n - 1 == ks[b];
        }
      }
    }
  }

  /** The transactions at the given positions, in the order of the positions. */
  function Pick(txs: seq<Transaction>, ks: seq<nat>): (picked: seq<Transaction>)
    requires forall k :: 0 <= k < |ks| ==> ks[k] < |txs|
  {
    seq(|ks|, k requires 0 <= k < |ks| => txs[ks[k]])
  }

  /** The transactions among the first n that hold the first occurrence of their hash,
      in input order: what the walk has collected after n positions. */
  function Deduplicated(txs: seq<Transaction>, n: nat): seq<Transaction>
    requires n <= |txs|
  {
    if n == 0 then []
    else Deduplicated(txs, n - 1) + (if IsFirst(Records(txs), n - 1) then [txs[n - 1]] else [])
  }

  /** What the walk collects is the transactions at the positions Kept lists. */
  lemma {:induction false} DeduplicatedIsPick(txs: seq<Transaction>, n: nat)
    requires n <= |txs|
    ensures Deduplicated(txs, n) == Pick(txs, Kept(Records(txs), n))
  {
    if n > 0 {
      DeduplicatedIsPick(txs, n - 1);
      var prev := Kept(Records(txs), n - 1);
      if IsFirst(Records(txs), n - 1) {
        assert Pick(txs, prev + [n - 1]) == Pick(txs, prev) + [txs[n - 1]];
      }
    }
  }

  /** The account is the sender or the counterparty of the record. */
  predicate Belongs(ours: Address, rec: Record) {
    ours == rec.from || ours == rec.counterparty.address
  }

  /** The switch of prepareTransactions that picks the tag from the text forms of the
      account, the sender and the counterparty (only reached when the account is one of
      the two). */
  function Direction(ours: string, from: string, to: string): (t: TxType)
    ensures t != Unclassified
    ensures t == SendSelf <==> ours == from && ours == to
    ensures t == Send <==> ours == from && ours != to
    ensures t == Receive <==> ours != from
  {
    if ours == from && ours == to then SendSelf
    else if ours == from then Send
    else Receive
  }

  /** The tag a record of the account gets: a transfer to itself, a send, or a receive. */
  function Classify(ours: Address, rec: Record): (t: TxType)
    ensures t != Unclassified
    ensures t == SendSelf <==> ours == rec.from && ours == rec.counterparty.address
    ensures t == Send <==> ours == rec.from && ours != rec.counterparty.address
    ensures t == Receive <==> ours != rec.from
  {
    if ours == rec.from && ours == rec.counterparty.address then SendSelf
    else if ours == rec.from then Send
    else Receive
  }

  /** A record the account check rejects: a first occurrence that does not involve the account. */
  predicate Foreign(recs: seq<Record>, ours: Address, i: nat)
    requires i < |recs|
  {
    IsFirst(recs, i) && !Belongs(ours, recs[i])
  }

  /** The first rejected position at or after i, or |recs| when there is none. */
  function StopFrom(recs: seq<Record>, ours: Address, i: nat): (s: nat)
    requires i <= |recs|
    ensures i <= s <= |recs|
    decreases |recs| - i
  {
    if i == |recs| then i
    else if Foreign(recs, ours, i) then i
    else StopFrom(recs, ours, i + 1)
  }

  /** StopFrom passes over positions that are not rejected and stops at the first that is. */
  lemma {:induction false} StopFromIsFirstRejection(recs: seq<Record>, ours: Address, i: nat)
    requires i <= |recs|
    ensures forall j :: i <= j < StopFrom(recs, ours, i) ==> !Foreign(recs, ours, j)
    ensures StopFrom(recs, ours, i) < |recs| ==> Foreign(recs, ours, StopFrom(recs, ours, i))
    decreases |recs| - i
  {
    if i < |recs| && !Foreign(recs, ours, i) {
      StopFromIsFirstRejection(recs, ours, i + 1);
    }
  }

  /** Where the walk over the batch ends: the first rejected position, or the end of the batch. */
  function Stop(recs: seq<Record>, ours: Address): (s: nat)
    ensures s <= |recs|
  {
    StopFrom(recs, ours, 0)
  }

  /** One more position extends Kept exactly when it is a first occurrence, and extends
      the seen IDs by its ID. */
  lemma KeptStep(recs: seq<Record>, i: nat)
    requires i < |recs|
    ensures Kept(recs, i + 1) == Kept(recs, i) + (if IsFirst(recs, i) then [i] else [])
    ensures SeenIDs(recs, i + 1) == SeenIDs(recs, i) + {recs[i].ID()}
  {
  }

  /** A position the walk reaches ends it when it is rejected, and is passed otherwise. */
  lemma StopAdvances(recs: seq<Record>, ours: Address, i: nat)
    requires i < |recs| && i <= Stop(recs, ours)
    ensures Foreign(recs, ours, i) ==> Stop(recs, ours) == i
    ensures !Foreign(recs, ours, i) ==> i + 1 <= Stop(recs, ours)
  {
    StopFromIsFirstRejection(recs, ours, 0);
  }

  /** The state of the walk after the first i positions: none was rejected, seen holds their
      IDs, and castTransactions what was kept of them. */
  predicate Walked(txs: seq<Transaction>, recs: seq<Record>, ours: Address, i: nat,
                   seen: set<string>, castTransactions: seq<Transaction>)
    requires recs == Records(txs) && i <= |txs|
  {
    i <= Stop(recs, ours) && seen == SeenIDs(recs, i) && castTransactions == Deduplicated(txs, i)
  }

  /** prepareTransactions. On success the result is the first occurrence of every ID, in input
      order, each tagged for the account. On failure the result is NotOurAccount with no batch,
      but, as in the Go code, the records kept before the rejected one have already been tagged.
      Transactions outside what the walk kept keep the tag they had. */
  method PrepareTransactions(transactions: seq<Transaction>, address: Address)
    returns (r: Result<seq<Transaction>, Error>)
    modifies transactions
    ensures var recs := Records(transactions);
      && (r.Ok? <==> Stop(recs, address) == |recs|)
      && (r.Ok? ==> r.value == Deduplicated(transactions, |transactions|))
      && (r.Err? ==> r.error == NotOurAccount)
    ensures var done := Deduplicated(transactions, Stop(Records(transactions), address));
      && (forall t :: t in done ==> t.txType == Classify(address, t.json))
      && (forall t :: t in transactions && t !in done ==> t.txType == old(t.txType))
  {
    ghost var recs := Records(transactions);
    var seen: set<string> := {};
    var castTransactions: seq<Transaction> := [];
    var ours := AddressHex(address);
    var i := 0;
    while i < |transactions|
      invariant 0 <= i <= |transactions|
      invariant Walked(transactions, recs, address, i, seen, castTransactions)
      invariant forall t :: t in castTransactions ==> t.txType == Classify(address, t.json)
      invariant forall t :: t in transactions && t !in castTransactions ==> t.txType == old(t.txType)
    {
      var belongs;
      seen, castTransactions, belongs := PrepareOne(transactions, address, ours, recs, i, seen, castTransactions);
      if !belongs {
        return Err(NotOurAccount);
      }
      i := i + 1;
    }
    r := Ok(castTransactions);
  }

  /** The loop body of prepareTransactions on position i: skip a repeated ID, reject a record
      of another account, or tag the record and append it. */
  method PrepareOne(transactions: seq<Transaction>, address: Address, ours: string, ghost recs: seq<Record>,
                    i: nat, seen: set<string>, castTransactions: seq<Transaction>)
    returns (seen': set<string>, cast': seq<Transaction>, belongs: bool)
    requires ours == AddressHex(address) && recs == Records(transactions)
    requires i < |transactions| && Walked(transactions, recs, address, i, seen, castTransactions)
    requires forall t :: t in castTransactions ==> t.txType == Classify(address, t.json)
    modifies transactions[i]
    ensures belongs ==> Walked(transactions, recs, address, i + 1, seen', cast')
    ensures !belongs ==> Stop(recs, address) == i && cast' == castTransactions
    ensures forall t :: t in cast' ==> t.txType == Classify(address, t.json)
    ensures forall t :: t in castTransactions ==> t in cast'
    ensures forall t :: t in transactions && t !in cast' ==> t.txType == old(t.txType)
  {
    var transaction := transactions[i];
    var id := transaction.json.ID();
    PrepareStep(transactions, recs, address, i);
    seen', cast', belongs := seen, castTransactions, true;
    if id !in seen {
      seen' := seen + {id};
      var from := AddressHex(transaction.json.from);
      var to := match transaction.json.counterparty
        case To(a) => AddressHex(a)
        case Contract(a) => AddressHex(a);
      if ours != from && ours != to {
        belongs := false;
        return;
      }
      transaction.txType := Direction(ours, from, to);
      cast' := castTransactions + [transaction];
    }
  }

  /** What one step of the walk needs: the seen-set test is the first-occurrence test, the
      text comparisons are the account check and the classification, and a rejection ends
      the walk. */
  lemma PrepareStep(txs: seq<Transaction>, recs: seq<Record>, ours: Address, i: nat)
    requires recs == Records(txs) && i < |txs| && i <= Stop(recs, ours)
    ensures txs[i].json.ID() in SeenIDs(recs, i) <==> !IsFirst(recs, i)
    ensures SeenIDs(recs, i + 1) == SeenIDs(recs, i) + {txs[i].json.ID()}
    ensures IsFirst(recs, i) ==> txs[i] !in Deduplicated(txs, i)
    ensures var rec := txs[i].json;
      Foreign(recs, ours, i) <==>
        IsFirst(recs, i) && AddressHex(ours) != AddressHex(rec.from)
        && AddressHex(ours) != AddressHex(rec.counterparty.address)
    ensures var rec := txs[i].json;
      Belongs(ours, rec) ==>
        Direction(AddressHex(ours), AddressHex(rec.from), AddressHex(rec.counterparty.address)) == Classify(ours, rec)
    ensures Foreign(recs, ours, i) ==> Stop(recs, ours) == i
    ensures !Foreign(recs, ours, i) ==> i + 1 <= Stop(recs, ours)
  {
    KeptStep(recs, i);
    SeenIDsMembership(recs, i, recs[i].ID());
    forall j | 0 <= j < i ensures recs[j].ID() == recs[i].ID() <==> recs[j].hash == recs[i].hash {
      IDIdentifiesHash(recs[j], recs[i]);
    }
    StopAdvances(recs, ours, i);
    DeduplicatedIsPick(txs, i);
    TextComparisonIsAddressComparison(ours, recs[i]);
  }

  /** Comparing text forms is comparing addresses: the account check of the Go code is
      Belongs, and its switch on text is Classify. */
  lemma TextComparisonIsAddressComparison(ours: Address, rec: Record)
    ensures (AddressHex(ours) == AddressHex(rec.from) || AddressHex(ours) == AddressHex(rec.counterparty.address))
      <==> Belongs(ours, rec)
    ensures Direction(AddressHex(ours), AddressHex(rec.from), AddressHex(rec.counterparty.address))
      == Classify(ours, rec)
  {
    AddressHexInjective(ours, rec.from);
    AddressHexInjective(ours, rec.counterparty.address);
  }

  /** The tag says exactly how the account relates to a record it belongs to: both ends,
      only the sender, or only the counterparty. */
  lemma ClassifyByAddress(ours: Address, rec: Record)
    requires Belongs(ours, rec)
    ensures Classify(ours, rec) == SendSelf <==> ours == rec.from && ours == rec.counterparty.address
    ensures Classify(ours, rec) == Send <==> ours == rec.from && ours != rec.counterparty.address
    ensures Classify(ours, rec) == Receive <==> ours != rec.from && ours == rec.counterparty.address
  {
  }

  /** The same record is a send for its sender and a receive for its counterparty,
      and a self-transfer when the two are one account. */
  lemma DirectionDependsOnAccount(rec: Record)
    ensures rec.from != rec.counterparty.address ==>
      Classify(rec.from, rec) == Send && Classify(rec.counterparty.address, rec) == Receive
    ensures rec.from == rec.counterparty.address ==> Classify(rec.from, rec) == SendSelf
  {
  }

  /** Every hash occurring in the batch has a first occurrence at or before it. */
  lemma {:induction false} FirstOccurrenceExists(recs: seq<Record>, j: nat)
    requires j < |recs|
    ensures exists p :: 0 <= p <= j && IsFirst(recs, p) && recs[p].hash == recs[j].hash
    decreases j
  {
    if !IsFirst(recs, j) {
      var q :| 0 <= q < j && recs[q].hash == recs[j].hash;
      FirstOccurrenceExists(recs, q);
    }
  }

  /** Some kept position at or before j carries the hash of record j. */
  predicate Covered(recs: seq<Record>, ks: seq<nat>, j: nat)
    requires j < |recs|
    requires forall k :: 0 <= k < |ks| ==> ks[k] < |recs|
  {
    exists k :: 0 <= k < |ks| && ks[k] <= j && recs[ks[k]].hash == recs[j].hash
  }

  /** Every hash among the first n records is kept, at its first occurrence. */
  lemma KeptCovers(recs: seq<Record>, n: nat, j: nat)
    requires j < n <= |recs|
    ensures Covered(recs, Kept(recs, n), j)
  {
    var ks := Kept(recs, n);
    KeptExactlyFirsts(recs, n);
    FirstOccurrenceExists(recs, j);
    var p :| 0 <= p <= j && IsFirst(recs, p) && recs[p].hash == recs[j].hash;
    assert p in ks;
    var k :| 0 <= k < |ks| && ks[k] == p;
  }

  /** The kept positions carry pairwise different hashes (so pairwise different IDs), and
      every hash of the batch is among them, at its first occurrence. */
  lemma KeptIsDeduplication(recs: seq<Record>, n: nat)
    requires n <= |recs|
    ensures forall a, b :: 0 <= a < b < |Kept(recs, n)| ==>
      recs[Kept(recs, n)[a]].hash != recs[Kept(recs, n)[b]].hash
    ensures forall j :: 0 <= j < n ==> Covered(recs, Kept(recs, n), j)
  {
    KeptExactlyFirsts(recs, n);
    forall j | 0 <= j < n ensures Covered(recs, Kept(recs, n), j) {
      KeptCovers(recs, n, j);
    }
  }

  /** A successful run returns every hash once, at its first occurrence and in input order,
      and every returned record involves the account. */
  lemma PreparedBatch(recs: seq<Record>, ours: Address)
    requires Stop(recs, ours) == |recs|
    ensures var ks := Kept(recs, |recs|);
      && (forall a, b :: 0 <= a < b < |ks| ==> ks[a] < ks[b] && recs[ks[a]].hash != recs[ks[b]].hash)
      && (forall j :: 0 <= j < |recs| ==> Covered(recs, ks, j))
      && (forall k :: 0 <= k < |ks| ==> Belongs(ours, recs[ks[k]]))
  {
    KeptIsDeduplication(recs, |recs|);
    KeptExactlyFirsts(recs, |recs|);
    StopFromIsFirstRejection(recs, ours, 0);
    var ks := Kept(recs, |recs|);
    forall k | 0 <= k < |ks| ensures Belongs(ours, recs[ks[k]]) {
      assert !Foreign(recs, ours, ks[k]);
    }
  }

  /** A successful run, stated on the transactions it returns: they are the first occurrences
      of their hashes, in input order, and every returned record involves the account. */
  lemma PreparedResult(txs: seq<Transaction>, ours: Address)
    requires Stop(Records(txs), ours) == |txs|
    ensures var d, ks := Deduplicated(txs, |txs|), Kept(Records(txs), |txs|);
      && |d| == |ks|
      && (forall k :: 0 <= k < |d| ==> d[k] == txs[ks[k]] && IsFirst(Records(txs), ks[k]))
      && (forall a, b :: 0 <= a < b < |ks| ==> ks[a] < ks[b])
      && (forall k :: 0 <= k < |d| ==> Belongs(ours, d[k].json))
  {
    DeduplicatedIsPick(txs, |txs|);
    KeptExactlyFirsts(Records(txs), |txs|);
    PreparedBatch(Records(txs), ours);
  }

  /** A successful run returns no ID twice, and every ID of the batch. */
  lemma PreparedIDs(txs: seq<Transaction>, ours: Address)
    requires Stop(Records(txs), ours) == |txs|
    ensures var d := Deduplicated(txs, |txs|);
      && (forall a, b :: 0 <= a < b < |d| ==> d[a].json.ID() != d[b].json.ID())
      && (forall j :: 0 <= j < |txs| ==> exists k :: 0 <= k < |d| && d[k].json.ID() == txs[j].json.ID())
  {
    var d, recs := Deduplicated(txs, |txs|), Records(txs);
    var ks := Kept(recs, |txs|);
    DeduplicatedIsPick(txs, |txs|);
    PreparedBatch(recs, ours);
    forall a, b | 0 <= a < b < |d| ensures d[a].json.ID() != d[b].json.ID() {
      assert d[a].json == recs[ks[a]] && d[b].json == recs[ks[b]];
      IDIdentifiesHash(d[a].json, d[b].json);
    }
    forall j | 0 <= j < |txs| ensures exists k :: 0 <= k < |d| && d[k].json.ID() == txs[j].json.ID() {
      assert Covered(recs, ks, j);
      var k :| 0 <= k < |ks| && ks[k] <= j && recs[ks[k]].hash == recs[j].hash;
      IDIdentifiesHash(d[k].json, txs[j].json);
    }
  }

  /** One first occurrence that does not involve the account fails the whole batch. */
  lemma ForeignRecordFailsBatch(recs: seq<Record>, ours: Address, i: nat)
    requires i < |recs| && IsFirst(recs, i) && !Belongs(ours, recs[i])
    ensures Stop(recs, ours) <= i < |recs|
  {
    assert Foreign(recs, ours, i);
    StopFromIsFirstRejection(recs, ours, 0);
  }

  /** A repeat of an earlier hash is dropped before the account check, so a foreign repeat
      does not fail the batch. */
  lemma RepeatIsSkipped(recs: seq<Record>, ours: Address, i: nat, j: nat)
    requires j < i < |recs| && recs[j].hash == recs[i].hash
    ensures i !in Kept(recs, |recs|)
    ensures !Foreign(recs, ours, i)
  {
    KeptExactlyFirsts(recs, |recs|);
  }

  /** Two records with the same hash: only the first is returned. */
  lemma DuplicatePairKeepsFirst(a: Record, b: Record)
    requires a.hash == b.hash
    ensures Kept([a, b], 2) == [0]
  {
    var recs := [a, b];
    assert recs[0].hash == recs[1].hash;
    assert IsFirst(recs, 0);
    assert !IsFirst(recs, 1);
    assert Kept(recs, 1) == [0];
  }
}
