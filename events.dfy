/**
 * The event matcher of the `fetch` command: which ChainlinkRequested events
 * are still pending, the highest block among them, and which OracleRequest
 * log carries the payload of each pending request.
 *
 * Ledger logs are reduced to the fields the matcher reads; parsing them with
 * the contract ABI happens before they reach this module.
 */
module Events {
  import opened Wrappers

  /** A ChainlinkRequested log: its block and the raw request id in topics[1]. */
  datatype RequestedEvent = RequestedEvent(blockNumber: nat, id: string)

  /** A ChainlinkFulfilled log, reduced to its parsed `args.id`. */
  datatype FulfilledEvent = FulfilledEvent(id: string)

  /** An OracleRequest log, reduced to its parsed `args.requestId` and `args.data`. */
  datatype OracleEvent = OracleEvent(requestId: string, data: string)

  /** `Array.prototype.find`, as the index of the first element that satisfies `p`. */
  function Find<T>(s: seq<T>, p: T -> bool): (r: Option<nat>)
    ensures r.Some? ==> r.value < |s| && p(s[r.value])
    ensures r.Some? ==> forall j :: 0 <= j < r.value ==> !p(s[j])
    ensures r.None? ==> forall j :: 0 <= j < |s| ==> !p(s[j])
  {
    if |s| == 0 then None
    else if p(s[0]) then Some(0)
    else match Find(s[1..], p)
      case None => None
      case Some(k) => Some(k + 1)
  }

  // ---------------------------------------------------------------------
  // Pending requests and the high-water block
  // ---------------------------------------------------------------------

  /** Some fulfilled event carries `id`. */
  predicate Fulfilled(id: string, fulfilled: seq<FulfilledEvent>) {
    exists j :: 0 <= j < |fulfilled| && fulfilled[j].id == id
  }

  /** The `fulfilledLogs.find(...)` lookup of one request id. */
  function FindFulfilled(fulfilled: seq<FulfilledEvent>, id: string): (r: Option<nat>)
    ensures r.None? <==> !Fulfilled(id, fulfilled)
    ensures r.Some? ==> r.value < |fulfilled| && fulfilled[r.value].id == id
  {
    Find(fulfilled, (f: FulfilledEvent) => f.id == id)
  }

  /** The requested events whose id no fulfilled event carries, in their order. */
  function Pending(requested: seq<RequestedEvent>, fulfilled: seq<FulfilledEvent>): seq<RequestedEvent>
  {
    if requested == [] then []
    else
      var e := requested[|requested| - 1];
      var rest := Pending(requested[..|requested| - 1], fulfilled);
      if Fulfilled(e.id, fulfilled) then rest else rest + [e]
  }

  /** The positions in `requested` that `Pending` keeps, in increasing order. */
  function PendingPositions(requested: seq<RequestedEvent>, fulfilled: seq<FulfilledEvent>): seq<nat>
  {
    if requested == [] then []
    else
      var rest := PendingPositions(requested[..|requested| - 1], fulfilled);
      if Fulfilled(requested[|requested| - 1].id, fulfilled) then rest else rest + [|requested| - 1]
  }

  /** `sub` is `s` read at the strictly increasing positions `idx`. */
  ghost predicate SubsequenceAt<T>(sub: seq<T>, s: seq<T>, idx: seq<nat>) {
    && |idx| == |sub|
    && (forall k :: 0 <= k < |idx| ==> idx[k] < |s| && sub[k] == s[idx[k]])
    && (forall k, l :: 0 <= k < l < |idx| ==> idx[k] < idx[l])
  }

  /** The highest block among `fromBlock` and the blocks of all requested events. */
  function LatestBlock(fromBlock: int, requested: seq<RequestedEvent>): int
  {
    if requested == [] then fromBlock
    else
      var b := requested[|requested| - 1].blockNumber;
      var m := LatestBlock(fromBlock, requested[..|requested| - 1]);
      if b > m then b else m
  }

  /**
   * getPendingRequests once both ledger queries have answered: one pass over
   * the requested events that raises the latest block and keeps the events
   * no fulfilled event answers.
   */
  method GetPendingRequests(requested: seq<RequestedEvent>, fulfilled: seq<FulfilledEvent>, fromBlock: int)
    returns (pending: seq<RequestedEvent>, latestBlock: int)
    ensures pending == Pending(requested, fulfilled)
    ensures latestBlock == LatestBlock(fromBlock, requested)
    ensures fulfilled == [] ==> pending == requested
    ensures requested == [] ==> pending == [] && latestBlock == fromBlock
  {
    pending := [];
    latestBlock := fromBlock;
    for i := 0 to |requested|
      invariant pending == Pending(requested[..i], fulfilled)
      invariant latestBlock == LatestBlock(fromBlock, requested[..i])
    {
      var requestedEvent := requested[i];
      assert requested[..i + 1][..i] == requested[..i];
      if requestedEvent.blockNumber > latestBlock {
        latestBlock := requestedEvent.blockNumber;
      }
      var fulfilledRequest := FindFulfilled(fulfilled, requestedEvent.id);
      if fulfilledRequest.None? {
        pending := pending + [requestedEvent];
      }
    }
    assert requested[..|requested|] == requested;
    if fulfilled == [] {
      PendingWithoutFulfilled(requested);
    }
  }

  /** Pending keeps exactly the unanswered events, as an order-preserving subsequence. */
  lemma {:induction false} PendingIsFilter(requested: seq<RequestedEvent>, fulfilled: seq<FulfilledEvent>)
    ensures SubsequenceAt(Pending(requested, fulfilled), requested, PendingPositions(requested, fulfilled))
    ensures forall i :: 0 <= i < |requested| ==>
              (i in PendingPositions(requested, fulfilled) <==> !Fulfilled(requested[i].id, fulfilled))
  {
    if requested != [] {
      var n := |requested| - 1;
      var front := requested[..n];
      PendingIsFilter(front, fulfilled);
      var pos := PendingPositions(front, fulfilled);
      assert forall k :: 0 <= k < |pos| ==> pos[k] < n;
      forall i | 0 <= i < n
        ensures requested[i] == front[i]
      {
      }
    }
  }

  /** An event is pending exactly when it was requested and its id was never fulfilled. */
  lemma PendingMembership(requested: seq<RequestedEvent>, fulfilled: seq<FulfilledEvent>, e: RequestedEvent)
    ensures e in Pending(requested, fulfilled) <==> e in requested && !Fulfilled(e.id, fulfilled)
  {
    PendingIsFilter(requested, fulfilled);
    var p, pos := Pending(requested, fulfilled), PendingPositions(requested, fulfilled);
    if e in p {
      var k :| 0 <= k < |p| && p[k] == e;
      assert requested[pos[k]] == e;
    }
    if e in requested && !Fulfilled(e.id, fulfilled) {
      var i :| 0 <= i < |requested| && requested[i] == e;
      assert i in pos;
      var k :| 0 <= k < |pos| && pos[k] == i;
      assert p[k] == e;
    }
  }

  /** With no fulfilled events, every requested event is pending. */
  lemma {:induction false} PendingWithoutFulfilled(requested: seq<RequestedEvent>)
    ensures Pending(requested, []) == requested
  {
    if requested != [] {
      PendingWithoutFulfilled(requested[..|requested| - 1]);
    }
  }

  /** The latest block bounds `fromBlock` and every requested block, and is one of them. */
  lemma {:induction false} LatestBlockIsMaximum(fromBlock: int, requested: seq<RequestedEvent>)
    ensures LatestBlock(fromBlock, requested) >= fromBlock
    ensures forall i :: 0 <= i < |requested| ==> requested[i].blockNumber <= LatestBlock(fromBlock, requested)
    ensures LatestBlock(fromBlock, requested) == fromBlock
            || exists i :: 0 <= i < |requested| && requested[i].blockNumber == LatestBlock(fromBlock, requested)
  {
    if requested != [] {
      var n := |requested| - 1;
      LatestBlockIsMaximum(fromBlock, requested[..n]);
      assert forall i :: 0 <= i < n ==> requested[i] == requested[..n][i];
    }
  }

  // ---------------------------------------------------------------------
  // Matching pending ids against the oracle's request log
  // ---------------------------------------------------------------------

  /** `requestIds`: the topics[1] of each pending event, in order. */
  function RequestIds(pending: seq<RequestedEvent>): (ids: seq<string>)
    ensures |ids| == |pending|
    ensures forall i :: 0 <= i < |pending| ==> ids[i] == pending[i].id
  {
    seq(|pending|, i requires 0 <= i < |pending| => pending[i].id)
  }

  /** The `oracleRequests.find(...)` lookup: the first oracle log for `id`. */
  function FindOracleRequest(oracle: seq<OracleEvent>, id: string): (r: Option<nat>)
    ensures r.Some? ==> r.value < |oracle| && oracle[r.value].requestId == id
    ensures r.Some? ==> forall j :: 0 <= j < r.value ==> oracle[j].requestId != id
    ensures r.None? ==> forall j :: 0 <= j < |oracle| ==> oracle[j].requestId != id
  {
    Find(oracle, (o: OracleEvent) => o.requestId == id)
  }

  /** For each id in order, the first oracle log carrying it; ids without one are skipped. */
  function Matched(ids: seq<string>, oracle: seq<OracleEvent>): seq<OracleEvent>
  {
    if ids == [] then []
    else
      var rest := Matched(ids[..|ids| - 1], oracle);
      match FindOracleRequest(oracle, ids[|ids| - 1])
      case None => rest
      case Some(j) => rest + [oracle[j]]
  }

  /** The positions in `ids` that found an oracle log, in increasing order. */
  function MatchedPositions(ids: seq<string>, oracle: seq<OracleEvent>): seq<nat>
  {
    if ids == [] then []
    else
      var rest := MatchedPositions(ids[..|ids| - 1], oracle);
      if FindOracleRequest(oracle, ids[|ids| - 1]).Some? then rest + [|ids| - 1] else rest
  }

  /**
   * getOracleRequests once the OracleRequest query has answered: one lookup
   * per id, in the ids' order, keeping the logs that were found.
   */
  method GetOracleRequests(requestIds: seq<string>, oracle: seq<OracleEvent>)
    returns (matchedOracleRequests: seq<OracleEvent>)
    ensures matchedOracleRequests == Matched(requestIds, oracle)
    ensures |matchedOracleRequests| <= |requestIds|
  {
    matchedOracleRequests := [];
    for i := 0 to |requestIds|
      invariant matchedOracleRequests == Matched(requestIds[..i], oracle)
    {
      assert requestIds[..i + 1][..i] == requestIds[..i];
      var oracleRequest := FindOracleRequest(oracle, requestIds[i]);
      if oracleRequest.Some? {
        matchedOracleRequests := matchedOracleRequests + [oracle[oracleRequest.value]];
      }
    }
    assert requestIds[..|requestIds|] == requestIds;
    MatchedPositionsOrdered(requestIds, oracle);
  }

  /**
   * The positions Matched keeps are strictly increasing, one per matched log,
   * and an id's position is kept exactly when some oracle log carries the id.
   */
  lemma {:induction false} MatchedPositionsOrdered(ids: seq<string>, oracle: seq<OracleEvent>)
    ensures |Matched(ids, oracle)| == |MatchedPositions(ids, oracle)| <= |ids|
    ensures forall k :: 0 <= k < |MatchedPositions(ids, oracle)| ==> MatchedPositions(ids, oracle)[k] < |ids|
    ensures forall k, l :: 0 <= k < l < |MatchedPositions(ids, oracle)| ==>
              MatchedPositions(ids, oracle)[k] < MatchedPositions(ids, oracle)[l]
    ensures forall i :: 0 <= i < |ids| ==>
              (i in MatchedPositions(ids, oracle) <==> FindOracleRequest(oracle, ids[i]).Some?)
  {
    if ids != [] {
      var n := |ids| - 1;
      var front := ids[..n];
      MatchedPositionsOrdered(front, oracle);
      var pos, pos' := MatchedPositions(front, oracle), MatchedPositions(ids, oracle);
      assert forall i :: 0 <= i < n ==> ids[i] == front[i];
      if FindOracleRequest(oracle, ids[n]).Some? {
        assert pos' == pos + [n];
      } else {
        assert pos' == pos;
      }
      forall i | 0 <= i < |ids|
        ensures i in pos' <==> FindOracleRequest(oracle, ids[i]).Some?
      {
        if i < n {
          assert i in pos' <==> i in pos;
        }
      }
    }
  }

  /** Entry `k` of Matched is the first oracle log for the id at the `k`-th kept position. */
  lemma {:induction false} MatchedIsLookup(ids: seq<string>, oracle: seq<OracleEvent>)
    ensures |Matched(ids, oracle)| == |MatchedPositions(ids, oracle)|
    ensures forall k :: 0 <= k < |MatchedPositions(ids, oracle)| ==> MatchedLookupAt(ids, oracle, k)
  {
    MatchedPositionsOrdered(ids, oracle);
    if ids != [] {
      var n := |ids| - 1;
      var front := ids[..n];
      MatchedIsLookup(front, oracle);
      MatchedPositionsOrdered(front, oracle);
      var pos, m := MatchedPositions(front, oracle), Matched(front, oracle);
      var pos', m' := MatchedPositions(ids, oracle), Matched(ids, oracle);
      var found := FindOracleRequest(oracle, ids[n]);
      if found.Some? {
        assert pos' == pos + [n] && m' == m + [oracle[found.value]];
      } else {
        assert pos' == pos && m' == m;
      }
      forall k | 0 <= k < |pos'|
        ensures MatchedLookupAt(ids, oracle, k)
      {
        if k < |pos| {
          assert MatchedLookupAt(front, oracle, k);
          assert ids[pos[k]] == front[pos[k]];
        }
      }
    }
  }

  /** Entry `k` of Matched is the first oracle log for the id at the `k`-th matched position. */
  ghost predicate MatchedLookupAt(ids: seq<string>, oracle: seq<OracleEvent>, k: nat)
    requires k < |Matched(ids, oracle)| == |MatchedPositions(ids, oracle)|
  {
    var p := MatchedPositions(ids, oracle)[k];
    && p < |ids|
    && FindOracleRequest(oracle, ids[p]).Some?
    && Matched(ids, oracle)[k] == oracle[FindOracleRequest(oracle, ids[p]).value]
  }

  /** Every matched log answers one of the ids and is the first log for its id. */
  lemma MatchedAnswersIds(ids: seq<string>, oracle: seq<OracleEvent>, k: nat)
    requires k < |Matched(ids, oracle)|
    ensures Matched(ids, oracle)[k].requestId in ids
    ensures exists j :: 0 <= j < |oracle| && oracle[j] == Matched(ids, oracle)[k]
              && forall i :: 0 <= i < j ==> oracle[i].requestId != oracle[j].requestId
  {
    MatchedIsLookup(ids, oracle);
    MatchedPositionsOrdered(ids, oracle);
    var pos := MatchedPositions(ids, oracle);
    assert MatchedLookupAt(ids, oracle, k);
    var found := FindOracleRequest(oracle, ids[pos[k]]);
  }

  /** Matching distributes over concatenation of the id list. */
  lemma {:induction false} MatchedAppend(a: seq<string>, b: seq<string>, oracle: seq<OracleEvent>)
    ensures Matched(a + b, oracle) == Matched(a, oracle) + Matched(b, oracle)
  {
    if b != [] {
      var n := |b| - 1;
      assert (a + b)[..|a + b| - 1] == a + b[..n];
      MatchedAppend(a, b[..n], oracle);
    } else {
      assert a + b == a;
    }
  }

  /** Two kept positions holding the same id yield the same oracle log. */
  lemma MatchedSameId(ids: seq<string>, oracle: seq<OracleEvent>, k: nat, l: nat)
    requires k < |MatchedPositions(ids, oracle)| && l < |MatchedPositions(ids, oracle)|
    requires MatchedPositions(ids, oracle)[k] < |ids| && MatchedPositions(ids, oracle)[l] < |ids|
    requires ids[MatchedPositions(ids, oracle)[k]] == ids[MatchedPositions(ids, oracle)[l]]
    ensures |Matched(ids, oracle)| == |MatchedPositions(ids, oracle)|
    ensures Matched(ids, oracle)[k] == Matched(ids, oracle)[l]
  {
    MatchedIsLookup(ids, oracle);
    assert MatchedLookupAt(ids, oracle, k);
    assert MatchedLookupAt(ids, oracle, l);
  }

  /** A repeated id yields its oracle log once per occurrence. */
  lemma MatchedDuplicate(id: string, oracle: seq<OracleEvent>)
    ensures FindOracleRequest(oracle, id).Some? ==>
              Matched([id, id], oracle) == [oracle[FindOracleRequest(oracle, id).value], oracle[FindOracleRequest(oracle, id).value]]
    ensures FindOracleRequest(oracle, id).None? ==> Matched([id, id], oracle) == []
  {
    MatchedAppend([id], [id], oracle);
    assert [id] + [id] == [id, id];
    assert [id][..0] == [];
  }
}
