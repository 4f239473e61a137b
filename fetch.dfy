/**
 * The `fetch` command: choose the start block, find the pending requests,
 * match them with the oracle's request log, decode and save each payload by
 * token id, and finally write the next start block to `db/fromBlock.json`.
 *
 * The two directories the command writes are fields of a `Workspace`:
 * `db` maps a watermark file name to the integer its `fromBlock` member
 * parses to, `output` maps a record file name to the JSON object it holds.
 * The ledger is a `Ledger` value whose queries may reject.
 */
module Fetch {
  import opened Wrappers
  import opened Events
  import opened Decode

  /** `queryFilter(filter, fromBlock)` for the three event kinds; `None` when the query rejects. */
  datatype Ledger = Ledger(
    requested: int -> Option<seq<RequestedEvent>>,
    fulfilled: int -> Option<seq<FulfilledEvent>>,
    oracle: int -> Option<seq<OracleEvent>>)

  /** The JSON object a record file holds. */
  type Json = map<string, Term>

  /** One file write of a run, in the order the run makes them. */
  datatype Write = RecordFile(name: string) | WatermarkFile(fromBlock: int)

  /** How a run ends: every failure is an uncaught rejection that stops the run. */
  datatype Outcome =
    | Completed(fromBlock: int, saved: seq<Object>, newFromBlock: int)
    | LedgerQueryFailed(fromBlock: int)
    | DecodeFailed(fromBlock: int)

  /** The watermark file every run writes, whatever file it read. */
  const WatermarkFileName: string := "fromBlock.json"

  /** `JSON.stringify(request)`: members whose value is `undefined` are left out. */
  function Serialize(request: Object): Json
  {
    map key | key in request && request[key].Defined? :: request[key].term
  }

  /** The saved JSON holds exactly the defined members of the record, with their values. */
  lemma SerializeDefined(request: Object)
    ensures forall key :: key in Serialize(request) <==> key in request && request[key].Defined?
    ensures forall key :: key in Serialize(request) ==> request[key] == Defined(Serialize(request)[key])
  {
  }

  /** `${request.token_id}.json`: a missing token id gives `undefined.json`. */
  function FileName(request: Object): string
  {
    var stem := if "token_id" in request && request["token_id"].Defined?
                then PropertyKey(request["token_id"].term) else "undefined";
    stem + ".json"
  }

  /** Every record file name ends in `.json`. */
  lemma FileNameSuffix(request: Object)
    ensures |FileName(request)| >= 5 && FileName(request)[|FileName(request)| - 5..] == ".json"
  {
    var stem := if "token_id" in request && request["token_id"].Defined?
                then PropertyKey(request["token_id"].term) else "undefined";
    assert FileName(request) == stem + ".json";
    assert (stem + ".json")[|stem|..] == ".json";
  }

  /**
   * The file a record is saved to is named after its token id: the decimal
   * digits of a non-negative integer id, which read back as the id, and
   * `undefined` when the record has no token id.
   */
  lemma FileNameOfTokenId(request: Object)
    ensures "token_id" in request && request["token_id"].Defined? && request["token_id"].term.Int?
            && request["token_id"].term.i >= 0 ==>
              var n := request["token_id"].term.i;
              FileName(request) == Digits(n) + ".json"
              && DecimalValue(FileName(request)[..|FileName(request)| - 5]) == n
    ensures "token_id" !in request || request["token_id"] == Undefined ==>
              FileName(request) == "undefined.json"
  {
    if "token_id" in request && request["token_id"].Defined? && request["token_id"].term.Int?
       && request["token_id"].term.i >= 0 {
      var n := request["token_id"].term.i;
      assert (Digits(n) + ".json")[..|Digits(n)|] == Digits(n);
    }
  }

  /** Records with different integer token ids are saved to different files. */
  lemma FileNamesDistinct(r1: Object, r2: Object)
    requires "token_id" in r1 && r1["token_id"].Defined? && r1["token_id"].term.Int?
    requires "token_id" in r2 && r2["token_id"].Defined? && r2["token_id"].term.Int?
    requires r1["token_id"].term.i != r2["token_id"].term.i
    ensures FileName(r1) != FileName(r2)
  {
    var k1, k2 := PropertyKey(r1["token_id"].term), PropertyKey(r2["token_id"].term);
    IntKeysDistinct(r1["token_id"].term.i, r2["token_id"].term.i);
    if |k1| == |k2| {
      assert (k1 + ".json")[..|k1|] == k1;
      assert (k2 + ".json")[..|k2|] == k2;
    }
  }

  /** The output directory after saving `requests` in order, each overwriting its file. */
  function Saved(output: map<string, Json>, requests: seq<Object>): map<string, Json>
  {
    if requests == [] then output
    else
      var last := requests[|requests| - 1];
      Saved(output, requests[..|requests| - 1])[FileName(last) := Serialize(last)]
  }

  /** The record-file writes of saving `requests` in order. */
  function RecordWrites(requests: seq<Object>): seq<Write>
  {
    if requests == [] then []
    else RecordWrites(requests[..|requests| - 1]) + [RecordFile(FileName(requests[|requests| - 1]))]
  }

  /**
   * The start block: the value read from the named db file when a file name
   * is given and the read succeeds, otherwise the `block` option.
   */
  function StartBlock(file: string, db: map<string, int>, block: int): (fromBlock: int)
    ensures file != "" && file in db ==> fromBlock == db[file]
    ensures file == "" || file !in db ==> fromBlock == block
  {
    if file != "" && file in db then db[file] else block
  }

  /** `oracleRequests.map(decodeOracleRequestData)`: every payload decoded, or the first failure. */
  function DecodeEach(events: seq<OracleEvent>, decodeAll: Decoder): (r: Option<seq<Object>>)
    ensures r.None? <==> exists i :: 0 <= i < |events| && decodeAll(StripHexPrefix(events[i].data)).None?
    ensures r.Some? ==> |r.value| == |events|
    ensures r.Some? ==> forall i :: 0 <= i < |events| ==>
              r.value[i] == Pairwise(decodeAll(StripHexPrefix(events[i].data)).value)
  {
    if events == [] then Some([])
    else
      var n := |events| - 1;
      match DecodeEach(events[..n], decodeAll)
      case None => None
      case Some(front) =>
        match decodeAll(StripHexPrefix(events[n].data))
        case None => None
        case Some(d) => Some(front + [Pairwise(d)])
  }

  /** One run of fetchRequests as a function of its inputs and the db directory it starts from. */
  function Run(file: string, block: int, db: map<string, int>, ledger: Ledger, decodeAll: Decoder): Outcome
  {
    var fromBlock := StartBlock(file, db, block);
    match (ledger.requested(fromBlock), ledger.fulfilled(fromBlock))
    case (Some(requested), Some(fulfilled)) =>
      var pending := Pending(requested, fulfilled);
      if |RequestIds(pending)| != 0 then
        match ledger.oracle(fromBlock)
        case None => LedgerQueryFailed(fromBlock)
        case Some(oracle) =>
          match DecodeEach(Matched(RequestIds(pending), oracle), decodeAll)
          case None => DecodeFailed(fromBlock)
          case Some(decoded) => Completed(fromBlock, decoded, LatestBlock(fromBlock, requested) + 1)
      else
        Completed(fromBlock, [], fromBlock)
    case _ => LedgerQueryFailed(fromBlock)
  }

  /** The decoding step over all matched logs; it stops at the first payload the decoder rejects. */
  method DecodeOracleRequests(events: seq<OracleEvent>, decodeAll: Decoder) returns (r: Option<seq<Object>>)
    ensures r == DecodeEach(events, decodeAll)
  {
    var decoded: seq<Object> := [];
    for i := 0 to |events|
      invariant DecodeEach(events[..i], decodeAll) == Some(decoded)
    {
      assert events[..i + 1][..i] == events[..i];
      var request := DecodeOracleRequestData(events[i], decodeAll);
      if request.None? {
        return None;
      }
      decoded := decoded + [request.value];
    }
    assert events[..|events|] == events;
    return Some(decoded);
  }

  /** Saving one more record extends the directory and the write log by that record. */
  lemma SavedStep(output: map<string, Json>, requests: seq<Object>, i: nat)
    requires i < |requests|
    ensures Saved(output, requests[..i + 1]) == Saved(output, requests[..i])[FileName(requests[i]) := Serialize(requests[i])]
    ensures RecordWrites(requests[..i + 1]) == RecordWrites(requests[..i]) + [RecordFile(FileName(requests[i]))]
  {
    assert requests[..i + 1][..i] == requests[..i];
  }

  class Workspace {
    /** The db directory: watermark files by name, as the integer their `fromBlock` parses to. */
    var db: map<string, int>
    /** The output directory: record files by name. */
    var output: map<string, Json>
    /** Every file write so far, in order. */
    ghost var writes: seq<Write>

    constructor (db: map<string, int>, output: map<string, Json>)
      ensures this.db == db && this.output == output && writes == []
    {
      this.db := db;
      this.output := output;
      writes := [];
    }

    /** saveRequest: write the record to the file named after its token id. */
    method SaveRequest(request: Object)
      modifies this
      ensures output == old(output)[FileName(request) := Serialize(request)]
      ensures db == old(db)
      ensures writes == old(writes) + [RecordFile(FileName(request))]
    {
      output := output[FileName(request) := Serialize(request)];
      writes := writes + [RecordFile(FileName(request))];
    }

    /** `decodedOracleRequestsData.map(saveRequest)`: save each record in order. */
    method SaveRequests(requests: seq<Object>)
      modifies this
      ensures output == Saved(old(output), requests)
      ensures db == old(db)
      ensures writes == old(writes) + RecordWrites(requests)
    {
      ghost var output0, writes0 := output, writes;
      for i := 0 to |requests|
        invariant output == Saved(output0, requests[..i])
        invariant db == old(db)
        invariant writes == writes0 + RecordWrites(requests[..i])
      {
        SavedStep(output0, requests, i);
        SaveRequest(requests[i]);
      }
      assert requests[..|requests|] == requests;
    }

    /** The final write of a run: the next start block to `db/fromBlock.json`. */
    method WriteWatermark(newFromBlock: int)
      modifies this
      ensures db == old(db)[WatermarkFileName := newFromBlock]
      ensures output == old(output)
      ensures writes == old(writes) + [WatermarkFile(newFromBlock)]
    {
      db := db[WatermarkFileName := newFromBlock];
      writes := writes + [WatermarkFile(newFromBlock)];
    }

    /**
     * fetchRequests. A completed run saves its records and then writes the
     * watermark exactly once; a run that stops on a failure writes nothing.
     */
    method FetchRequests(file: string, block: int, ledger: Ledger, decodeAll: Decoder) returns (outcome: Outcome)
      modifies this
      ensures outcome == Run(file, block, old(db), ledger, decodeAll)
      ensures outcome.Completed? ==>
                && output == Saved(old(output), outcome.saved)
                && db == old(db)[WatermarkFileName := outcome.newFromBlock]
                && writes == old(writes) + RecordWrites(outcome.saved) + [WatermarkFile(outcome.newFromBlock)]
      ensures !outcome.Completed? ==> output == old(output) && db == old(db) && writes == old(writes)
    {
      ghost var expected := Run(file, block, db, ledger, decodeAll);
      var fromBlock := StartBlock(file, db, block);
      var requestedEvents := ledger.requested(fromBlock);
      if requestedEvents.None? {
        assert expected == LedgerQueryFailed(fromBlock);
        return LedgerQueryFailed(fromBlock);
      }
      var fulfilledLogs := ledger.fulfilled(fromBlock);
      if fulfilledLogs.None? {
        assert expected == LedgerQueryFailed(fromBlock);
        return LedgerQueryFailed(fromBlock);
      }
      var pendingRequests, latestBlock := GetPendingRequests(requestedEvents.value, fulfilledLogs.value, fromBlock);
      var requestIds := RequestIds(pendingRequests);
      var newFromBlock;
      var saved: seq<Object> := [];
      if |requestIds| != 0 {
        var oracleLogs := ledger.oracle(fromBlock);
        if oracleLogs.None? {
          assert expected == LedgerQueryFailed(fromBlock);
          return LedgerQueryFailed(fromBlock);
        }
        var oracleRequests := GetOracleRequests(requestIds, oracleLogs.value);
        var decoded := DecodeOracleRequests(oracleRequests, decodeAll);
        if decoded.None? {
          assert expected == DecodeFailed(fromBlock);
          return DecodeFailed(fromBlock);
        }
        saved := decoded.value;
        assert expected == Completed(fromBlock, saved, latestBlock + 1);
        SaveRequests(saved);
        newFromBlock := latestBlock + 1;
      } else {
        assert expected == Completed(fromBlock, [], fromBlock);
        assert RecordWrites(saved) == [];
        newFromBlock := fromBlock;
      }
      WriteWatermark(newFromBlock);
      outcome := Completed(fromBlock, saved, newFromBlock);
    }
  }

  // ---------------------------------------------------------------------
  // Properties of a run
  // ---------------------------------------------------------------------

  /**
   * The next start block is the latest requested block plus one when some
   * request is pending, and the unchanged start block otherwise; so it never
   * falls below the start block, and passes it exactly when a request is pending.
   */
  lemma {:induction false} RunWatermark(file: string, block: int, db: map<string, int>, ledger: Ledger, decodeAll: Decoder)
    requires Run(file, block, db, ledger, decodeAll).Completed?
    ensures var o := Run(file, block, db, ledger, decodeAll);
      && o.fromBlock == StartBlock(file, db, block)
      && ledger.requested(o.fromBlock).Some? && ledger.fulfilled(o.fromBlock).Some?
      && var requested, pending := ledger.requested(o.fromBlock).value,
                                  Pending(ledger.requested(o.fromBlock).value, ledger.fulfilled(o.fromBlock).value);
      && (pending != [] ==> o.newFromBlock == LatestBlock(o.fromBlock, requested) + 1)
      && (pending == [] ==> o.newFromBlock == o.fromBlock && o.saved == [])
      && o.newFromBlock >= o.fromBlock
      && (o.newFromBlock > o.fromBlock <==> pending != [])
      && (pending != [] ==> forall i :: 0 <= i < |requested| ==> requested[i].blockNumber < o.newFromBlock)
  {
    var o := Run(file, block, db, ledger, decodeAll);
    LatestBlockIsMaximum(o.fromBlock, ledger.requested(o.fromBlock).value);
  }

  /** A completed run saves exactly the decoded payloads of the matched oracle logs, in order. */
  lemma RunSavesMatched(file: string, block: int, db: map<string, int>, ledger: Ledger, decodeAll: Decoder)
    requires Run(file, block, db, ledger, decodeAll).Completed?
    ensures var o := Run(file, block, db, ledger, decodeAll);
      var pending := Pending(ledger.requested(o.fromBlock).value, ledger.fulfilled(o.fromBlock).value);
      pending != [] ==>
        && ledger.oracle(o.fromBlock).Some?
        && var matched := Matched(RequestIds(pending), ledger.oracle(o.fromBlock).value);
        && |o.saved| == |matched|
        && forall i :: 0 <= i < |matched| ==>
             o.saved[i] == Pairwise(decodeAll(StripHexPrefix(matched[i].data)).value)
  {
  }

  /**
   * One payload the decoder rejects stops the whole run: nothing is saved and
   * the watermark is not written (by FetchRequests' postcondition).
   */
  lemma RunDecodeFailure(file: string, block: int, db: map<string, int>, ledger: Ledger, decodeAll: Decoder, k: nat)
    requires var fromBlock := StartBlock(file, db, block);
      && ledger.requested(fromBlock).Some? && ledger.fulfilled(fromBlock).Some? && ledger.oracle(fromBlock).Some?
      && var pending := Pending(ledger.requested(fromBlock).value, ledger.fulfilled(fromBlock).value);
      && var matched := Matched(RequestIds(pending), ledger.oracle(fromBlock).value);
      && k < |matched|
      && decodeAll(StripHexPrefix(matched[k].data)).None?
    ensures Run(file, block, db, ledger, decodeAll).DecodeFailed?
  {
    var fromBlock := StartBlock(file, db, block);
    var pending := Pending(ledger.requested(fromBlock).value, ledger.fulfilled(fromBlock).value);
    var matched := Matched(RequestIds(pending), ledger.oracle(fromBlock).value);
    MatchedIsLookup(RequestIds(pending), ledger.oracle(fromBlock).value);
    assert |RequestIds(pending)| != 0;
  }

  /** A run that saw no pending request leaves the start block in place and saves nothing. */
  lemma RunWithoutPending(file: string, block: int, db: map<string, int>, ledger: Ledger, decodeAll: Decoder)
    requires var fromBlock := StartBlock(file, db, block);
      && ledger.requested(fromBlock).Some? && ledger.fulfilled(fromBlock).Some?
      && Pending(ledger.requested(fromBlock).value, ledger.fulfilled(fromBlock).value) == []
    ensures Run(file, block, db, ledger, decodeAll) == Completed(StartBlock(file, db, block), [], StartBlock(file, db, block))
  {
  }

  /** The next run that reads the default `fromBlock.json` starts where this run's watermark write left it. */
  lemma NextRunResumes(db: map<string, int>, newFromBlock: int, block: int)
    ensures StartBlock(WatermarkFileName, db[WatermarkFileName := newFromBlock], block) == newFromBlock
  {
  }

  /**
   * After saving `requests`, a file holds the last record saved under its name
   * (`SavedUntouched` covers the files no record is named after).
   */
  lemma {:induction false} SavedLastWins(output: map<string, Json>, requests: seq<Object>, i: nat)
    requires i < |requests|
    requires forall j :: i < j < |requests| ==> FileName(requests[j]) != FileName(requests[i])
    ensures FileName(requests[i]) in Saved(output, requests)
    ensures Saved(output, requests)[FileName(requests[i])] == Serialize(requests[i])
  {
    var n := |requests| - 1;
    SavedStep(output, requests, n);
    assert requests[..n + 1] == requests;
    if i < n {
      FrontKeepsLastName(requests, i);
      SavedLastWins(output, requests[..n], i);
    }
  }

  /** Dropping the final record keeps record `i` the last one saved under its name. */
  lemma FrontKeepsLastName(requests: seq<Object>, i: nat)
    requires i < |requests| - 1
    requires forall j :: i < j < |requests| ==> FileName(requests[j]) != FileName(requests[i])
    ensures var front := requests[..|requests| - 1];
      front[i] == requests[i] && forall j :: i < j < |front| ==> FileName(front[j]) != FileName(front[i])
  {
  }

  /** A file no saved record is named after is left as it was. */
  lemma {:induction false} SavedUntouched(output: map<string, Json>, requests: seq<Object>, name: string)
    requires forall j :: 0 <= j < |requests| ==> FileName(requests[j]) != name
    ensures name in Saved(output, requests) <==> name in output
    ensures name in output ==> Saved(output, requests)[name] == output[name]
  {
    if requests != [] {
      var n := |requests| - 1;
      forall j | 0 <= j < n
        ensures FileName(requests[..n][j]) != name
      {
        assert requests[..n][j] == requests[j];
      }
      SavedUntouched(output, requests[..n], name);
    }
  }

  // The example run: requests A, B, C at blocks 10, 12, 15, only A
  // fulfilled, and an oracle log for B whose payload decodes to four pairs.

  const ExampleRequested: seq<RequestedEvent> :=
    [RequestedEvent(10, "A"), RequestedEvent(12, "B"), RequestedEvent(15, "C")]
  const ExampleFulfilled: seq<FulfilledEvent> := [FulfilledEvent("A")]
  const ExampleOracle: seq<OracleEvent> := [OracleEvent("B", "0xa4")]
  const ExamplePayload: seq<Term> :=
    [Text("address"), Text("0x1"), Text("requestor"), Text("0x2"),
     Text("token_id"), Int(7), Text("recipe_id"), Int(3)]

  function ExampleDecoder(hex: string): Option<seq<Term>> {
    if hex == "a4" then Some(ExamplePayload) else None
  }

  const ExampleLedger: Ledger :=
    Ledger(_ => Some(ExampleRequested), _ => Some(ExampleFulfilled), _ => Some(ExampleOracle))

  /** In the example B and C are pending and the latest block is 15. */
  lemma ExamplePending()
    ensures Pending(ExampleRequested, ExampleFulfilled) == ExampleRequested[1..]
    ensures LatestBlock(0, ExampleRequested) == 15
  {
    var fulfilled := ExampleFulfilled;
    assert fulfilled[0].id == "A";
    assert Fulfilled("A", fulfilled);
    assert !Fulfilled("B", fulfilled);
    assert !Fulfilled("C", fulfilled);
    var one, two := ExampleRequested[..1], ExampleRequested[..2];
    assert one == [RequestedEvent(10, "A")] && one[..0] == [];
    assert two == [RequestedEvent(10, "A"), RequestedEvent(12, "B")] && two[..1] == one;
    assert one[0].id == "A";
    assert Pending(one, fulfilled) == [];
    assert LatestBlock(0, one) == 10;
    assert Pending(two, fulfilled) == [RequestedEvent(12, "B")];
    assert LatestBlock(0, two) == 12;
  }

  /** In the example only B has an oracle log. */
  lemma ExampleMatched()
    ensures RequestIds(ExampleRequested[1..]) == ["B", "C"]
    ensures Matched(["B", "C"], ExampleOracle) == ExampleOracle
  {
    var ids := RequestIds(ExampleRequested[1..]);
    assert |ids| == 2 && ids[0] == "B" && ids[1] == "C";
    var bc: seq<string> := ["B", "C"];
    assert bc[..1] == ["B"] && bc[..1][..0] == [];
    assert FindOracleRequest(ExampleOracle, "B") == Some(0);
    assert FindOracleRequest(ExampleOracle, "C") == None;
  }

  /** In the example B's payload decodes without failing. */
  lemma ExampleDecoded()
    ensures DecodeEach(ExampleOracle, ExampleDecoder) == Some([Pairwise(ExamplePayload)])
  {
    var decoder: Decoder := ExampleDecoder;
    assert StripHexPrefix(ExampleOracle[0].data) == "a4";
    assert decoder("a4") == Some(ExamplePayload);
    assert ExampleOracle[..0] == [];
    assert DecodeEach([], decoder) == Some([]);
    var r := DecodeEach(ExampleOracle, decoder);
    assert r.Some?;
    assert |r.value| == 1;
    assert r.value[0] == Pairwise(ExamplePayload);
    assert r.value == [r.value[0]];
    assert r == Some([Pairwise(ExamplePayload)]);
  }

  /** The JSON the example record is saved as. */
  const ExampleJson: Json :=
    map["address" := Text("0x1"), "requestor" := Text("0x2"), "token_id" := Int(7), "recipe_id" := Int(3)]

  /** The object the example payload decodes to. */
  const ExampleObject: Object :=
    map["address" := Defined(Text("0x1")), "requestor" := Defined(Text("0x2")),
        "token_id" := Defined(Int(7)), "recipe_id" := Defined(Int(3))]

  /** In the example the payload's four pairs become the four members of the record. */
  lemma ExamplePairs()
    ensures Pairwise(ExamplePayload) == ExampleObject
  {
    var d := ExamplePayload;
    var two := PairsOf(d, 2);
    assert PairsOf(d, 1) == map["address" := Defined(Text("0x1"))];
    assert two == PairsOf(d, 1)["requestor" := Defined(Text("0x2"))];
    assert PairsOf(d, 4) == two["token_id" := Defined(Int(7))]["recipe_id" := Defined(Int(3))];
  }

  /** In the example the decoded record is saved as `7.json`, holding exactly its four members. */
  lemma ExampleRecord()
    ensures Serialize(Pairwise(ExamplePayload)) == ExampleJson
    ensures FileName(Pairwise(ExamplePayload)) == "7.json"
  {
    ExamplePairs();
    var json := Serialize(ExampleObject);
    SerializeDefined(ExampleObject);
    assert json.Keys == ExampleJson.Keys;
    assert Digits(7) == "7";
    assert "7" + ".json" == "7.json";
  }

  /** The example run completes, saves one record to `7.json`, and moves the start block to 16. */
  lemma ExampleRun()
    ensures var o := Run("", 0, map[], ExampleLedger, ExampleDecoder);
      && o.Completed? && o.newFromBlock == 16 && |o.saved| == 1
      && FileName(o.saved[0]) == "7.json" && Serialize(o.saved[0]) == ExampleJson
  {
    ExamplePending();
    ExampleMatched();
    ExampleDecoded();
    ExampleRecord();
    assert ExampleLedger.requested(0) == Some(ExampleRequested);
    assert ExampleLedger.fulfilled(0) == Some(ExampleFulfilled);
    assert ExampleLedger.oracle(0) == Some(ExampleOracle);
  }
}
