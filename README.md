# smart-trigger `fetch`: a verified model of the reconciliation engine

The `fetch` command of smart-trigger polls a blockchain once. It reads the
`ChainlinkRequested` and `ChainlinkFulfilled` logs of the order consumer
contract from a start block onwards. A request is *pending* when no fulfilled
log carries its id. The highest requested block becomes the basis of the next
start block. For each pending id the command takes the first `OracleRequest`
log of the oracle contract with that `requestId`. It decodes the log's
CBOR payload into a key/value object and saves each object to
`output/<token_id>.json`. Last of all it writes the next start block to
`db/fromBlock.json`.

This project models that engine in Dafny, in four modules:

- `Wrappers` (`wrappers.dfy`): the `Option` type.
- `Events` (`events.dfy`): the event records and `Find`, which is
  `Array.prototype.find`. `GetPendingRequests` is the loop of
  `getPendingRequests` and is proved against the functions `Pending` and
  `LatestBlock`. `GetOracleRequests` is the loop of `getOracleRequests` and is
  proved against `Matched`. Lemmas show that `Pending` is an order-preserving
  filter and that `LatestBlock` is a maximum. Other lemmas say which log
  `Matched` picks for each id.
- `Decode` (`decode.dfy`): decoded CBOR items (`Term`) and JavaScript's
  `String()` of them, which names object properties and files. It holds the
  `slice(2)` prefix strip and the stride-2 loop of `decodeOracleRequestData`,
  proved against `Pairwise`. Lemmas cover last-write-wins for repeated keys,
  `undefined` for an odd item count, and a round trip with an interleaving
  encoder.
- `Fetch` (`fetch.dfy`): a `Workspace` class whose fields are the `db` and
  `output` directories plus a ghost log of file writes in order. Its methods
  are `SaveRequest`, `SaveRequests`, `WriteWatermark` and `FetchRequests`. The
  run as a whole is proved equal to the function `Run`, and lemmas give the
  watermark, save-order and failure properties.

Outside the core, the model takes these as parameters:

- The ledger queries form a `Ledger` value of three functions from the start
  block to `Option<seq<…>>`. `None` means the query promise rejects.
- The hex-to-bytes conversion and `cbor.decodeAllSync` form one function
  `Decoder` from the stripped hex text to `Option<seq<Term>>`. `None` means the
  decoder throws.

## Behaviour of the code worth noting

- **Watermark advance.** The watermark advances only when the pending set is
  non-empty (app/commands/fetch.ts:204). A poll whose requests are all
  fulfilled keeps the old start block (`RunWatermark`).
- **Decode failures.** The decoder's exception is not caught
  (app/commands/fetch.ts:212-214). Every payload is decoded before any file
  is saved, so one bad payload stops the run with no record and no watermark
  written (`RunDecodeFailure`, and `FetchRequests`' postcondition).
- **Odd item count.** With an odd number of decoded items the last key maps
  to `undefined` (app/commands/fetch.ts:132-134; `PairwiseOddLength`).
  `JSON.stringify` then drops that member from the saved file (`SerializeDefined`).
- **No validation.** The decoded object is cast to the record type without
  any check. A payload without `token_id` is saved as `undefined.json`
  (app/commands/fetch.ts:150; `FileNameOfTokenId`).
- **Watermark file name.** The start block is read from `db/<file option>`,
  but the next start block is always written to `db/fromBlock.json`
  (app/commands/fetch.ts:176, 241-244). `StartBlock` and `WriteWatermark`
  keep the two apart.

## Model

| member | source | states |
|---|---|---|
| `Events.Find` | app/commands/fetch.ts:53-57 | `find` gives the first element satisfying the predicate, or nothing when no element does |
| `Events.FindFulfilled` | app/commands/fetch.ts:53-58 | the fulfilled-log lookup comes back empty exactly when no fulfilled event carries the request id |
| `Events.GetPendingRequests` | app/commands/fetch.ts:39-66 | the loop returns `Pending(requested, fulfilled)` and `LatestBlock(fromBlock, requested)`; with no fulfilled events every request is pending; with no requested events nothing is pending and the latest block is `fromBlock` |
| `Events.PendingIsFilter` | app/commands/fetch.ts:42-63 | the pending list is the requested list read at strictly increasing positions, and a position is kept exactly when its id matches no fulfilled id, so every occurrence of a fulfilled id is dropped |
| `Events.PendingMembership` | app/commands/fetch.ts:52-63 | an event is pending if and only if it was requested and its id was never fulfilled |
| `Events.PendingWithoutFulfilled` | app/commands/fetch.ts:39-64 | with no fulfilled events the pending list is the whole requested list |
| `Events.LatestBlockIsMaximum` | app/commands/fetch.ts:40-50 | the latest block is at least `fromBlock` and at least every requested block, fulfilled or not, and equals `fromBlock` or one of those blocks |
| `Events.RequestIds` | app/commands/fetch.ts:198-200 | one id per pending event, in order, each the event's `topics[1]` |
| `Events.FindOracleRequest` | app/commands/fetch.ts:97-101 | the oracle lookup finds a log whose `requestId` is the id with none before it, or reports that no log carries the id |
| `Events.GetOracleRequests` | app/commands/fetch.ts:92-113 | the loop returns `Matched(requestIds, oracle)`, which is no longer than `requestIds` |
| `Events.MatchedPositionsOrdered` | app/commands/fetch.ts:95-108 | the matched list follows the ids' order at strictly increasing positions, no longer than the ids; an id is skipped exactly when no oracle log carries it |
| `Events.MatchedIsLookup` | app/commands/fetch.ts:95-108 | each matched entry is the first oracle log whose `requestId` is the id at its position |
| `Events.MatchedAnswersIds` | app/commands/fetch.ts:95-108 | every matched log's `requestId` is one of the ids, and the log is the first in the oracle list with that `requestId` |
| `Events.MatchedAppend` | app/commands/fetch.ts:95-108 | matching the concatenation of two id lists is the concatenation of matching each |
| `Events.MatchedSameId` | app/commands/fetch.ts:95-108 | two kept positions that hold the same id yield the same oracle log |
| `Events.MatchedDuplicate` | app/commands/fetch.ts:95-108 | an id given twice yields its oracle log twice, or nothing when it has no log |
| `Decode.StripHexPrefix` | app/commands/fetch.ts:129 | the first two characters (the `0x` prefix) are removed and the rest is kept; a shorter string gives the empty string |
| `Decode.Digits` | app/commands/fetch.ts:133 | the decimal form `String()` gives a non-negative integer: digits only, one digit below 10 and no leading zero from 10 up, and it reads back as the integer |
| `Decode.PropertyKeyOfInt` | app/commands/fetch.ts:133 | a non-negative integer key is `Digits` of it; a negative one is `-` followed by `Digits` of its magnitude; either reads back as the integer |
| `Decode.IntKeysDistinct` | app/commands/fetch.ts:133 | distinct integers become distinct property names |
| `Decode.DecodeOracleRequestData` | app/commands/fetch.ts:125-136 | fails exactly when the decoder rejects the stripped payload; otherwise the stride-2 loop returns `Pairwise` of the decoded items |
| `Decode.PairwiseLookup` | app/commands/fetch.ts:131-134 | the item at key position `2 * m` is a key that maps to item `2 * m + 1` (or `undefined` past the end), provided no later key position has the same key |
| `Decode.PairwiseKeys` | app/commands/fetch.ts:131-134 | the object's keys are exactly the `String()` forms of the items at positions `2 * m` |
| `Decode.PairwiseOddLength` | app/commands/fetch.ts:132-133 | with an odd number of items the last key maps to `undefined`; nothing fails |
| `Decode.PairwiseEvenLength` | app/commands/fetch.ts:131-134 | with an even number of items no key maps to `undefined` |
| `Decode.PairwiseInterleave` | app/commands/fetch.ts:128-134 | pairing the interleaved items of (key, value) pairs with distinct keys gives back each value under its key |
| `Fetch.SerializeDefined` | app/commands/fetch.ts:151 | the saved JSON holds exactly the members whose value is defined, with those values |
| `Fetch.FileNameSuffix` | app/commands/fetch.ts:149-150 | every record file name ends in `.json` |
| `Fetch.FileNameOfTokenId` | app/commands/fetch.ts:149-150 | a record with a non-negative integer token id is saved as `<digits>.json`, whose stem reads back as the id; a record without a token id, or with an `undefined` one, is saved as `undefined.json` |
| `Fetch.FileNamesDistinct` | app/commands/fetch.ts:149-150 | records with different integer token ids are saved to different files |
| `Fetch.StartBlock` | app/commands/fetch.ts:173-191 | with a file option naming a db file that reads, the start block is that file's value; with no file option, or a file that is missing or does not parse, it is the `block` option |
| `Fetch.DecodeEach` | app/commands/fetch.ts:212-214 | decoding the matched logs fails exactly when the decoder rejects one of their payloads; otherwise entry `i` is `Pairwise` of the items of payload `i` |
| `Fetch.DecodeOracleRequests` | app/commands/fetch.ts:212-214 | the decoding loop returns `DecodeEach` of the matched logs |
| `Fetch.Workspace.SaveRequest` | app/commands/fetch.ts:138-152 | the file `<token_id>.json` now holds the record's JSON, whatever it held before; the db directory is unchanged; one record write is logged |
| `Fetch.Workspace.SaveRequests` | app/commands/fetch.ts:224 | saving a list in order leaves the output directory equal to `Saved(old output, records)` and logs one record write per record, in order |
| `Fetch.Workspace.WriteWatermark` | app/commands/fetch.ts:238-244 | `db/fromBlock.json` now holds the new start block; the output directory is unchanged; one watermark write is logged |
| `Fetch.Workspace.FetchRequests` | app/commands/fetch.ts:161-245 | the run ends as `Run` says. A completed run saves its records, then writes the watermark once, last. A run stopped by a rejected query or a rejected payload changes no file |
| `Fetch.RunWatermark` | app/commands/fetch.ts:202-232 | the run starts at the block read from the file option, else at the `block` option. The next start block is `latestBlock + 1` when something is pending and `fromBlock` otherwise. So it never falls below `fromBlock`, rises above it exactly when a request is pending, and then passes every requested block |
| `Fetch.RunSavesMatched` | app/commands/fetch.ts:204-226 | a completed run with pending requests saves exactly the decoded payloads of the matched oracle logs, in match order |
| `Fetch.RunDecodeFailure` | app/commands/fetch.ts:212-214 | if the decoder rejects any matched payload, the run stops with a decode failure |
| `Fetch.RunWithoutPending` | app/commands/fetch.ts:227-232 | with the requested and fulfilled queries answered and nothing pending, the run completes, saves nothing and keeps the start block |
| `Fetch.NextRunResumes` | app/commands/fetch.ts:173-178 | after the watermark write, a run reading the default file `fromBlock.json` starts at the value written, whatever its `block` option |
| `Fetch.SavedLastWins` | app/commands/fetch.ts:150-151 | after saving a list, a file holds the JSON of the last record saved under its name |
| `Fetch.SavedUntouched` | app/commands/fetch.ts:150-151 | a file that no saved record is named after keeps its old content, or stays absent |
| `Fetch.ExamplePairs` | app/commands/fetch.ts:131-134 | the example payload `address, 0x1, requestor, 0x2, token_id, 7, recipe_id, 3` decodes to an object with exactly those four members |
| `Fetch.ExampleRecord` | app/commands/fetch.ts:149-151 | the example record is saved under `7.json`, and its JSON holds exactly the four decoded members |
| `Fetch.ExampleRun` | app/commands/fetch.ts:161-245 | requests A, B, C at blocks 10, 12, 15 with only A fulfilled and an oracle log for B: the run completes and saves one record to `7.json` whose JSON is `{address: "0x1", requestor: "0x2", token_id: 7, recipe_id: 3}`. The next start block is 16 |

## Left out

- CBOR decoding (`cbor.decodeAllSync`, RFC 8949) and `Buffer.from(…, 'hex')` are a foreign library and a byte conversion. Together they are the `Decoder` parameter. Only the `slice(2)` prefix strip is modelled.
- Decoded items are integers, text, booleans and null. Floats, byte strings, arrays, maps and tagged items are not modelled. Integers become keys and file names in plain decimal. Integers beyond ±(2^53−1) are not modelled: JavaScript holds them rounded to a double, or as a `BigInt`, which `JSON.stringify` rejects with a throw that would stop the saves part-way, before the watermark write. The exponent form `String()` gives very large doubles is not modelled either.
- A decoded key `__proto__` or a `token_id` containing `/` has special effects in JavaScript or on the filesystem. These are not modelled.
- Ethers' `queryFilter` and `parseLog` are ledger RPC and ABI parsing. The `Ledger` parameter supplies their results. A `parseLog` that throws is not modelled.
- The filesystem paths come from `process.argv[1]`, `existsSync` and `mkdirSync`. They are ambient process state and are replaced by the two `Workspace` fields. A `writeFileSync` that throws part-way through the saves is not modelled: the model's writes always succeed.
- Reading the watermark file involves `JSON.parse` and `parseInt`. A file in `db` holds the integer its `fromBlock` member parses to. A file that is missing or does not parse is absent from the map, so the run falls back to `block`. `parseInt` returning `NaN` for a missing member is not modelled.
- The `block` option arrives from the command line as a string (default `'0'`). It is modelled as an integer. How a string start block would behave in the comparisons, in `latestBlock + 1` and in the ledger client is not modelled.
- `console.log` output is left out.
- The command is asynchronous. The model runs its awaits in source order, one at a time, with a single writer.
- `app/commands/push.ts` is left out. It reads the output directory and posts each record with the constant `bridge: 'orderpizzav1'` over HTTP, which is not core logic.
- `app/smartTrigger.ts` is command-line wiring and is left out. The `listen` command is not part of this model.
