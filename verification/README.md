# Latency monitor history store, modelled in Dafny

The latency monitor keeps, for every probed target URL, a rolling history of
latency samples. The history lives in one durable object, `ProbeStoreDO`, whose
storage maps the key `"history:" + url` to a list of samples, oldest first.
The object answers two requests:

- **add** (`POST /store/add` with `{url, sample}`): read the target's list (a
  missing key reads as an empty list), append the sample, keep only the newest
  200 entries, write the list back and reply with the new `count`;
- **history** (`GET /store/history?url=…&limit=…`): read the same key and reply
  with the newest `k` samples in their original order, where
  `k = min(max(limit, 1), 200)`, `limit` defaults to 25 and `url` defaults to
  the empty string.

The model treats storage as an immutable `map<string, seq<Sample>>` and both
requests as pure functions from the storage and the decoded request fields to
the next storage and the reply body.

- `js_array.dfy` (module `JsArray`): JavaScript's `Array.prototype.slice(start)`
  for an integer start (`SliceFrom`), and an independent reference definition of
  FIFO eviction (`Last`: drop the oldest element until at most `n` remain), with
  the lemmas that connect them.
- `probe_store.dfy` (module `ProbeStore`): samples, storage, the key scheme,
  `Add`, `Read`, the limit clamp and the request dispatcher `Handle`.
- `store_properties.dfy` (module `StoreProperties`): what one add does below and
  at capacity, per-target isolation, the limit clamp as seen by a reader,
  add-then-read, and runs of sequential adds (`AddAll`, and the loop `AddEach`).

## Model

| member | source | states |
|---|---|---|
| `ProbeStore.Add` | worker/ProbeStoreDO.js:10-23 | the target's key is present afterwards and holds the newest 200 of its old list followed by the new sample; `count` is that list's length and at most 200; no other key appears, disappears or changes |
| `ProbeStore.ClampLimit` | worker/ProbeStoreDO.js:27-31 | the window size is always in 1..200; no limit gives 25; a limit in 1..200 is kept, below 1 becomes 1, above 200 becomes 200 |
| `ProbeStore.Read` | worker/ProbeStoreDO.js:25-34 | the reply echoes the target and holds the newest `ClampLimit(limit)` samples of the target's list, oldest first, so its length is the smaller of that window and the list length |
| `ProbeStore.Handle` | worker/ProbeStoreDO.js:10-34 | a history request leaves storage exactly as it was and replies with the target and window `Read` computes; an add stores what `Add` computes and replies with its count, at most 200; an add changes neither the presence nor the value of any key but its target's |
| `ProbeStore.HistoryKey` | worker/ProbeStoreDO.js:12 | the storage key of a target is `"history:"` followed by the target verbatim, so the target can be read back from the key; the history read builds the same key at line 29 |
| `ProbeStore.Target` | worker/ProbeStoreDO.js:26 | a history read without a `url` parameter is about the empty target; a given `url` is used verbatim |
| `ProbeStore.Stored` | worker/ProbeStoreDO.js:14 | a key not in storage reads as the empty list; a present key reads its stored list (the history read uses the same default at line 30) |
| `JsArray.Min` | worker/ProbeStoreDO.js:31 | `Math.min` returns one of its arguments, and one no larger than either |
| `JsArray.Max` | worker/ProbeStoreDO.js:31 | `Math.max` returns one of its arguments, and one no smaller than either |
| `JsArray.SliceFrom` | worker/ProbeStoreDO.js:18 | `slice(start)` with a negative start keeps `min(-start, length)` elements, with a non-negative start `max(length - start, 0)`; line 31 uses the same call |
| `JsArray.SliceFromIsSuffix` | worker/ProbeStoreDO.js:18 | whatever the start, `slice` returns a suffix of the array with its order kept |
| `JsArray.Last` | worker/ProbeStoreDO.js:17-18 | FIFO eviction to `n` elements leaves `min(n, |s|)` elements |
| `JsArray.LastIsSuffix` | worker/ProbeStoreDO.js:17-18 | the evicted window is the suffix of the list of that length, so the newest elements survive in their original order |
| `JsArray.SliceNegativeIsLast` | worker/ProbeStoreDO.js:18 | for every window size of at least 1, `slice(-n)` is exactly FIFO eviction to `n` elements |
| `JsArray.LastKeepsNewest` | worker/ProbeStoreDO.js:18 | a non-empty window of a non-empty list ends with the list's newest element |
| `StoreProperties.AddBelowCapacity` | worker/ProbeStoreDO.js:14-22 | with fewer than 200 stored samples an add evicts nothing: the list becomes the old list plus the sample and the count grows by one |
| `StoreProperties.AddAtCapacity` | worker/ProbeStoreDO.js:14-22 | with exactly 200 stored samples an add drops only the oldest one: the list becomes the old list without its first entry, plus the sample, and the count stays 200 |
| `StoreProperties.AddBounded` | worker/ProbeStoreDO.js:17-20 | an add keeps every stored list at 200 entries or fewer |
| `StoreProperties.HandleKeepsBounded` | worker/ProbeStoreDO.js:10-34 | serving any request keeps every stored list at 200 entries or fewer |
| `StoreProperties.KeyInjective` | worker/ProbeStoreDO.js:12 | two targets with the same storage key are the same target |
| `StoreProperties.AddIsolatesTargets` | worker/ProbeStoreDO.js:12-20 | an add for one target leaves every other target's list, and every history read of it, unchanged |
| `StoreProperties.ReadUnknownTarget` | worker/ProbeStoreDO.js:29-31 | a target that was never written reads as an empty history, not an error |
| `StoreProperties.ReadMissingUrl` | worker/ProbeStoreDO.js:26 | a read without a `url` parameter is a read of the empty target |
| `StoreProperties.ReadLimitBelowOne` | worker/ProbeStoreDO.js:27-31 | any limit below 1 reads the same as limit 1: at most one sample |
| `StoreProperties.ReadLimitAboveMax` | worker/ProbeStoreDO.js:27-31 | any limit above 200 reads the same as limit 200 |
| `StoreProperties.ReadDefaultLimit` | worker/ProbeStoreDO.js:27 | a read without a limit reads the same as limit 25 |
| `StoreProperties.ZeroLimitNeedsRaise` | worker/ProbeStoreDO.js:31 | for limit 0 on a non-empty list, `slice(-Math.min(0, 200))` without the `Math.max(…, 1)` would return the whole list, while the read as written returns only the newest sample |
| `StoreProperties.AddThenRead` | worker/ProbeStoreDO.js:12-31 | reading a target right after an add to it, with any limit, returns a non-empty history whose last element is the sample just added |
| `StoreProperties.AddAllWindow` | worker/ProbeStoreDO.js:14-20 | a run of adds to one target leaves the newest 200 of its old list followed by all added samples, in insertion order |
| `StoreProperties.AddAllIsolated` | worker/ProbeStoreDO.js:12-20 | a run of adds to one target leaves every other key present exactly when it was before, reading the same list as before |
| `StoreProperties.ManyAddsKeepLastWindow` | worker/ProbeStoreDO.js:14-20 | after 200 or more adds to one target it holds exactly the last 200 samples added, in insertion order |
| `StoreProperties.FewAddsKeepAll` | worker/ProbeStoreDO.js:14-20 | up to 200 adds to a fresh target keep every sample, in insertion order; no adds leave it empty |
| `StoreProperties.AddEach` | worker/ProbeStoreDO.js:10-23 | serving adds one after another: the i-th reply counts `min(old length + i + 1, 200)`, the target ends with the newest 200 of old list plus samples, and every other key reads the same list as before (a missing key reads as empty) |

## Left out

- Request decoding and routing: `request.json()`, URL and method dispatch, the
  `{ok: true}` field of each reply and the 404 fallback are I/O boundaries; the
  model takes the decoded `url`, `sample` and `limit` and returns the reply
  fields.
- The durable object storage API (`get`/`put`, asynchronous) is a map; the
  platform's serialization of requests to one object, and any interleaving, is
  not modelled. Concurrent adds are modelled only in the order the object
  serves them (`AddAll`, `AddEach`).
- `Number(...)` parsing of `limit`: a non-numeric limit (NaN makes `slice`
  return the whole list) and fractional limits (truncated by `slice`) are
  JavaScript number quirks; `limit` is an optional integer and an empty or
  missing parameter is `None`.
- A missing `url` or `sample` field in an add request (JavaScript would store
  under `"history:undefined"` or push `undefined`) is not modelled: both fields
  are taken as present.
- Values found under a history key are assumed to be sample lists, as only the
  add request writes them.
- `ProbeStoreDO` stores whatever sample it is given; producing samples (probing
  a target and timing it) happens outside it and is not part of this model.
- `worker/index.js` (a routing stub) and `src/App.jsx` (user interface) hold no
  store logic.
- A sample is any JSON value to the object; the model fixes it as a record of
  four integers. No operation inspects it, so nothing proved depends on that
  choice.
- `AddEach`: its frame says every other key reads the same list as before,
  not that it keeps its presence; `AddAllIsolated` states both for the same
  run of adds.
