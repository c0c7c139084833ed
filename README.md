# Miner registry

A model of the in-memory miner registry of a small Flask telemetry service.
Miners POST their wallet, CPU usage, uptime and a client timestamp; the
service keeps the latest report per wallet in an insertion-ordered
dictionary (`miner_data`) capped at `MAX_MINERS_DISPLAYED` = 100 entries,
and the statistics endpoint returns the miners heard from in the last 600
seconds, dropping the stale ones from the registry as it goes.

Layout:

- `wrappers.dfy` — `Option`.
- `json.dfy` (module `Json`) — decoded JSON values and the Python operations
  the handler applies to them: truthiness, `dict.get`, hashability, `float()`
  and `int()`.
- `payload.dfy` (module `Payload`) — the record type, the required-fields
  check, and `Decode`, which turns a request body into a wallet and a fully
  built record or into a rejection.
- `store.dfy` (module `Store`) — the registry contents as a sequence of
  (wallet, record) entries with distinct keys: keyed assignment (`Put`), cap
  eviction (`Evict`), the staleness filter (`Fresh`, computed by the loop
  `FilterFresh`) and the lemmas about them.
- `registry.dfy` (module `MinerData`) — the class `Registry` holding the
  entries, with `Ingest` (the body of `receive_stats`) and `Snapshot` (the
  body of `get_all_stats`), and a client method that plays a report followed
  by two dashboard polls.

Time is a parameter `now` (the server's `int(time.time())`). Python's parsing
of numeric strings by `float()` and `int()` is a parameter too
(`parseFloat`, `parseInt`); conversions of booleans, integers and floats are
written out, including `int()` truncating a float toward zero.

A conversion that fails (`float("abc")`, or `float()` of an integer too
large for a double) raises inside the ingestion handler, and its catch-all
(app.py:46-49) answers with a server error (`InternalError`) rather than a
client error. The client errors are "No data provided" for a falsy body
(`NoData`) and "Missing required fields" (`MissingFields`). A truthy body
that is not a JSON object also ends in the catch-all, as does a list or
object wallet, which Python cannot hash.

## Model

| member | source | states |
|---|---|---|
| `Json.Truthy` | app.py:19-27 | a value is falsy exactly when it is `None`, `False`, a zero, or an empty string, list or object |
| `Json.Get` | app.py:22-25 | a missing key and an explicit null both read as `None`; any other value is the stored one |
| `Json.Hashable` | app.py:32 | lists and objects cannot be dictionary keys; every other value can |
| `Json.ToFloat` | app.py:33 | `float()` converts booleans, floats and integers of magnitude below 2^1024 - 2^970; strings go through `parseFloat`; `None`, lists and objects raise |
| `Json.ConversionsAgree` | app.py:33-35 | outside strings, wherever `float()` succeeds on a boolean, a float or an integer of magnitude at most 2^53, `int()` succeeds with the float's truncation; `int()` succeeds where `float()` raises exactly on integers of magnitude at least 2^1024 - 2^970 |
| `Json.TruncateTowardZero` | app.py:34-35 | `int()` of a float rounds toward zero: the result lies within 1 of the input, on the same side of zero |
| `Json.ToInt` | app.py:34-35 | `int()` of a float is its truncation toward zero; outside strings it succeeds on no `None`, list or object |
| `Payload.HasRequiredFields` | app.py:27 | the wallet must be truthy while the numeric fields need only be non-`None` |
| `Payload.Complete` | app.py:22-27 | an object body passes the required-fields check on the four fields it reads |
| `Payload.Decode` | app.py:18-37 | a falsy body is rejected as no data, and only then; a falsy wallet or an absent/null numeric field as missing fields, and only then; a body is accepted exactly when it is a complete object whose wallet is hashable and whose three fields convert, and the record then holds the converted fields, the client timestamp echoed and `now` as server timestamp |
| `Payload.ZeroFieldsAccepted` | app.py:27 | zero CPU usage, uptime and timestamp are present values and are accepted |
| `Payload.NullFieldRejected` | app.py:23-28 | an absent or null CPU usage, uptime or timestamp rejects the body as missing fields |
| `Store.IndexOf` | app.py:32 | the lookup finds the first position holding the key, or reports that no position does |
| `Store.Put` | app.py:32-37 | a new wallet is appended last; an existing wallet gets the new record at its old position with every other entry unchanged; keys stay distinct |
| `Store.Evict` | app.py:40-41 | popping from the front while over the cap leaves exactly the newest `min(n, 100)` entries |
| `Store.Ingested` | app.py:32-41 | after an ingest there are at most 100 entries, each an old entry or the new one |
| `Store.IngestedDistinctKeys` | app.py:32-41 | an ingest keeps keys distinct |
| `Store.UpdateEvictsNothing` | app.py:32-41 | re-ingesting an existing wallet evicts nothing and changes only that wallet's record |
| `Store.NewWalletAppended` | app.py:32-41 | a new wallet ends up last; only the single oldest entry is evicted, and only when the registry was full |
| `Store.IngestedKeepsNewest` | app.py:32-41 | the wallet just ingested is always present afterwards with its new record |
| `Store.IngestAll` | app.py:32-41 | a run of ingests keeps a registry within the cap and its keys distinct, and adds nothing but batch entries |
| `Store.IngestAllFifo` | app.py:32-41 | ingesting a batch of new wallets leaves the newest 100 of old entries followed by the batch: eviction is first-in first-out |
| `Store.IngestAllWithinCap` | app.py:32-41 | up to 100 new wallets ingested into an empty registry are all kept, in ingest order |
| `Store.IsFresh` | app.py:64-70 | an entry is fresh when it was stamped less than 600 seconds before `now` |
| `Store.Fresh` | app.py:69-71 | the kept entries are exactly the old entries stamped less than 600 seconds before `now`, records unchanged |
| `Store.FreshAppend` | app.py:67-71 | the filter distributes over concatenation, so fresh entries keep their relative order |
| `Store.FreshDistinctKeys` | app.py:67-71 | filtering keeps keys distinct |
| `Store.FreshIdempotent` | app.py:69-75 | a second filter at the same time returns the same entries |
| `Store.FilterFresh` | app.py:67-71 | the loop that copies entries into the new dictionary computes exactly the fresh entries in order |
| `MinerData.Registry.constructor` | app.py:11 | the registry starts empty |
| `MinerData.Registry.Ingest` | app.py:16-44 | a rejected body leaves the registry unchanged and reports why; an accepted one leaves assignment then front eviction applied; distinct keys and the 100-entry cap are preserved |
| `MinerData.Registry.Snapshot` | app.py:58-77 | the registry is replaced by, and the result is, the fresh entries of the old registry in order; distinct keys and the cap are preserved |

## Left out

- HTTP routing, `request.get_json`, `jsonify`, `render_template` and the dashboard page: the model starts from the decoded body and ends at the registry contents. A body that does not parse as JSON is therefore not modelled. The serialised response order (Flask's default encoder sorts keys) is not modelled either.
- Response status codes, messages, `print` and `traceback` logging: the outcome is `Accepted` or a `Rejection` reason.
- A failure of the `print` at app.py:43, which runs after the registry has been written: it would answer with a server error while the registry keeps the new entry. It can happen on a wallet holding a lone surrogate, which `string` here cannot hold, or on a broken standard output; the model reports `Accepted`.
- Json.ToFloat: an integer of magnitude above 2^53 converts to its exact value, not to the nearest double as Python's `float()` does (`float(2**53 + 1)` is `2**53`); for that reason the first clause of `Json.ConversionsAgree` is stated only for integers up to 2^53, where both agree.
- `time.time()`: the server time is the parameter `now`.
- Python's float semantics: CPU usage is a `real` and `float()` of an integer is not rounded to 53 bits (only its overflow above 2^1024 - 2^970 is modelled). NaN, infinities, and JSON floats beyond the double range (decoded as infinity) are not represented, and neither is the overflow error of `int()` on an infinite float.
- Python's rules for parsing numeric strings in `float()` and `int()`: these are the parameters `parseFloat` and `parseInt`.
- Wallet keys are compared structurally, so Python's identification of `1`, `1.0` and `True` as the same dictionary key is not modelled; wallets are in practice strings.
- The `0` default in `data.get("server_timestamp", 0)`: every stored record carries a server timestamp, so the default never applies.
- Concurrency: the handlers share the registry without a lock; the model runs requests one at a time.
- `app.run` startup.
