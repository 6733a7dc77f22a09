# pyjma core in Dafny

This project models the logic of the pyjma client for the Japan Meteorological Agency (JMA) JSON feeds. That client is a small Python GUI program. The model covers three pieces:

- **`HttpGetter`** (`getter.dfy`, module `HttpGetter`). The fetch-and-cache manager is written as a state machine over immutable states. A state holds:
  - the FIFO `queue` of `GetTask`s;
  - the `task_map` from URL text to task;
  - the disk cache, as a map from cache path to bytes;
  - the futures, numbered, each `Pending` or `Resolved(bytes)`;
  - the `is_running` flag;
  - whether the `load_async_loop` task is still alive.

  The transitions are:
  - `GetAsWritten`: `get_async` up to its `await`, as the code is written. `Get` is the same request as evidently intended (see Findings).
  - `Tick`: one whole pass of `load_async_loop`. It merges the pop, the fetch, the cache write and `set_result` into one step. The fetched body is a parameter.
  - `Shutdown`.

  The states between transitions are those at the loop's `asyncio.sleep`. The helpers `CachePath`, `GetCache`, `SetCache`, `CacheHit` and `CreateTask` model `get_cache_path`, `get_cache`, `set_cache`, the `if value:` test and `create_task`. A `Url` carries the text `get_async` is called with, which keys `task_map`, and the parts `urlparse` gives, which name the cache file. The invariant `Inv` holds at those sleep points. It says three things:
  - each task-map entry owns its own future;
  - queued tasks are registered, and no URL text is queued twice;
  - a registered future is pending exactly while its task is queued.
- **Lifetimes** (`trace.dfy`, module `GetterTrace`). Any sequence of requests, loop passes and `shutdown` is replayed from a starting state, both with the intended `Get` (`Run`) and as written (`RunAsWritten`). A trace records the tasks requests queued, the tasks the loop fetched, and every reply. The two runs go through the same states; the written one raises where the intended one awaits an existing future. The lemmas in this module hold over whole lifetimes:
  - FIFO order;
  - each URL text is fetched at most once, so each future is set at most once;
  - as intended, two requests for one URL text share one future; as written, no two requests await for one URL text;
  - nothing is fetched after shutdown.
- **The `jma` helpers**:
  - `dates.dfy`, module `JmaDates`: `DATE_FORMAT`, the part of `strftime` that format uses, and `to_datetime`. One model covers both identical copies, in `src/jma/__init__.py` and `src/main.py`.
  - `areas.dfy`, module `JmaAreas`: `AreaNode` and `area_tree`.
  - `amedas_map.dfy`, module `AmedasMap`: the AMeDAS map URL that `select_time_async` builds with `DATE_FORMAT`. Both GUIs define it the same way, in `src/jma/__main__.py` and `src/main.py`, and both calls to it are commented out.

`area_tree` is modelled twice:
- **As written**: `ResolveChildren`, `CreateNodes`, `BuildLevels` and `AreaTree` are folds over the levels, threading `node_map`.
- **Independently**: the five levels are laid end to end (`Flat`). `NodeAt` gives the node each item denotes: its children are the nodes of the last earlier items with the child keys.

The lemmas connect the two descriptions. `area_tree` succeeds exactly when every link points backwards, and it then returns the denoted nodes of `centers`.

Facts about the code that the model keeps:
- A task-map entry is never removed. A later request for a URL text that was registered before, and whose cache file is missing or empty, finds the `GetTask` in `task_map` and raises `TypeError` (see Findings). It is never fetched again.
- There is no `use_cache` parameter and no bypass path.
- Transport and filesystem errors in the loop are not delivered to callers. An exception ends the loop task and leaves the future pending.
- A cache file holding zero bytes counts as a miss, because of the `if value:` test.
- The cache path is the cache directory, then `/`, then hostname and path with nothing between them (the path carries its own leading `/`). A URL without a network location gives the hostname text `None`.

## Model

| member | source | states |
|---|---|---|
| `HttpGetter.CachePath` | src/jma/http_getter.py:45-47 | the cache file name is the cache directory, a `/`, then the hostname text followed by the URL path |
| `HttpGetter.CachePathIgnoresRest` | src/jma/http_getter.py:45-47 | URLs with the same hostname and path share a cache file, whatever their text, scheme, query or fragment |
| `HttpGetter.CachePathDeterminesHostPath` | src/jma/http_getter.py:45-47 | within one cache directory, equal cache file names (as unnormalised text) mean equal hostname-plus-path text |
| `HttpGetter.Init` | src/jma/http_getter.py:18-27 | a new getter caches under the directory it was given, has an empty queue and task map, no futures, is running, has its loop task alive, and sees the cache already on disk |
| `HttpGetter.InitInv` | src/jma/http_getter.py:18-27 | a new getter satisfies the invariant |
| `HttpGetter.Shutdown` | src/jma/http_getter.py:29-30 | shutdown clears `is_running` and changes nothing else |
| `HttpGetter.ShutdownInv` | src/jma/http_getter.py:29-30 | shutdown keeps the invariant |
| `HttpGetter.GetCache` | src/jma/http_getter.py:49-52 | the lookup answers exactly when the URL's cache file exists, and then with its bytes |
| `HttpGetter.SetCache` | src/jma/http_getter.py:54-58 | after the write, reading the URL's cache file gives the data; every other file keeps its bytes; exactly that one file is added; nothing but the cache changes |
| `HttpGetter.CreateTask` | src/jma/http_getter.py:60-65 | one new pending future; one `GetTask` for it appended at the end of the queue; the same task registered under the URL text; nothing else changes |
| `HttpGetter.CreateTaskInv` | src/jma/http_getter.py:60-65 | creating a task for a URL text the task map lacks keeps the invariant |
| `HttpGetter.CacheHit` | src/jma/http_getter.py:69-70 | the cache answers exactly when the URL's cache file exists and is not empty |
| `HttpGetter.GetAsWritten` | src/jma/http_getter.py:67-76 | a request raises exactly when the cache does not answer and the URL text is already in the task map, and then changes nothing |
| `HttpGetter.GetAsWrittenDiffers` | src/jma/http_getter.py:67-76 | the written request changes the state exactly as the intended one; its reply is the intended one except where it raises, and there the intended one awaits the registered future; the intended one never raises |
| `HttpGetter.SecondRequestRaises` | src/jma/http_getter.py:73-76 | when the cache does not answer, a second request for the same URL text raises and changes nothing, where the intended request would await the registered future |
| `HttpGetter.TwoRequestsOnFreshGetter` | src/jma/http_getter.py:67-76 | on a new getter with an empty cache, the first request for `area.json` awaits future 0 and the second raises |
| `HttpGetter.Get` | src/jma/http_getter.py:67-76 | the intended request: a hit with non-empty bytes returns them and changes nothing; a miss for a registered URL text returns its future and changes nothing; a miss for a new URL text queues and registers one task with a fresh pending future and leaves cache and flags alone |
| `HttpGetter.EmptyCacheFileMisses` | src/jma/http_getter.py:69-76 | a zero-byte cache file is treated exactly like a missing one, by the written and the intended request; a new URL text is queued; as written the request raises exactly when its URL text is registered |
| `HttpGetter.GetInv` | src/jma/http_getter.py:67-76 | a request keeps the invariant |
| `HttpGetter.GetTwiceSharesFuture` | src/jma/http_getter.py:73-76 | when the cache does not answer, a second request for the same URL changes nothing; the intended one returns the first request's future, the written one raises |
| `HttpGetter.Tick` | src/jma/http_getter.py:32-43 | a pass fetches exactly when the loop is alive, running and the queue is non-empty; it then takes the head, keeps the rest of the queue in order, and writes the body to the head's cache file; otherwise only the loop's end is recorded |
| `HttpGetter.TickSetsPendingFuture` | src/jma/http_getter.py:38-41 | under the invariant the head's future is pending when it is dispatched, so the loop goes on and exactly that future is resolved to the body |
| `HttpGetter.TickInv` | src/jma/http_getter.py:32-43 | a whole loop pass keeps the invariant from one sleep point to the next |
| `HttpGetter.DispatchThenGet` | src/jma/http_getter.py:38-41 | after the loop fetched a body for a URL, the intended request for it queues nothing and yields that body, from the cache or the resolved future; the written request is answered from the cache when the body is non-empty and raises when it is empty |
| `HttpGetter.EmptyBodyThenRaises` | src/jma/http_getter.py:69-76 | after the loop fetched an empty body for a URL, the written request for it raises and changes nothing |
| `HttpGetter.SiblingUrlHitsCache` | src/jma/http_getter.py:45-52 | after a non-empty body is fetched, a URL differing only in text, scheme, query or fragment is answered from the cache with that body |
| `HttpGetter.NoDispatchAfterShutdown` | src/jma/http_getter.py:29-33 | after shutdown the next pass fetches nothing, ends the loop task and leaves the queue as it was |
| `GetterTrace.RequestEffect` | src/jma/http_getter.py:60-76 | a request either leaves task map and queue alone, or adds one new URL text to the task map and the same task to the end of the queue; an awaited future is the one registered under the URL text |
| `GetterTrace.RequestKeepsLifetime` | src/jma/http_getter.py:67-76 | a request keeps the lifetime properties, with distinctness over URL texts |
| `GetterTrace.PassKeepsLifetime` | src/jma/http_getter.py:32-43 | a loop pass keeps the lifetime properties |
| `GetterTrace.StopKeepsLifetime` | src/jma/http_getter.py:29-30 | shutdown keeps the lifetime properties |
| `GetterTrace.RunLifetime` | src/jma/http_getter.py:29-76 | over any sequence of events: the invariant holds; the task map only grows; every URL text a request queues was not registered at the start and is queued once; every awaited reply is the future registered for its URL text; the loop task ends only after shutdown |
| `GetterTrace.RunAsWrittenSameStates` | src/jma/http_getter.py:29-76 | the program as written passes through the same states, queues the same tasks and fetches the same ones as the intended getter; its replies differ only by raising where the intended ones await |
| `GetterTrace.ApplyFifo` | src/jma/http_getter.py:33-35 | one event keeps "initial queue then queued-by-requests equals fetched then still queued" |
| `GetterTrace.RunFifo` | src/jma/http_getter.py:33-35 | over any lifetime, the initial queue followed by the tasks requests queued equals the tasks fetched followed by those still waiting, so dispatch is in arrival order |
| `GetterTrace.FetchedAtMostOnce` | src/jma/http_getter.py:60-75 | no URL text is fetched twice over a lifetime, so no future is set twice |
| `GetterTrace.AsWrittenFetchesOnceInOrder` | src/jma/http_getter.py:33-76 | the program as written, too, fetches each URL text at most once and in arrival order |
| `GetterTrace.SameUrlSameFuture` | src/jma/http_getter.py:73-76 | with the intended request, any two awaited replies for the same URL text in a lifetime are the same future |
| `GetterTrace.AsWrittenAwaitsOnce` | src/jma/http_getter.py:67-76 | as written, no two awaited replies of a lifetime are for the same URL text, and each awaited URL text is registered |
| `GetterTrace.NothingFetchedAfterShutdown` | src/jma/http_getter.py:29-35 | starting after shutdown, nothing is ever fetched, the flag stays off, and the queue only accumulates the requests' tasks |
| `JmaDates.ToDatetime` | src/jma/__init__.py:7-16 | a digit string of a length other than 14 fails the length assertion; a success has length 14 and valid calendar fields |
| `JmaDates.ToDatetimeAccepts` | src/jma/__init__.py:9-16 | success exactly when the length is 14 and the sliced numbers form a valid datetime; the fields are then the numbers in slices [0:4], [4:6], [6:8], [8:10], [10:12] and [12:14] |
| `JmaDates.DateFieldsFromSlices` | src/main.py:20-23 | for an accepted timestamp, year, month and day padded to 4, 2 and 2 digits are the slices [0:4], [4:6] and [6:8] |
| `JmaDates.TimeFieldsFromSlices` | src/main.py:24-27 | for an accepted timestamp, hour, minute and second padded to two digits are the slices [8:10], [10:12] and [12:14] |
| `JmaDates.PaddedParse` | src/main.py:21-26 | a digit slice is the zero-padded rendering of the number `int` reads from it |
| `JmaDates.StrftimeDateFormat` | src/jma/__init__.py:4 | `DATE_FORMAT` prints the year, then month, day, hour, minute and second as two digits each |
| `JmaDates.FormatParseRoundTrip` | src/jma/__init__.py:4-16 | for a valid datetime with a four-digit year, formatting with `DATE_FORMAT` and parsing with `to_datetime` gives the same six fields |
| `JmaDates.ParseFormatRoundTrip` | src/main.py:12-27 | a timestamp `to_datetime` accepts, with a four-digit year, is exactly what `DATE_FORMAT` prints for the parsed datetime |
| `JmaDates.ShortYearBreaksRoundTrip` | src/jma/__init__.py:9 | with glibc's unpadded `%Y`, for a year below 1000 the formatted text is shorter than 14 digits, and `to_datetime` fails its length assertion on it |
| `AmedasMap.AmedasMapUrl` | src/main.py:142 | the AMeDAS map URL is the fixed prefix, then digits, then `.json` |
| `AmedasMap.AmedasTimestampRoundTrip` | src/jma/__main__.py:283-285 | for a four-digit year the URL is the prefix, a 14-digit timestamp and `.json`, and `to_datetime` reads the timestamp back as the requested time |
| `JmaAreas.SkipSelf` | src/jma/__init__.py:42-44 | the children kept for a node never include its own key, all come from its `children` list, and are no more than that list |
| `JmaAreas.SkipSelfKeeps` | src/jma/__init__.py:42-44 | a child is kept exactly when it is in the list and is not the node's own key; a list without the key is kept whole |
| `JmaAreas.SkipSelfAppend` | src/jma/__init__.py:42-45 | skipping the own key works piecewise over a concatenation, so the kept children stay in list order |
| `JmaAreas.ResolveChildren` | src/jma/__init__.py:42-45 | a failure names a child other than the node's own key that is in the list and missing from `node_map`; a success has at most one node per child, exactly one when the own key is absent |
| `JmaAreas.CreateNodes` | src/jma/__init__.py:37-47 | processing a level fails only on a missing child, and on success gives one node per item |
| `JmaAreas.BuildLevels` | src/jma/__init__.py:48-52 | a missing level error names one of the remaining levels that the area lacks; a missing first level is reported at once |
| `JmaAreas.AreaTree` | src/jma/__init__.py:34-52 | a missing level error names one of the five levels that the area lacks |
| `JmaAreas.AreaTreeFirstLevelMissing` | src/jma/__init__.py:48 | without `class20s` the tree fails with that level named |
| `JmaAreas.LastBeforeIsLast` | src/jma/__init__.py:41 | no item between the last earlier item with a key and the current position has that key, so a key that reappears replaces the earlier entry |
| `JmaAreas.DefinedBeforeStep` | src/jma/__init__.py:41 | entering one more item defines its key, makes it the last item with that key, and keeps every other key's last item |
| `JmaAreas.ResolveChildrenMeaning` | src/jma/__init__.py:42-45 | with `node_map` in step with the earlier items, resolving an item's children succeeds exactly when every child other than the item's own key was defined earlier; the result is then those children's nodes in list order |
| `JmaAreas.MapMatchesStep` | src/jma/__init__.py:40-41 | entering an item's node keeps `node_map` in step: it holds exactly the keys seen so far, each mapped to the node of its last item |
| `JmaAreas.CreateNodesMeaning` | src/jma/__init__.py:37-47 | processing a level succeeds exactly when its items link only to keys defined before them; it then returns one node per item, in order, each the node that item denotes, and a `node_map` in step with the items so far |
| `JmaAreas.BuildLevelsMeaning` | src/jma/__init__.py:48-52 | the remaining `create_node` calls succeed exactly when all items link backwards, and then return the denoted nodes of the last level |
| `JmaAreas.FlatOfLevels` | src/jma/__init__.py:48-52 | the items are processed level by level in the order `class20s`, `class15s`, `class10s`, `offices`, `centers`, and `centers` comes last |
| `JmaAreas.AreaTreeMeaning` | src/jma/__init__.py:34-52 | `area_tree` succeeds exactly when all five levels exist and every item links only to earlier items; it then returns one node per `centers` item, in order, each that item's denoted node |
| `JmaAreas.AreaTreeNodes` | src/jma/__init__.py:38-52 | returned node `j` has the key and name of `centers` item `j`; its children are the item's children minus its own key, in list order; an item without `children` is a leaf; each child is named after the last earlier item with its key |
| `JmaAreas.NodeAtContents` | src/jma/__init__.py:40-45 | the denoted node of an item whose links resolve has the item's key and name, and the right children, in order |

## Findings

| source | as written | input that shows it | evidently intended | confidence | as-written member | corrected member |
|---|---|---|---|---|---|---|
| src/jma/http_getter.py:73-76 | `task_map.get(url)` yields the `GetTask` tuple, which is truthy, so `create_task` is skipped and `await task` raises `TypeError` on a tuple | two `get_async` calls for one URL on an empty cache before the first fetch, or one call after the loop fetched an empty body for it | await the registered task's future, so the second caller shares the first fetch | not executed | `HttpGetter.GetAsWritten`, `HttpGetter.SecondRequestRaises` | `HttpGetter.Get`, `HttpGetter.GetTwiceSharesFuture` |

## Left out

- The GUI: the ImGui windows, docking and selectors of `src/main.py` and `src/jma/__main__.py`. They are rendering code.
- The network. The `aiohttp` session and the response read are not modelled; the fetched body is a parameter of `Tick`.
- asyncio scheduling. A future is a numbered `Pending`/`Resolved` value. The 0.5 s `asyncio.sleep` pacing and the `interval` field are timing and are not modelled.
- Requests and `shutdown` while a fetch is in flight. A pass suspends up to three times between the pop and the cache write; `Tick` makes the whole pass one step, and the model places every request and `shutdown` before or after it. A request in that window for the popped URL text sees it registered while its task is out of the queue, and one for the same cache path does not see the body yet. `Inv` is stated for the sleep points only.
- The `logger` calls. They are output only.
- Transport errors and filesystem errors in the loop (a failed `mkdir` or write). The source has no handling for them: the loop task dies. Two failures the source reaches without I/O are modelled: `await` on a `GetTask` (see Findings), and `set_result` on a finished future, which ends the loop. `TickSetsPendingFuture` proves the second never happens under the invariant.
- A cache path that names a directory. `exists()` is true of a directory and `read_bytes()` then raises `IsADirectoryError` to the caller of `get_async`, for example for `https://h/a` after `https://h/a/b.json` was cached. The disk is a flat map from path text to bytes, so this error is not modelled.
- `pathlib` normalisation and `mkdir`. The disk is a map from path text to bytes.
- `HttpGetter.CachePath`: the joined text is not normalised as `pathlib` would. `pathlib` collapses `//`, `/./` and a trailing `/`, so `cache/h/a//b`, `cache/h/./a/b` and `cache/h/a/b/` name one file on disk but are three different keys in the model. `pathlib` keeps `..` segments, but the OS resolves them when the file is opened, so `cache/h/a/../b` is the file `cache/h/b` (the `mkdir` has created `cache/h/a` by then), and a path with enough `..` segments, such as that of `https://h/../../x`, leaves the cache directory; the model treats these as distinct keys under `cacheDir`.
- `HttpGetter.CachePathDeterminesHostPath`: holds of the unnormalised text only. Under `pathlib` and the OS, paths such as `/a/b`, `/a//b`, `/a/b/` and `/a/c/../b` share one file.
- `HttpGetter.SetCache`: "every other file keeps its bytes" is about cache keys as text. On disk a write for a path with `..`, `//`, `/./` or a trailing `/` changes the file another key names too, and enough `..` segments write outside the cache directory.
- `GetterTrace.SameUrlSameFuture`: describes the intended `Get`. As written, the second request raises instead (see Findings); `GetterTrace.AsWrittenAwaitsOnce` states what the program does.
- `urllib.parse.urlparse`. URLs arrive already split into a `Url` record next to their text. The host is the parse's `hostname`, which is already lowercased.
- `get_json_async` and `json.loads`. JSON decoding is a foreign library; `area.json` arrives already decoded as an `Area`.
- Awaiting a future and reading its value later. `Observe` only reads what a reply gives.
- `int()` on non-digit text. `JmaDates.ToDatetime` requires digit strings, because signs, whitespace and underscores that `int()` also accepts are library behaviour.
- `%Y` for years below 1000. It is modelled as the unpadded decimal that glibc prints; other platforms pad to four digits.
- `datetime.datetime` itself: `JmaDates.DateTime` keeps only the six fields and the constructor's range check.
- Python object identity in `area_tree`. Nodes are values; this agrees with the source, because a node's children are complete before any later node refers to it.
- The `KeyError` message text. The model records only which lookup failed.
- `src/jma/weather_icon.py`, `src/weather_icons/__init__.py` and `tests/test_json.py`: font-map I/O, a path constant, and a live network fetch.
