# Asset services: a verified Dafny model

This project models the core of an asset-browsing service and its measurement
simulators, and proves properties of that model. The service is made of three
JavaScript programs:

- **index.js** is the query/mutation service. It holds a fixed table of
  fifteen assets: Site, Plant, Train, Unit, Signal Container and Signal, linked
  by `parentId`. It has read resolvers over that table: children, roots,
  case-insensitive name search, lookup by id, the breadcrumb path and lookup by
  an id list. It also keeps a process-wide in-memory list of saved "snapshot"
  view configurations, which `saveSnapshot` appends to and `deleteSnapshot`
  filters.
- **live_ingest.js** fires a callback every 2000 ms. On each firing it builds
  one reading per simulated signal (`SIGNALS`), classifies each value with
  `getStatus`, and inserts the readings as one batch. When the clock's seconds
  field is below 2, it also calls the store procedure `cleanup_measurements`.
- **seed_measurements.js** generates one reading per signal for every hour of
  the last 365 days, including both ends. It inserts the readings in batches of
  1000, stops at the first failed batch, and inserts the remainder at the end.

The files:

| file | module | what it holds |
|---|---|---|
| base.dfy | `Base` | `Option`, `Filter` (`Array.prototype.filter`) with the independent characterisation `IsFilterOf`, `Flatten` |
| text.dfy | `Text` | `toLowerCase` (ASCII), `includes`, decimal rendering of a clock reading |
| catalog.dfy | `Catalog` | the asset table and every read resolver; the path walk as a `while` loop |
| snapshots.dfy | `Snapshots` | the snapshot list as a class `SnapshotStore` whose methods update the `snapshots` field |
| measurements.dfy | `Measurements` | `SIGNALS`, `getStatus` and the rows of one instant, which both scripts share |
| live_ingest.dfy | `LiveIngest` | one firing of the interval callback, as a method over a log of store calls |
| seeder.dfy | `Seeder` | `seedMeasurements` as the two nested loops it is, proved against the sequence of all generated readings |

Several things the programs receive from outside become parameters of the model:

- The clock: `now` in milliseconds, its seconds field, and its ISO-8601 rendering.
- The random values: `values[i]` in live ingestion, and `draw(t, i)` in the
  seeder for signal `i` at instant `t`.
- The outcome of each store call: `insertOk` in live ingestion, and `accept(k)`
  in the seeder for the `k`-th insert.

The store itself is seen only through the calls made to it.

The service's design notes, which are not shipped with the code, describe
three behaviours that the code does not have. The model follows the code:

- **No depth bound on the path.** The design notes cap the breadcrumb walk at
  5 hops, so that the path of `sig-1` would lack `site-1`. The loop in
  index.js:112-115 has no bound. It runs until the parent is not found, so it
  stops exactly when the walk from `id` reaches a root; a cycle elsewhere in
  the table does not matter (`Catalog.PathBesideCycle`). `Catalog.GetAssetPath`
  requires `PathEnds(db, id)`, that this walk stops. `Catalog.DbAcyclic` proves
  the shipped table acyclic, so the walk stops for every id, and
  `Catalog.Sig1Path` proves that the path of `sig-1` has all six entries, root
  included.
- **Oldest first, not newest first.** The design notes say `snapshots` lists
  the newest first. index.js:122 returns the list as stored, and
  `saveSnapshot` appends with `push` (index.js:135), so the list is oldest
  first.
- **Search runs in memory.** The design notes say the substring search is
  delegated to the store. index.js:104 filters the in-memory table itself.

## Model

| member | source | states |
|---|---|---|
| Base.Filter | index.js:92 | the `.filter` behind every resolver and `deleteSnapshot` (index.js:92, 98, 104, 120, 140): the result is no longer than the input, holds exactly the elements that pass the test, and is the subsequence of all passing elements (`IsFilterOf`), which `Base.FilterUnique` shows determines it |
| Base.FilterUnique | index.js:92 | any subsequence of the input that keeps exactly its passing elements (`IsFilterOf`) is the filter's result |
| Catalog.Children | index.js:90-93 | the children of an asset are exactly the table's assets whose `parentId` is its id, each occurrence kept, in table order (`IsFilterOf`) |
| Catalog.OrNull | index.js:98 | `parentId \|\| null` turns an absent or empty-string argument into `null` and leaves any other id unchanged |
| Catalog.Assets | index.js:96-99 | with an absent or empty `parentId` the result is exactly the roots (no `parentId`); otherwise exactly the assets with that parent; in table order |
| Catalog.ChildrenAreAssets | index.js:90-99 | the computed `children` field of an asset with a non-empty id equals `assets(parentId: id)` |
| Catalog.SearchAssets | index.js:100-105 | an absent or empty query finds nothing; otherwise an asset is found exactly when the lower-cased query occurs at some position of its lower-cased name, in table order |
| Catalog.SearchIgnoresCase | index.js:102-104 | two queries with the same lower-cased form find the same assets, and a query finds what its lower-cased form finds |
| Catalog.GetAsset | index.js:106-108 | `find` returns nothing exactly when no asset has the id; otherwise an asset of the table with that id |
| Catalog.GetAssetIsFirst | index.js:107 | the asset found is the first one in table order with that id |
| Catalog.GetAssetUnique | index.js:107 | on a table with unique ids, `getAsset(id)` yields `a` exactly when `a` is in the table with that id |
| Catalog.GetAssetsByIds | index.js:118-121 | exactly the assets whose id is listed, in table order; an empty id list gives an empty result |
| Catalog.GetAssetsByIdsSetOnly | index.js:120 | only the set of requested ids matters: order and repetitions in the argument change nothing |
| Catalog.Parent | index.js:114 | the asset the walk steps to is in the table and is the one `parentId` names |
| Catalog.Chain | index.js:112-115 | the ancestors of an asset and the asset itself end with that asset and are no more than the walk's bound |
| Catalog.ChainLinks | index.js:112-115 | a chain starts at an asset whose parent is not found, and each element is the parent of the next |
| Catalog.ChainFuel | index.js:112-115 | the chain does not depend on the bound the walk was given, once the walk ends within it |
| Catalog.ChainPosition | index.js:112-115 | the walk from the `k`-th element of a chain ends, and its chain has `k + 1` elements |
| Catalog.ChainNoRepeats | index.js:112-115 | a chain never visits the same asset twice |
| Catalog.PathShape | index.js:109-117 | when the walk from `id` stops, the path is empty exactly for an unknown id; otherwise it ends at the found asset, starts at a root, each element's `parentId` is the id of the element before it, it holds only table assets, has no repeats and is no longer than the table |
| Catalog.ChainStep | index.js:113-114 | one iteration of the walk: putting the current asset in front of the path leaves exactly its ancestors to visit |
| Catalog.GetAssetPath | index.js:109-117 | whenever the walk from `id` stops, the `while` loop with `unshift` returns `Path(db, id)`: empty exactly for an unknown id, ending at that id and starting at a root, linked by `parentId`, without repeats |
| Catalog.ChainInTable | index.js:112-115 | every asset the walk from a table asset visits is in the table |
| Catalog.WalkEndsAtLength | index.js:112-115 | the walk stops within as many steps as its chain has assets |
| Catalog.WalkWithinTable | index.js:112-115 | a walk from a table asset that stops at all stops within as many steps as the table has assets, so `PathEnds` asks only that the walk from `id` stops |
| Catalog.AcyclicPathEnds | index.js:112-115 | on an acyclic table the walk stops for every id |
| Catalog.PathBesideCycle | index.js:109-117 | on a table where two assets are each other's parent beside a root `c`, the table is not acyclic yet the path of `c` is defined and is `[c]` |
| Catalog.WalkEndsByLevel | index.js:56-83 | when every asset's level is above its parent's, the walk from an asset ends within its level plus one steps |
| Catalog.WalkEndsMonotone | index.js:112-115 | a walk that ends within `m` steps ends within any larger bound |
| Catalog.AcyclicByLevel | index.js:56-83 | a table whose parent links strictly lower a level is acyclic |
| Catalog.DbLevels | index.js:56-83 | in the shipped table every asset's level, read off its id, is above its parent's |
| Catalog.DbAcyclic | index.js:56-83 | the shipped table is acyclic, so the path walk ends on it |
| Catalog.GetAssetAt | index.js:107 | `find` returns the `k`-th asset when no earlier asset has its id |
| Catalog.Sig1Links | index.js:62-79 | the shipped table links sig-1 to cont-1, unit-1, train-1, plant-1 and site-1, and no earlier asset shadows those ids |
| Catalog.Sig1Parents | index.js:111-114 | on such a table each `find` of the walk from sig-1 returns the next ancestor |
| Catalog.Sig1Walk | index.js:112-115 | following those steps from sig-1 yields six assets, root first |
| Catalog.Sig1Chain | index.js:109-117 | on an acyclic table with those steps, the path of sig-1 is that chain |
| Catalog.Sig1Path | index.js:109-117 | on the shipped table `getAssetPath("sig-1")` is site-1, plant-1, train-1, unit-1, cont-1, sig-1: six entries, no depth cap |
| Text.Lower | index.js:102 | `toLowerCase` keeps the length and lower-cases each character |
| Text.LowerIdempotent | index.js:102-104 | lower-casing twice is lower-casing once |
| Text.Contains | index.js:104 | `includes` holds exactly when the needle occurs at some position of the string |
| Text.Decimal | index.js:127 | the rendering of the clock reading is a nonempty string of digits with no leading zero |
| Text.DecimalRoundTrip | index.js:127 | reading the rendered digits back gives the number |
| Text.DecimalInjective | index.js:127 | two clock readings render alike only if they are equal |
| Snapshots.SnapshotId | index.js:127 | the id is `snap-` followed by the rendered clock reading |
| Snapshots.SnapshotIdInjective | index.js:127 | snapshots saved at different clock readings get different ids |
| Snapshots.WithoutId | index.js:140 | the filtered list keeps exactly the snapshots with another id, every occurrence, in order |
| Snapshots.WithoutIdShorter | index.js:139-141 | deleting shortens the list exactly when some snapshot carries the id |
| Snapshots.WithoutIdIdempotent | index.js:140 | deleting the same id twice removes nothing more; no snapshot left has that id |
| Snapshots.WithoutAbsentId | index.js:140 | deleting an id no snapshot carries leaves the list unchanged |
| Snapshots.SnapshotStore.constructor | index.js:86 | the list starts empty |
| Snapshots.SnapshotStore.Snapshots | index.js:122 | `Query.snapshots` returns the list as stored |
| Snapshots.SnapshotStore.SaveSnapshot | index.js:125-137 | the new snapshot has id `snap-<now>` and the given fields, is appended at the end, and the earlier entries are unchanged |
| Snapshots.SnapshotStore.DeleteSnapshot | index.js:138-142 | the new list is the old one without the id; the result is true exactly when the list got shorter, exactly when some snapshot had the id; no snapshot with that id remains |
| Measurements.GetStatus | live_ingest.js:20-24 | critical exactly above 110, high exactly in (105, 110], normal exactly at or below 105 |
| Measurements.GetStatusMonotone | live_ingest.js:20-24 | a larger value never gets a lower severity |
| Measurements.GetStatusBoundaries | live_ingest.js:20-24 | 105.0 is normal, 105.01 high, 110.0 high, 110.01 critical |
| Measurements.ReadingsAt | live_ingest.js:35-43 | one row per signal, in `SIGNALS` order, each with the signal's id, the instant, its value and that value's status |
| LiveIngest.TickCalls | live_ingest.js:45-62 | a firing makes the insert of its readings first, then the cleanup call exactly when the seconds field is below 2 |
| LiveIngest.SecondsOf | live_ingest.js:54 | `getSeconds` of a clock reading is below 60, and below 2 exactly in the first 2000 ms of a minute |
| LiveIngest.DueAtIff | live_ingest.js:50-54 | the `k`-th firing after instant `t` finds the gate open exactly when it is the firing that lands in the first two seconds of a minute: `k` brings `t`'s 2-second slot of the minute to 0 or 30 |
| LiveIngest.CleanupOncePerMinute | live_ingest.js:50-54 | firing every `INTERVAL_MS` = 2000 ms, exactly one of any 30 consecutive firings finds the gate open: cleanup runs once a minute |
| LiveIngest.CleanupIndependentOfInsert | live_ingest.js:46-54 | whether cleanup is called does not depend on the insert's outcome |
| LiveIngest.RowsStoredAppend | live_ingest.js:46 | rows stored over two stretches of calls add up |
| LiveIngest.CleanupCountAppend | live_ingest.js:54-55 | cleanup calls over two stretches of calls add up |
| LiveIngest.TickTotals | live_ingest.js:45-62 | one firing stores \|SIGNALS\| rows when its insert succeeds and calls cleanup once when due |
| LiveIngest.RunTotals | live_ingest.js:30-64 | over N firings whose inserts succeed the store receives N × \|SIGNALS\| rows, and one cleanup call per firing in the first two seconds of a minute |
| LiveIngest.Feed.constructor | live_ingest.js:26-30 | before the first firing no store call has been made |
| LiveIngest.Feed.Tick | live_ingest.js:30-64 | one firing returns the readings of its instant, reports whether cleanup was called (exactly when seconds < 2) and appends exactly this firing's calls to the log |
| Seeder.HourValues | seed_measurements.js:39-40 | one drawn value per signal at an instant |
| Seeder.Sizes | seed_measurements.js:4-5 | with four signals, 365 days and batches of 1000: 250 hours fill a batch, 35 full batches are flushed and 44 readings are left for the final insert |
| Seeder.HourRows | seed_measurements.js:39-47 | the inner loop's pushes at one instant are \|SIGNALS\| readings |
| Seeder.Generated | seed_measurements.js:36-47 | the readings of `n` hours number \|SIGNALS\|·n |
| Seeder.GeneratedAt | seed_measurements.js:36-47 | reading \|SIGNALS\|·h + i is signal i's reading at hour h: stamped `start + h` hours, carrying the drawn value and its status |
| Seeder.GeneratedPrefix | seed_measurements.js:36-47 | the readings of fewer hours are a prefix of those of more hours |
| Seeder.HourAppended | seed_measurements.js:39-47 | pushing an hour's readings extends what was generated by exactly that hour |
| Seeder.HourAdded | seed_measurements.js:39-49 | after an hour the buffer is either still below 1000, the loop state intact, or exactly 1000, which happens for at most 35 batches |
| Seeder.BatchFlushed | seed_measurements.js:49-58 | a full buffer becomes the next batch; when accepted, the count and the empty buffer restore the loop state |
| Seeder.NextHour | seed_measurements.js:36 | `t += 60*60*1000` moves to the next hour's instant |
| Seeder.LoopBound | seed_measurements.js:30-36 | `t <= now` holds for exactly the first 8761 instants: `now` itself is the last one visited |
| Seeder.Aborted | seed_measurements.js:49-54 | a failed in-loop insert leaves a prefix of the generated readings, the failed full batch last and uncounted |
| Seeder.Finished | seed_measurements.js:61-65 | when the loop ends 35 full batches were accepted and 44 readings remain; flushing them hands over everything generated, 35044 readings |
| Seeder.HourReadings | seed_measurements.js:39-47 | the inner `for … of SIGNALS` loop pushes exactly one instant's rows |
| Seeder.SeedHours | seed_measurements.js:29-59 | the hourly loop either ends with the loop state after all 8761 hours or stops at the first failed insert |
| Seeder.SeedMeasurements | seed_measurements.js:26-68 | the batches handed over are the generated readings or a prefix; none is empty; all but the last are full and accepted; the run stops early exactly when one of the first 35 inserts fails, and then the failed batch is last, full and uncounted; otherwise all 35044 readings are handed over in order in 36 batches and counted |

## Left out

- The GraphQL schema, Apollo server set-up, CORS and the port (index.js:1-53, 146-157): transport, not logic.
- Console and `process.stdout` output in all three programs: logging only.
- `generateValue` (`Math.random`, `toFixed(2)`): randomness and floating point. The drawn values are parameters (`values`, `draw`), so every property holds whatever values are drawn. That they lie within `base ± variance` is not modelled.
- `Date`, `toISOString` and `getSeconds`: timestamps are integer milliseconds, and the seconds field and the ISO rendering are parameters of a firing. `LiveIngest.SecondsOf` reads the seconds field off the epoch milliseconds, which `getSeconds` (local time) agrees with for time zones whose offset is a whole number of minutes.
- `DATA_RETENTION_HOURS` (live_ingest.js:5) is only printed at start-up; the retention itself is applied by the store procedure, which is not part of this model.
- The store (Supabase) is not modelled. Insert outcomes are parameters. What `cleanup_measurements` deletes is not part of this model: only the fact that it is called, and when.
- `setInterval` scheduling and timer drift: a run of firings is a sequence of tick inputs, and `LiveIngest.CleanupOncePerMinute` assumes firings exactly `INTERVAL_MS` apart.
- LiveIngest.Feed.Tick: `setInterval` does not wait for the asynchronous callback, so a firing whose insert takes longer than 2000 ms overlaps the next one, and their store calls can interleave (a cleanup call after the next firing's insert). The model runs each firing to its end before the next begins; the totals in `LiveIngest.RunTotals` are sums over the calls and do not depend on their order.
- seed.js is not part of this model.
- Text.Lower: lower-cases ASCII letters only; JavaScript's `toLowerCase` also maps non-ASCII letters.
- Catalog.GetAssetPath: requires that the walk from `id` stops (`PathEnds`). When that walk runs into a cycle the JavaScript loop never returns, and that case is not modelled.
- Seeder.SeedMeasurements: the final insert is always made with 44 readings, so the source's `currentBatch.length > 0` test (seed_measurements.js:62) always passes and is not a branch of the model. Its error is ignored, as in the source.
- LiveIngest.Feed.Tick: the store calls are kept in a ghost log; the values the store holds are not modelled.
- The `dateRange` and `customColors` fields of a snapshot are opaque strings, as in the source.
