# Tile streaming viewer: a verified model of its loading engine and tile server

The viewer (`public/app.js`) shows a very large world image made of
overlapping layers of tiles. Each frame it does four things:

- It works out which world cells are on screen.
- It resolves every cell to the layer that supplies it: the highest `z`
  wins, subject to each layer's whitelist, exclusion and override sets.
- It asks for at most 18 tiles through a deduplicating queue. No more than
  6 images are in flight at a time.
- It reads every visible cell's record from a cache of at most 800
  records. Once the cache is over capacity, the 160 least recently used
  records are evicted together.

The server (`server.js`) reads its grid configuration from the environment
with `clampInt`. It validates the map id and the tile name of
`/tiles/:mapId/:name`, then serves the requested format. When that file is
missing it falls back to the other format, and answers 404 when neither
exists.

Modules:

- `Wrappers`: `Option`.
- `Decimal`: decimal digit strings. It models JavaScript's `${n}` for
  naturals below 2^53 and its inverse (see "## Left out").
- `Resolver`: the layer list, the local key `A1`, `B7`, ... of a cell and
  `resolveWorldTile`.
- `TileCache`: the cache record and batch eviction, specified as repeated
  removal of the least recently used record.
- `EngineSpec`: the engine's shared variables as one `State` value. The
  functions `Touch` (`getRec`), `Enqueue`, `Dispatch`, `Pump`, `Settle` /
  `Complete` (`onload` / `onerror`), `Schedule`, `Render` and `Frame`
  (`draw`) and `Preload` each take one state to the next, together with
  the invariant `Inv` they all keep.
  - Records are objects in the source. A record carries an `id` standing
    for its object identity, and a callback writes through to the cache
    only while its own record object is still cached.
- `Engine`: class `TileEngine`, whose fields are the viewer's `cache`,
  `use`, `queue`, `queued` and `inflight`, plus the record counter and the
  images in flight. The public operations (the constructor, `GetRec`,
  `EnqueueLoad`, `PumpQueue`, `Settle`, `CompleteOk`, `CompleteErr`,
  `ScheduleLoads`, `RenderPass`, `Draw` and `Preload`) are proved to take
  the state exactly where the matching `EngineSpec` function does, and to
  keep the invariant. The small helpers (`Stamp`, `InsertBlank`,
  `PushJob`, `PopJob`, `StartImage`, `EvictIfNeeded`) each state the one
  field update they make.
- `Viewport`: `clampScale` and the integer half of
  `computeVisibleWorldTiles`, as a method with the source's nested loops.
- `TileServer`: `parseInt(…, 10)`, `clampInt`, the configuration, the two
  validation regular expressions, the candidate list and `tryNext`.
- `Interop`: the names the viewer asks for, checked against the names the
  server accepts.

Three behaviours of the source that the model keeps:

- **A failed tile is retried.** `enqueueLoad` (`public/app.js:137-144`)
  skips only records that are `ok` or `pending`, so a failed record is
  queued again the next time a frame asks for it
  (`EngineSpec.FailedRecordIsRequeued`).
- **A world extent of 0 is clamped.** `computeVisibleWorldTiles`
  (`public/app.js:226`) returns the single cell `(0, 0)` only when the tile
  size is 0. An extent of 0 still goes through the clamp
  (`public/app.js:241-244`), which puts every bound at 0.
- **A miss on a full cache evicts the new record.** `getRec`
  (`public/app.js:128-131`) inserts the new record with `lastUse` 0 before
  eviction runs, so on a full cache that record is the first evicted, and
  `getRec` returns a record the cache no longer holds
  (`EngineSpec.OverflowEvictsInserted`, `EngineSpec.TouchMissWhenFull`).
  When this happens in `enqueueLoad`'s `getRec` (`public/app.js:139`), the
  job is still queued, and the `getRec` of the dispatch
  (`public/app.js:151`) creates the record again in a cache that now has
  room, so the load's result reaches the cache. Only when the dispatch's
  own `getRec` overflows is the load bound to a detached record, and its
  result never reaches the cache.

## Model

| member | source | states |
|---|---|---|
| Resolver.LocalKeyShape | public/app.js:82-83 | the key of local cell (r, c) is the letter with code 65 + r followed by the decimal digits of c + 1, with no leading zero |
| Resolver.LocalKeyInjective | public/app.js:82-83 | different local cells have different keys |
| Resolver.Resolve | public/app.js:87-109 | no layer is returned exactly when no layer covers the cell; a returned `urlKey` is its local key plus ".webp" |
| Resolver.ResolveIsFirstCovering | public/app.js:87-107 | the result is the hit in the first layer of the list that covers the cell |
| Resolver.ResolvedLayerAccepts | public/app.js:92-106 | the returned map id and z are those of a layer whose grid holds the cell, whose local key is the cell's key, not excluded, and whitelisted, overridden or automatic |
| Resolver.ZPriority | public/app.js:48 | over the list sorted by z descending, any layer covering a cell forces a result whose z is at least that layer's |
| Resolver.ExcludedLayerIsTransparent | public/app.js:95 | deleting a layer that excludes the cell does not change the result |
| Resolver.InclusionModes | public/app.js:95-102 | an automatic layer covers exactly its non-excluded cells; a whitelist layer without overrides covers exactly its whitelisted, non-excluded cells |
| TileCache.EvictCount | public/app.js:122 | the count is the ceiling of a fifth of the capacity |
| TileCache.EvictKeeps | public/app.js:123 | eviction only deletes, keeps every remaining record unchanged, and deletes min(n, size) records |
| TileCache.EvictDropsLeastUsed | public/app.js:120-123 | every evicted record was used no later than every kept one |
| TileCache.EvictUnderused | public/app.js:120-123 | a record stamped below all others is evicted first |
| Engine.DeleteLeastUsed | public/app.js:120-123 | the loop deleting the least used record n times yields the specified eviction |
| Engine.TileEngine.EvictIfNeeded | public/app.js:118-124 | the cache becomes its eviction, a sub-map of the old cache |
| Engine.TileEngine.constructor | public/app.js:112-116 | the engine starts empty, with the invariant |
| EngineSpec.InitialInv | public/app.js:112-116 | the empty state satisfies the invariant |
| Engine.TileEngine.GetRec | public/app.js:126-135 | the returned record and the new state are those of `Touch`; the invariant is kept |
| Engine.TileEngine.NewRec | public/app.js:128-133 | a miss inserts a blank record, evicts, then stamps it, as `Touch` does |
| Engine.TileEngine.Stamp | public/app.js:133 | `lastUse := ++use` writes through to the cache only if the record is still cached |
| Engine.TileEngine.InsertBlank | public/app.js:129-130 | the blank record with a new identity is set under the key |
| EngineSpec.TouchHit | public/app.js:126-135 | a hit returns the cached record with `lastUse` set to the new counter and changes nothing else |
| EngineSpec.TouchMissWithRoom | public/app.js:128-133 | a miss with room adds a blank record stamped with the new counter |
| EngineSpec.OverflowEvictsInserted | public/app.js:129-131 | on a full cache, the inserted record (stamp 0) is evicted first, with 159 older records |
| EngineSpec.TouchMissWhenFull | public/app.js:128-133 | a miss on a full cache leaves the key uncached and returns the detached blank record |
| EngineSpec.TouchResult | public/app.js:126-135 | the result is the record cached under the key or a fresh detached one, and an idle record is bound to no load in flight |
| EngineSpec.TouchInv | public/app.js:126-135 | `getRec` keeps the invariant: at most 800 records with distinct stamps and identities, none both loaded and pending, each queue key once and equal to `queued`, a cached record pending exactly while a load in flight is bound to it, and `inflight` equal to those loads and at most 6 |
| Engine.TileEngine.EnqueueLoad | public/app.js:137-144 | the new state is `Enqueue` of the old; the invariant is kept |
| Engine.TileEngine.PushJob | public/app.js:142-143 | the job is appended to the queue and its key added to the queued set |
| EngineSpec.EnqueueEffect | public/app.js:137-144 | a job is appended exactly when the record is neither loaded nor pending and the key is not queued |
| EngineSpec.EnqueueTwice | public/app.js:140-141 | a second identical call adds nothing to the queue |
| EngineSpec.FailedRecordIsRequeued | public/app.js:140-143 | a failed, idle, unqueued record is queued again |
| EngineSpec.EnqueueInv | public/app.js:137-144 | enqueueing keeps the invariant, including queue keys distinct and equal to the queued set |
| EngineSpec.CacheKeyInjective | public/app.js:138 | two cache keys with the same file name differ when the map ids do |
| Engine.TileEngine.PumpQueue | public/app.js:146-183 | the new state is `Pump` of the old; the invariant is kept |
| Engine.TileEngine.DispatchNext | public/app.js:148-181 | one loop iteration takes the state to `Dispatch` of the old |
| Engine.TileEngine.PopJob | public/app.js:148-149 | the first job is removed from the queue and its key from the queued set |
| Engine.TileEngine.StartImage | public/app.js:154-155 | the record is marked pending through its object, `inflight` grows by one, and the load is recorded |
| EngineSpec.DispatchEffect | public/app.js:148-181 | a popped job whose record is busy is dropped; otherwise one load starts for it and its cached record becomes pending and bound to it |
| EngineSpec.DispatchLoads | public/app.js:148-181 | a dispatch appends at most one load and keeps the earlier ones |
| EngineSpec.PumpStops | public/app.js:147-148 | the pump stops only with 6 loads in flight or an empty queue, and never exceeds 6 |
| EngineSpec.PumpFifo | public/app.js:149 | the pump removes a prefix of the queue, in order, and only appends loads |
| EngineSpec.PumpInv | public/app.js:146-183 | pumping keeps the invariant |
| Engine.TileEngine.Settle | public/app.js:160-179 | the callback's writes equal `Settle` of the old state |
| Engine.TileEngine.CompleteOk | public/app.js:160-169 | `onload` sets the record it was bound to as loaded and not pending, drops `inflight`, then pumps |
| Engine.TileEngine.CompleteErr | public/app.js:171-179 | `onerror` sets the record it was bound to as failed and not pending, drops `inflight`, then pumps |
| EngineSpec.SettleEffect | public/app.js:160-179 | only the bound record changes, and only while it is still cached: ok on success, err on failure, never pending, stamp unchanged |
| EngineSpec.SettledRecordIsFree | public/app.js:163-175 | after the callback, no cached record bound to that load is pending |
| EngineSpec.SettleInv | public/app.js:160-179 | the callbacks keep the invariant |
| Engine.TileEngine.ScheduleLoads | public/app.js:319-328 | the scheduling loop takes the state to `Schedule` of the old |
| Engine.TileEngine.ScheduleCell | public/app.js:322-327 | one iteration advances the remaining schedule by one cell |
| EngineSpec.ScheduleIsBudgetPrefix | public/app.js:319-328 | the loop enqueues exactly the first 18 cells some layer supplies, in visible order |
| EngineSpec.ScheduleBudget | public/app.js:319-328 | a frame adds at most 18 jobs to the queue and keeps the existing ones first |
| Engine.TileEngine.RenderPass | public/app.js:332-368 | the render loop's state and tally are those of `Render` |
| Engine.TileEngine.RenderCell | public/app.js:334-366 | one iteration moves one cell's count from the remaining pass into the tally |
| EngineSpec.RenderCounts | public/app.js:332-368 | every cell is counted once; empty cells are exactly those no layer supplies; nothing is drawn without a tile size |
| EngineSpec.RenderInv | public/app.js:332-368 | the draw pass keeps the invariant |
| Engine.TileEngine.Draw | public/app.js:304-368 | one frame is schedule, pump, render, as `Frame` |
| EngineSpec.FrameInv | public/app.js:304-368 | a frame keeps the invariant |
| Engine.TileEngine.Preload | public/app.js:434-438 | the start-up code takes the state to `Preload` of the old |
| EngineSpec.PreloadQueue | public/app.js:435-437 | with distinct layer ids, the queue holds each layer's "A1.webp" job once, in layer order, for any number of layers |
| EngineSpec.PreloadInv | public/app.js:434-438 | the preload keeps the invariant |
| Viewport.ClampScaleRange | public/app.js:78 | the scale lies in [0.01, 12] and is unchanged inside it |
| Viewport.ClampScaleMonotone | public/app.js:78 | clamping preserves order |
| Viewport.ClampIndexRange | public/app.js:241-244 | a clamped index lies in [0, count - 1], is unchanged inside it, and is 0 for an empty extent |
| Viewport.VisibleRangeBounds | public/app.js:236-244 | all bounds lie in the world, and ordered corners give ordered bounds |
| Viewport.VisibleRangeCovers | public/app.js:236-244 | every world cell on screen or within the one-cell margin is in the range |
| Viewport.RangeCellsContent | public/app.js:246-250 | the listed cells are exactly those of the range, row-major, rows times columns of them |
| Viewport.VisibleCells | public/app.js:225-251 | without a tile size the result is [(0, 0)]; otherwise it is the range's cells in row-major order |
| TileServer.TrimStart | server.js:21 | leading JavaScript whitespace is removed and the rest is unchanged |
| TileServer.ParseIntReadsNumeral | server.js:21 | whitespace, then the decimal form of n, then a non-digit parses back to n |
| TileServer.ParseIntNeedsDigit | server.js:21 | a string without digits parses to NaN |
| TileServer.ClampIntCases | server.js:20-24 | an unset value, NaN, or a value too large for a double gives the default; otherwise the value clamped to [min, max] |
| TileServer.ClampIntInRange | server.js:20-24 | with the default in range, the result is in [min, max] |
| TileServer.ClampIntOfNumeral | server.js:20-24 | a finite numeral gives its value clamped to [min, max] |
| TileServer.LoadConfigBounds | server.js:8-12 | each setting lies in its bounds, and an empty environment gives 26, 26, 0, 0, 31536000 |
| TileServer.ValidMapIdStaysInside | server.js:64 | an accepted map id has no path separator and is not "." or ".." |
| TileServer.ParseTileNameSound | server.js:66-70 | an accepted name is the base (a capital letter and digits) plus ".png" or ".webp" |
| TileServer.ParseTileNameComplete | server.js:66-70 | every such base and format is accepted and parsed back to itself |
| TileServer.CandidatesOrder | server.js:74-77 | the requested file comes first, then the same base in the other format |
| TileServer.TryNextFirstExisting | server.js:79-89 | the first existing candidate from i on is served with the configured max-age, and 404 exactly when none exists |
| TileServer.HandleTileBadMapId | server.js:64 | a bad map id gives 400 "Bad mapId" whatever is on disk |
| TileServer.HandleTileBadName | server.js:66-67 | a name that is not a tile name gives 400 "Bad tile name" whatever is on disk |
| TileServer.HandleTileFallback | server.js:60-89 | a valid request is served in its own format if present, else in the other, else 404 |
| TileServer.HandleTileOutcome | server.js:60-89 | 400 exactly for a bad id or name; a served file is an existing candidate; 404 means no candidate exists |
| Interop.UrlKeyAccepted | public/app.js:105 | for rows A to Z, the server parses the viewer's name back to the cell's key in webp |
| Interop.UrlKeyRejectedBeyondZ | public/app.js:82 | from the 27th row on, the label is not a capital letter, so the handler, given that name, answers 400 |
| Interop.ResolvedTileServed | public/app.js:181 | a resolved cell in rows A to Z of a layer with a valid id is served as webp, else png, else 404 |
| Interop.ConfiguredRowsAccepted | server.js:8 | a check on the server's configuration alone: every row of its configured grid has a name its tile-name check accepts |
| Interop.PreloadKeyAccepted | public/app.js:436 | the preloaded name is the key of cell (0, 0) and is accepted |

## Left out

- The floating-point view transform (`worldToScreen`, `screenToWorld`, the
  corner inversion and `Math.floor` in `computeVisibleWorldTiles`) is not
  modelled: `Viewport.VisibleCells` takes the floored corner cells as
  parameters. Pan, zoom, `resizeCanvas`, the HUD and all canvas drawing
  are left out too, since they are I/O.
- Fetching `maps.json` and the world configuration, and normalising layer
  descriptors (`public/app.js:22-48`): the layer list is a parameter whose
  well-formedness and z order are stated as predicates. The thrown error
  for a zero tile size is start-up I/O.
- `forceLoadAllTiles` is a debugging command that bypasses the budget. It
  is not part of the frame loop.
- `sortByCenterDistanceWorld` orders cells by floating-point distance. The
  frame functions take the visible cells in any order, as a parameter, so
  every frame property holds for whatever order the sort produces.
- Resolver.LocalKeyFromRC: rows are limited to codes below the UTF-16
  surrogate range, because a Dafny `char` cannot hold a lone surrogate.
  `String.fromCharCode` accepts larger rows.
- TileCache.Evict: eviction is specified as repeated removal of the least
  used record. This matches `sort` followed by deleting a prefix only
  because stamps are distinct, which the engine invariant guarantees. Ties
  and the `|| 0` of a missing stamp never arise.
- The record's `img` field is merged into `ok`: both are written together
  and read together (`public/app.js:341`).
- The `resolved` counter and `requestDraw` are left out. They are display
  and scheduling I/O.
- Engine.TileEngine.Draw: models a frame that gets past the `needsDraw`
  gate (`public/app.js:307`). A frame nobody requested returns before
  scheduling, pumping or rendering, and is not modelled.
- Decimal.NatToString: JavaScript numbers are doubles. `${n}` switches to
  exponent form from 10^21, and integers above 2^53 are not exact. The
  model's naturals are unbounded, so it covers columns and counters below
  2^53 only.
- Resolver.LocalKeyInjective: holds in the source for columns below
  2^53 - 1. Above that, `c + 1` rounds and two columns can share a key.
- EngineSpec.Touch: `++use` stops advancing at 2^53, after which new stamps
  repeat and the distinct-stamp invariant no longer holds. The model's
  counter is unbounded, so every property that uses distinct stamps
  assumes fewer than 2^53 cache reads.
- Engine.TileEngine.CompleteOk: a callback is identified by its position
  in the list of loads in flight, not by its closure. The cache key alone
  cannot identify it, because a record evicted while pending can be
  recreated and loaded again under the same key.
- The image element, its URL (`public/app.js:181`) and the browser's
  network fetch are not modelled. A load completes when the caller invokes
  `CompleteOk` or `CompleteErr`, in any order.
- TileServer.ClampInt: the parsed value is an exact integer, not a double.
  For numerals longer than about 17 significant digits, JavaScript rounds
  before clamping. Only the overflow to infinity above the largest double
  is modelled, because it decides between the default and a bound.
- TileServer.HandleTile: `fs.stat` is a parameter `isFile` giving whether a
  file exists. The handler is modelled on the name as it reaches it.
  Neither the browser's URL normalisation nor Express's percent-decoding
  of parameters is modelled. The browser turns `\` into `/`, so the name of
  a 28th row (label `\`) arrives as a different path, which this route
  does not match: Express answers 404 there, not 400. `path.join`,
  `sendFile`, status codes other than the response kind, and every header
  except the max-age are not modelled either.
- Express set-up, static files, `/api/meta`, `/api/maps`, `listen` and
  `PORT` are left out: they are I/O with no logic of the core.
