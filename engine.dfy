/** The loading engine of the viewer (public/app.js) as the source keeps it:
    shared variables updated in place by `getRec`, `evictIfNeeded`,
    `enqueueLoad`, `pumpQueue`, the `onload` / `onerror` callbacks, the
    scheduling and draw loops of `draw` and the start-up preload. The
    public operations (the constructor, GetRec, EnqueueLoad, PumpQueue,
    Settle, CompleteOk, CompleteErr, ScheduleLoads, RenderPass, Draw and
    Preload) are proved to take the state exactly where the matching
    function of EngineSpec does, and to keep the engine invariant. The
    helpers (Stamp, InsertBlank, PushJob, PopJob, StartImage,
    EvictIfNeeded) each state the one field update they make. */
module Engine {
  import opened TileCache
  import opened EngineSpec
  import Resolver
  import Viewport

  class TileEngine {
    var cache: map<string, Rec>
    var use: nat
    var nextId: nat
    var inflight: nat
    var queue: seq<Job>
    var queued: set<string>
    /** The images whose `onload` or `onerror` has not fired yet. */
    var loads: seq<Load>

    ghost function State(): EngineSpec.State
      reads this
    {
      EngineSpec.State(cache, use, nextId, inflight, queue, queued, loads)
    }

    ghost predicate Valid()
      reads this
    {
      Inv(State())
    }

    /** An empty cache, nothing queued and nothing in flight. */
    constructor ()
      ensures State() == Initial && Valid()
    {
      cache := map[];
      use := 0;
      nextId := 0;
      inflight := 0;
      queue := [];
      queued := {};
      loads := [];
      InitialInv();
    }

    /** `evictIfNeeded()`: when the cache holds more than MaxCache records,
        delete the EvictCount(MaxCache) least recently used ones, one least
        used record at a time (with distinct stamps, the order of the
        stable sort by `lastUse`). */
    method EvictIfNeeded()
      requires LastUseDistinct(cache)
      modifies this`cache
      ensures cache == AfterEviction(old(cache))
      ensures forall k | k in cache :: k in old(cache) && cache[k] == old(cache)[k]
    {
      if |cache| <= MaxCache {
        return;
      }
      var toRemove := EvictCount(MaxCache);
      var kept := DeleteLeastUsed(cache, toRemove);
      EvictKeeps(cache, toRemove);
      cache := kept;
    }

    /** `getRec(cacheKey)`: the cached record, or a new one inserted with
        stamp 0 before `evictIfNeeded`; either way the record object is
        stamped with the incremented counter, which the cache sees only
        when the object is still under its key. */
    method GetRec(key: string) returns (r: Rec)
      requires Valid()
      modifies this
      ensures Touched(State(), r) == Touch(old(State()), key)
      ensures Valid()
    {
      if key in cache {
        ghost var s0 := State();
        r := Stamp(key, cache[key]);
        assert State() == s0.(cache := s0.cache[key := r], use := s0.use + 1);
        TouchHitStep(s0, key);
      } else {
        r := NewRec(key);
      }
    }

    /** `rec.lastUse = ++use` on the record object `rec` bound to `key`:
        the cache sees the stamp only if it holds that object. */
    method Stamp(key: string, rec: Rec) returns (r: Rec)
      modifies this`cache, this`use
      ensures r == rec.(lastUse := old(use) + 1)
      ensures State() == old(State()).(cache := WriteThrough(old(cache), key, r), use := old(use) + 1)
    {
      use := use + 1;
      r := rec.(lastUse := use);
      cache := WriteThrough(cache, key, r);
    }

    /** `cache.set(key, rec)` for a new record object, stamped 0. */
    method InsertBlank(key: string) returns (blank: Rec)
      modifies this`cache, this`nextId
      ensures blank == Rec(old(nextId), false, false, false, 0)
      ensures State() == old(State()).(cache := old(cache)[key := blank], nextId := old(nextId) + 1)
    {
      blank := Rec(nextId, false, false, false, 0);
      cache := cache[key := blank];
      nextId := nextId + 1;
    }

    /** The miss path of `getRec`: a new record object, stamped 0, is put
        under the key and `evictIfNeeded` runs (which, on overflow, deletes
        the new record first); then the object is stamped with the
        incremented counter, which the cache sees only if it kept it. */
    method NewRec(key: string) returns (r: Rec)
      requires Valid() && key !in cache
      modifies this
      ensures Touched(State(), r) == Touch(old(State()), key)
      ensures Valid()
    {
      ghost var s0 := State();
      BlankInsertDistinct(s0, key);
      var blank := InsertBlank(key);
      EvictIfNeeded();
      ghost var e := cache;
      assert e == AfterEviction(s0.cache[key := Rec(s0.nextId, false, false, false, 0)]);
      r := Stamp(key, blank);
      assert State() == s0.(cache := WriteThrough(e, key, r), use := s0.use + 1, nextId := s0.nextId + 1);
      TouchMissStep(s0, key, e);
    }

    /** `enqueueLoad(mapId, urlKey)`. */
    method EnqueueLoad(mapId: string, urlKey: string)
      requires Valid()
      modifies this
      ensures State() == Enqueue(old(State()), mapId, urlKey)
      ensures Valid()
    {
      ghost var s0 := State();
      EnqueueInv(s0, mapId, urlKey);
      var key := mapId + "/" + urlKey;
      var r := GetRec(key);
      ghost var t := State();
      EnqueueStep(s0, mapId, urlKey, Touched(t, r));
      if r.ok || r.pending {
        return;
      }
      if key in queued {
        return;
      }
      PushJob(Job(mapId, urlKey, key));
    }

    /** `queued.add(key)` and `queue.push(job)`. */
    method PushJob(job: Job)
      modifies this`queue, this`queued
      ensures State() == old(State()).(queue := old(queue) + [job], queued := old(queued) + {job.cacheKey})
    {
      queued := queued + {job.cacheKey};
      queue := queue + [job];
    }

    /** `pumpQueue()`: while fewer than MaxInflight images load and jobs
        wait, take the first job, get its record and, unless it is loaded
        or loading, mark it pending and start its image. */
    method PumpQueue()
      requires Valid()
      modifies this
      ensures State() == Pump(old(State()))
      ensures Valid()
    {
      while inflight < MaxInflight && |queue| > 0
        invariant Valid()
        invariant Pump(State()) == Pump(old(State()))
        decreases |queue|
      {
        DispatchNext();
      }
    }

    /** One turn of the `pumpQueue` loop: take the first job off the queue
        and its key out of `queued`, get its record and, unless it is
        loaded or loading, mark the record object pending, count one more
        image in flight and start it. */
    method DispatchNext()
      requires Valid() && |queue| > 0 && inflight < MaxInflight
      modifies this
      ensures State() == Dispatch(old(State()))
      ensures Valid()
    {
      ghost var s := State();
      var job := PopJob();
      var r := GetRec(job.cacheKey);
      ghost var t := Touched(State(), r);
      if r.ok || r.pending {
        DispatchBusyStep(s, t);
        return;
      }
      StartImage(job, r);
      DispatchStartStep(s, t);
    }

    /** `queue.shift()` and `queued.delete(job.cacheKey)`. */
    method PopJob() returns (job: Job)
      requires Valid() && |queue| > 0
      modifies this`queue, this`queued
      ensures job == old(queue[0]) && State() == Popped(old(State()))
      ensures Valid()
    {
      ghost var s := State();
      PoppedInv(s);
      job := queue[0];
      queue := queue[1..];
      queued := queued - {job.cacheKey};
      assert State() == Popped(s);
    }

    /** `rec.pending = true`, `inflight++` and the image request for the
        job: the write goes through the record object, so the cache sees
        it only if it still holds that object under the job's key. */
    method StartImage(job: Job, r: Rec)
      modifies this`cache, this`inflight, this`loads
      ensures State() == old(State()).(cache := WriteThrough(old(cache), job.cacheKey, r.(pending := true)),
                                       inflight := old(inflight) + 1,
                                       loads := old(loads) + [Load(job, r.id)])
    {
      cache := WriteThrough(cache, job.cacheKey, r.(pending := true));
      inflight := inflight + 1;
      loads := loads + [Load(job, r.id)];
    }

    /** The body shared by the two callbacks of the i-th image: the record
        object it was started for takes the outcome, which the cache sees
        only when that object is still cached, and one fewer image loads. */
    method Settle(i: nat, success: bool)
      requires Valid() && i < |loads|
      modifies this
      ensures old(inflight) > 0 && State() == EngineSpec.Settle(old(State()), i, success)
      ensures Valid()
    {
      SettleInv(State(), i, success);
      var l := loads[i];
      var key := l.job.cacheKey;
      if key in cache && cache[key].id == l.recId {
        cache := cache[key := cache[key].(ok := success, pending := false, err := !success)];
      }
      inflight := inflight - 1;
      loads := loads[..i] + loads[i + 1..];
    }

    /** `img.onload` of the i-th image, then `pumpQueue()`. */
    method CompleteOk(i: nat)
      requires Valid() && i < |loads|
      modifies this
      ensures old(inflight) > 0 && State() == Complete(old(State()), i, true)
      ensures Valid()
    {
      Settle(i, true);
      PumpQueue();
    }

    /** `img.onerror` of the i-th image, then `pumpQueue()`. */
    method CompleteErr(i: nat)
      requires Valid() && i < |loads|
      modifies this
      ensures old(inflight) > 0 && State() == Complete(old(State()), i, false)
      ensures Valid()
    {
      Settle(i, false);
      PumpQueue();
    }

    /** The scheduling loop of `draw`: walk the visible cells, stop once
        LoadBudgetPerFrame requests were made, skip the cells no layer
        supplies and enqueue the others. */
    method ScheduleLoads(layers: seq<Resolver.Layer>, visible: seq<Viewport.Cell>)
      requires Valid() && Resolver.AllWellFormed(layers)
      modifies this
      ensures State() == Schedule(old(State()), layers, visible, 0)
      ensures Valid()
    {
      var asked: nat := 0;
      var n: nat := 0;
      while n < |visible|
        invariant n <= |visible| && asked <= LoadBudgetPerFrame
        invariant Valid()
        invariant Schedule(State(), layers, visible[n..], asked) == Schedule(old(State()), layers, visible, 0)
      {
        if asked >= LoadBudgetPerFrame {
          break;
        }
        asked := ScheduleCell(layers, visible, n, asked);
        n := n + 1;
      }
    }

    /** One turn of the scheduling loop, on cell n of `visible`: a cell
        some layer supplies is enqueued and counted against the budget. */
    method ScheduleCell(layers: seq<Resolver.Layer>, visible: seq<Viewport.Cell>, n: nat, asked: nat) returns (asked': nat)
      requires Valid() && Resolver.AllWellFormed(layers)
      requires n < |visible| && asked < LoadBudgetPerFrame
      modifies this
      ensures asked' <= asked + 1
      ensures Schedule(State(), layers, visible[n + 1..], asked') == Schedule(old(State()), layers, visible[n..], asked)
      ensures Valid()
    {
      ScheduleStep(State(), layers, visible, n, asked);
      asked' := asked;
      var res := Resolver.Resolve(layers, visible[n].wr, visible[n].wc);
      if res.Some? {
        EnqueueLoad(res.value.mapId, res.value.urlKey);
        asked' := asked + 1;
      }
    }

    /** The draw pass of `draw`: the cells no layer supplies count as
        empty; every other cell reads its record with getRec and counts as
        drawn, pending or missing. */
    method RenderPass(layers: seq<Resolver.Layer>, visible: seq<Viewport.Cell>, sized: bool) returns (tally: Tally)
      requires Valid() && Resolver.AllWellFormed(layers)
      modifies this
      ensures Rendered(State(), tally) == Render(old(State()), layers, visible, sized)
      ensures Valid()
    {
      tally := Tally(0, 0, 0, 0);
      var n: nat := 0;
      while n < |visible|
        invariant n <= |visible|
        invariant Valid()
        invariant Render(old(State()), layers, visible, sized) == Counted(Render(State(), layers, visible[n..], sized), tally)
      {
        tally := RenderCell(layers, visible, n, sized, tally);
        n := n + 1;
      }
      RenderDone(State(), layers, visible, sized, tally);
    }

    /** One turn of the draw pass, on cell n of `visible`: the cell is
        counted in exactly one of the four tallies, on top of `before`. */
    method RenderCell(layers: seq<Resolver.Layer>, visible: seq<Viewport.Cell>, n: nat, sized: bool, before: Tally)
      returns (after: Tally)
      requires Valid() && Resolver.AllWellFormed(layers) && n < |visible|
      modifies this
      ensures Counted(Render(old(State()), layers, visible[n..], sized), before)
           == Counted(Render(State(), layers, visible[n + 1..], sized), after)
      ensures Valid()
    {
      RenderStep(State(), layers, visible, n, sized);
      var res := Resolver.Resolve(layers, visible[n].wr, visible[n].wc);
      var one: Tally;
      if res.None? {
        one := Tally(0, 0, 0, 1);
      } else {
        var r := GetRec(CacheKey(res.value.mapId, res.value.urlKey));
        if r.ok && sized {
          one := Tally(1, 0, 0, 0);
        } else if r.pending {
          one := Tally(0, 1, 0, 0);
        } else {
          one := Tally(0, 0, 1, 0);
        }
      }
      CountedTwice(Render(State(), layers, visible[n + 1..], sized), one, before);
      after := Plus(before, one);
    }

    /** One call of `draw`: schedule, pump, then the draw pass. */
    method Draw(layers: seq<Resolver.Layer>, visible: seq<Viewport.Cell>, sized: bool) returns (tally: Tally)
      requires Valid() && Resolver.AllWellFormed(layers)
      modifies this
      ensures Rendered(State(), tally) == Frame(old(State()), layers, visible, sized)
      ensures Valid()
    {
      ScheduleLoads(layers, visible);
      PumpQueue();
      tally := RenderPass(layers, visible, sized);
    }

    /** The start-up code: enqueue the tile "A1.webp" of every layer, in
        list order, then pump. */
    method Preload(layers: seq<Resolver.Layer>)
      requires Valid()
      modifies this
      ensures State() == EngineSpec.Preload(old(State()), layers)
      ensures Valid()
    {
      ghost var rs := PreloadRequests(layers);
      var n := 0;
      while n < |layers|
        invariant 0 <= n <= |layers|
        invariant Valid()
        invariant EnqueueAll(State(), rs[n..]) == EnqueueAll(old(State()), rs)
      {
        assert rs[n..][1..] == rs[n + 1..];
        EnqueueLoad(layers[n].id, PreloadKey);
        n := n + 1;
      }
      assert rs[n..] == [];
      PumpQueue();
    }
  }

  /** The loop of `evictIfNeeded` over the entries sorted by `lastUse`:
      delete entries from the front while fewer than n were deleted and
      some are left. With distinct stamps the front entry is always the
      least recently used one still cached. */
  method DeleteLeastUsed(c: map<string, Rec>, n: nat) returns (kept: map<string, Rec>)
    requires LastUseDistinct(c)
    ensures kept == Evict(c, n)
  {
    kept := c;
    var left := n;
    while left > 0 && |kept| > 0
      invariant LastUseDistinct(kept)
      invariant Evict(kept, left) == Evict(c, n)
    {
      var k :| k in kept && IsLeastUsed(kept, k);
      ghost var before := kept;
      kept := kept - {k};
      left := left - 1;
      EvictLeastUsed(before, k, left + 1);
    }
  }

}
