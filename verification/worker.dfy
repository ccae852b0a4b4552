/**
 * One worker cycle (`fetch_and_calculate` in worker.py) and the process loop
 * around it (`main`). The latest-element-set query result, the clock, the
 * outcome of the PostGIS write and of the Redis write are inputs of a cycle;
 * PostGIS and Redis themselves are the state the cycle changes.
 */
module Worker {
  import opened Wrappers
  import opened Propagation
  import opened Sampler

  const CACHE_KEY: string := "satellite_positions_v2"
  const CACHE_TTL_SECONDS: int := 60

  /** One row of the latest-element-set query: `satellite_db_id`, `name`, `norad_cat_id`, `line1`, `line2`. */
  datatype Row = Row(id: int, name: string, noradCatId: int, tle: Tle)

  /** One element of `satellites_data`, the cached per-object snapshot. */
  datatype Entry = Entry(
    id: int, name: string, noradId: int,
    latitude: real, longitude: real, altitude: real,
    eci: Vec3, samples: seq<Sample>)

  /** One `(lon, lat, id)` tuple of `postgis_update_args`. */
  datatype UpdateArg = UpdateArg(lon: real, lat: real, id: int)

  /** The `geopoint` column value of one satellite row: longitude first. */
  datatype Point = Point(lon: real, lat: real)

  /** The Redis value under the cache key: the `satellites` list and its time to live. */
  datatype Snapshot = Snapshot(key: string, satellites: seq<Entry>, ttl: int)

  /**
   * How the batch geopoint update goes: it succeeds; `executemany` raises (caught
   * inside, the cycle goes on); or acquiring the connection raises, which the
   * inner handler does not cover, so the cycle's outer handler takes over.
   */
  datatype SinkOutcome = Written | WriteFailed | AcquireFailed

  /**
   * Everything a cycle reads from outside: the clock, the query result (None
   * when the query raises), the PostGIS write outcome and whether `redis.set` succeeds.
   */
  datatype CycleEnv = CycleEnv(now: int, rows: Option<seq<Row>>, sink: SinkOutcome, cacheSetOk: bool)

  /** The state a cycle changes: geopoints keyed by satellite id, and the cached payload. */
  datatype Stores = Stores(geopoint: map<int, Option<Point>>, cache: Option<Snapshot>)

  /** Events of the process loop, in the order they happen. */
  datatype Event = CycleStarted | CycleFinished | Slept(seconds: int)

  // ---------------------------------------------------------------------------
  // Per-object assembly

  /**
   * The entry one row contributes: none when its current position fails;
   * otherwise the row's identity, its fix, and its samples, which are empty
   * when computing them raised.
   */
  function EntryFor(port: Port, row: Row, now: int): (r: seq<Entry>)
    ensures r != [] ==> r[0].id == row.id && r[0].noradId == row.noradCatId
  {
    match port.position(row.tle, now)
    case None => []
    case Some(p) =>
      var samples := match FutureSamples(port, row.tle, now, PREDICT_SECONDS, SAMPLE_INTERVAL)
        case Some(s) => s
        case None => [];
      [Entry(row.id, row.name, row.noradCatId, p.geo.lat, p.geo.lon, p.geo.altKm, p.eci, samples)]
  }

  /** `satellites_data` after the loop over `rows`. */
  function Emitted(port: Port, rows: seq<Row>, now: int): (data: seq<Entry>)
    ensures |data| <= |rows|
  {
    if rows == [] then []
    else Emitted(port, rows[..|rows| - 1], now) + EntryFor(port, rows[|rows| - 1], now)
  }

  lemma EmittedStep(port: Port, rows: seq<Row>, k: nat, now: int)
    requires k < |rows|
    ensures Emitted(port, rows[..k + 1], now) == Emitted(port, rows[..k], now) + EntryFor(port, rows[k], now)
  {
    assert rows[..k + 1][..k] == rows[..k];
  }

  /** The PostGIS arguments built beside `data`: one tuple per entry, longitude first. */
  function UpdateArgs(data: seq<Entry>): seq<UpdateArg>
  {
    seq(|data|, j requires 0 <= j < |data| => UpdateArg(data[j].longitude, data[j].latitude, data[j].id))
  }

  lemma UpdateArgsAppend(data: seq<Entry>, more: seq<Entry>)
    ensures UpdateArgs(data + more) == UpdateArgs(data) + UpdateArgs(more)
  {
  }

  /**
   * One pass of the loop at worker.py:221-253: await the object's position,
   * skip it when that failed, otherwise compute its samples (empty when that
   * raises) and build its entry and its PostGIS tuple.
   */
  method Place(port: Port, row: Row, now: int) returns (entry: seq<Entry>, arg: seq<UpdateArg>)
    ensures entry == EntryFor(port, row, now)
    ensures arg == UpdateArgs(entry)
  {
    entry, arg := [], [];
    var pos := port.position(row.tle, now);
    if pos.Some? {
      var fix := pos.value;
      var computed := ComputeFutureSamples(port, row.tle, now, PREDICT_SECONDS, SAMPLE_INTERVAL);
      var samples := if computed.Some? then computed.value else [];
      entry := [Entry(row.id, row.name, row.noradCatId, fix.geo.lat, fix.geo.lon, fix.geo.altKm, fix.eci, samples)];
      arg := [UpdateArg(fix.geo.lon, fix.geo.lat, row.id)];
    }
  }

  /** The loop at worker.py:216-253, with the position tasks awaited in creation order. */
  method Assemble(port: Port, rows: seq<Row>, now: int) returns (data: seq<Entry>, args: seq<UpdateArg>)
    ensures data == Emitted(port, rows, now)
    ensures args == UpdateArgs(data)
  {
    data, args := [], [];
    var k := 0;
    while k < |rows|
      invariant 0 <= k <= |rows|
      invariant data == Emitted(port, rows[..k], now)
      invariant args == UpdateArgs(data)
    {
      EmittedStep(port, rows, k, now);
      var entry, arg := Place(port, rows[k], now);
      UpdateArgsAppend(data, entry);
      data, args := data + entry, args + arg;
      k := k + 1;
    }
    assert rows[..k] == rows;
  }

  // ---------------------------------------------------------------------------
  // The stores

  /** `executemany` of `UPDATE satellites SET geopoint = ... WHERE id = $3`, one tuple after another. */
  function ApplyUpdates(geo: map<int, Option<Point>>, args: seq<UpdateArg>): (r: map<int, Option<Point>>)
    ensures r.Keys == geo.Keys
  {
    if args == [] then geo
    else
      var a := args[0];
      ApplyUpdates(if a.id in geo then geo[a.id := Some(Point(a.lon, a.lat))] else geo, args[1..])
  }

  /** The stores after one cycle that starts from `s`. */
  function Cycle(s: Stores, redisConnected: bool, env: CycleEnv, port: Port): (r: Stores)
    ensures r.geopoint.Keys == s.geopoint.Keys
    ensures r.cache == s.cache ||
      (r.cache.Some? && r.cache.value.key == CACHE_KEY && r.cache.value.ttl == CACHE_TTL_SECONDS && r.cache.value.satellites != [])
  {
    match env.rows
    case None => s
    case Some(rows) =>
      var data := Emitted(port, rows, env.now);
      if data != [] && env.sink == AcquireFailed then s
      else
        var geo := if data != [] && env.sink == Written then ApplyUpdates(s.geopoint, UpdateArgs(data)) else s.geopoint;
        var cache := if redisConnected && data != [] && env.cacheSetOk
          then Some(Snapshot(CACHE_KEY, data, CACHE_TTL_SECONDS)) else s.cache;
        Stores(geo, cache)
  }

  /** The stores after a run of cycles, one after another. */
  function Cycles(s: Stores, redisConnected: bool, envs: seq<CycleEnv>, port: Port): Stores
  {
    if envs == [] then s
    else Cycle(Cycles(s, redisConnected, envs[..|envs| - 1], port), redisConnected, envs[|envs| - 1], port)
  }

  lemma CyclesStep(s: Stores, redisConnected: bool, envs: seq<CycleEnv>, port: Port, k: nat)
    requires k < |envs|
    ensures Cycles(s, redisConnected, envs[..k + 1], port) ==
      Cycle(Cycles(s, redisConnected, envs[..k], port), redisConnected, envs[k], port)
  {
    assert envs[..k + 1][..k] == envs[..k];
  }

  /** The events of `n` loop iterations: each cycle runs to its end, then the loop sleeps. */
  function Schedule(n: nat): (events: seq<Event>)
    ensures |events| == 3 * n
  {
    if n == 0 then [] else Schedule(n - 1) + [CycleStarted, CycleFinished, Slept(CACHE_TTL_SECONDS)]
  }

  /** The worker process: its PostGIS and Redis state, whether Redis answered at import, and its event log. */
  class WorkerProcess {
    var geopoint: map<int, Option<Point>>
    var cache: Option<Snapshot>
    const redisConnected: bool
    var log: seq<Event>

    constructor (geopoint: map<int, Option<Point>>, cache: Option<Snapshot>, redisConnected: bool)
      ensures this.geopoint == geopoint && this.cache == cache
      ensures this.redisConnected == redisConnected && log == []
    {
      this.geopoint := geopoint;
      this.cache := cache;
      this.redisConnected := redisConnected;
      log := [];
    }

    /** `fetch_and_calculate`: every exception ends the cycle and leaves the rest undone. */
    method FetchAndCalculate(env: CycleEnv, port: Port)
      modifies this
      ensures Stores(geopoint, cache) == Cycle(old(Stores(geopoint, cache)), redisConnected, env, port)
      ensures log == old(log)
    {
      if env.rows.None? {
        return;
      }
      var data, args := Assemble(port, env.rows.value, env.now);
      if |args| > 0 {
        match env.sink {
          case AcquireFailed => return;
          case WriteFailed =>
          case Written => geopoint := ApplyUpdates(geopoint, args);
        }
      }
      if redisConnected && |data| > 0 && env.cacheSetOk {
        cache := Some(Snapshot(CACHE_KEY, data, CACHE_TTL_SECONDS));
      }
    }

    /**
     * `main`: exit before looping when the pool cannot be created or Redis is
     * absent (a failed PostGIS setup only warns); otherwise run the cycles of
     * `envs` one after another, each followed by a sleep of the cache TTL.
     */
    method Run(poolCreated: bool, postgisReady: bool, envs: seq<CycleEnv>, port: Port) returns (looped: bool)
      modifies this
      ensures looped == (poolCreated && redisConnected)
      ensures !looped ==> geopoint == old(geopoint) && cache == old(cache) && log == old(log)
      ensures looped ==> Stores(geopoint, cache) == Cycles(old(Stores(geopoint, cache)), redisConnected, envs, port)
      ensures looped ==> log == old(log) + Schedule(|envs|)
    {
      if !poolCreated {
        return false;
      }
      if !redisConnected {
        return false;
      }
      var k := 0;
      while k < |envs|
        invariant 0 <= k <= |envs|
        invariant Stores(geopoint, cache) == Cycles(old(Stores(geopoint, cache)), redisConnected, envs[..k], port)
        invariant log == old(log) + Schedule(k)
      {
        CyclesStep(old(Stores(geopoint, cache)), redisConnected, envs, port, k);
        log := log + [CycleStarted];
        FetchAndCalculate(envs[k], port);
        log := log + [CycleFinished];
        log := log + [Slept(CACHE_TTL_SECONDS)];
        assert log == old(log) + Schedule(k + 1);
        k := k + 1;
      }
      assert envs[..k] == envs;
      return true;
    }
  }

  // ---------------------------------------------------------------------------
  // Properties of the assembly

  /** Failure isolation: the entries for two batches of rows are those of each batch, side by side. */
  lemma {:induction false} EmittedAppend(port: Port, a: seq<Row>, b: seq<Row>, now: int)
    ensures Emitted(port, a + b, now) == Emitted(port, a, now) + Emitted(port, b, now)
  {
    if b == [] {
      assert a + b == a;
    } else {
      var b0 := b[..|b| - 1];
      var x := EntryFor(port, b[|b| - 1], now);
      assert (a + b)[..|a + b| - 1] == a + b0 && (a + b)[|a + b| - 1] == b[|b| - 1];
      assert Emitted(port, a + b, now) == Emitted(port, a + b0, now) + x;
      assert Emitted(port, b, now) == Emitted(port, b0, now) + x;
      EmittedAppend(port, a, b0, now);
    }
  }

  /**
   * Row k contributes exactly its own entry, placed after those of earlier rows
   * and before those of later ones; it contributes one iff its position succeeds,
   * and that entry carries the row's identity and its own fix.
   */
  lemma EmittedSplit(port: Port, rows: seq<Row>, now: int, k: nat)
    requires k < |rows|
    ensures Emitted(port, rows, now) ==
      Emitted(port, rows[..k], now) + EntryFor(port, rows[k], now) + Emitted(port, rows[k + 1..], now)
    ensures |EntryFor(port, rows[k], now)| == (if port.position(rows[k].tle, now).Some? then 1 else 0)
    ensures port.position(rows[k].tle, now).Some? ==>
      var e := EntryFor(port, rows[k], now)[0];
      var p := port.position(rows[k].tle, now).value;
      e.id == rows[k].id && e.name == rows[k].name && e.noradId == rows[k].noradCatId &&
      e.latitude == p.geo.lat && e.longitude == p.geo.lon && e.altitude == p.geo.altKm && e.eci == p.eci
  {
    assert rows == rows[..k] + [rows[k]] + rows[k + 1..];
    EmittedAppend(port, rows[..k] + [rows[k]], rows[k + 1..], now);
    EmittedAppend(port, rows[..k], [rows[k]], now);
    assert Emitted(port, [rows[k]], now) == EntryFor(port, rows[k], now) by {
      assert [rows[k]][..0] == [];
    }
  }

  /**
   * The prediction part of an emitted entry: the object's sample window, or the
   * empty list when computing it raised, which with the fixed 30 s interval
   * happens only when the satellite cannot be constructed.
   */
  lemma EntrySamples(port: Port, row: Row, now: int)
    requires port.position(row.tle, now).Some?
    ensures |EntryFor(port, row, now)| == 1
    ensures !port.loads(row.tle) ==> EntryFor(port, row, now)[0].samples == []
    ensures port.loads(row.tle) ==>
      EntryFor(port, row, now)[0].samples ==
        Survivors(port, row.tle, Candidates(now, PREDICT_SECONDS, SAMPLE_INTERVAL))
  {
  }

  /** Every emitted entry is the entry of some row whose position succeeded. */
  lemma {:induction false} EmittedFromRows(port: Port, rows: seq<Row>, now: int)
    ensures forall j :: 0 <= j < |Emitted(port, rows, now)| ==>
      exists k :: 0 <= k < |rows| && EntryFor(port, rows[k], now) == [Emitted(port, rows, now)[j]]
  {
    if rows != [] {
      var init := rows[..|rows| - 1];
      var last := rows[|rows| - 1];
      EmittedFromRows(port, init, now);
      var d0 := Emitted(port, init, now);
      var d := Emitted(port, rows, now);
      assert d == d0 + EntryFor(port, last, now);
      forall j | 0 <= j < |d|
        ensures exists k :: 0 <= k < |rows| && EntryFor(port, rows[k], now) == [d[j]]
      {
        if j < |d0| {
          assert d[j] == d0[j];
          var k :| 0 <= k < |init| && EntryFor(port, init[k], now) == [d0[j]];
          assert rows[k] == init[k];
        } else {
          assert EntryFor(port, rows[|rows| - 1], now) == [d[j]];
        }
      }
      assert forall j :: 0 <= j < |d| ==> exists k :: 0 <= k < |rows| && EntryFor(port, rows[k], now) == [d[j]];
    } else {
      assert Emitted(port, rows, now) == [];
    }
  }

  /** When every position succeeds, every row is emitted, in query order. */
  lemma {:induction false} EmittedAllSucceed(port: Port, rows: seq<Row>, now: int)
    requires forall k :: 0 <= k < |rows| ==> port.position(rows[k].tle, now).Some?
    ensures |Emitted(port, rows, now)| == |rows|
    ensures forall k :: 0 <= k < |rows| ==> Emitted(port, rows, now)[k] == EntryFor(port, rows[k], now)[0]
  {
    if rows != [] {
      var init := rows[..|rows| - 1];
      var last := rows[|rows| - 1];
      EmittedAllSucceed(port, init, now);
      var d0 := Emitted(port, init, now);
      var x := EntryFor(port, last, now);
      assert |x| == 1 by {
        assert port.position(last.tle, now).Some?;
      }
      assert Emitted(port, rows, now) == d0 + x;
      SnocAllSucceed(port, rows, now, d0, x);
    }
  }

  lemma SnocAllSucceed(port: Port, rows: seq<Row>, now: int, d0: seq<Entry>, x: seq<Entry>)
    requires rows != [] && |d0| == |rows| - 1 && x == EntryFor(port, rows[|rows| - 1], now) && |x| == 1
    requires forall k :: 0 <= k < |rows| ==> port.position(rows[k].tle, now).Some?
    requires forall k :: 0 <= k < |d0| ==> d0[k] == EntryFor(port, rows[..|rows| - 1][k], now)[0]
    ensures forall k :: 0 <= k < |rows| ==> (d0 + x)[k] == EntryFor(port, rows[k], now)[0]
  {
    forall k | 0 <= k < |rows| ensures (d0 + x)[k] == EntryFor(port, rows[k], now)[0] {
      if k < |d0| {
        assert rows[..|rows| - 1][k] == rows[k];
      }
    }
  }

  /** Distinct row ids (the table's primary key) give distinct entry ids. */
  lemma {:induction false} EmittedIdsDistinct(port: Port, rows: seq<Row>, now: int)
    requires forall i, j :: 0 <= i < j < |rows| ==> rows[i].id != rows[j].id
    ensures forall i, j :: 0 <= i < j < |Emitted(port, rows, now)| ==>
      Emitted(port, rows, now)[i].id != Emitted(port, rows, now)[j].id
  {
    if rows != [] {
      var init := rows[..|rows| - 1];
      var last := rows[|rows| - 1];
      EmittedIdsDistinct(port, init, now);
      EmittedFromRows(port, init, now);
      var d0 := Emitted(port, init, now);
      var d := Emitted(port, rows, now);
      assert d == d0 + EntryFor(port, last, now);
      forall i, j | 0 <= i < j < |d| ensures d[i].id != d[j].id {
        if j >= |d0| {
          assert d[i] == d0[i];
          var k :| 0 <= k < |init| && EntryFor(port, init[k], now) == [d0[i]];
          assert d[i].id == init[k].id == rows[k].id;
          assert d[j].id == last.id;
        } else {
          assert d[i] == d0[i] && d[j] == d0[j];
        }
      }
    }
  }

  // ---------------------------------------------------------------------------
  // Properties of the stores

  /**
   * With distinct ids, each updated satellite row ends up with its own tuple's
   * point, and every row no tuple names keeps its geopoint.
   */
  lemma {:induction false} ApplyUpdatesEffect(geo: map<int, Option<Point>>, args: seq<UpdateArg>)
    requires forall i, j :: 0 <= i < j < |args| ==> args[i].id != args[j].id
    ensures forall k :: 0 <= k < |args| && args[k].id in geo ==>
      ApplyUpdates(geo, args)[args[k].id] == Some(Point(args[k].lon, args[k].lat))
    ensures forall id :: id in geo && (forall k :: 0 <= k < |args| ==> args[k].id != id) ==>
      ApplyUpdates(geo, args)[id] == geo[id]
  {
    if args != [] {
      var a := args[0];
      var geo1 := if a.id in geo then geo[a.id := Some(Point(a.lon, a.lat))] else geo;
      var rest := args[1..];
      ApplyUpdatesEffect(geo1, rest);
      assert ApplyUpdates(geo, args) == ApplyUpdates(geo1, rest);
      forall k | 0 <= k < |args| && args[k].id in geo
        ensures ApplyUpdates(geo, args)[args[k].id] == Some(Point(args[k].lon, args[k].lat))
      {
        if k > 0 {
          assert args[k] == rest[k - 1];
        } else {
          forall m | 0 <= m < |rest| ensures rest[m].id != a.id {
            assert rest[m] == args[m + 1];
          }
        }
      }
      forall id | id in geo && (forall k :: 0 <= k < |args| ==> args[k].id != id)
        ensures ApplyUpdates(geo, args)[id] == geo[id]
      {
        assert args[0].id != id;
        forall m | 0 <= m < |rest| ensures rest[m].id != id {
          assert rest[m] == args[m + 1];
        }
      }
    }
  }

  /**
   * A cycle whose query raises, or that emits nothing, leaves both stores as
   * they were: the cache keeps the previous payload.
   */
  lemma NothingEmittedKeepsStores(s: Stores, redisConnected: bool, env: CycleEnv, port: Port)
    requires env.rows.None? || Emitted(port, env.rows.value, env.now) == []
    ensures Cycle(s, redisConnected, env, port) == s
  {
  }

  /**
   * The cache after a cycle is either the previous payload or the whole of this
   * cycle's non-empty `satellites_data` under CACHE_KEY with a 60 s TTL; it is
   * the latter exactly when the query succeeded, something was emitted, Redis is
   * connected, the connection for the PostGIS step could be acquired, and the
   * write to Redis succeeded.
   */
  lemma CacheIsWholeCycleOrPrevious(s: Stores, redisConnected: bool, env: CycleEnv, port: Port)
    ensures var c := Cycle(s, redisConnected, env, port).cache;
      c == s.cache ||
      (env.rows.Some? && Emitted(port, env.rows.value, env.now) != [] &&
       c == Some(Snapshot(CACHE_KEY, Emitted(port, env.rows.value, env.now), CACHE_TTL_SECONDS)))
    ensures env.rows.Some? && Emitted(port, env.rows.value, env.now) != [] && redisConnected &&
            env.sink != AcquireFailed && env.cacheSetOk ==>
      Cycle(s, redisConnected, env, port).cache ==
        Some(Snapshot(CACHE_KEY, Emitted(port, env.rows.value, env.now), CACHE_TTL_SECONDS))
    ensures !(env.rows.Some? && Emitted(port, env.rows.value, env.now) != [] && redisConnected &&
              env.sink != AcquireFailed && env.cacheSetOk) ==>
      Cycle(s, redisConnected, env, port).cache == s.cache
  {
  }

  /** A failed PostGIS write leaves the geopoints alone and does not stop the cache write. */
  lemma SinkFailureStillPublishes(s: Stores, env: CycleEnv, port: Port)
    requires env.rows.Some? && env.sink == WriteFailed && env.cacheSetOk
    ensures Cycle(s, true, env, port).geopoint == s.geopoint
    ensures Emitted(port, env.rows.value, env.now) != [] ==>
      Cycle(s, true, env, port).cache == Some(Snapshot(CACHE_KEY, Emitted(port, env.rows.value, env.now), CACHE_TTL_SECONDS))
  {
  }

  /**
   * The batch built from entries with distinct ids puts each entry's (lon, lat)
   * on its row and leaves rows no entry names alone.
   */
  lemma UpdateArgsEffect(geo: map<int, Option<Point>>, data: seq<Entry>)
    requires forall i, j :: 0 <= i < j < |data| ==> data[i].id != data[j].id
    ensures var g := ApplyUpdates(geo, UpdateArgs(data));
      (forall j :: 0 <= j < |data| && data[j].id in geo ==> g[data[j].id] == Some(Point(data[j].longitude, data[j].latitude))) &&
      (forall id :: id in geo && (forall j :: 0 <= j < |data| ==> data[j].id != id) ==> g[id] == geo[id])
  {
    var args := UpdateArgs(data);
    assert forall j :: 0 <= j < |data| ==> args[j] == UpdateArg(data[j].longitude, data[j].latitude, data[j].id);
    ApplyUpdatesEffect(geo, args);
    forall id | id in geo && (forall j :: 0 <= j < |data| ==> data[j].id != id)
      ensures ApplyUpdates(geo, args)[id] == geo[id]
    {
      assert forall k :: 0 <= k < |args| ==> args[k].id != id;
    }
  }

  /**
   * After a cycle whose write succeeds, every emitted object's row holds that
   * object's current (lon, lat); rows of objects not emitted keep their geopoint.
   */
  lemma GeopointsFollowEmitted(s: Stores, redisConnected: bool, env: CycleEnv, port: Port)
    requires env.rows.Some? && env.sink == Written
    requires forall i, j :: 0 <= i < j < |env.rows.value| ==> env.rows.value[i].id != env.rows.value[j].id
    ensures var data := Emitted(port, env.rows.value, env.now);
      var g := Cycle(s, redisConnected, env, port).geopoint;
      g.Keys == s.geopoint.Keys &&
      (forall j :: 0 <= j < |data| && data[j].id in s.geopoint ==> g[data[j].id] == Some(Point(data[j].longitude, data[j].latitude))) &&
      (forall id :: id in s.geopoint && (forall j :: 0 <= j < |data| ==> data[j].id != id) ==> g[id] == s.geopoint[id])
  {
    var data := Emitted(port, env.rows.value, env.now);
    if data != [] {
      EmittedIdsDistinct(port, env.rows.value, env.now);
      UpdateArgsEffect(s.geopoint, data);
    }
  }

  /**
   * Objects A (propagates) and B (does not) in one cycle: only A is emitted,
   * the sink receives A's single tuple, and the cache holds a one-entry list.
   */
  lemma OneGoodOneBad(s: Stores, env: CycleEnv, port: Port, a: Row, b: Row)
    requires env.rows == Some([a, b]) && env.sink == Written && env.cacheSetOk
    requires port.position(a.tle, env.now).Some? && port.position(b.tle, env.now).None?
    ensures var data := Emitted(port, [a, b], env.now);
      |data| == 1 && data[0].id == a.id &&
      UpdateArgs(data) == [UpdateArg(port.position(a.tle, env.now).value.geo.lon, port.position(a.tle, env.now).value.geo.lat, a.id)] &&
      Cycle(s, true, env, port).cache == Some(Snapshot(CACHE_KEY, data, CACHE_TTL_SECONDS))
  {
    assert [a, b][..1] == [a];
    assert [a][..0] == [];
  }

  // ---------------------------------------------------------------------------
  // Properties of the process loop

  /** The number of cycles started minus the number finished, in a prefix of the log. */
  function InFlight(events: seq<Event>): int
  {
    if events == [] then 0
    else
      InFlight(events[..|events| - 1]) +
        match events[|events| - 1]
        case CycleStarted => 1
        case CycleFinished => -1
        case Slept(_) => 0
  }

  /** Counting cycles in flight distributes over concatenation of logs. */
  lemma {:induction false} InFlightAppend(a: seq<Event>, b: seq<Event>)
    ensures InFlight(a + b) == InFlight(a) + InFlight(b)
  {
    if b == [] {
      assert a + b == a;
    } else {
      var b0 := b[..|b| - 1];
      assert (a + b)[..|a + b| - 1] == a + b0;
      InFlightAppend(a, b0);
    }
  }

  /** Cycles never overlap: at every point of the log at most one cycle is in flight, and every finish is followed by a 60 s sleep. */
  lemma {:induction false} OneCycleAtATime(n: nat)
    ensures forall p :: 0 <= p <= |Schedule(n)| ==> 0 <= InFlight(Schedule(n)[..p]) <= 1
    ensures InFlight(Schedule(n)) == 0
    ensures forall i :: 0 <= i < |Schedule(n)| && Schedule(n)[i] == CycleFinished ==>
      i + 1 < |Schedule(n)| && Schedule(n)[i + 1] == Slept(CACHE_TTL_SECONDS)
  {
    if n > 0 {
      OneCycleAtATime(n - 1);
      var prev := Schedule(n - 1);
      var block := [CycleStarted, CycleFinished, Slept(CACHE_TTL_SECONDS)];
      var cur := Schedule(n);
      assert cur == prev + block;
      assert InFlight(block[..1]) == 1 by { assert block[..1][..0] == []; }
      assert InFlight(block[..2]) == 0 by { assert block[..2][..1] == block[..1]; }
      assert InFlight(block) == 0 by { assert block[..2] == block[..3][..2]; assert block[..3] == block; }
      forall p | 0 <= p <= |cur| ensures 0 <= InFlight(cur[..p]) <= 1 {
        if p <= |prev| {
          assert cur[..p] == prev[..p];
        } else {
          assert cur[..p] == prev + block[..p - |prev|];
          InFlightAppend(prev, block[..p - |prev|]);
          assert p - |prev| == 3 ==> block[..p - |prev|] == block;
        }
      }
      InFlightAppend(prev, block);
      forall i | 0 <= i < |cur| && cur[i] == CycleFinished
        ensures i + 1 < |cur| && cur[i + 1] == Slept(CACHE_TTL_SECONDS)
      {
        if i < |prev| {
          assert prev[i] == CycleFinished;
        }
      }
    }
  }
}
