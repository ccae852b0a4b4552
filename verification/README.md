# Satellite Digital Twin: prediction worker and TLE ingestion

This project is a Dafny model of the two back-end programs of the Satellite
Digital Twin.

- **`worker.py`**, the prediction worker. On each cycle it reads the latest
  two-line element set (TLE) of every tracked satellite. For each object it
  computes the current position and a window of ground-track samples. The
  window starts 5 minutes before "now" and reaches 90 minutes ahead, one
  sample every 30 s. It writes every object's current point to the PostGIS
  `geopoint` column and publishes the whole batch to Redis under
  `satellite_positions_v2` with a 60 s time to live. It then sleeps 60 s and
  starts the next cycle.
- **`ingest_tles.py`**, the ingestion script. It fetches the element set of
  each tracked NORAD id from CelesTrak and splits the reply into
  (name, line 1, line 2). It inserts the satellite if it is new, parses the
  epoch from line 1 and appends a TLE row. It commits everything at the end,
  or rolls the whole run back on any exception, a failing SQL statement
  included.

Modules:

- `Propagation` (propagation.dfy): the orbital library as an uninterpreted
  port. It has three partial functions:
  - the current position;
  - whether a satellite object can be built from the element set;
  - the subpoint at one instant.

  Every property below holds for every choice of these functions.
- `Sampler` (sampler.dfy): `compute_future_samples`. It has the sample count
  with Python's floor division, the candidate instants, and the loop as a
  method proved equal to the specification function `FutureSamples`.
- `Worker` (worker.dfy): one cycle of `fetch_and_calculate` and the `main`
  loop.
  - The assembly loop (`Assemble`) and its body (`Place`) are proved against
    `Emitted`, `EntryFor` and `UpdateArgs`.
  - The PostGIS column is a map from satellite id to point, and the Redis
    entry is an optional snapshot.
  - `WorkerProcess` is a class whose methods update those stores and an event
    log, each proved against the `Cycle` and `Schedule` specifications.
- `TleText` (tle_text.dfy): Python's `str.strip` and `str.splitlines` over
  their exact whitespace and line-break sets, and the reply-to-triple rule.
- `TleEpoch` (tle_epoch.dfy): `parse_tle_epoch`.
  - The day of year is kept in fixed point, in units of 1e-8 day (the field's
    resolution), so the dates are exact.
  - The calendar is the proleptic Gregorian one of Python's `datetime`.
- `Ingest` (ingest.dfy): the ingestion transaction.
  - The tables are a map keyed by NORAD id and an append-only TLE sequence.
  - Each reply is first decoded into an outcome: the fetch raised, the reply
    is skipped, or its triple is stored with its epoch's conversion result
    and with how its three SQL statements fare (all succeed, or which one
    raises first).
  - `Database.Ingest` is the cursor loop, proved against the specification
    function `Run`. Its body, `ProcessReply` with `StoreTriple` for the
    statements, is proved against `Step`.
- `Wrappers` (wrappers.dfy): `Option` and `Result`.

Three behaviours of the code that the model follows as written:

- **Positions one at a time.** `asyncio.to_thread` at worker.py:218 only
  creates a coroutine; each position is computed when it is awaited at
  worker.py:222. The objects are therefore handled one at a time, in row
  order, which is what the model's sequential map does.
- **PostGIS setup failure.** The failure message says "continuing without
  PostGIS updates", but nothing is switched off: every cycle still attempts the
  batch update. `WorkerProcess.Run` takes the setup result and ignores it.
- **Acquire failure.** The batch update acquires its connection outside the
  update's own `try` (worker.py:257). A failure to acquire therefore reaches
  the cycle's outer handler, and the Redis write is skipped. A failure of
  `executemany` itself is caught inside, and the cache is still written.

## Model

| member | source | states |
|---|---|---|
| Sampler.FloorDiv | worker.py:105 | `//` rounds toward minus infinity: for a positive divisor q·b ≤ a < q·b + b, and the mirrored bounds for a negative one |
| Sampler.SampleCount | worker.py:104-105 | n = (LOOKBACK + predict) // interval + 1 is the least count whose span passes the horizon: (n-1)·interval ≤ LOOKBACK + predict < n·interval |
| Sampler.DefaultSampleCount | worker.py:12-14 | the constants 300 s look-back, 5400 s horizon and 30 s step give 191 instants |
| Sampler.CandidateSpacing | worker.py:103-110 | the i-th instant is now − 300 + i·interval, and consecutive instants are exactly one interval apart |
| Sampler.CandidatesIncreasing | worker.py:109-110 | with a positive interval the instants strictly increase |
| Sampler.WindowBracketsNow | worker.py:100-110 | when the horizon is at least one interval there are at least two instants, the first is now − 300 ≤ now, and the last is ≥ now and within one interval below now + horizon |
| Sampler.Candidates | worker.py:103-110 | with a positive interval the first instant is now − 300, and the last is at or before now + horizon and within one interval of it |
| Sampler.Survivors | worker.py:109-127 | the kept samples are never more than the candidate instants |
| Sampler.FutureSamples | worker.py:93-127 | a call raises exactly when the interval is zero (the `//` at line 105) or the satellite cannot be built (line 107) |
| Sampler.ComputeFutureSamples | worker.py:93-127 | the loop returns exactly `FutureSamples`: None when the interval is zero or the satellite cannot be built, otherwise the samples of the instants that propagate, in order |
| Sampler.SurvivorsAllSucceed | worker.py:115-122 | when no propagation call fails, every instant yields its own sample, so the length is n |
| Sampler.SurvivorsDropFailures | worker.py:123-125 | one failing instant makes the result strictly shorter than the instants: it is skipped and the loop goes on |
| Sampler.SurvivorsSound | worker.py:115-122 | every kept sample stands at one of the instants and carries the subpoint computed there |
| Sampler.SurvivorsComplete | worker.py:109-122 | every instant whose propagation succeeds has its sample among the kept ones |
| Sampler.SurvivorsOrdered | worker.py:109-127 | strictly increasing instants give strictly increasing sample times |
| Sampler.FutureSamplesShape | worker.py:93-127 | a successful call returns at most n samples (exactly n when nothing fails), in strictly increasing time, each carrying the subpoint computed at its instant, on the grid now − 300 + k·interval with k < n |
| Worker.EntryFor | worker.py:221-246 | an object's entry, when it has one, carries its row's id and NORAD id |
| Worker.Emitted | worker.py:221-246 | the loop over the rows emits at most one entry per row |
| Worker.Place | worker.py:221-253 | one pass of the loop gives exactly the row's `EntryFor` and, beside it, its one (lon, lat, id) tuple, or nothing when the position fails |
| Worker.Assemble | worker.py:216-253 | the loop yields `Emitted`, and beside it `UpdateArgs` of it: exactly one (lon, lat, id) tuple per entry, in the same order, longitude first |
| Worker.EmittedAppend | worker.py:221-246 | the entries of two batches of rows are each batch's entries side by side: one object's failure does not affect another's |
| Worker.EmittedSplit | worker.py:221-246 | row k contributes its own entry between the earlier and the later rows' entries; it contributes one iff its position succeeds, carrying its id, name, NORAD id and its own fix |
| Worker.EntrySamples | worker.py:229-235 | an emitted object's samples are its window, or the empty list when computing them raised |
| Worker.EmittedFromRows | worker.py:221-246 | every entry is the entry of some row whose position succeeded |
| Worker.EmittedAllSucceed | worker.py:216-246 | when every position succeeds, every row is emitted in query order |
| Worker.EmittedIdsDistinct | worker.py:237-240 | distinct row ids give distinct entry ids |
| Worker.ApplyUpdates | worker.py:259-266 | the `UPDATE ... WHERE id = $3` batch creates no rows: the set of ids is unchanged |
| Worker.ApplyUpdatesEffect | worker.py:256-266 | with distinct ids, each named row gets its tuple's point and every other row keeps its geopoint |
| Worker.Cycle | worker.py:185-284 | a cycle never adds or removes a geopoint row; the cache is either left as it was or replaced by a non-empty batch under `satellite_positions_v2` with TTL 60 |
| Worker.NothingEmittedKeepsStores | worker.py:255-284 | a cycle whose query raises, or which emits nothing, leaves both PostGIS and Redis unchanged |
| Worker.CacheIsWholeCycleOrPrevious | worker.py:273-277 | the cache is either the previous payload or the whole non-empty batch under `satellite_positions_v2` with TTL 60; the latter exactly when the query succeeded, something was emitted, Redis is connected, the update connection was acquired and the write succeeded |
| Worker.SinkFailureStillPublishes | worker.py:268-277 | a failed PostGIS write leaves the geopoints alone and the cache is still written |
| Worker.UpdateArgsEffect | worker.py:249-266 | the batch built from entries with distinct ids puts each entry's (lon, lat) on its row and leaves rows no entry names alone |
| Worker.GeopointsFollowEmitted | worker.py:249-266 | after a successful write every emitted object's row holds its current (lon, lat), and rows of objects not emitted keep theirs |
| Worker.OneGoodOneBad | worker.py:221-277 | of two objects where only the first propagates, only the first is emitted, it gets the single update tuple, and the cache holds a one-entry list |
| Worker.Schedule | worker.py:309-311 | each loop iteration contributes three events: start, finish, sleep |
| Worker.WorkerProcess.constructor | worker.py:51-57 | the process starts with the given stores, its Redis connection state and an empty log |
| Worker.WorkerProcess.FetchAndCalculate | worker.py:185-284 | the stores after the method are `Cycle` of the stores before; the log is untouched |
| Worker.WorkerProcess.Run | worker.py:287-311 | the loop is entered iff the pool was created and Redis is connected, whatever the PostGIS setup gave; if not, nothing changes; if so, the stores are the cycles applied in order and the log gains exactly `Schedule` |
| Worker.OneCycleAtATime | worker.py:309-311 | in every prefix of the log at most one cycle is in flight, none is left in flight, and every finish is followed by a 60 s sleep |
| TleText.Strip | ingest_tles.py:63-64 | the stripped text is no longer than the input and neither starts nor ends with whitespace |
| TleText.SplitLines | ingest_tles.py:64 | no resulting line holds a line break |
| TleText.StripKeepsTrimmed | ingest_tles.py:69-71 | text with no surrounding whitespace is left as it is |
| TleText.StripIdempotent | ingest_tles.py:63-71 | stripping twice is stripping once |
| TleText.StripIsSlice | ingest_tles.py:63-64 | the stripped text is a slice of the input with only whitespace cut on both sides |
| TleText.SplitJoin | ingest_tles.py:64 | splitting lines joined with "\n" or "\r\n" gives them back, when none holds a break and the last is non-empty |
| TleText.ParseResponse | ingest_tles.py:63-71 | a reply is rejected as not fetched exactly when its status is not 200 or its text is only whitespace; an accepted triple comes from a status-200 reply and each of its fields is trimmed: no surrounding whitespace and no line break |
| TleText.StripSplitPadded | ingest_tles.py:63-64 | stripping and splitting a reply of lines that each hold text gives one line per line sent, each equal to it up to surrounding whitespace, with one separator, "\n" or "\r\n", throughout, and any whitespace around the reply |
| TleText.ParseWellFormedReply | ingest_tles.py:63-71 | a status-200 reply of three or more lines, each holding text and no break, separated by "\n" or "\r\n" and with any whitespace around the reply, yields its first three lines, each stripped; further lines are ignored |
| TleText.CrlfReply | ingest_tles.py:63-71 | the reply "A \r\nB\r\nC\r\n" yields ("A", "B", "C") |
| TleText.NotFetchedReplies | ingest_tles.py:63 | any status other than 200, or a reply of only whitespace, is rejected as not fetched |
| TleText.ShortReplies | ingest_tles.py:63-68 | a status-200 reply of one or two lines, each holding text, with either separator and any whitespace around it, is rejected as incomplete |
| TleEpoch.Slice | ingest_tles.py:42 | Python slicing clips to the string: the result is at most b − a long, and is `s[a..b]` when the string is long enough |
| TleEpoch.ParseTleEpoch | ingest_tles.py:40-46 | a parsed epoch has a year in 2000..2099 and an instant a `datetime` can hold; a line 1 of 20 characters or fewer, which has no day digits, fails |
| TleEpoch.ParseEpochField | ingest_tles.py:42-46 | a successful parse has two digit characters in front of the day, hence a year in 2000..2099, and an instant a `datetime` can hold |
| TleEpoch.ParseFormatRoundTrip | ingest_tles.py:42-46 | parsing the canonical field "YYDDD.DDDDDDDD" gives back the year and the fixed-point day |
| TleEpoch.ParseLineWithField | ingest_tles.py:42 | only columns 19-32 of line 1 are read: a line carrying a formatted field there parses to that field's epoch |
| TleEpoch.YearDigits57Read2057 | ingest_tles.py:43 | the century is never consulted: year digits 57 read as 2057, not 1957 |
| TleEpoch.DayOneIsNewYear | ingest_tles.py:44-46 | day 1.0 parses and is 1 January 00:00 of its year |
| TleEpoch.LaterDayLaterInstant | ingest_tles.py:44-46 | within one year, a larger day value is a strictly later instant |
| TleEpoch.EpochFits | ingest_tles.py:46 | every 21st-century epoch with a day below 1000 is a date a `datetime` can hold |
| TleEpoch.YearLength | ingest_tles.py:46 | the calendar gives 366 days to a leap year and 365 to any other |
| TleEpoch.EpochWithinYear | ingest_tles.py:46 | a day value from 1 up to the year's length plus one lands in that calendar year |
| TleEpoch.HugeDayOverflows | ingest_tles.py:46 | a day field of three million days or more carries the date past year 9999, and the parse fails with an overflow |
| Ingest.InsertSatellite | ingest_tles.py:75 | `ON CONFLICT DO NOTHING`: the NORAD id is present afterwards; an existing row, name and key included, is kept; a new one gets the next key; no TLE row changes |
| Ingest.InsertSatelliteIdempotent | ingest_tles.py:75-78 | inserting the same NORAD id twice is inserting it once; the first name and key stay |
| Ingest.Decode | ingest_tles.py:61-81 | a reply raises exactly when its fetch raised; a stored reply had status 200 and non-blank text, its three fields are trimmed, and it carries the epoch parsed from its line 1 and the given statement outcomes |
| Ingest.Step | ingest_tles.py:73-89 | an iteration raises exactly when the fetch raised, the epoch did not convert or a statement raised; otherwise it keeps every NORAD id and appends one TLE row when the reply is stored, none when it is skipped |
| Ingest.IngestAll | ingest_tles.py:58-92 | a completed loop keeps every NORAD id and never shortens the TLE table |
| Ingest.Run | ingest_tles.py:48-101 | without a connection, or when the commit fails, the tables are unchanged; no run removes a satellite or shortens the TLE table |
| Ingest.ProcessReply | ingest_tles.py:59-92 | the loop body on the open transaction is `Step` of the decoded reply: unchanged when skipped, satellite inserted and one TLE row appended when stored, None when the fetch raises |
| Ingest.StoreTriple | ingest_tles.py:73-89 | the statements for a parsed triple are `Step` of the stored outcome, taken in the source's order: None when the satellite INSERT raises, then when the key SELECT raises (the satellite already inserted), then when the epoch does not convert, then when the TLE INSERT raises |
| Ingest.Database.Ingest | ingest_tles.py:48-101 | the committed tables after the method are `Run` of those before: the loop's state on commit, the old tables on any failure |
| Ingest.FailureSticks | ingest_tles.py:51-101 | once an iteration raises, the rest of the loop is never reached and the run is rolled back |
| Ingest.CompletesIffNoFailure | ingest_tles.py:58-95 | the loop reaches the commit exactly when no iteration raises |
| Ingest.AnyFailureRollsBack | ingest_tles.py:94-101 | all or nothing: a fetch that raises, or a stored reply whose epoch fails to parse or one of whose SQL statements raises, anywhere in the run leaves the committed tables unchanged |
| Ingest.StepOnlyAppends | ingest_tles.py:63-92 | a skipped reply changes nothing; an accepted one keeps every satellite row, adds its NORAD id (with the next key when new) and appends exactly one TLE row referring to it |
| Ingest.StepKeepsValid | ingest_tles.py:73-88 | one iteration keeps keys distinct and below the next key, and every TLE row's satellite existing |
| Ingest.IngestKeepsValid | ingest_tles.py:58-92 | a completed loop keeps the tables consistent |
| Ingest.IngestOnlyAppends | ingest_tles.py:58-92 | a completed loop keeps every old satellite row; the NORAD ids become the old ones plus those with an accepted reply; the TLE table keeps its old rows as a prefix and gains one row per accepted reply |
| Ingest.StepRowsFor | ingest_tles.py:73-88 | one iteration adds a TLE row to a satellite's count exactly when its reply is accepted; a satellite new in that iteration had none before |
| Ingest.RowsPerSatellite | ingest_tles.py:58-92 | per satellite, a completed loop adds as many TLE rows as there were accepted replies for its NORAD id |
| Ingest.TrackedListRepeats28654 | ingest_tles.py:15-36 | the tracked list has 20 entries and 28654 (AURA and NOAA 18) appears twice |
| Ingest.TrackedRunRows | ingest_tles.py:58-92 | the loop over the tracked list, every reply stored and no iteration raising, completes and gives 28654 two new TLE rows |
| Ingest.DuplicateIdGetsTwoRows | ingest_tles.py:58-95 | a committed run over the tracked list in which every reply is stored, every epoch converts and every statement succeeds gives 28654 one satellite row and two new TLE rows |

## Left out

- Orbital mechanics. The SGP4/Skyfield propagation (worker.py:66-90) is an uninterpreted port. The ±90/±180 latitude and longitude ranges come from the library and are not stated. The unused `compute_realtime_position` (worker.py:27-47) is not modelled.
- Clock reads. The source reads the clock separately for each object's position (worker.py:72) and for each object's window (worker.py:100). The model passes a single "now", in whole seconds, to every object of a cycle. Sub-second instants and the ISO-8601 formatting of sample times are not modelled.
- The database and cache clients, the SQL text, JSON encoding and logging are left out. Only their effect is modelled, as the `Stores` and `Db` values.
- `ensure_postgis` (worker.py:133-179) is left out: it is schema provisioning. Its result enters `WorkerProcess.Run` only as an ignored flag. The model assumes the `geopoint` column exists.
- The latest-TLE-per-satellite query (worker.py:196-211) is not computed. Its result is an input of each cycle.
- The Redis TTL expiry over time is left out. The snapshot records the TTL it was written with.
- The worker's `while True` loop runs forever. The model proves properties of every finite run of cycles.
- Sampler.FutureSamples: does not model the `OverflowError` that worker.py:110 raises, outside the per-sample `try`, once an instant leaves `datetime`'s range (years 1 to 9999). Only windows reaching thousands of years away do that, and the one call site (worker.py:231) passes the constants 5400 and 30. The same holds for `ComputeFutureSamples` and `FutureSamplesShape`.
- The network. CelesTrak replies are inputs: a status and a text, or an exception.
- Postgres sequence consumption. A conflicting insert or a rollback may use up serial values. The model allocates keys only for new rows and rolls the counter back with the run, so exact key values may differ from the database's. Distinctness and references are unaffected.
- A failure inside `cur.close()` or `conn.close()` in the `finally` block (ingest_tles.py:102-107) is not modelled.
- TleEpoch.ParseEpochField: accepts only plain spellings: two ASCII digits, then `digits[.digits]` with at most eight fraction digits. Python's `int` and `float` also accept surrounding whitespace, signs, underscores, exponents, `inf`/`nan`, non-ASCII digits and longer fractions. The model rejects those, while the source may accept them. In the year field, `int("20" + "1 ")` and `int("20" + "_1")` give 201, so the 2000..2099 bound holds only for the two-digit year fields the model accepts.
- TleEpoch.ParseEpochField: keeps the day in units of 1e-8 day. The source goes through a binary float and rounds the `timedelta` to microseconds, so the stored instant may differ by less than a millisecond.
- main.py is not part of this model. It is the HTTP front end that reads the cache.
