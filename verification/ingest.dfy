/**
 * The ingestion run of ingest_tles.py: for each tracked NORAD id, fetch its
 * element set, insert the satellite if it is new, append one TLE row, and at
 * the end commit everything at once; any exception rolls the whole run back.
 * The database is the `satellites` table keyed by NORAD id (with the serial
 * primary key the table assigns) and the append-only `tles` table.
 */
module Ingest {
  import opened Wrappers
  import opened TleText
  import opened TleEpoch

  /** The tracked ids, in fetch order; 28654 is listed twice. */
  const SATELLITE_NORAD_IDS: seq<int> := [
    25544, 20580, 56261, 56252, 56249, 27004, 23549, 43187, 40911, 39427,
    43678, 25994, 27424, 28654, 28017, 40294, 39166, 41019, 25338, 28654]

  /** What `requests.get` gives for one id: a reply (status and text), or an exception. */
  datatype Fetch = Reply(status: int, text: string) | Raised

  /** A `satellites` row: its primary key and its name. */
  datatype Satellite = Satellite(id: int, name: string)

  /** A `tles` row. */
  datatype TleRow = TleRow(satelliteId: int, epoch: Epoch, line1: string, line2: string)

  /** The two tables, with satellites keyed by `norad_cat_id`, and the next serial key. */
  datatype Db = Db(satellites: map<int, Satellite>, tles: seq<TleRow>, nextId: int)

  /** The primary keys in use. */
  function SatelliteIds(db: Db): set<int>
  {
    set n | n in db.satellites :: db.satellites[n].id
  }

  /**
   * The tables are consistent: keys are below the next serial value and
   * distinct, and every TLE row refers to an existing satellite.
   */
  predicate Valid(db: Db)
  {
    (forall n :: n in db.satellites ==> db.satellites[n].id < db.nextId) &&
    (forall n, m :: n in db.satellites && m in db.satellites && n != m ==> db.satellites[n].id != db.satellites[m].id) &&
    (forall k :: 0 <= k < |db.tles| ==> db.tles[k].satelliteId in SatelliteIds(db))
  }

  /** `INSERT ... ON CONFLICT (norad_cat_id) DO NOTHING`: an existing row, name included, is kept. */
  function InsertSatellite(db: Db, norad: int, name: string): (r: Db)
    ensures r.satellites.Keys == db.satellites.Keys + {norad} && r.tles == db.tles
    ensures forall n :: n in db.satellites ==> r.satellites[n] == db.satellites[n]
    ensures norad !in db.satellites ==> r.satellites[norad] == Satellite(db.nextId, name) && r.nextId == db.nextId + 1
    ensures norad in db.satellites ==> r == db
  {
    if norad in db.satellites then db
    else Db(db.satellites[norad := Satellite(db.nextId, name)], db.tles, db.nextId + 1)
  }

  /**
   * How the statements of one stored reply fare on the open transaction: all
   * succeed, or the first to raise is the satellite INSERT, the key SELECT or
   * the TLE INSERT.
   */
  datatype SqlFault = NoFault | SatelliteInsertRaises | LookupRaises | TleInsertRaises

  /**
   * What one reply amounts to for the loop: the fetch raises; the reply is
   * skipped (not fetched, or incomplete); or its triple is stored, together
   * with the result of converting its epoch and how its statements fare.
   */
  datatype Outcome =
    | Raises
    | Skipped
    | Store(name: string, line1: string, line2: string, epoch: Result<Epoch, EpochError>, fault: SqlFault)

  /**
   * The reply handling of the loop body, before anything is written: only a
   * fetched reply is stored, its three lines are trimmed, and its epoch is the
   * one line 1 carries.
   */
  function Decode(f: Fetch, fault: SqlFault): (o: Outcome)
    ensures o.Raises? <==> f.Raised?
    ensures o.Store? ==> f.Reply? && f.status == 200 && !AllSpace(f.text)
    ensures o.Store? ==> Trimmed(o.name) && Trimmed(o.line1) && Trimmed(o.line2)
    ensures o.Store? ==> o.epoch == ParseTleEpoch(o.line1) && o.fault == fault
  {
    match f
    case Raised => Raises
    case Reply(status, text) =>
      match ParseResponse(status, text)
      case Failure(_) => Skipped
      case Success(t) => Store(t.name, t.line1, t.line2, ParseTleEpoch(t.line1), fault)
  }

  /** The outcomes of a run's replies, in fetch order. */
  function Decoded(fetches: seq<Fetch>, faults: seq<SqlFault>): (os: seq<Outcome>)
    requires |faults| == |fetches|
    ensures |os| == |fetches|
  {
    seq(|fetches|, k requires 0 <= k < |fetches| => Decode(fetches[k], faults[k]))
  }

  /** Whether the iteration raises: the fetch raised, or a stored reply's epoch did not convert or a statement raised. */
  predicate Fails(o: Outcome)
  {
    o.Raises? || (o.Store? && (o.epoch.Failure? || o.fault != NoFault))
  }

  /**
   * One iteration of the loop over the ids; None when it raises. An iteration
   * that goes through appends one TLE row exactly when the reply is stored,
   * and never drops a satellite.
   */
  function Step(db: Db, norad: int, o: Outcome): (r: Option<Db>)
    ensures r.None? <==> Fails(o)
    ensures r.Some? ==> db.satellites.Keys <= r.value.satellites.Keys
    ensures r.Some? ==> |r.value.tles| == |db.tles| + (if o.Store? then 1 else 0)
  {
    match o
    case Raises => None
    case Skipped => Some(db)
    case Store(name, line1, line2, epoch, fault) =>
      if fault != NoFault || epoch.Failure? then None
      else
        var db1 := InsertSatellite(db, norad, name);
        Some(db1.(tles := db1.tles + [TleRow(db1.satellites[norad].id, epoch.value, line1, line2)]))
  }

  /** The open transaction after the loop over `ids`; None when an iteration raised. */
  function IngestAll(db: Db, ids: seq<int>, outcomes: seq<Outcome>): (r: Option<Db>)
    requires |outcomes| == |ids|
    ensures r.Some? ==> db.satellites.Keys <= r.value.satellites.Keys && |db.tles| <= |r.value.tles|
  {
    if ids == [] then Some(db)
    else
      match IngestAll(db, ids[..|ids| - 1], outcomes[..|ids| - 1])
      case None => None
      case Some(d) => Step(d, ids[|ids| - 1], outcomes[|ids| - 1])
  }

  /**
   * The committed tables after a run: the new state on commit, the old one on
   * any exception. Without a connection or a commit nothing changes, and no
   * run removes a satellite or shortens the TLE table.
   */
  function Run(db: Db, connected: bool, ids: seq<int>, fetches: seq<Fetch>, faults: seq<SqlFault>, commitOk: bool): (r: Db)
    requires |fetches| == |ids| && |faults| == |ids|
    ensures !connected || !commitOk ==> r == db
    ensures db.satellites.Keys <= r.satellites.Keys && |db.tles| <= |r.tles|
  {
    if !connected then db
    else
      match IngestAll(db, ids, Decoded(fetches, faults))
      case None => db
      case Some(d) => if commitOk then d else db
  }

  /**
   * The loop body for one id, on the open transaction, in the order of the
   * source: skip the reply, or store its triple; None as soon as something raises.
   */
  method ProcessReply(pending: Db, norad: int, f: Fetch, fault: SqlFault) returns (next: Option<Db>)
    ensures next == Step(pending, norad, Decode(f, fault))
  {
    if f.Raised? {
      return None;
    }
    var parsed := ParseResponse(f.status, f.text);
    if parsed.Failure? {
      assert Decode(f, fault) == Skipped;
      return Some(pending);
    }
    var t := parsed.value;
    assert Decode(f, fault) == Store(t.name, t.line1, t.line2, ParseTleEpoch(t.line1), fault);
    next := StoreTriple(pending, norad, t, fault);
  }

  /**
   * The statements for one parsed triple: insert the satellite, look up its
   * key, convert the epoch and append the TLE row; None as soon as one raises.
   */
  method StoreTriple(pending: Db, norad: int, t: TleTriple, fault: SqlFault) returns (next: Option<Db>)
    ensures next == Step(pending, norad, Store(t.name, t.line1, t.line2, ParseTleEpoch(t.line1), fault))
  {
    if fault == SatelliteInsertRaises {
      return None;
    }
    var db := pending;
    if norad !in db.satellites {
      db := db.(satellites := db.satellites[norad := Satellite(db.nextId, t.name)], nextId := db.nextId + 1);
    }
    assert db == InsertSatellite(pending, norad, t.name);
    if fault == LookupRaises {
      return None;
    }
    var satelliteId := db.satellites[norad].id;
    var epoch := ParseTleEpoch(t.line1);
    if epoch.Failure? {
      return None;
    }
    if fault == TleInsertRaises {
      return None;
    }
    next := Some(db.(tles := db.tles + [TleRow(satelliteId, epoch.value, t.line1, t.line2)]));
  }

  /** The database server, holding the committed tables. */
  class Database {
    var satellites: map<int, Satellite>
    var tles: seq<TleRow>
    var nextId: int

    function State(): Db
      reads this
    {
      Db(satellites, tles, nextId)
    }

    constructor (db: Db)
      ensures State() == db
    {
      satellites, tles, nextId := db.satellites, db.tles, db.nextId;
    }

    /**
     * `main`: connect, run the loop inside one transaction, and commit; a
     * failed connection, an exception in the loop or a failed commit leaves
     * the committed tables as they were.
     */
    method Ingest(connected: bool, ids: seq<int>, fetches: seq<Fetch>, faults: seq<SqlFault>, commitOk: bool)
      requires |fetches| == |ids| && |faults| == |ids|
      modifies this
      ensures State() == Run(old(State()), connected, ids, fetches, faults, commitOk)
    {
      if !connected {
        return;
      }
      ghost var outcomes := Decoded(fetches, faults);
      var pending := State();
      var k := 0;
      while k < |ids|
        invariant 0 <= k <= |ids|
        invariant IngestAll(old(State()), ids[..k], outcomes[..k]) == Some(pending)
        invariant State() == old(State())
      {
        IngestAllStep(old(State()), ids, outcomes, k);
        assert outcomes[k] == Decode(fetches[k], faults[k]);
        var next := ProcessReply(pending, ids[k], fetches[k], faults[k]);
        if next.None? {
          FailureSticks(old(State()), ids, outcomes, k + 1);
          return;
        }
        pending := next.value;
        k := k + 1;
      }
      assert ids[..k] == ids && outcomes[..k] == outcomes;
      if commitOk {
        satellites, tles, nextId := pending.satellites, pending.tles, pending.nextId;
      }
    }
  }

  // ---------------------------------------------------------------------------
  // Counting

  /** How many of the outcomes are accepted. */
  function AcceptedTotal(outcomes: seq<Outcome>): nat
  {
    if outcomes == [] then 0
    else AcceptedTotal(outcomes[..|outcomes| - 1]) + if outcomes[|outcomes| - 1].Store? then 1 else 0
  }

  /** The NORAD ids that have at least one accepted reply. */
  function AcceptedIds(ids: seq<int>, outcomes: seq<Outcome>): set<int>
    requires |outcomes| == |ids|
  {
    if ids == [] then {}
    else AcceptedIds(ids[..|ids| - 1], outcomes[..|ids| - 1]) + if outcomes[|ids| - 1].Store? then {ids[|ids| - 1]} else {}
  }

  /** How many accepted outcomes belong to NORAD id x. */
  function AcceptedFor(ids: seq<int>, outcomes: seq<Outcome>, x: int): nat
    requires |outcomes| == |ids|
  {
    if ids == [] then 0
    else
      AcceptedFor(ids[..|ids| - 1], outcomes[..|ids| - 1], x) +
        if ids[|ids| - 1] == x && outcomes[|ids| - 1].Store? then 1 else 0
  }

  /** How many TLE rows refer to satellite key `sid`. */
  function CountRows(rows: seq<TleRow>, sid: int): nat
  {
    if rows == [] then 0
    else CountRows(rows[..|rows| - 1], sid) + if rows[|rows| - 1].satelliteId == sid then 1 else 0
  }

  /** How many times x occurs in ids. */
  function Occurrences(ids: seq<int>, x: int): nat
  {
    if ids == [] then 0 else Occurrences(ids[..|ids| - 1], x) + if ids[|ids| - 1] == x then 1 else 0
  }

  // ---------------------------------------------------------------------------
  // Properties

  /** Inserting a satellite twice is inserting it once: the first name and key stay. */
  lemma InsertSatelliteIdempotent(db: Db, norad: int, name: string, name2: string)
    ensures InsertSatellite(InsertSatellite(db, norad, name), norad, name2) == InsertSatellite(db, norad, name)
  {
  }

  lemma IngestAllStep(db: Db, ids: seq<int>, outcomes: seq<Outcome>, k: nat)
    requires |outcomes| == |ids| && k < |ids|
    ensures IngestAll(db, ids[..k + 1], outcomes[..k + 1]) ==
      match IngestAll(db, ids[..k], outcomes[..k])
      case None => None
      case Some(d) => Step(d, ids[k], outcomes[k])
  {
    assert ids[..k + 1][..k] == ids[..k] && outcomes[..k + 1][..k] == outcomes[..k];
  }

  /** Once an iteration raises, the rest of the loop is never reached and the run is rolled back. */
  lemma {:induction false} FailureSticks(db: Db, ids: seq<int>, outcomes: seq<Outcome>, k: nat)
    requires |outcomes| == |ids| && k <= |ids|
    requires IngestAll(db, ids[..k], outcomes[..k]).None?
    ensures IngestAll(db, ids, outcomes).None?
  {
    if k < |ids| {
      var n := |ids| - 1;
      assert ids[..n][..k] == ids[..k] && outcomes[..n][..k] == outcomes[..k];
      FailureSticks(db, ids[..n], outcomes[..n], k);
    } else {
      assert ids[..k] == ids && outcomes[..k] == outcomes;
    }
  }

  /**
   * A loop completes exactly when no iteration raises: a failing outcome
   * anywhere aborts it, and without one every iteration goes through.
   */
  lemma {:induction false} CompletesIffNoFailure(db: Db, ids: seq<int>, outcomes: seq<Outcome>)
    requires |outcomes| == |ids|
    ensures IngestAll(db, ids, outcomes).Some? <==> forall k :: 0 <= k < |outcomes| ==> !Fails(outcomes[k])
  {
    if ids != [] {
      var n := |ids| - 1;
      CompletesIffNoFailure(db, ids[..n], outcomes[..n]);
      if IngestAll(db, ids, outcomes).Some? {
        forall k | 0 <= k < |outcomes| ensures !Fails(outcomes[k]) {
          if k < n {
            assert outcomes[..n][k] == outcomes[k];
          }
        }
      } else if IngestAll(db, ids[..n], outcomes[..n]).None? {
        var k :| 0 <= k < n && Fails(outcomes[..n][k]);
        assert outcomes[k] == outcomes[..n][k];
      }
    }
  }

  /**
   * All or nothing: a fetch that raises, or a stored reply whose epoch does not
   * convert or one of whose statements raises, anywhere in the run leaves the
   * committed tables unchanged.
   */
  lemma AnyFailureRollsBack(db: Db, connected: bool, ids: seq<int>, fetches: seq<Fetch>, faults: seq<SqlFault>, commitOk: bool, k: nat)
    requires |fetches| == |ids| && |faults| == |ids| && k < |ids|
    requires Fails(Decode(fetches[k], faults[k]))
    ensures Run(db, connected, ids, fetches, faults, commitOk) == db
  {
    var outcomes := Decoded(fetches, faults);
    assert Fails(outcomes[k]);
    CompletesIffNoFailure(db, ids, outcomes);
  }

  /**
   * One iteration that does not raise: a skipped reply changes nothing; an
   * accepted one keeps every existing satellite row, adds its NORAD id (with
   * the next key when new) and appends exactly one TLE row that refers to it.
   */
  lemma StepOnlyAppends(db: Db, norad: int, o: Outcome)
    requires Step(db, norad, o).Some?
    ensures var d := Step(db, norad, o).value;
      (!o.Store? ==> d == db) &&
      (o.Store? ==>
        (forall n :: n in db.satellites ==> d.satellites[n] == db.satellites[n]) &&
        d.satellites.Keys == db.satellites.Keys + {norad} &&
        (norad !in db.satellites ==> d.satellites[norad].id == db.nextId && d.nextId == db.nextId + 1) &&
        (norad in db.satellites ==> d.nextId == db.nextId) &&
        |d.tles| == |db.tles| + 1 && d.tles[..|db.tles|] == db.tles &&
        d.tles[|db.tles|].satelliteId == d.satellites[norad].id)
  {
    if o.Store? {
      var d := Step(db, norad, o).value;
      assert d.tles[..|db.tles|] == db.tles;
    }
  }

  /** One iteration keeps the tables consistent. */
  lemma StepKeepsValid(db: Db, norad: int, o: Outcome)
    requires Valid(db) && Step(db, norad, o).Some?
    ensures Valid(Step(db, norad, o).value)
  {
    if o.Store? {
      var db1 := InsertSatellite(db, norad, o.name);
      assert SatelliteIds(db) <= SatelliteIds(db1) by {
        forall sid | sid in SatelliteIds(db) ensures sid in SatelliteIds(db1) {
          var n :| n in db.satellites && db.satellites[n].id == sid;
          assert db1.satellites[n].id == sid;
        }
      }
      assert db1.satellites[norad].id in SatelliteIds(db1);
    }
  }

  /** A run that completes keeps the tables consistent. */
  lemma {:induction false} IngestKeepsValid(db: Db, ids: seq<int>, outcomes: seq<Outcome>)
    requires |outcomes| == |ids| && Valid(db) && IngestAll(db, ids, outcomes).Some?
    ensures Valid(IngestAll(db, ids, outcomes).value)
  {
    if ids != [] {
      var n := |ids| - 1;
      IngestKeepsValid(db, ids[..n], outcomes[..n]);
      StepKeepsValid(IngestAll(db, ids[..n], outcomes[..n]).value, ids[n], outcomes[n]);
    }
  }

  /**
   * A run that completes only adds: existing satellite rows are kept as they
   * were, the satellites are the old ones plus the ids of accepted replies,
   * and the TLE table keeps its old rows and gains one row per accepted reply.
   */
  lemma {:induction false} IngestOnlyAppends(db: Db, ids: seq<int>, outcomes: seq<Outcome>)
    requires |outcomes| == |ids| && IngestAll(db, ids, outcomes).Some?
    ensures var d := IngestAll(db, ids, outcomes).value;
      (forall n :: n in db.satellites ==> n in d.satellites && d.satellites[n] == db.satellites[n]) &&
      d.satellites.Keys == db.satellites.Keys + AcceptedIds(ids, outcomes) &&
      |d.tles| == |db.tles| + AcceptedTotal(outcomes) &&
      d.tles[..|db.tles|] == db.tles
  {
    if ids != [] {
      var n := |ids| - 1;
      IngestOnlyAppends(db, ids[..n], outcomes[..n]);
      var d0 := IngestAll(db, ids[..n], outcomes[..n]).value;
      StepOnlyAppends(d0, ids[n], outcomes[n]);
      assert outcomes[..|outcomes| - 1] == outcomes[..n];
      var d := IngestAll(db, ids, outcomes).value;
      if outcomes[n].Store? {
        assert d.tles[..|db.tles|] == d.tles[..|d0.tles|][..|db.tles|];
      }
    }
  }

  /** An id has an accepted reply exactly when its accepted count is positive. */
  lemma {:induction false} AcceptedIdsCounted(ids: seq<int>, outcomes: seq<Outcome>, x: int)
    requires |outcomes| == |ids|
    ensures x in AcceptedIds(ids, outcomes) <==> AcceptedFor(ids, outcomes, x) > 0
  {
    if ids != [] {
      AcceptedIdsCounted(ids[..|ids| - 1], outcomes[..|ids| - 1], x);
    }
  }

  lemma {:induction false} CountRowsAppend(a: seq<TleRow>, b: seq<TleRow>, sid: int)
    ensures CountRows(a + b, sid) == CountRows(a, sid) + CountRows(b, sid)
  {
    if b == [] {
      assert a + b == a;
    } else {
      var b0 := b[..|b| - 1];
      assert (a + b)[..|a + b| - 1] == a + b0;
      assert (a + b)[|a + b| - 1] == b[|b| - 1];
      CountRowsAppend(a, b0, sid);
    }
  }

  lemma {:induction false} CountRowsAbsent(rows: seq<TleRow>, sid: int)
    requires forall k :: 0 <= k < |rows| ==> rows[k].satelliteId != sid
    ensures CountRows(rows, sid) == 0
  {
    if rows != [] {
      CountRowsAbsent(rows[..|rows| - 1], sid);
    }
  }

  /**
   * One iteration's effect on one satellite's count of new TLE rows: it adds
   * one exactly when the reply is accepted and is for that satellite; a
   * satellite that is new in this iteration had none before.
   */
  lemma StepRowsFor(base: nat, d0: Db, norad: int, o: Outcome, x: int)
    requires Valid(d0) && base <= |d0.tles| && Step(d0, norad, o).Some?
    requires x in Step(d0, norad, o).value.satellites
    ensures var d := Step(d0, norad, o).value;
      base <= |d.tles| &&
      CountRows(d.tles[base..], d.satellites[x].id) ==
        (if x in d0.satellites then CountRows(d0.tles[base..], d0.satellites[x].id) else 0) +
        (if norad == x && o.Store? then 1 else 0)
  {
    var d := Step(d0, norad, o).value;
    StepOnlyAppends(d0, norad, o);
    StepKeepsValid(d0, norad, o);
    if o.Store? {
      AppendedRowFor(base, d0, d, norad, x);
    } else if x !in d0.satellites {
      assert false;
    }
  }

  /** The counting step of `StepRowsFor`, over the facts `StepOnlyAppends` gives. */
  lemma AppendedRowFor(base: nat, d0: Db, d: Db, norad: int, x: int)
    requires Valid(d0) && Valid(d) && base <= |d0.tles| && x in d.satellites
    requires d.satellites.Keys == d0.satellites.Keys + {norad}
    requires forall n :: n in d0.satellites ==> d.satellites[n] == d0.satellites[n]
    requires norad !in d0.satellites ==> d.satellites[norad].id == d0.nextId
    requires |d.tles| == |d0.tles| + 1 && d.tles[..|d0.tles|] == d0.tles
    requires d.tles[|d0.tles|].satelliteId == d.satellites[norad].id
    ensures CountRows(d.tles[base..], d.satellites[x].id) ==
        (if x in d0.satellites then CountRows(d0.tles[base..], d0.satellites[x].id) else 0) +
        (if norad == x then 1 else 0)
  {
    var before := d0.tles[base..];
    var sid := d.satellites[x].id;
    var row := d.tles[|d0.tles|];
    assert d.tles == d0.tles + [row];
    assert d.tles[base..] == before + [row];
    CountRowsAppend(before, [row], sid);
    assert [row][..0] == [];
    if norad != x {
      assert row.satelliteId != sid;
    }
    if x !in d0.satellites {
      forall k | 0 <= k < |before| ensures before[k].satelliteId != sid {
        assert before[k] == d0.tles[base + k];
        assert d0.tles[base + k].satelliteId in SatelliteIds(d0);
      }
      CountRowsAbsent(before, sid);
    }
  }

  /**
   * Per satellite, a completed run adds as many TLE rows as there were accepted
   * replies for its NORAD id, while its satellite row is inserted at most once.
   */
  lemma {:induction false} RowsPerSatellite(db: Db, ids: seq<int>, outcomes: seq<Outcome>, x: int)
    requires |outcomes| == |ids| && Valid(db) && IngestAll(db, ids, outcomes).Some?
    requires x in IngestAll(db, ids, outcomes).value.satellites
    ensures var d := IngestAll(db, ids, outcomes).value;
      |d.tles| >= |db.tles| &&
      CountRows(d.tles[|db.tles|..], d.satellites[x].id) == AcceptedFor(ids, outcomes, x)
  {
    var d := IngestAll(db, ids, outcomes).value;
    IngestOnlyAppends(db, ids, outcomes);
    if ids == [] {
      assert d.tles[|db.tles|..] == [];
    } else {
      var n := |ids| - 1;
      var init, finit := ids[..n], outcomes[..n];
      var d0 := IngestAll(db, init, finit).value;
      IngestOnlyAppends(db, init, finit);
      IngestKeepsValid(db, init, finit);
      StepRowsFor(|db.tles|, d0, ids[n], outcomes[n], x);
      if x in d0.satellites {
        RowsPerSatellite(db, init, finit, x);
      } else {
        AcceptedIdsCounted(init, finit, x);
      }
    }
  }

  /** AURA and NOAA 18 share NORAD id 28654 in the tracked list. */
  lemma TrackedListRepeats28654()
    ensures Occurrences(SATELLITE_NORAD_IDS, 28654) == 2
    ensures |SATELLITE_NORAD_IDS| == 20
  {
    var ids := SATELLITE_NORAD_IDS;
    assert ids[..19][..18] == ids[..18];
    assert Occurrences(ids[..18], 28654) == 1 by { OccurrencesPrefix(ids, 18); }
  }

  /** Occurrences in a prefix, unrolled one element at a time down to the empty prefix. */
  lemma {:induction false} OccurrencesPrefix(ids: seq<int>, k: nat)
    requires ids == SATELLITE_NORAD_IDS && 14 <= k <= 19
    ensures Occurrences(ids[..k], 28654) == 1
  {
    if k > 14 {
      assert ids[..k][..k - 1] == ids[..k - 1];
      OccurrencesPrefix(ids, k - 1);
    } else {
      assert ids[..14][..13] == ids[..13];
      OccurrencesZero(ids, 13);
    }
  }

  lemma {:induction false} OccurrencesZero(ids: seq<int>, k: nat)
    requires ids == SATELLITE_NORAD_IDS && k <= 13
    ensures Occurrences(ids[..k], 28654) == 0
  {
    if k > 0 {
      assert ids[..k][..k - 1] == ids[..k - 1];
      OccurrencesZero(ids, k - 1);
    }
  }

  /** When every reply is accepted, each id's accepted count is its number of occurrences. */
  lemma {:induction false} AllAcceptedFor(ids: seq<int>, outcomes: seq<Outcome>, x: int)
    requires |outcomes| == |ids| && forall k :: 0 <= k < |outcomes| ==> outcomes[k].Store?
    ensures AcceptedFor(ids, outcomes, x) == Occurrences(ids, x)
  {
    if ids != [] {
      AllAcceptedFor(ids[..|ids| - 1], outcomes[..|ids| - 1], x);
    }
  }

  /** The loop over the tracked list, every reply stored and no iteration raising, gives 28654 two TLE rows. */
  lemma TrackedRunRows(db: Db, outcomes: seq<Outcome>)
    requires Valid(db) && |outcomes| == |SATELLITE_NORAD_IDS|
    requires forall k :: 0 <= k < |outcomes| ==> outcomes[k].Store? && !Fails(outcomes[k])
    ensures IngestAll(db, SATELLITE_NORAD_IDS, outcomes).Some?
    ensures var d := IngestAll(db, SATELLITE_NORAD_IDS, outcomes).value;
      28654 in d.satellites && |d.tles| >= |db.tles| &&
      CountRows(d.tles[|db.tles|..], d.satellites[28654].id) == 2
  {
    var ids := SATELLITE_NORAD_IDS;
    CompletesIffNoFailure(db, ids, outcomes);
    TrackedListRepeats28654();
    AllAcceptedFor(ids, outcomes, 28654);
    AcceptedIdsCounted(ids, outcomes, 28654);
    IngestOnlyAppends(db, ids, outcomes);
    RowsPerSatellite(db, ids, outcomes, 28654);
  }

  /**
   * A committed run over the tracked list in which every reply is stored,
   * every epoch converts and every statement succeeds gives 28654 one
   * satellite row and two new TLE rows.
   */
  lemma DuplicateIdGetsTwoRows(db: Db, fetches: seq<Fetch>, faults: seq<SqlFault>)
    requires Valid(db) && |fetches| == |SATELLITE_NORAD_IDS| && |faults| == |SATELLITE_NORAD_IDS|
    requires forall k :: 0 <= k < |fetches| ==> Decode(fetches[k], faults[k]).Store? && !Fails(Decode(fetches[k], faults[k]))
    ensures var d := Run(db, true, SATELLITE_NORAD_IDS, fetches, faults, true);
      28654 in d.satellites && |d.tles| >= |db.tles| &&
      CountRows(d.tles[|db.tles|..], d.satellites[28654].id) == 2
  {
    var outcomes := Decoded(fetches, faults);
    DecodedAllStored(fetches, faults);
    TrackedRunRows(db, outcomes);
  }

  lemma DecodedAllStored(fetches: seq<Fetch>, faults: seq<SqlFault>)
    requires |faults| == |fetches|
    requires forall k :: 0 <= k < |fetches| ==> Decode(fetches[k], faults[k]).Store? && !Fails(Decode(fetches[k], faults[k]))
    ensures var os := Decoded(fetches, faults); forall k :: 0 <= k < |os| ==> os[k].Store? && !Fails(os[k])
  {
    var os := Decoded(fetches, faults);
    forall k | 0 <= k < |os| ensures os[k].Store? && !Fails(os[k]) {
      assert os[k] == Decode(fetches[k], faults[k]);
    }
  }
}
