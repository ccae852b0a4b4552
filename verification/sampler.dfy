/**
 * The prediction window of one object (`compute_future_samples` in worker.py):
 * n candidate instants spaced `interval` seconds apart, starting LOOKBACK_SECONDS
 * before "now"; an instant whose propagation raises is dropped and the loop goes on.
 */
module Sampler {
  import opened Wrappers
  import opened Propagation

  const PREDICT_SECONDS: int := 90 * 60
  const LOOKBACK_SECONDS: int := 5 * 60
  const SAMPLE_INTERVAL: int := 30

  /** One prediction sample: its instant (seconds) and the subpoint there. */
  datatype Sample = Sample(t: int, geo: Geo)

  /** Python's floor division `a // b`, which rounds toward minus infinity. */
  function FloorDiv(a: int, b: int): (q: int)
    requires b != 0
    ensures b > 0 ==> q * b <= a < q * b + b
    ensures b < 0 ==> q * b + b < a <= q * b
  {
    if b > 0 then a / b else (-a) / (-b)
  }

  /** The number of candidate instants, `n` in the source. */
  function SampleCount(predictSeconds: int, interval: int): (n: int)
    requires interval != 0
    ensures interval > 0 ==> (n - 1) * interval <= LOOKBACK_SECONDS + predictSeconds < n * interval
  {
    FloorDiv(LOOKBACK_SECONDS + predictSeconds, interval) + 1
  }

  /** The instants the loop visits: `range(n)` is empty when n <= 0. */
  function Candidates(now: int, predictSeconds: int, interval: int): (c: seq<int>)
    requires interval != 0
    ensures interval > 0 && c != [] ==> c[0] == now - LOOKBACK_SECONDS
    ensures interval > 0 && c != [] ==> c[|c| - 1] <= now + predictSeconds < c[|c| - 1] + interval
  {
    var n := SampleCount(predictSeconds, interval);
    assert n * interval == (n - 1) * interval + interval;
    seq(if n > 0 then n else 0, i => now - LOOKBACK_SECONDS + i * interval)
  }

  /** What one loop iteration appends: the sample at `t`, or nothing when propagation raises. */
  function SampleAt(port: Port, tle: Tle, t: int): seq<Sample>
  {
    match port.subpoint(tle, t)
    case Some(g) => [Sample(t, g)]
    case None => []
  }

  /** The samples kept from `instants`, in order: an instant whose subpoint fails is skipped. */
  function Survivors(port: Port, tle: Tle, instants: seq<int>): (r: seq<Sample>)
    ensures |r| <= |instants|
  {
    if instants == [] then []
    else
      Survivors(port, tle, instants[..|instants| - 1]) + SampleAt(port, tle, instants[|instants| - 1])
  }

  /**
   * What a call returns, or None when it raises: `//` by a zero interval raises
   * at line 105 and constructing the satellite can raise at line 107.
   */
  function FutureSamples(port: Port, tle: Tle, now: int, predictSeconds: int, interval: int): (r: Option<seq<Sample>>)
    ensures r.None? <==> interval == 0 || !port.loads(tle)
  {
    if interval == 0 || !port.loads(tle) then None
    else Some(Survivors(port, tle, Candidates(now, predictSeconds, interval)))
  }

  /** `compute_future_samples`, with "now" passed in. */
  method ComputeFutureSamples(port: Port, tle: Tle, now: int, predictSeconds: int, interval: int)
    returns (r: Option<seq<Sample>>)
    ensures r == FutureSamples(port, tle, now, predictSeconds, interval)
  {
    if interval == 0 {
      return None;
    }
    var start := now - LOOKBACK_SECONDS;
    var n := SampleCount(predictSeconds, interval);
    if !port.loads(tle) {
      return None;
    }
    ghost var candidates := Candidates(now, predictSeconds, interval);
    var samples: seq<Sample> := [];
    var i := 0;
    while i < n
      invariant n > 0 ==> i <= n
      invariant n <= 0 ==> i == 0
      invariant samples == Survivors(port, tle, candidates[..i])
    {
      var t := start + i * interval;
      assert candidates[..i + 1][..i] == candidates[..i];
      assert candidates[..i + 1][i] == t;
      match port.subpoint(tle, t) {
        case Some(g) => samples := samples + [Sample(t, g)];
        case None =>
      }
      assert samples == Survivors(port, tle, candidates[..i]) + SampleAt(port, tle, t);
      i := i + 1;
    }
    assert candidates[..i] == candidates;
    r := Some(samples);
  }

  // ---------------------------------------------------------------------------
  // Properties of the window

  /** The default constants give 191 instants. */
  lemma DefaultSampleCount()
    ensures SampleCount(PREDICT_SECONDS, SAMPLE_INTERVAL) == 191
    ensures |Candidates(0, PREDICT_SECONDS, SAMPLE_INTERVAL)| == 191
  {
  }

  /** The i-th instant is `now - LOOKBACK_SECONDS + i*interval`; consecutive ones are `interval` apart. */
  lemma CandidateSpacing(now: int, predictSeconds: int, interval: int, i: nat)
    requires interval > 0
    requires i + 1 < |Candidates(now, predictSeconds, interval)|
    ensures Candidates(now, predictSeconds, interval)[i] == now - LOOKBACK_SECONDS + i * interval
    ensures Candidates(now, predictSeconds, interval)[i + 1] == Candidates(now, predictSeconds, interval)[i] + interval
    ensures Candidates(now, predictSeconds, interval)[i] < Candidates(now, predictSeconds, interval)[i + 1]
  {
  }

  /** Candidate instants strictly increase whenever the interval is positive. */
  lemma CandidatesIncreasing(now: int, predictSeconds: int, interval: int)
    requires interval > 0
    ensures var c := Candidates(now, predictSeconds, interval);
      forall i, j :: 0 <= i < j < |c| ==> c[i] < c[j]
  {
    var c := Candidates(now, predictSeconds, interval);
    forall i, j | 0 <= i < j < |c| ensures c[i] < c[j] {
      assert c[i] == now - LOOKBACK_SECONDS + i * interval;
      assert c[j] == now - LOOKBACK_SECONDS + j * interval;
      MulStrict(i, j, interval);
    }
  }

  lemma MulStrict(i: int, j: int, d: int)
    requires i < j && d > 0
    ensures i * d < j * d
  {
    assert j * d == i * d + (j - i) * d;
  }

  /**
   * When the horizon is at least one interval, the window starts at or before
   * "now" and its last instant lies at or after "now", within one interval of
   * the horizon.
   */
  lemma {:induction false} WindowBracketsNow(now: int, predictSeconds: int, interval: int)
    requires 0 < interval <= predictSeconds
    ensures var c := Candidates(now, predictSeconds, interval);
      |c| >= 2 &&
      c[0] == now - LOOKBACK_SECONDS && c[0] <= now &&
      now <= c[|c| - 1] &&
      now + predictSeconds - interval < c[|c| - 1] <= now + predictSeconds
  {
    var n := SampleCount(predictSeconds, interval);
    assert (n - 1) * interval <= LOOKBACK_SECONDS + predictSeconds < n * interval;
    assert n * interval == (n - 1) * interval + interval;
    if n < 2 {
      MulAtMostOne(n, interval);
      assert false;
    }
    var c := Candidates(now, predictSeconds, interval);
    assert c[|c| - 1] == now - LOOKBACK_SECONDS + (n - 1) * interval;
  }

  /** Arithmetic helper: a factor of at most one does not enlarge a positive number. */
  lemma MulAtMostOne(n: int, m: int)
    requires n <= 1 && m > 0
    ensures n * m <= m
  {
    assert (1 - n) * m >= 0;
  }

  // ---------------------------------------------------------------------------
  // Properties of the kept samples

  /** When no propagation call fails, every candidate yields its sample. */
  lemma {:induction false} SurvivorsAllSucceed(port: Port, tle: Tle, instants: seq<int>)
    requires forall i :: 0 <= i < |instants| ==> port.subpoint(tle, instants[i]).Some?
    ensures |Survivors(port, tle, instants)| == |instants|
    ensures forall i :: 0 <= i < |instants| ==>
      Survivors(port, tle, instants)[i] == Sample(instants[i], port.subpoint(tle, instants[i]).value)
  {
    if instants != [] {
      var init := instants[..|instants| - 1];
      SurvivorsAllSucceed(port, tle, init);
    }
  }

  /** When some call fails, strictly fewer samples than candidates come back. */
  lemma {:induction false} SurvivorsDropFailures(port: Port, tle: Tle, instants: seq<int>, k: nat)
    requires k < |instants| && port.subpoint(tle, instants[k]).None?
    ensures |Survivors(port, tle, instants)| < |instants|
  {
    var init := instants[..|instants| - 1];
    if k < |instants| - 1 {
      SurvivorsDropFailures(port, tle, init, k);
    }
  }

  /** Every kept sample stands at one of the instants and carries the subpoint computed there. */
  lemma {:induction false} SurvivorsSound(port: Port, tle: Tle, instants: seq<int>)
    ensures forall j :: 0 <= j < |Survivors(port, tle, instants)| ==>
      Survivors(port, tle, instants)[j].t in instants &&
      port.subpoint(tle, Survivors(port, tle, instants)[j].t) == Some(Survivors(port, tle, instants)[j].geo)
  {
    if instants != [] {
      var init := instants[..|instants| - 1];
      SurvivorsSound(port, tle, init);
      var r0 := Survivors(port, tle, init);
      var r := Survivors(port, tle, instants);
      assert r == r0 + SampleAt(port, tle, instants[|instants| - 1]);
      forall j | 0 <= j < |r|
        ensures r[j].t in instants && port.subpoint(tle, r[j].t) == Some(r[j].geo)
      {
        if j < |r0| {
          assert r[j] == r0[j];
          assert r0[j].t in init;
          var m :| 0 <= m < |init| && init[m] == r0[j].t;
          assert instants[m] == init[m];
        } else {
          var t := instants[|instants| - 1];
          assert r[j] == SampleAt(port, tle, t)[0];
        }
      }
    }
  }

  /** Every instant whose propagation succeeds yields a kept sample. */
  lemma {:induction false} SurvivorsComplete(port: Port, tle: Tle, instants: seq<int>, k: nat)
    requires k < |instants| && port.subpoint(tle, instants[k]).Some?
    ensures exists j ::
      0 <= j < |Survivors(port, tle, instants)| &&
      Survivors(port, tle, instants)[j] == Sample(instants[k], port.subpoint(tle, instants[k]).value)
  {
    var init := instants[..|instants| - 1];
    var r := Survivors(port, tle, instants);
    assert r == Survivors(port, tle, init) + SampleAt(port, tle, instants[|instants| - 1]);
    if k < |instants| - 1 {
      SurvivorsComplete(port, tle, init, k);
      var r0 := Survivors(port, tle, init);
      var j :| 0 <= j < |r0| && r0[j] == Sample(init[k], port.subpoint(tle, init[k]).value);
      assert init[k] == instants[k];
      assert r[j] == r0[j];
    } else {
      assert r[|r| - 1] == Sample(instants[k], port.subpoint(tle, instants[k]).value);
    }
  }

  /** Kept samples keep the order of the instants: strictly increasing in, strictly increasing out. */
  lemma {:induction false} SurvivorsOrdered(port: Port, tle: Tle, instants: seq<int>)
    requires forall i, j :: 0 <= i < j < |instants| ==> instants[i] < instants[j]
    ensures forall i, j :: 0 <= i < j < |Survivors(port, tle, instants)| ==>
      Survivors(port, tle, instants)[i].t < Survivors(port, tle, instants)[j].t
  {
    if instants != [] {
      var init := instants[..|instants| - 1];
      var t := instants[|instants| - 1];
      SurvivorsOrdered(port, tle, init);
      SurvivorsSound(port, tle, init);
      var r0 := Survivors(port, tle, init);
      var r := Survivors(port, tle, instants);
      assert r == r0 + SampleAt(port, tle, t);
      forall i, j | 0 <= i < j < |r| ensures r[i].t < r[j].t {
        if j >= |r0| {
          assert r[i] == r0[i] && r[j].t == t;
          assert r0[i].t in init;
          var m :| 0 <= m < |init| && init[m] == r0[i].t;
          assert instants[m] < instants[|instants| - 1];
        } else {
          assert r[i] == r0[i] && r[j] == r0[j];
        }
      }
    }
  }

  /**
   * The window a successful call returns: at most n samples, exactly n when no
   * propagation call fails, strictly increasing instants, and each instant on
   * the grid `now - LOOKBACK_SECONDS + k*interval` for some k < n.
   */
  lemma FutureSamplesShape(port: Port, tle: Tle, now: int, predictSeconds: int, interval: int)
    requires interval > 0 && port.loads(tle)
    ensures FutureSamples(port, tle, now, predictSeconds, interval).Some?
    ensures var r := FutureSamples(port, tle, now, predictSeconds, interval).value;
      var c := Candidates(now, predictSeconds, interval);
      |r| <= |c| &&
      ((forall k :: 0 <= k < |c| ==> port.subpoint(tle, c[k]).Some?) ==> |r| == |c|) &&
      (forall i, j :: 0 <= i < j < |r| ==> r[i].t < r[j].t) &&
      (forall j :: 0 <= j < |r| ==> port.subpoint(tle, r[j].t) == Some(r[j].geo)) &&
      (forall j :: 0 <= j < |r| ==> exists k :: 0 <= k < |c| && r[j].t == now - LOOKBACK_SECONDS + k * interval)
  {
    var c := Candidates(now, predictSeconds, interval);
    var r := Survivors(port, tle, c);
    CandidatesIncreasing(now, predictSeconds, interval);
    SurvivorsOrdered(port, tle, c);
    SurvivorsSound(port, tle, c);
    if forall k :: 0 <= k < |c| ==> port.subpoint(tle, c[k]).Some? {
      SurvivorsAllSucceed(port, tle, c);
    }
    forall j | 0 <= j < |r|
      ensures exists k :: 0 <= k < |c| && r[j].t == now - LOOKBACK_SECONDS + k * interval
    {
      var k :| 0 <= k < |c| && c[k] == r[j].t;
    }
  }
}
