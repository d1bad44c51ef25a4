/** The temperature poll of `loop()`: the sensor is read only when more
    than the refresh interval has passed since the previous read, and the
    latest reading is kept in between. */
module TemperaturePoller {
  import opened Types

  /** One pass of the poll code at time `now`; `reading` is what the sensor
      driver would return if it were read now. */
  function Poll(s: State, now: nat, reading: real, refreshMs: nat): (r: State)
    // the reading is taken, and the request time restarted, exactly when due
    ensures r.currentTemp != s.currentTemp || r.lastTempRequestMs != s.lastTempRequestMs ==>
      now - s.lastTempRequestMs > refreshMs
    ensures now - s.lastTempRequestMs > refreshMs ==>
      r.currentTemp == reading && r.lastTempRequestMs == now
    ensures r == s.(currentTemp := r.currentTemp, lastTempRequestMs := r.lastTempRequestMs)
  {
    if now - s.lastTempRequestMs > refreshMs then
      s.(currentTemp := reading, lastTempRequestMs := now)
    else s
  }

  /** What one tick offers the poller: its time and the sensor's value. */
  datatype Offer = Offer(atMs: nat, reading: real)

  /** The poller state after one tick per offer, oldest first. */
  function Run(s: State, offers: seq<Offer>, refreshMs: nat): State
    decreases |offers|
  {
    if offers == [] then s
    else Run(Poll(s, offers[0].atMs, offers[0].reading, refreshMs), offers[1..], refreshMs)
  }

  /** The times, oldest first, at which the sensor is actually read. */
  function ReadTimes(s: State, offers: seq<Offer>, refreshMs: nat): seq<nat>
    decreases |offers|
  {
    if offers == [] then []
    else
      var r := Poll(s, offers[0].atMs, offers[0].reading, refreshMs);
      (if offers[0].atMs - s.lastTempRequestMs > refreshMs then [offers[0].atMs] else []) +
      ReadTimes(r, offers[1..], refreshMs)
  }

  ghost predicate Monotone(offers: seq<Offer>) {
    forall i, j :: 0 <= i <= j < |offers| ==> offers[i].atMs <= offers[j].atMs
  }

  /** With a monotone clock, the sensor is read at most once per refresh
      interval: the first read comes more than `refreshMs` after the last
      recorded request, and any two reads are more than `refreshMs` apart. */
  lemma {:induction false} ReadsSpaced(s: State, offers: seq<Offer>, refreshMs: nat)
    requires Monotone(offers)
    requires forall i :: 0 <= i < |offers| ==> s.lastTempRequestMs <= offers[i].atMs
    ensures Spaced(ReadTimes(s, offers, refreshMs), s.lastTempRequestMs, refreshMs)
    decreases |offers|
  {
    if offers != [] {
      var o := offers[0];
      var r := Poll(s, o.atMs, o.reading, refreshMs);
      var rest := offers[1..];
      assert forall i :: 0 <= i < |rest| ==> rest[i] == offers[i + 1];
      assert r.lastTempRequestMs == s.lastTempRequestMs || r.lastTempRequestMs == o.atMs;
      assert Monotone(rest);
      assert forall i :: 0 <= i < |rest| ==> r.lastTempRequestMs <= rest[i].atMs;
      ReadsSpaced(r, rest, refreshMs);
      var tail := ReadTimes(r, rest, refreshMs);
      if o.atMs - s.lastTempRequestMs > refreshMs {
        SpacedCons(o.atMs, tail, s.lastTempRequestMs, refreshMs);
      }
    }
  }

  function Last(t: seq<nat>): nat
    requires t != []
  {
    t[|t| - 1]
  }

  /** The poll of the `i`-th offer of a run reads the sensor. */
  ghost predicate ReadsAt(s: State, offers: seq<Offer>, refreshMs: nat, i: nat)
    requires i < |offers|
    decreases i
  {
    if i == 0 then offers[0].atMs - s.lastTempRequestMs > refreshMs
    else ReadsAt(Poll(s, offers[0].atMs, offers[0].reading, refreshMs), offers[1..], refreshMs, i - 1)
  }

  /** The index of the last offer whose poll reads the sensor, or -1. */
  ghost function LastReadIndex(s: State, offers: seq<Offer>, refreshMs: nat): int
    decreases |offers|
  {
    if offers == [] then -1
    else
      var k := LastReadIndex(Poll(s, offers[0].atMs, offers[0].reading, refreshMs), offers[1..], refreshMs);
      if k >= 0 then k + 1
      else if offers[0].atMs - s.lastTempRequestMs > refreshMs then 0
      else -1
  }

  /** Between reads nothing changes: after a run the temperature and the
      request time are the initial ones if the sensor was never read, and
      otherwise the reading and time of the last offer whose poll read it,
      that time being the last of the run's read times. */
  lemma {:induction false} HoldsLastReading(s: State, offers: seq<Offer>, refreshMs: nat)
    ensures -1 <= LastReadIndex(s, offers, refreshMs) < |offers|
    ensures LastReadIndex(s, offers, refreshMs) == -1 <==> ReadTimes(s, offers, refreshMs) == []
    ensures forall j :: LastReadIndex(s, offers, refreshMs) < j < |offers| && 0 <= j ==>
      !ReadsAt(s, offers, refreshMs, j)
    ensures LastReadIndex(s, offers, refreshMs) == -1 ==>
      Run(s, offers, refreshMs).currentTemp == s.currentTemp &&
      Run(s, offers, refreshMs).lastTempRequestMs == s.lastTempRequestMs
    ensures LastReadIndex(s, offers, refreshMs) >= 0 ==>
      ReadsAt(s, offers, refreshMs, LastReadIndex(s, offers, refreshMs)) &&
      Run(s, offers, refreshMs).currentTemp == offers[LastReadIndex(s, offers, refreshMs)].reading &&
      Run(s, offers, refreshMs).lastTempRequestMs == offers[LastReadIndex(s, offers, refreshMs)].atMs &&
      Run(s, offers, refreshMs).lastTempRequestMs == Last(ReadTimes(s, offers, refreshMs))
    decreases |offers|
  {
    if offers != [] {
      var o := offers[0];
      var p := Poll(s, o.atMs, o.reading, refreshMs);
      var rest := offers[1..];
      HoldsLastReading(p, rest, refreshMs);
      forall j | 0 < j < |offers|
        ensures ReadsAt(s, offers, refreshMs, j) == ReadsAt(p, rest, refreshMs, j - 1)
      {
      }
      var k := LastReadIndex(p, rest, refreshMs);
      if k >= 0 {
        assert rest[k] == offers[k + 1];
      }
    }
  }
}
