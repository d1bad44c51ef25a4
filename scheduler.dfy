/** The publish part of `loop()`: nothing is published unless more than the
    minimum interval has passed since the last publish; then the first of
    four conditions that holds decides what is published. */
module PublishScheduler {
  import opened Types

  function Abs(x: real): (r: real)
    ensures r >= 0.0 && (r == x || r == -x)
  {
    if x < 0.0 then -x else x
  }

  /** `Publish_PcStatus`: sends the status and remembers it. */
  function PublishStatus(s: State, status: Byte): (r: Step)
    ensures r.state == s.(lastPublishedStatus := status)
    ensures r.events == [PublishPcStatus(status)]
  {
    Step(s.(lastPublishedStatus := status), [PublishPcStatus(status)])
  }

  /** `Publish_Temperature`: sends the temperature and remembers the raw
      value it was given (not the rounded one it sent). */
  function PublishTemp(s: State, temp: real): (r: Step)
    ensures r.state == s.(lastPublishedTemp := temp)
    ensures r.events == [PublishTemperature(temp)]
  {
    Step(s.(lastPublishedTemp := temp), [PublishTemperature(temp)])
  }

  /** The category the periodic branch publishes for `cursor`, after the
      cursor has been reset when it ran past the last category. */
  function PeriodicSlot(cursor: nat, max: nat): (slot: nat)
    ensures cursor < max ==> slot == cursor
    ensures cursor >= max ==> slot == PUB_DATA_PC_STATUS
    ensures max > 0 ==> slot < max
  {
    if cursor >= max then PUB_DATA_PC_STATUS else cursor
  }

  /** The minimum-interval gate in front of the whole ladder. */
  predicate GateOpen(cfg: Config, s: State, now: nat) {
    now - s.lastPublishedMs > cfg.pubMinMs
  }

  predicate StatusDue(s: State) {
    s.currentPcStatus != s.lastPublishedStatus
  }

  predicate TempDue(cfg: Config, s: State) {
    Abs(s.currentTemp - s.lastPublishedTemp) > cfg.pubTempThreshold
  }

  /** The periodic branch runs: the gate is open, no earlier branch is due,
      and the periodic interval has also passed. */
  predicate PeriodicDue(cfg: Config, s: State, now: nat) {
    GateOpen(cfg, s, now) && !StatusDue(s) && !TempDue(cfg, s) && s.isSyncing == 0 &&
    now - s.lastPublishedMs > cfg.pubPeriodicMs
  }

  /** What the periodic branch publishes for a category. */
  function PeriodicEvents(s: State, slot: nat): seq<Event> {
    if slot == PUB_DATA_PC_STATUS then [PublishPcStatus(s.currentPcStatus)]
    else if slot == PUB_DATA_TEMP then [PublishTemperature(s.currentTemp)]
    else []
  }

  /** An event that only the scheduler emits. */
  predicate Scheduled(e: Event) {
    e.PublishPcStatus? || e.PublishTemperature? || (e.PublishConnection? && e.text.Synced?)
  }

  /** One pass of the publish code at time `now`. */
  function Schedule(cfg: Config, s: State, now: nat): (r: Step)
    // at most one publish per tick, and only from the scheduler's own kinds
    ensures |r.events| <= 1 && forall e :: e in r.events ==> Scheduled(e)
    // the gate: while it is closed nothing at all happens
    ensures !GateOpen(cfg, s, now) ==> r == Step(s, [])
    // a status change wins over everything, even a due temperature
    ensures GateOpen(cfg, s, now) && StatusDue(s) ==>
      r.events == [PublishPcStatus(s.currentPcStatus)] && r.state.lastPublishedTemp == s.lastPublishedTemp
    // a due temperature wins over the sync and periodic branches
    ensures GateOpen(cfg, s, now) && !StatusDue(s) && TempDue(cfg, s) ==>
      r.events == [PublishTemperature(s.currentTemp)] && r.state.syncCnt == s.syncCnt &&
      r.state.dataToPublish == s.dataToPublish
    // the sync announcement: counter up by one, flag cleared, clock unchanged
    ensures r.events != [] && r.events[0].PublishConnection? ==>
      !StatusDue(s) && !TempDue(cfg, s) && s.isSyncing != 0 &&
      r.events[0].text == Synced(r.state.syncCnt) &&
      r.state == s.(syncCnt := Inc16(s.syncCnt), isSyncing := 0)
    ensures (GateOpen(cfg, s, now) && !StatusDue(s) && !TempDue(cfg, s) && s.isSyncing != 0) ==>
      r == Step(s.(syncCnt := Inc16(s.syncCnt), isSyncing := 0), [PublishConnection(Synced(Inc16(s.syncCnt)))])
    ensures r.state.isSyncing != s.isSyncing || r.state.syncCnt != s.syncCnt ==>
      r.events == [PublishConnection(Synced(r.state.syncCnt))] && r.state.isSyncing == 0
    // the periodic branch publishes the category at the cursor and moves it on;
    // nothing else touches the cursor
    ensures PeriodicDue(cfg, s, now) ==>
      var slot := PeriodicSlot(s.dataToPublish, cfg.pubDataMax);
      r.events == PeriodicEvents(s, slot) && r.state.dataToPublish == slot + 1 && r.state.lastPublishedMs == now
    ensures !PeriodicDue(cfg, s, now) ==> r.state.dataToPublish == s.dataToPublish
    // with the gate open and no branch due, the tick publishes and changes nothing
    ensures (GateOpen(cfg, s, now) && !StatusDue(s) && !TempDue(cfg, s) && s.isSyncing == 0 &&
             now - s.lastPublishedMs <= cfg.pubPeriodicMs) ==> r == Step(s, [])
    // every publish other than the sync restarts the interval clock
    ensures r.events != [] && !r.events[0].PublishConnection? ==> r.state.lastPublishedMs == now
    ensures r.state.lastPublishedMs == s.lastPublishedMs || r.state.lastPublishedMs == now
    // what was published is remembered, so the same change does not fire again
    ensures r.events != [] && r.events[0].PublishPcStatus? ==>
      r.state.lastPublishedStatus == r.events[0].status == s.currentPcStatus
    ensures r.events != [] && r.events[0].PublishTemperature? ==>
      r.state.lastPublishedTemp == r.events[0].temp == s.currentTemp
    ensures r.state.lastPublishedStatus != s.lastPublishedStatus ==> r.events == [PublishPcStatus(s.currentPcStatus)]
    ensures r.state.lastPublishedTemp != s.lastPublishedTemp ==> r.events == [PublishTemperature(s.currentTemp)]
    // the scheduler owns only the publish globals
    ensures r.state == s.(lastPublishedStatus := r.state.lastPublishedStatus,
                          lastPublishedTemp := r.state.lastPublishedTemp,
                          lastPublishedMs := r.state.lastPublishedMs,
                          dataToPublish := r.state.dataToPublish,
                          syncCnt := r.state.syncCnt,
                          isSyncing := r.state.isSyncing)
  {
    if !GateOpen(cfg, s, now) then Step(s, [])
    else if StatusDue(s) then
      var p := PublishStatus(s, s.currentPcStatus);
      Step(p.state.(lastPublishedMs := now), p.events)
    else if TempDue(cfg, s) then
      var p := PublishTemp(s, s.currentTemp);
      Step(p.state.(lastPublishedMs := now), p.events)
    else if s.isSyncing != 0 then
      var n := Inc16(s.syncCnt);
      Step(s.(syncCnt := n, isSyncing := 0), [PublishConnection(Synced(n))])
    else if now - s.lastPublishedMs > cfg.pubPeriodicMs then
      var slot := PeriodicSlot(s.dataToPublish, cfg.pubDataMax);
      var p :=
        if slot == PUB_DATA_PC_STATUS then PublishStatus(s, s.currentPcStatus)
        else if slot == PUB_DATA_TEMP then PublishTemp(s, s.currentTemp)
        else Step(s, []);
      Step(p.state.(dataToPublish := slot + 1, lastPublishedMs := now), p.events)
    else Step(s, [])
  }

  /** After a status publish the status is no longer due, and after a
      temperature publish the temperature is no longer due while the
      threshold is not negative: a change fires once. */
  lemma PublishedNotDueAgain(cfg: Config, s: State, now: nat)
    requires cfg.pubTempThreshold >= 0.0
    requires Schedule(cfg, s, now).events != []
    ensures var r := Schedule(cfg, s, now).state;
      (Schedule(cfg, s, now).events[0].PublishPcStatus? ==> !StatusDue(r)) &&
      (Schedule(cfg, s, now).events[0].PublishTemperature? ==> !TempDue(cfg, r))
  {
  }

  /** The category after `slot` in the cyclic order of categories. */
  function CycleNext(slot: nat, max: nat): nat {
    if slot + 1 >= max then PUB_DATA_PC_STATUS else slot + 1
  }

  /** The categories published by `n` periodic publishes in a row, starting
      from `cursor`. */
  function Rotation(cursor: nat, max: nat, n: nat): (cats: seq<nat>)
    ensures |cats| == n
    decreases n
  {
    if n == 0 then []
    else
      var slot := PeriodicSlot(cursor, max);
      [slot] + Rotation(slot + 1, max, n - 1)
  }

  /** A rotation is its first slot followed by the rotation from just past it. */
  lemma RotationCons(cursor: nat, max: nat, tail: seq<nat>)
    requires tail == Rotation(PeriodicSlot(cursor, max) + 1, max, |tail|)
    ensures [PeriodicSlot(cursor, max)] + tail == Rotation(cursor, max, |tail| + 1)
  {
  }

  /** Each periodic publish is of the category that follows the previous one. */
  lemma {:induction false} RotationSteps(cursor: nat, max: nat, n: nat, k: nat)
    requires max > 0 && k + 1 < n
    ensures Rotation(cursor, max, n)[k] < max
    ensures Rotation(cursor, max, n)[k + 1] == CycleNext(Rotation(cursor, max, n)[k], max)
    decreases n
  {
    var slot := PeriodicSlot(cursor, max);
    if k > 0 {
      RotationSteps(slot + 1, max, n - 1, k - 1);
    }
  }

  /** From the first category published, the rotation runs up through the
      last category and then starts over at the status. */
  lemma {:induction false} RotationRunsUp(cursor: nat, max: nat, n: nat, k: nat)
    requires max > 0 && k < n
    ensures PeriodicSlot(cursor, max) + k < max ==>
      Rotation(cursor, max, n)[k] == PeriodicSlot(cursor, max) + k
    ensures PeriodicSlot(cursor, max) + k == max ==> Rotation(cursor, max, n)[k] == PUB_DATA_PC_STATUS
    decreases n
  {
    var slot := PeriodicSlot(cursor, max);
    if k > 0 {
      RotationRunsUp(slot + 1, max, n - 1, k - 1);
    }
  }

  /** With the two categories of `PubData_e`, periodic publishes alternate
      status, temperature, status, ... from a fresh cursor. */
  lemma {:induction false} Alternates(n: nat, k: nat)
    requires k < n
    ensures Rotation(PUB_DATA_PC_STATUS, 2, n)[k] == if k % 2 == 0 then PUB_DATA_PC_STATUS else PUB_DATA_TEMP
  {
    if k > 0 {
      Alternates(n, k - 1);
      RotationSteps(PUB_DATA_PC_STATUS, 2, n, k - 1);
    }
  }
}
