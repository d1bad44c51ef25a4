/** One pass of `loop()` and the subscription callback, over the globals:
    first as a function of the old globals (TickSpec), then as the class
    Controller whose fields are the globals and whose methods change them
    step by step as the firmware does. */
module Device {
  import opened Types
  import Debouncer
  import TemperaturePoller
  import PublishScheduler
  import ConnectionManager
  import CommandDispatcher

  /** What the outside world supplies to one pass of `loop()`. */
  datatype Inputs = Inputs(
    nowMs: nat,                                 // millis() on entry
    connected: bool,                            // client.connected() on entry
    attempt: nat -> ConnectionManager.Attempt,  // what each reconnect attempt does
    inbound: Option<Message>,                   // what client.loop() delivers
    reading: real,                              // DHT.temperature, if read
    raw: bool)                                  // digitalRead(GPIO_IN_STATUS)

  predicate Acceptable(cfg: Config, inp: Inputs) {
    inp.inbound.Some? ==> CommandDispatcher.Readable(cfg, inp.inbound.value)
  }

  /** Where a tick, or a part of it, leaves the globals, what it emitted,
      the clock when it got there, and whether the device restarted. */
  datatype Phase = Phase(state: State, events: seq<Event>, clockMs: nat, halted: bool)

  /** The connection check at the top of `loop()`. */
  function ServiceConnection(cfg: Config, s: State, inp: Inputs): (p: Phase)
    ensures inp.connected ==> p == Phase(s, [], inp.nowMs, false)
    // a disconnected tick is counted once, then either restarts the device ...
    ensures !inp.connected ==> p.state.connectCnt == Inc16(s.connectCnt)
    ensures p.halted ==>
      !inp.connected && p.events == [Restart] && p.state == s.(connectCnt := Inc16(s.connectCnt))
    // ... or comes back connected with both timers set to the current time
    ensures !inp.connected && !p.halted ==>
      p.state == s.(connectCnt := Inc16(s.connectCnt), lastPublishedMs := p.clockMs,
                    lastStatusUnstableMs := p.clockMs) &&
      p.events == ConnectionManager.Announce(cfg)
    ensures p.halted == (!inp.connected && ConnectionManager.ReconnectFrom(inp.attempt, inp.nowMs, 0).Restarted?)
    // the clock has moved on by however long the reconnect loop took
    ensures !inp.connected ==> p.clockMs == ConnectionManager.ReconnectFrom(inp.attempt, inp.nowMs, 0).atMs
    ensures p.clockMs >= inp.nowMs
  {
    if inp.connected then Phase(s, [], inp.nowMs, false)
    else
      var s1 := s.(connectCnt := Inc16(s.connectCnt));
      var o := ConnectionManager.ReconnectFrom(inp.attempt, inp.nowMs, 0);
      if o.Restarted? then Phase(s1, [Restart], o.atMs, true)
      else Phase(s1.(lastPublishedMs := o.atMs, lastStatusUnstableMs := o.atMs),
                 ConnectionManager.Announce(cfg), o.atMs, false)
  }

  function PulseEvents(p: Option<Pulse>): seq<Event> {
    if p.Some? then [Actuate(p.value)] else []
  }

  /** An actuator pulse blocks the loop for its width. */
  function PulseMs(p: Option<Pulse>): nat {
    if p.Some? then p.value.widthMs else 0
  }

  predicate HasScheduled(events: seq<Event>) {
    exists i :: 0 <= i < |events| && PublishScheduler.Scheduled(events[i])
  }

  predicate HasSynced(events: seq<Event>) {
    exists i :: 0 <= i < |events| && events[i].PublishConnection? && events[i].text.Synced?
  }

  /** The part of `loop()` between the connection check and the publish
      code: the callback for a delivered message, whose pulse advances the
      clock, then the temperature poll and the debounce. */
  function Prepare(cfg: Config, s: State, clockMs: nat, inp: Inputs): (q: Phase)
    requires Acceptable(cfg, inp)
    ensures q.clockMs >= clockMs && !q.halted
    // the pulse is the callback's for the delivered message, and the clock
    // moves on by exactly its width
    ensures var pulse := if inp.inbound.Some?
        then CommandDispatcher.Dispatch(cfg, s.currentPcStatus, inp.inbound.value) else None;
      q.events == PulseEvents(pulse) && q.clockMs == clockMs + PulseMs(pulse)
    // the sensor globals are polled, then the status input debounced, at that clock
    ensures q.state == Debouncer.Debounce(
      TemperaturePoller.Poll(s, q.clockMs, inp.reading, cfg.tempRefreshMs),
      Debouncer.Level(inp.raw, cfg.inStatusInverted), q.clockMs, cfg.debounceStatusMs)
    // only actuator pulses are emitted here
    ensures forall i :: 0 <= i < |q.events| ==> q.events[i].Actuate?
    // only the sensor and debounce globals change
    ensures q.state == s.(currentTemp := q.state.currentTemp, lastTempRequestMs := q.state.lastTempRequestMs,
                          currentPcStatus := q.state.currentPcStatus, lastReadStatus := q.state.lastReadStatus,
                          lastStatusUnstableMs := q.state.lastStatusUnstableMs)
  {
    var pulse := if inp.inbound.Some?
      then CommandDispatcher.Dispatch(cfg, s.currentPcStatus, inp.inbound.value)
      else None;
    var now := clockMs + PulseMs(pulse);
    var s2 := TemperaturePoller.Poll(s, now, inp.reading, cfg.tempRefreshMs);
    var s3 := Debouncer.Debounce(s2, Debouncer.Level(inp.raw, cfg.inStatusInverted), now, cfg.debounceStatusMs);
    Phase(s3, PulseEvents(pulse), now, false)
  }

  /** The rest of `loop()` once connected at `clockMs`: the stages above,
      then the publish code at the clock they left. */
  function Serve(cfg: Config, s: State, clockMs: nat, inp: Inputs): (r: Phase)
    requires Acceptable(cfg, inp)
    ensures r.clockMs >= clockMs && !r.halted
    ensures r.state.connectCnt == s.connectCnt
  {
    var q := Prepare(cfg, s, clockMs, inp);
    var p := PublishScheduler.Schedule(cfg, q.state, q.clockMs);
    Phase(p.state, q.events + p.events, q.clockMs, false)
  }

  /** One pass of `loop()`, the callback for a delivered message included. */
  function TickSpec(cfg: Config, s: State, inp: Inputs): (r: Phase)
    requires Acceptable(cfg, inp)
    ensures r.clockMs >= inp.nowMs
    ensures r.halted ==> r.events == [Restart]
    ensures r.state.connectCnt == if inp.connected then s.connectCnt else Inc16(s.connectCnt)
  {
    var c := ServiceConnection(cfg, s, inp);
    if c.halted then c
    else
      var t := Serve(cfg, c.state, c.clockMs, inp);
      Phase(t.state, c.events + t.events, t.clockMs, false)
  }

  /** `Serve` as the stages the firmware runs one after another. */
  lemma ServeInStages(cfg: Config, s: State, clockMs: nat, inp: Inputs, pulse: Option<Pulse>, s3: State)
    requires Acceptable(cfg, inp)
    requires pulse == if inp.inbound.Some?
      then CommandDispatcher.Dispatch(cfg, s.currentPcStatus, inp.inbound.value) else None
    requires s3 == Debouncer.Debounce(
      TemperaturePoller.Poll(s, clockMs + PulseMs(pulse), inp.reading, cfg.tempRefreshMs),
      Debouncer.Level(inp.raw, cfg.inStatusInverted), clockMs + PulseMs(pulse), cfg.debounceStatusMs)
    ensures var p := PublishScheduler.Schedule(cfg, s3, clockMs + PulseMs(pulse));
      Serve(cfg, s, clockMs, inp) == Phase(p.state, PulseEvents(pulse) + p.events, clockMs + PulseMs(pulse), false)
  {
  }

  /** Events that come before the scheduler's in a tick are never the
      scheduler's own kinds. */
  lemma ScheduledAfter(pre: seq<Event>, rest: seq<Event>)
    requires forall i :: 0 <= i < |pre| ==> !PublishScheduler.Scheduled(pre[i])
    ensures HasScheduled(pre + rest) ==> HasScheduled(rest)
    ensures HasSynced(pre + rest) ==> HasSynced(rest)
  {
    var all := pre + rest;
    assert forall i :: |pre| <= i < |all| ==> all[i] == rest[i - |pre|];
  }

  /** Every status global stays off, on or unknown. */
  lemma TickKeepsInv(cfg: Config, s: State, inp: Inputs)
    requires Acceptable(cfg, inp) && Inv(s)
    ensures Inv(TickSpec(cfg, s, inp).state)
  {
  }

  lemma ServeSyncFlag(cfg: Config, s: State, clockMs: nat, inp: Inputs)
    requires Acceptable(cfg, inp)
    ensures Serve(cfg, s, clockMs, inp).state.isSyncing == 0 || Serve(cfg, s, clockMs, inp).state.isSyncing == s.isSyncing
    ensures HasSynced(Serve(cfg, s, clockMs, inp).events) ==> s.isSyncing != 0
  {
    var q := Prepare(cfg, s, clockMs, inp);
    var p := PublishScheduler.Schedule(cfg, q.state, q.clockMs);
    ScheduledAfter(q.events, p.events);
    if HasSynced(p.events) {
      var i :| 0 <= i < |p.events| && p.events[i].PublishConnection? && p.events[i].text.Synced?;
      assert i == 0;
    }
  }

  /** Nothing in a tick raises the sync flag, and the sync announcement needs it raised. */
  lemma TickSyncFlag(cfg: Config, s: State, inp: Inputs)
    requires Acceptable(cfg, inp)
    ensures TickSpec(cfg, s, inp).state.isSyncing == 0 || TickSpec(cfg, s, inp).state.isSyncing == s.isSyncing
    ensures HasSynced(TickSpec(cfg, s, inp).events) ==> s.isSyncing != 0
  {
    var c := ServiceConnection(cfg, s, inp);
    if !c.halted {
      ServeSyncFlag(cfg, c.state, c.clockMs, inp);
      ScheduledAfter(c.events, Serve(cfg, c.state, c.clockMs, inp).events);
    }
  }

  lemma ServePublishClock(cfg: Config, s: State, clockMs: nat, inp: Inputs)
    requires Acceptable(cfg, inp)
    requires s.lastPublishedMs <= clockMs
    ensures var r := Serve(cfg, s, clockMs, inp);
      s.lastPublishedMs <= r.state.lastPublishedMs <= r.clockMs &&
      (HasScheduled(r.events) ==> r.clockMs - s.lastPublishedMs > cfg.pubMinMs) &&
      (HasScheduled(r.events) && s.isSyncing == 0 ==> r.state.lastPublishedMs == r.clockMs)
  {
    var q := Prepare(cfg, s, clockMs, inp);
    var p := PublishScheduler.Schedule(cfg, q.state, q.clockMs);
    ScheduledAfter(q.events, p.events);
    if HasScheduled(p.events) {
      assert p.events != [];
    }
  }

  /** The interval clock of a tick: it never moves back while the tick starts
      no earlier than it; a scheduler publish needs more than the minimum
      interval since it; and such a publish, the sync aside, restarts it. */
  lemma TickPublishClock(cfg: Config, s: State, inp: Inputs)
    requires Acceptable(cfg, inp)
    requires s.lastPublishedMs <= inp.nowMs
    ensures var r := TickSpec(cfg, s, inp);
      s.lastPublishedMs <= r.state.lastPublishedMs <= r.clockMs &&
      (HasScheduled(r.events) ==> r.clockMs - s.lastPublishedMs > cfg.pubMinMs) &&
      (HasScheduled(r.events) && s.isSyncing == 0 ==> r.state.lastPublishedMs == r.clockMs)
  {
    var c := ServiceConnection(cfg, s, inp);
    if !c.halted {
      ServePublishClock(cfg, c.state, c.clockMs, inp);
      ScheduledAfter(c.events, Serve(cfg, c.state, c.clockMs, inp).events);
    }
  }

  ghost predicate AllAcceptable(cfg: Config, ins: seq<Inputs>) {
    forall i :: 0 <= i < |ins| ==> Acceptable(cfg, ins[i])
  }

  /** The clock times, oldest first, of the ticks of a run that published
      something from the scheduler. A run ends at a restart: the device
      that boots afterwards starts a new run from the initial globals. */
  function PublishTimes(cfg: Config, s: State, ins: seq<Inputs>): seq<nat>
    requires AllAcceptable(cfg, ins)
    decreases |ins|
  {
    if ins == [] then []
    else
      var r := TickSpec(cfg, s, ins[0]);
      if r.halted then []
      else (if HasScheduled(r.events) then [r.clockMs] else []) + PublishTimes(cfg, r.state, ins[1..])
  }

  /** The globals after a run of ticks. */
  function Run(cfg: Config, s: State, ins: seq<Inputs>): State
    requires AllAcceptable(cfg, ins)
    decreases |ins|
  {
    if ins == [] then s
    else
      var r := TickSpec(cfg, s, ins[0]);
      if r.halted then r.state else Run(cfg, r.state, ins[1..])
  }

  /** Every event of a run, oldest first. */
  function RunEvents(cfg: Config, s: State, ins: seq<Inputs>): seq<Event>
    requires AllAcceptable(cfg, ins)
    decreases |ins|
  {
    if ins == [] then []
    else
      var r := TickSpec(cfg, s, ins[0]);
      if r.halted then r.events else r.events + RunEvents(cfg, r.state, ins[1..])
  }

  /** Each tick of the run starts no earlier than the previous one ended, and
      the first no earlier than the last recorded publish. */
  ghost predicate Sequential(cfg: Config, s: State, ins: seq<Inputs>)
    requires AllAcceptable(cfg, ins)
    decreases |ins|
  {
    ins == [] ||
    (s.lastPublishedMs <= ins[0].nowMs &&
     (!TickSpec(cfg, s, ins[0]).halted ==>
        (|ins| > 1 ==> TickSpec(cfg, s, ins[0]).clockMs <= ins[1].nowMs) &&
        Sequential(cfg, TickSpec(cfg, s, ins[0]).state, ins[1..])))
  }

  /** While the sync flag is down, the scheduler never publishes twice within
      the minimum interval, across any run: its publishes come more than
      `pubMinMs` after the last recorded one and more than `pubMinMs` apart. */
  lemma {:induction false} PublishesSpaced(cfg: Config, s: State, ins: seq<Inputs>)
    requires AllAcceptable(cfg, ins) && Sequential(cfg, s, ins)
    requires s.isSyncing == 0
    ensures Spaced(PublishTimes(cfg, s, ins), s.lastPublishedMs, cfg.pubMinMs)
    decreases |ins|
  {
    if ins != [] && !TickSpec(cfg, s, ins[0]).halted {
      var r := TickSpec(cfg, s, ins[0]);
      var rest := ins[1..];
      assert AllAcceptable(cfg, rest) by {
        forall i | 0 <= i < |rest| ensures Acceptable(cfg, rest[i]) { assert rest[i] == ins[i + 1]; }
      }
      TickPublishClock(cfg, s, ins[0]);
      TickSyncFlag(cfg, s, ins[0]);
      if rest != [] {
        assert rest[0] == ins[1];
        assert r.state.lastPublishedMs <= rest[0].nowMs;
      }
      PublishesSpaced(cfg, r.state, rest);
      var tail := PublishTimes(cfg, r.state, rest);
      if HasScheduled(r.events) {
        SpacedCons(r.clockMs, tail, s.lastPublishedMs, cfg.pubMinMs);
      } else {
        SpacedEarlier(tail, r.state.lastPublishedMs, s.lastPublishedMs, cfg.pubMinMs);
      }
    }
  }

  /** From boot the sync flag stays down, so no run ever announces a sync. */
  lemma {:induction false} NeverSyncs(cfg: Config, s: State, ins: seq<Inputs>)
    requires AllAcceptable(cfg, ins)
    requires s.isSyncing == 0
    ensures Run(cfg, s, ins).isSyncing == 0
    ensures !HasSynced(RunEvents(cfg, s, ins))
    decreases |ins|
  {
    if ins != [] {
      var r := TickSpec(cfg, s, ins[0]);
      var rest := ins[1..];
      assert AllAcceptable(cfg, rest) by {
        forall i | 0 <= i < |rest| ensures Acceptable(cfg, rest[i]) { assert rest[i] == ins[i + 1]; }
      }
      TickSyncFlag(cfg, s, ins[0]);
      NeverSyncs(cfg, r.state, rest);
      SyncedSplit(r.events, RunEvents(cfg, r.state, rest));
    }
  }

  lemma SyncedSplit(a: seq<Event>, b: seq<Event>)
    ensures HasSynced(a + b) ==> HasSynced(a) || HasSynced(b)
  {
    if HasSynced(a + b) {
      var i :| 0 <= i < |a + b| && (a + b)[i].PublishConnection? && (a + b)[i].text.Synced?;
      if i >= |a| { assert (a + b)[i] == b[i - |a|]; }
    }
  }

  /** Hence the spacing holds for every run from boot. */
  lemma PublishesSpacedFromBoot(cfg: Config, ins: seq<Inputs>)
    requires AllAcceptable(cfg, ins) && Sequential(cfg, Init(), ins)
    ensures Spaced(PublishTimes(cfg, Init(), ins), 0, cfg.pubMinMs)
  {
    PublishesSpaced(cfg, Init(), ins);
  }

  /** The globals and clock a connected tick hands to the publish code. */
  function Sensed(cfg: Config, s: State, inp: Inputs): Phase
    requires Acceptable(cfg, inp) && !ServiceConnection(cfg, s, inp).halted
  {
    var c := ServiceConnection(cfg, s, inp);
    Prepare(cfg, c.state, c.clockMs, inp)
  }

  /** The category the periodic branch publishes in a tick, if it runs. */
  function TickSlot(cfg: Config, s: State, inp: Inputs): (slot: Option<nat>)
    requires Acceptable(cfg, inp)
    // nothing before the publish code moves the cursor
    ensures slot.Some? ==> slot.value == PublishScheduler.PeriodicSlot(s.dataToPublish, cfg.pubDataMax)
  {
    if ServiceConnection(cfg, s, inp).halted then None
    else
      var q := Sensed(cfg, s, inp);
      if PublishScheduler.PeriodicDue(cfg, q.state, q.clockMs)
      then Some(PublishScheduler.PeriodicSlot(q.state.dataToPublish, cfg.pubDataMax))
      else None
  }

  /** A tick moves the cursor just past the category its periodic branch
      publishes, and a tick without a periodic publish leaves it alone. */
  lemma TickCursor(cfg: Config, s: State, inp: Inputs)
    requires Acceptable(cfg, inp)
    ensures TickSpec(cfg, s, inp).state.dataToPublish ==
      if TickSlot(cfg, s, inp).Some? then TickSlot(cfg, s, inp).value + 1 else s.dataToPublish
  {
    if !ServiceConnection(cfg, s, inp).halted {
      var q := Sensed(cfg, s, inp);
      assert TickSpec(cfg, s, inp).state == PublishScheduler.Schedule(cfg, q.state, q.clockMs).state;
    }
  }

  /** What the periodic branch publishes for its category is the last thing
      the tick emits. */
  lemma TickPeriodicEvents(cfg: Config, s: State, inp: Inputs)
    requires Acceptable(cfg, inp) && TickSlot(cfg, s, inp).Some?
    ensures TickSpec(cfg, s, inp).events == ServiceConnection(cfg, s, inp).events + Sensed(cfg, s, inp).events +
      PublishScheduler.PeriodicEvents(Sensed(cfg, s, inp).state, TickSlot(cfg, s, inp).value)
  {
    var q := Sensed(cfg, s, inp);
    var p := PublishScheduler.Schedule(cfg, q.state, q.clockMs);
    assert TickSpec(cfg, s, inp).events == ServiceConnection(cfg, s, inp).events + q.events + p.events;
  }

  /** The categories, oldest first, that the periodic branch of the publish
      code publishes over a run. */
  function PeriodicSlots(cfg: Config, s: State, ins: seq<Inputs>): seq<nat>
    requires AllAcceptable(cfg, ins)
    decreases |ins|
  {
    if ins == [] then []
    else
      var r := TickSpec(cfg, s, ins[0]);
      var slot := TickSlot(cfg, s, ins[0]);
      if r.halted then []
      else (if slot.Some? then [slot.value] else []) + PeriodicSlots(cfg, r.state, ins[1..])
  }

  /** One tick of a run, taken off its front. */
  lemma RunStep(cfg: Config, s: State, ins: seq<Inputs>)
    requires AllAcceptable(cfg, ins) && ins != []
    ensures AllAcceptable(cfg, ins[1..])
    ensures TickSpec(cfg, s, ins[0]).halted ==> PeriodicSlots(cfg, s, ins) == []
    ensures !TickSpec(cfg, s, ins[0]).halted ==>
      PeriodicSlots(cfg, s, ins) ==
        (if TickSlot(cfg, s, ins[0]).Some? then [TickSlot(cfg, s, ins[0]).value] else []) +
        PeriodicSlots(cfg, TickSpec(cfg, s, ins[0]).state, ins[1..])
  {
    var rest := ins[1..];
    forall i | 0 <= i < |rest| ensures Acceptable(cfg, rest[i]) { assert rest[i] == ins[i + 1]; }
  }

  /** Over any run, the periodic publishes go through the categories in the
      order Rotation describes from the cursor the run started with. */
  lemma {:induction false} PeriodicRotation(cfg: Config, s: State, ins: seq<Inputs>)
    requires AllAcceptable(cfg, ins)
    ensures PeriodicSlots(cfg, s, ins) ==
      PublishScheduler.Rotation(s.dataToPublish, cfg.pubDataMax, |PeriodicSlots(cfg, s, ins)|)
    decreases |ins|
  {
    if ins != [] {
      RunStep(cfg, s, ins);
      if !TickSpec(cfg, s, ins[0]).halted {
        var next := TickSpec(cfg, s, ins[0]).state;
        var slot := TickSlot(cfg, s, ins[0]);
        var tail := PeriodicSlots(cfg, next, ins[1..]);
        TickCursor(cfg, s, ins[0]);
        PeriodicRotation(cfg, next, ins[1..]);
        if slot.Some? {
          PublishScheduler.RotationCons(s.dataToPublish, cfg.pubDataMax, tail);
        }
      }
    }
  }

  /** With the two categories of `PubData_e`, the periodic publishes of any
      run from boot alternate status, temperature, status, ... */
  lemma PeriodicAlternatesFromBoot(cfg: Config, ins: seq<Inputs>)
    requires AllAcceptable(cfg, ins) && cfg.pubDataMax == 2
    ensures forall k :: 0 <= k < |PeriodicSlots(cfg, Init(), ins)| ==>
      PeriodicSlots(cfg, Init(), ins)[k] == if k % 2 == 0 then PUB_DATA_PC_STATUS else PUB_DATA_TEMP
  {
    var slots := PeriodicSlots(cfg, Init(), ins);
    PeriodicRotation(cfg, Init(), ins);
    forall k | 0 <= k < |slots|
      ensures slots[k] == if k % 2 == 0 then PUB_DATA_PC_STATUS else PUB_DATA_TEMP
    {
      PublishScheduler.Alternates(|slots|, k);
    }
  }

  /** The sync branch does not restart the interval clock: from a state with
      the flag raised, a sync announcement and a status publish can follow
      each other 1 ms apart, whatever the minimum interval. */
  lemma SyncSkipsInterval(cfg: Config, s: State, now: nat)
    requires s.isSyncing != 0 && now - s.lastPublishedMs > cfg.pubMinMs
    requires s.currentPcStatus == s.lastPublishedStatus && s.currentTemp == s.lastPublishedTemp
    requires cfg.pubTempThreshold >= 0.0
    ensures var r1 := PublishScheduler.Schedule(cfg, s, now);
      var r2 := PublishScheduler.Schedule(cfg, r1.state.(currentPcStatus := 1 - r1.state.lastPublishedStatus % 2), now + 1);
      r1.events == [PublishConnection(Synced(Inc16(s.syncCnt)))] &&
      r2.events == [PublishPcStatus(1 - s.lastPublishedStatus % 2)]
  {
  }

  /** The firmware's globals as fields, changed in place by `loop()`. */
  class Controller {
    const cfg: Config
    var connectCnt: Word16
    var syncCnt: Word16
    var currentPcStatus: Byte
    var lastReadStatus: Byte
    var lastPublishedStatus: Byte
    var lastStatusUnstableMs: nat
    var currentTemp: real
    var lastPublishedTemp: real
    var lastTempRequestMs: nat
    var lastPublishedMs: nat
    var dataToPublish: nat
    var isSyncing: Byte

    /** The globals as one value. */
    function Snapshot(): State
      reads this
    {
      State(connectCnt, syncCnt, currentPcStatus, lastReadStatus, lastPublishedStatus,
            lastStatusUnstableMs, currentTemp, lastPublishedTemp, lastTempRequestMs,
            lastPublishedMs, dataToPublish, isSyncing)
    }

    /** The globals with their static initialisers. */
    constructor (cfg: Config)
      ensures this.cfg == cfg && Snapshot() == Init()
    {
      this.cfg := cfg;
      connectCnt, syncCnt := 0, 0;
      currentPcStatus, lastReadStatus, lastPublishedStatus := STATUS_UNKNOWN, STATUS_UNKNOWN, STATUS_UNKNOWN;
      lastStatusUnstableMs := 0;
      currentTemp, lastPublishedTemp := TEMP_INITIAL, TEMP_INITIAL;
      lastTempRequestMs, lastPublishedMs := 0, 0;
      dataToPublish := PUB_DATA_PC_STATUS;
      isSyncing := 0;
    }

    /** `Subscription_Callback`: reads the PC status, changes no global. */
    method HandleMessage(m: Message) returns (pulse: Option<Pulse>)
      requires CommandDispatcher.Readable(cfg, m)
      ensures pulse == CommandDispatcher.Dispatch(cfg, currentPcStatus, m)
    {
      pulse := None;
      if m.topic == cfg.topicInPcState {
        var targetState := currentPcStatus;
        if m.payload[0] == 't' {
          targetState := 1;
        } else if m.payload[0] == 'f' {
          targetState := 0;
        }
        if targetState != currentPcStatus {
          if targetState == 1 {
            pulse := Some(Pulse(PowerSwitch, cfg.toggleOnMs));
          } else {
            pulse := Some(Pulse(PowerSwitch, cfg.toggleOffMs));
          }
        }
      } else if m.topic == cfg.topicInPcReset {
        if currentPcStatus == 1 {
          pulse := Some(Pulse(ResetSwitch, cfg.toggleOnMs));
        }
      }
    }

    /** `Publish_PcStatus`. */
    method PublishPcStatus(status: Byte) returns (e: Event)
      modifies this
      ensures Step(Snapshot(), [e]) == PublishScheduler.PublishStatus(old(Snapshot()), status)
    {
      e := Event.PublishPcStatus(status);
      lastPublishedStatus := status;
    }

    /** `Publish_Temperature`. */
    method PublishTemperature(temp: real) returns (e: Event)
      modifies this
      ensures Step(Snapshot(), [e]) == PublishScheduler.PublishTemp(old(Snapshot()), temp)
    {
      e := Event.PublishTemperature(temp);
      lastPublishedTemp := temp;
    }

    /** The publish ladder at the end of `loop()`. */
    method PublishData(now: nat) returns (events: seq<Event>)
      modifies this
      ensures Step(Snapshot(), events) == PublishScheduler.Schedule(cfg, old(Snapshot()), now)
    {
      events := [];
      if now - lastPublishedMs > cfg.pubMinMs {
        if currentPcStatus != lastPublishedStatus {
          var e := PublishPcStatus(currentPcStatus);
          events := [e];
          lastPublishedMs := now;
        } else if PublishScheduler.Abs(currentTemp - lastPublishedTemp) > cfg.pubTempThreshold {
          var e := PublishTemperature(currentTemp);
          events := [e];
          lastPublishedMs := now;
        } else if isSyncing != 0 {
          syncCnt := Inc16(syncCnt);
          events := [PublishConnection(Synced(syncCnt))];
          isSyncing := 0;
        } else if now - lastPublishedMs > cfg.pubPeriodicMs {
          if dataToPublish >= cfg.pubDataMax {
            dataToPublish := PUB_DATA_PC_STATUS;
          }
          if dataToPublish == PUB_DATA_PC_STATUS {
            var e := PublishPcStatus(currentPcStatus);
            events := [e];
          } else if dataToPublish == PUB_DATA_TEMP {
            var e := PublishTemperature(currentTemp);
            events := [e];
          }
          dataToPublish := dataToPublish + 1;
          lastPublishedMs := now;
        }
      }
    }

    /** The connection check at the top of `loop()`, with `Mqtt_Reconnect`. */
    method CheckConnection(inp: Inputs) returns (events: seq<Event>, clockMs: nat, halted: bool)
      modifies this
      ensures Phase(Snapshot(), events, clockMs, halted) == ServiceConnection(cfg, old(Snapshot()), inp)
    {
      events, clockMs, halted := [], inp.nowMs, false;
      if !inp.connected {
        connectCnt := Inc16(connectCnt);
        var o := ConnectionManager.Reconnect(inp.attempt, inp.nowMs);
        clockMs := o.atMs;
        if o.Restarted? {
          events, halted := [Restart], true;
          return;
        }
        events := ConnectionManager.Announce(cfg);
        lastPublishedMs, lastStatusUnstableMs := clockMs, clockMs;
      }
    }

    /** The temperature request, when the refresh interval has passed. */
    method PollTemperature(now: nat, reading: real)
      modifies this
      ensures Snapshot() == TemperaturePoller.Poll(old(Snapshot()), now, reading, cfg.tempRefreshMs)
    {
      if now - lastTempRequestMs > cfg.tempRefreshMs {
        currentTemp := reading;
        lastTempRequestMs := now;
      }
    }

    /** The status input read and debounced. */
    method ReadStatus(now: nat, raw: bool)
      modifies this
      ensures Snapshot() == Debouncer.Debounce(old(Snapshot()), Debouncer.Level(raw, cfg.inStatusInverted),
                                               now, cfg.debounceStatusMs)
    {
      var tmpStatus: Byte := if raw then 1 else 0;
      if cfg.inStatusInverted {
        tmpStatus := 1 - tmpStatus;
      }
      if tmpStatus != lastReadStatus {
        lastStatusUnstableMs := now;
        lastReadStatus := tmpStatus;
      }
      if now - lastStatusUnstableMs > cfg.debounceStatusMs {
        if currentPcStatus != tmpStatus {
          currentPcStatus := tmpStatus;
        }
      }
    }

    /** `client.loop()`: at most one message is handed to the callback. */
    method Receive(inp: Inputs) returns (pulse: Option<Pulse>)
      requires Acceptable(cfg, inp)
      ensures pulse == if inp.inbound.Some?
        then CommandDispatcher.Dispatch(cfg, currentPcStatus, inp.inbound.value) else None
    {
      pulse := None;
      if inp.inbound.Some? {
        pulse := HandleMessage(inp.inbound.value);
      }
    }

    /** The two sensor sections of `loop()` at time `now`. */
    method Sense(now: nat, inp: Inputs)
      modifies this
      ensures Snapshot() == Debouncer.Debounce(
        TemperaturePoller.Poll(old(Snapshot()), now, inp.reading, cfg.tempRefreshMs),
        Debouncer.Level(inp.raw, cfg.inStatusInverted), now, cfg.debounceStatusMs)
    {
      PollTemperature(now, inp.reading);
      ReadStatus(now, inp.raw);
    }

    /** The rest of `loop()` once connected at `clockMs`. */
    method ServeConnected(clockMs: nat, inp: Inputs) returns (events: seq<Event>, now: nat)
      requires Acceptable(cfg, inp)
      modifies this
      ensures Phase(Snapshot(), events, now, false) == Serve(cfg, old(Snapshot()), clockMs, inp)
    {
      var pulse := Receive(inp);
      // the pulse blocks the loop for its width
      now := clockMs + PulseMs(pulse);
      Sense(now, inp);
      ghost var sensed := Snapshot();
      var published := PublishData(now);
      ServeInStages(cfg, old(Snapshot()), clockMs, inp, pulse, sensed);
      events := PulseEvents(pulse) + published;
    }

    /** One pass of `loop()`. */
    method Tick(inp: Inputs) returns (events: seq<Event>, halted: bool)
      requires Acceptable(cfg, inp)
      modifies this
      ensures var r := TickSpec(cfg, old(Snapshot()), inp);
        Snapshot() == r.state && events == r.events && halted == r.halted
    {
      var clockMs;
      events, clockMs, halted := CheckConnection(inp);
      if halted {
        return;
      }
      var served, _ := ServeConnected(clockMs, inp);
      events := events + served;
    }
  }
}
