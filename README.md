# lolin32 PC power controller — a Dafny model

The lolin32 board sits next to a PC. It watches the PC's power-status line
and a temperature sensor, and it can pulse the PC's power and reset
switches. It talks to an MQTT broker:

- It publishes the PC status, the temperature and connection announcements.
- It subscribes to a power-state topic (`t`/`f` payloads) and a reset topic.

All of its behaviour lives in the globals of `main.cpp` and in one pass of
`loop()`.

This project models that control logic one component at a time. A
component is first a pure function of the globals. Then it becomes a method
of the class `Device.Controller`, whose fields are the globals and whose
methods change them step by step as `loop()` does. Each such method is
proved to reach exactly the state, and emit exactly the events, that the
function describes. The properties of the firmware are then proved about
the functions, both for one tick and over whole runs of ticks.

I/O becomes data:

- Inputs of a tick (`Device.Inputs`):
  - the clock on entry;
  - whether the client is connected;
  - the outcome of every reconnect attempt;
  - the message `client.loop()` delivers, if any;
  - the value the sensor would return;
  - the raw status pin.
- Outputs of a tick (`Types.Event`):
  - publishes (status, temperature, connection text);
  - subscriptions;
  - actuator pulses;
  - the restart.

Modules, one per file:

| file | module | models |
|---|---|---|
| types.dfy | Types | integer widths of the globals, the configuration constants of `main.h` as parameters, events, the record of all globals and their initial values |
| debouncer.dfy | Debouncer | the status input filter |
| temperature.dfy | TemperaturePoller | the sensor poll cadence |
| scheduler.dfy | PublishScheduler | the publish gate and ladder, `Publish_PcStatus`, `Publish_Temperature`, the periodic rotation |
| connection.dfy | ConnectionManager | `Mqtt_Reconnect`'s retry/restart loop and the announcement on success |
| commands.dfy | CommandDispatcher | `Subscription_Callback` with `TogglePc`/`ResetPc` as pulses |
| device.dfy | Device | one tick (`TickSpec`), runs of ticks, and the class `Controller` |

Time inside one tick works like this:

- The clock starts at the time given on entry.
- The reconnect loop advances it by each attempt's duration, plus 5000 ms after each failure.
- A switch pulse blocks the loop for its width (`delay(TOGGLE_ON)` / `delay(TOGGLE_OFF)`).
- The sensor read takes no time.

`PubData_e` and the configuration constants are declared in `main.h`, which
is not part of this model. `PUB_DATA_PC_STATUS` and `PUB_DATA_TEMP` are
assumed to be 0 and 1, declared in that order. `PUB_DATA_MAX` is a parameter. The two topics are parameters
too; when they are equal, the power-state topic wins, as in the code.

In these places the code does something one might not expect, and the
model does what the code does:

- `is_syncing` is never raised, so the sync branch is dead from boot. `Device.NeverSyncs` proves this.
- The sync branch does not restart the publish interval clock. `Device.SyncSkipsInterval` shows the consequence.
- There is no guard for the initial temperature of -127.
- The reset topic ignores its payload.
- Both the debounce commit and the publish gates use a strict `>`.

## Model

| member | source | states |
|---|---|---|
| Types.Init | boards/lolin32/src/main.cpp:33-48 | the initial globals: status fields 255, both temperatures -127, counters, timers and sync flag 0, cursor at the status category |
| Types.Inc16 | boards/lolin32/src/main.cpp:34-35 | `uint16_t` increment: +1 below 65535, and 65535 wraps to 0 |
| Debouncer.Level | boards/lolin32/src/main.cpp:111-114 | the sample is 0 or 1, and it is 1 exactly when the raw pin differs from the inversion setting |
| Debouncer.Debounce | boards/lolin32/src/main.cpp:116-129 | the sample is recorded; the unstable timestamp restarts exactly on a flip; the status only takes the sample's value; it changes iff the sample repeats the last read, has been stable for strictly more than the window, and differs from the status; no other global changes |
| Debouncer.GlitchInvariant | boards/lolin32/src/main.cpp:116-129 | over any trace where no run of the opposite reading outlasts the window, the settled status is kept, and a pending excursion's start is what the unstable timestamp holds |
| Debouncer.GlitchRejected | boards/lolin32/src/main.cpp:116-129 | a flip of the input that never lasts longer than the debounce window cannot change a settled status |
| Debouncer.StableSinceUnstable | boards/lolin32/src/main.cpp:117-120 | with a monotone clock, every sample taken after the recorded unstable timestamp agrees with the last read status |
| Debouncer.CommitHeld | boards/lolin32/src/main.cpp:123-129 | when a tick changes the status, the new status is the last sample and every sample of the preceding window read it |
| Debouncer.UnstableNotAhead | boards/lolin32/src/main.cpp:117-120 | with a monotone clock, the recorded unstable timestamp is never later than the newest sample |
| Debouncer.HeldSince | boards/lolin32/src/main.cpp:116-120 | after a stretch of samples all reading `v` from some sample on, the last read status is `v`, and the unstable timestamp is no later than that sample |
| Debouncer.HeldCommits | boards/lolin32/src/main.cpp:123-129 | the converse of CommitHeld: a reading every sample has given for longer than the debounce window is the status |
| TemperaturePoller.Poll | boards/lolin32/src/main.cpp:96-106 | temperature and request time change only when more than the refresh interval has passed; when it has, they become the reading and the current time; nothing else changes |
| TemperaturePoller.ReadsSpaced | boards/lolin32/src/main.cpp:96-106 | over any monotone run, the sensor reads come more than the refresh interval after the last request and more than the interval apart |
| TemperaturePoller.HoldsLastReading | boards/lolin32/src/main.cpp:96-106 | after a run, temperature and request time are the initial ones exactly when no poll of the run read the sensor; otherwise they are the reading and time of the last offer whose poll read it (no later poll reads), and that time is the last of the run's read times |
| PublishScheduler.Abs | boards/lolin32/src/main.cpp:137 | `fabs`: non-negative, equal to the argument or its negation |
| PublishScheduler.PublishStatus | boards/lolin32/src/main.cpp:208-217 | one status publish, and only `last_published_status` changes, to the value sent |
| PublishScheduler.PublishTemp | boards/lolin32/src/main.cpp:219-238 | one temperature publish, and only `last_published_temp` changes, to the unrounded argument |
| PublishScheduler.PeriodicSlot | boards/lolin32/src/main.cpp:153 | a cursor at or past `PUB_DATA_MAX` resets to the status category; the slot is always below the maximum when there is one |
| PublishScheduler.Schedule | boards/lolin32/src/main.cpp:131-161 | the minimum-interval gate; at most one publish per tick; the status wins over the temperature, and both win over sync and periodic; whenever the gate is open, neither status nor temperature is due and the flag is raised, the sync branch runs: it announces `Synced` with `sync_cnt` plus 1, clears the flag, and changes nothing else, the clock included; the other branches set the clock to now; the periodic branch publishes the slot's category and moves the cursor past it; with the gate open and no branch due (periodic interval not yet passed), nothing is published and nothing changes; what is published is remembered; only the publish globals change |
| PublishScheduler.PublishedNotDueAgain | boards/lolin32/src/main.cpp:134-140 | after a status or temperature publish, that same condition is no longer due (threshold non-negative) |
| PublishScheduler.Rotation | boards/lolin32/src/main.cpp:153-158 | the categories of n periodic publishes in a row from a cursor: exactly n of them; Device.PeriodicRotation proves that the ladder's periodic publishes over any run are this sequence |
| PublishScheduler.RotationSteps | boards/lolin32/src/main.cpp:153-158 | each periodic category is below the maximum and is the cyclic successor of the previous one |
| PublishScheduler.RotationRunsUp | boards/lolin32/src/main.cpp:153-158 | from the first slot the rotation counts up to the last category, then returns to the status |
| PublishScheduler.Alternates | boards/lolin32/src/main.cpp:153-158 | with two categories and a fresh cursor, periodic publishes alternate status, temperature, status, ... |
| ConnectionManager.FailedElapsed | boards/lolin32/src/main.cpp:184-190 | every failed attempt costs at least the 5000 ms wait |
| ConnectionManager.ReconnectFrom | boards/lolin32/src/main.cpp:167-197 | the loop ends within 25 attempts; it ends connected only on a successful attempt; it restarts only after a failed attempt that took the elapsed time past 120000 ms |
| ConnectionManager.ReconnectHistory | boards/lolin32/src/main.cpp:172-196 | every attempt before the last failed; the time check after each earlier failure let the loop go on; the end time is the start plus the attempts and waits |
| ConnectionManager.FirstSuccessWins | boards/lolin32/src/main.cpp:175-183 | a success after failures that stayed within the limit always connects, before any time check, however long it takes |
| ConnectionManager.Reconnect | boards/lolin32/src/main.cpp:167-197 | the `while` retry loop returns exactly the outcome ReconnectFrom describes |
| ConnectionManager.RefusedUntilRestart | boards/lolin32/src/main.cpp:184-196 | a broker that always refuses instantly makes the device restart after exactly 25 attempts, 125000 ms after entry |
| CommandDispatcher.TargetState | boards/lolin32/src/main.cpp:251-260 | target 1 for `t`, 0 for `f`, else the current status |
| CommandDispatcher.Dispatch | boards/lolin32/src/main.cpp:249-288 | state topic: pulse iff the asked-for state differs from the current one, power line, `TOGGLE_ON` for on and `TOGGLE_OFF` for off; reset topic: a `TOGGLE_ON` reset pulse iff the PC is on, whatever the payload; any other topic: nothing |
| CommandDispatcher.PowerCommandIdempotent | boards/lolin32/src/main.cpp:250-272 | a power command repeated once the PC is in its target state issues no pulse |
| Device.ServiceConnection | boards/lolin32/src/main.cpp:88-92 | connected: nothing happens; disconnected: `connect_cnt` up by one, the clock moved to the time the reconnect loop ended, then either `[Restart]` with nothing else changed, or the announcement with both timers set to that time |
| Device.Prepare | boards/lolin32/src/main.cpp:93-129 | between the connection check and the publish code, the only event is the callback's pulse for the delivered message (as Dispatch gives it), the clock moves on by exactly its width, and the globals are polled and then debounced at that clock, so only the temperature and debounce globals change |
| Device.Serve | boards/lolin32/src/main.cpp:93-161 | the connected part of a tick never halts, never moves the clock back and keeps `connect_cnt` |
| Device.TickSpec | boards/lolin32/src/main.cpp:86-162 | a tick ends no earlier than it started; a restart emits only `Restart`; `connect_cnt` counts one per disconnected tick |
| Device.TickKeepsInv | boards/lolin32/src/main.cpp:37-39 | the status globals stay off, on or unknown (255) |
| Device.TickSyncFlag | boards/lolin32/src/main.cpp:141-149 | no tick raises the sync flag; a sync announcement needs it raised |
| Device.TickPublishClock | boards/lolin32/src/main.cpp:131-161 | the interval clock never moves back; a scheduler publish needs more than `PUB_MIN_MS` since it; such a publish, sync aside, sets it to now |
| Device.PublishesSpaced | boards/lolin32/src/main.cpp:131-161 | over any run with the flag down, scheduler publishes come more than `PUB_MIN_MS` after the last recorded one and more than `PUB_MIN_MS` apart |
| Device.PublishesSpacedFromBoot | boards/lolin32/src/main.cpp:131-161 | the spacing holds for every run from the initial globals |
| Device.NeverSyncs | boards/lolin32/src/main.cpp:141-149 | from a lowered flag, no run ever raises it or announces a sync |
| Device.TickSlot | boards/lolin32/src/main.cpp:150-158 | the category a tick's periodic branch publishes is the slot of the cursor the tick started with: nothing before the publish code moves the cursor |
| Device.TickCursor | boards/lolin32/src/main.cpp:153-158 | a tick leaves the cursor just past the category its periodic branch published, and untouched when that branch did not run |
| Device.TickPeriodicEvents | boards/lolin32/src/main.cpp:153-156 | a tick whose periodic branch runs ends with the publish of that branch's category |
| Device.PeriodicRotation | boards/lolin32/src/main.cpp:150-159 | over any run, the categories of the periodic publishes are Rotation from the run's starting cursor |
| Device.PeriodicAlternatesFromBoot | boards/lolin32/src/main.cpp:153-158 | with `PUB_DATA_MAX` 2, the periodic publishes of any run from boot alternate status, temperature, status, ... |
| Device.SyncSkipsInterval | boards/lolin32/src/main.cpp:141-149 | with the flag raised, a sync announcement and a status publish can come 1 ms apart, whatever `PUB_MIN_MS` |
| Device.Controller.constructor | boards/lolin32/src/main.cpp:33-48 | the fields start at the initial globals |
| Device.Controller.HandleMessage | boards/lolin32/src/main.cpp:240-289 | the callback with its local `target_state` returns the pulse Dispatch describes and changes no global |
| Device.Controller.PublishPcStatus | boards/lolin32/src/main.cpp:208-217 | the method reaches the state and event of PublishStatus |
| Device.Controller.PublishTemperature | boards/lolin32/src/main.cpp:219-238 | the method reaches the state and event of PublishTemp |
| Device.Controller.PublishData | boards/lolin32/src/main.cpp:131-161 | the in-place ladder reaches the state and events of Schedule |
| Device.Controller.CheckConnection | boards/lolin32/src/main.cpp:88-92 | the in-place connection check reaches the state, events, clock and halt of ServiceConnection |
| Device.Controller.PollTemperature | boards/lolin32/src/main.cpp:96-106 | the in-place poll reaches the state Poll describes |
| Device.Controller.ReadStatus | boards/lolin32/src/main.cpp:110-129 | the in-place read-invert-debounce reaches the state Debounce describes for the Level sample |
| Device.Controller.Receive | boards/lolin32/src/main.cpp:93 | at most one delivered message goes to the callback, and its pulse is Dispatch's |
| Device.Controller.Sense | boards/lolin32/src/main.cpp:95-129 | poll then debounce, in place |
| Device.Controller.ServeConnected | boards/lolin32/src/main.cpp:93-161 | the connected part of `loop()` in place reaches Serve's state, events and clock |
| Device.Controller.Tick | boards/lolin32/src/main.cpp:86-162 | one pass of `loop()` in place reaches TickSpec's state, events and halt |

## Left out

- Serial logging, pin set-up, `Wifi_Connect`, `setup()` and the broker client's own behaviour are I/O. They appear only as tick inputs and emitted events.
- The DHT driver is an input: the value it would return. Its return code `chk` is ignored by the code and by the model.
- The broker connection attempt is an input: whether it succeeds and how long it takes.
- `ESP.restart()` is a terminal `Restart` event. The tick stops there, and only `connect_cnt` has changed. A run of ticks (`Device.Run`, `Device.RunEvents`, `Device.PublishTimes`, `Device.PeriodicSlots`) also ends at the restart. The rebooted device would start a new run from the initial globals with its clock back at 0, and the model does not join two runs across a reboot.
- `delay()` is an advance of the model clock.
- The float-to-`int16_t` rounding and `snprintf` formatting in `Publish_Temperature` and `Publish_PcStatus` are left out. Temperatures are real numbers, and a publish event carries the unrounded value.
- `snprintf` of `"Synced(%d)"` and of the client id: the events carry the counter value or an abstract client-id marker.
- Temperatures are exact reals. Float precision is not modelled.
- `millis()` wrap-around and the `long`/`uint32_t` mixing are left out. Timestamps are unbounded naturals.
- The temperature poll and the debounce read `millis()` separately in the code. The model reads the clock once, after any switch pulse, so it treats the sensor read as instantaneous.
- CommandDispatcher.Dispatch: requires a non-empty payload on the power-state topic. The code reads `payload[0]` without a length check, and the empty case has no defined behaviour to model.
- The reset topic's read of `payload[0]` feeds only the unused local `reset`, so the reset topic accepts any payload.
- Device.Controller.HandleMessage, Device.Controller.Tick: carry the same non-empty power-state payload requirement, through `Acceptable`.
- The non-blocking reconnect, a guard for the sentinel temperature and a payload-checked reset do not exist in the code and are not modelled.
- `PDI/MqttService/Persistence/Mapper/PowerStripMapper.cs` is a field-by-field copy between two types that are not part of this model. It has no control logic.
- `ConnectionManager.Announce` and `Device.Controller.Snapshot` are plain constructions with no contract of their own.
- Device.Serve, Device.TickSpec: their own ensures are only the framing facts. Their behaviour is stated through the component functions they compose and the lemmas above.
