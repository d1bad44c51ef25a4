/** Vocabulary shared by the components of the lolin32 PC controller: the
    integer widths of its globals, the compile-time configuration, the events
    a control tick emits in place of I/O, and the record of all globals. */
module Types {

  /** `unsigned char`, the type of every status global. */
  type Byte = x: int | 0 <= x < 0x100

  /** `uint16_t`, the type of the connection and sync counters. */
  type Word16 = x: int | 0 <= x < 0x1_0000

  /** `x++` on a `uint16_t`: wraps from 65535 back to 0. */
  function Inc16(x: Word16): (r: Word16)
    ensures x < 0xFFFF ==> r == x + 1
    ensures x == 0xFFFF ==> r == 0
  {
    (x + 1) % 0x1_0000
  }

  /** Initial value of the three status globals: neither off (0) nor on (1). */
  const STATUS_UNKNOWN: Byte := 255

  /** Initial value of both temperature globals. */
  const TEMP_INITIAL: real := -127.0

  /** Members of `PubData_e`, in declaration order. */
  const PUB_DATA_PC_STATUS: nat := 0
  const PUB_DATA_TEMP: nat := 1

  /** Wait after a failed broker connection attempt. */
  const RETRY_DELAY_MS: nat := 5000

  /** The device restarts once the reconnect loop has run longer than this. */
  const RESTART_AFTER_MS: nat := 2 * 60000

  datatype Option<T> = None | Some(value: T)

  /** Compile-time constants of the firmware, taken as parameters. */
  datatype Config = Config(
    debounceStatusMs: nat,
    pubMinMs: nat,
    pubPeriodicMs: nat,
    pubTempThreshold: real,
    tempRefreshMs: nat,
    toggleOnMs: nat,
    toggleOffMs: nat,
    pubDataMax: nat,
    inStatusInverted: bool,
    topicInPcState: string,
    topicInPcReset: string)

  /** An actuator line driven active for a while and then released. */
  datatype Line = PowerSwitch | ResetSwitch
  datatype Pulse = Pulse(line: Line, widthMs: nat)

  /** Text published on the connection topic: the client id after a
      reconnect, or "Synced(n)" from the sync branch of the scheduler. */
  datatype ConnText = ClientId | Synced(count: Word16)

  /** Everything a tick does to the outside world. */
  datatype Event =
    | PublishConnection(text: ConnText)
    | PublishPcStatus(status: Byte)
    | PublishTemperature(temp: real)
    | Subscribe(topic: string)
    | Actuate(pulse: Pulse)
    | Restart

  /** An inbound broker message as handed to the subscription callback. */
  datatype Message = Message(topic: string, payload: string)

  /** The globals of the firmware, one field each. */
  datatype State = State(
    connectCnt: Word16,
    syncCnt: Word16,
    currentPcStatus: Byte,
    lastReadStatus: Byte,
    lastPublishedStatus: Byte,
    lastStatusUnstableMs: nat,
    currentTemp: real,
    lastPublishedTemp: real,
    lastTempRequestMs: nat,
    lastPublishedMs: nat,
    dataToPublish: nat,
    isSyncing: Byte)

  /** The globals as they are initialised before `setup()` runs. */
  function Init(): (s: State)
    ensures s.currentPcStatus == s.lastReadStatus == s.lastPublishedStatus == STATUS_UNKNOWN
    ensures s.currentTemp == s.lastPublishedTemp == TEMP_INITIAL
    ensures s.connectCnt == s.syncCnt == 0 && s.isSyncing == 0
    ensures s.lastStatusUnstableMs == s.lastTempRequestMs == s.lastPublishedMs == 0
    ensures s.dataToPublish == PUB_DATA_PC_STATUS
  {
    State(0, 0, STATUS_UNKNOWN, STATUS_UNKNOWN, STATUS_UNKNOWN, 0,
          TEMP_INITIAL, TEMP_INITIAL, 0, 0, PUB_DATA_PC_STATUS, 0)
  }

  /** A status global holds off, on, or the initial unknown value. */
  predicate StatusValue(b: Byte) {
    b == 0 || b == 1 || b == STATUS_UNKNOWN
  }

  predicate Inv(s: State) {
    StatusValue(s.currentPcStatus) && StatusValue(s.lastReadStatus) &&
    StatusValue(s.lastPublishedStatus)
  }

  /** A new state together with the events emitted on the way to it. */
  datatype Step = Step(state: State, events: seq<Event>)

  /** Every time in `t` is more than `gap` after `since`, and any two are
      more than `gap` apart. */
  ghost predicate Spaced(t: seq<nat>, since: nat, gap: nat) {
    (forall i :: 0 <= i < |t| ==> t[i] > since + gap) &&
    (forall i, j :: 0 <= i < j < |t| ==> t[j] - t[i] > gap)
  }

  /** A time more than `gap` after `since`, followed by times spaced from it,
      gives times spaced from `since`. */
  lemma SpacedCons(c: nat, tail: seq<nat>, since: nat, gap: nat)
    requires c > since + gap && Spaced(tail, c, gap)
    ensures Spaced([c] + tail, since, gap)
  {
    var t := [c] + tail;
    assert forall i :: 0 < i < |t| ==> t[i] == tail[i - 1];
  }

  /** Spacing from a later time implies spacing from an earlier one. */
  lemma SpacedEarlier(t: seq<nat>, since: nat, earlier: nat, gap: nat)
    requires earlier <= since && Spaced(t, since, gap)
    ensures Spaced(t, earlier, gap)
  {
  }
}
