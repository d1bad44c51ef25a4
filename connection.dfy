/** The blocking reconnect of `Mqtt_Reconnect`: connection attempts are
    repeated, with a fixed wait after each failure, until one succeeds or the
    loop has run for longer than two minutes, when the device restarts. */
module ConnectionManager {
  import opened Types

  /** What the broker client does on one connection attempt: whether it
      connects, and how long the attempt itself takes. */
  datatype Attempt = Attempt(connected: bool, tookMs: nat)

  /** How the reconnect loop ends: after `attempts` attempts, at `atMs`. */
  datatype Outcome = Connected(attempts: nat, atMs: nat) | Restarted(attempts: nat, atMs: nat)

  /** More failed attempts than this are impossible: each one adds the retry
      wait to the elapsed time, and the loop restarts once past the limit. */
  const MAX_ATTEMPTS: nat := 25

  /** Time spent by the loop on its first `n` attempts when all of them fail. */
  function FailedElapsed(attempt: nat -> Attempt, n: nat): (e: nat)
    ensures e >= n * RETRY_DELAY_MS
  {
    if n == 0 then 0 else FailedElapsed(attempt, n - 1) + attempt(n - 1).tookMs + RETRY_DELAY_MS
  }

  /** The outcome of the loop started at `start`, once `k` attempts have
      failed without reaching the time limit. */
  function ReconnectFrom(attempt: nat -> Attempt, start: nat, k: nat): (r: Outcome)
    requires FailedElapsed(attempt, k) <= RESTART_AFTER_MS
    ensures k < r.attempts <= MAX_ATTEMPTS
    ensures r.atMs >= start
    // a success ends the loop at once, whatever the time
    ensures r.Connected? ==> attempt(r.attempts - 1).connected
    // a restart comes only after a failure that took the loop past the limit
    ensures r.Restarted? ==> !attempt(r.attempts - 1).connected
    ensures r.Restarted? ==> FailedElapsed(attempt, r.attempts) > RESTART_AFTER_MS
    decreases RESTART_AFTER_MS - FailedElapsed(attempt, k)
  {
    var a := attempt(k);
    if a.connected then Connected(k + 1, start + FailedElapsed(attempt, k) + a.tookMs)
    else if FailedElapsed(attempt, k + 1) > RESTART_AFTER_MS then
      Restarted(k + 1, start + FailedElapsed(attempt, k + 1))
    else ReconnectFrom(attempt, start, k + 1)
  }

  /** The rest of what the loop promises: every attempt before the last one
      failed, the time check after each of those failures let the loop go
      on, and the loop ends at the time its attempts and waits add up to. */
  lemma {:induction false} ReconnectHistory(attempt: nat -> Attempt, start: nat, k: nat)
    requires FailedElapsed(attempt, k) <= RESTART_AFTER_MS
    ensures forall i :: k <= i < ReconnectFrom(attempt, start, k).attempts - 1 ==> !attempt(i).connected
    ensures forall i :: k < i < ReconnectFrom(attempt, start, k).attempts ==>
      FailedElapsed(attempt, i) <= RESTART_AFTER_MS
    ensures ReconnectFrom(attempt, start, k).atMs == start + FailedElapsed(attempt, ReconnectFrom(attempt, start, k).attempts) -
      (if ReconnectFrom(attempt, start, k).Connected? then RETRY_DELAY_MS else 0)
    decreases RESTART_AFTER_MS - FailedElapsed(attempt, k)
  {
    var a := attempt(k);
    if !a.connected && FailedElapsed(attempt, k + 1) <= RESTART_AFTER_MS {
      ReconnectHistory(attempt, start, k + 1);
    }
  }

  /** Conversely, the first successful attempt ends the loop connected
      whenever the failures before it stayed within the limit, however long
      that attempt itself takes. */
  lemma {:induction false} FirstSuccessWins(attempt: nat -> Attempt, start: nat, k: nat, n: nat)
    requires k <= n && FailedElapsed(attempt, n) <= RESTART_AFTER_MS
    requires forall i :: k <= i < n ==> !attempt(i).connected
    requires attempt(n).connected
    ensures FailedElapsed(attempt, k) <= RESTART_AFTER_MS
    ensures ReconnectFrom(attempt, start, k) ==
      Connected(n + 1, start + FailedElapsed(attempt, n) + attempt(n).tookMs)
    decreases n - k
  {
    ElapsedGrows(attempt, k, n);
    if k < n {
      ElapsedGrows(attempt, k + 1, n);
      FirstSuccessWins(attempt, start, k + 1, n);
    }
  }

  lemma {:induction false} ElapsedGrows(attempt: nat -> Attempt, k: nat, n: nat)
    requires k <= n
    ensures FailedElapsed(attempt, k) <= FailedElapsed(attempt, n)
    decreases n - k
  {
    if k < n { ElapsedGrows(attempt, k + 1, n); }
  }

  /** `Mqtt_Reconnect` entered at `start`: the retry loop itself. */
  method Reconnect(attempt: nat -> Attempt, start: nat) returns (r: Outcome)
    ensures r == ReconnectFrom(attempt, start, 0)
    ensures r.atMs >= start
  {
    var k := 0;
    var elapsed := 0;  // millis() - millis_start
    while true
      invariant elapsed == FailedElapsed(attempt, k) <= RESTART_AFTER_MS
      invariant ReconnectFrom(attempt, start, k) == ReconnectFrom(attempt, start, 0)
      decreases RESTART_AFTER_MS - elapsed
    {
      var a := attempt(k);
      if a.connected {
        r := Connected(k + 1, start + elapsed + a.tookMs);
        return;
      }
      elapsed := elapsed + a.tookMs + RETRY_DELAY_MS;
      k := k + 1;
      if elapsed > RESTART_AFTER_MS {
        r := Restarted(k, start + elapsed);
        return;
      }
    }
  }

  /** The messages sent right after a successful connection: the client id
      announcement and the two subscriptions. */
  function Announce(cfg: Config): seq<Event>
  {
    [PublishConnection(ClientId), Subscribe(cfg.topicInPcState), Subscribe(cfg.topicInPcReset)]
  }

  /** A broker that always refuses makes the device restart after exactly
      25 failed attempts when each attempt is instant: 125 s after entry. */
  lemma {:induction false} RefusedUntilRestart(attempt: nat -> Attempt, start: nat, k: nat)
    requires forall i :: attempt(i) == Attempt(false, 0)
    requires k < MAX_ATTEMPTS
    ensures FailedElapsed(attempt, k) <= RESTART_AFTER_MS
    ensures ReconnectFrom(attempt, start, k) == Restarted(MAX_ATTEMPTS, start + MAX_ATTEMPTS * RETRY_DELAY_MS)
    decreases MAX_ATTEMPTS - k
  {
    FailedElapsedConstant(attempt, k);
    FailedElapsedConstant(attempt, k + 1);
    if k + 1 < MAX_ATTEMPTS {
      RefusedUntilRestart(attempt, start, k + 1);
    }
  }

  lemma {:induction false} FailedElapsedConstant(attempt: nat -> Attempt, n: nat)
    requires forall i :: attempt(i) == Attempt(false, 0)
    ensures FailedElapsed(attempt, n) == n * RETRY_DELAY_MS
  {
    if n > 0 { FailedElapsedConstant(attempt, n - 1); }
  }
}
