/** The status input filter of `loop()`: a raw reading of the PC status line
    is accepted as the PC status only after it has held still for longer
    than the debounce window. */
module Debouncer {
  import opened Types

  /** The reading as `loop()` uses it: `digitalRead` gives 0 or 1, and the
      configuration may invert it. */
  function Level(raw: bool, inverted: bool): (b: Byte)
    ensures b == 0 || b == 1
    ensures b == 1 <==> raw != inverted
  {
    var tmp: Byte := if raw then 1 else 0;
    if inverted then 1 - tmp else tmp
  }

  /** One pass of the debounce code at time `now` with the (already inverted)
      `sample`. Only the three debounce globals can change. */
  function Debounce(s: State, sample: Byte, now: nat, windowMs: nat): (r: State)
    ensures r.lastReadStatus == sample
    ensures r.lastStatusUnstableMs == if sample != s.lastReadStatus then now else s.lastStatusUnstableMs
    // the status only ever takes the value of the current sample ...
    ensures r.currentPcStatus == s.currentPcStatus || r.currentPcStatus == sample
    // ... and changes exactly when the sample repeats the previous one, that
    // sample has been stable for longer than the window, and it differs
    ensures r.currentPcStatus != s.currentPcStatus <==>
      sample == s.lastReadStatus && now - s.lastStatusUnstableMs > windowMs && sample != s.currentPcStatus
    ensures r == s.(currentPcStatus := r.currentPcStatus, lastReadStatus := r.lastReadStatus,
                    lastStatusUnstableMs := r.lastStatusUnstableMs)
  {
    var s1 := if sample != s.lastReadStatus
      then s.(lastStatusUnstableMs := now, lastReadStatus := sample)
      else s;
    if now - s1.lastStatusUnstableMs > windowMs && s1.currentPcStatus != sample
    then s1.(currentPcStatus := sample)
    else s1
  }

  /** A raw reading taken by one tick at time `atMs`. */
  datatype Sample = Sample(raw: bool, atMs: nat)

  /** The debounce globals after one tick per sample, oldest first. */
  function Run(s: State, trace: seq<Sample>, inverted: bool, windowMs: nat): State
    decreases |trace|
  {
    if trace == [] then s
    else
      var last := trace[|trace| - 1];
      Debounce(Run(s, trace[..|trace| - 1], inverted, windowMs), Level(last.raw, inverted), last.atMs, windowMs)
  }

  /** Every sample from index `i` to index `k` (both included) reads `v`. */
  ghost predicate HeldBetween(trace: seq<Sample>, i: nat, k: nat, v: Byte, inverted: bool)
    requires i <= k < |trace|
  {
    forall j :: i <= j <= k ==> Level(trace[j].raw, inverted) == v
  }

  /** No run of consecutive samples reading `v` lasts longer than the window. */
  ghost predicate RunsShort(trace: seq<Sample>, v: Byte, inverted: bool, windowMs: nat) {
    forall i, k :: 0 <= i <= k < |trace| && HeldBetween(trace, i, k, v, inverted) ==>
      trace[k].atMs - trace[i].atMs <= windowMs
  }

  ghost predicate Monotone(trace: seq<Sample>) {
    forall i, j :: 0 <= i <= j < |trace| ==> trace[i].atMs <= trace[j].atMs
  }

  /** Dropping the newest sample keeps every run short. */
  lemma RunsShortPrefix(trace: seq<Sample>, v: Byte, inverted: bool, windowMs: nat)
    requires trace != [] && RunsShort(trace, v, inverted, windowMs)
    ensures RunsShort(trace[..|trace| - 1], v, inverted, windowMs)
  {
    var p := trace[..|trace| - 1];
    forall i, k | 0 <= i <= k < |p| && HeldBetween(p, i, k, v, inverted)
      ensures p[k].atMs - p[i].atMs <= windowMs
    {
      assert HeldBetween(trace, i, k, v, inverted);
    }
  }

  /** The invariant behind GlitchRejected: while every excursion to `1 - v`
      is short, the status stays `v`; a pending excursion started at the
      sample whose time is recorded as the unstable timestamp. */
  ghost predicate Pending(r: State, trace: seq<Sample>, v: Byte, inverted: bool)
  {
    r.lastReadStatus == v ||
    (r.lastReadStatus == 1 - v &&
     exists i :: 0 <= i < |trace| && HeldBetween(trace, i, |trace| - 1, 1 - v, inverted) &&
                 r.lastStatusUnstableMs == trace[i].atMs)
  }

  lemma {:induction false} GlitchInvariant(s: State, trace: seq<Sample>, v: Byte, inverted: bool, windowMs: nat)
    requires v == 0 || v == 1
    requires s.currentPcStatus == v && s.lastReadStatus == v
    requires RunsShort(trace, 1 - v, inverted, windowMs)
    ensures Run(s, trace, inverted, windowMs).currentPcStatus == v
    ensures Pending(Run(s, trace, inverted, windowMs), trace, v, inverted)
    decreases |trace|
  {
    if trace != [] {
      var n := |trace| - 1;
      var p := trace[..n];
      RunsShortPrefix(trace, 1 - v, inverted, windowMs);
      GlitchInvariant(s, p, v, inverted, windowMs);
      var q := Run(s, p, inverted, windowMs);
      var x := Level(trace[n].raw, inverted);
      var r := Debounce(q, x, trace[n].atMs, windowMs);
      assert r == Run(s, trace, inverted, windowMs);
      if x == 1 - v {
        if q.lastReadStatus == 1 - v {
          var i :| 0 <= i < |p| && HeldBetween(p, i, |p| - 1, 1 - v, inverted) && q.lastStatusUnstableMs == p[i].atMs;
          assert p[i] == trace[i];
          assert HeldBetween(trace, i, n, 1 - v, inverted) by {
            forall j | i <= j <= n ensures Level(trace[j].raw, inverted) == 1 - v {
              if j < n { assert p[j] == trace[j]; }
            }
          }
          assert r.lastStatusUnstableMs == trace[i].atMs;
        } else {
          assert HeldBetween(trace, n, n, 1 - v, inverted);
        }
      }
    }
  }

  /** A flip of the input that never lasts longer than the debounce window
      cannot change a settled status. */
  lemma GlitchRejected(s: State, trace: seq<Sample>, v: Byte, inverted: bool, windowMs: nat)
    requires v == 0 || v == 1
    requires s.currentPcStatus == v && s.lastReadStatus == v
    requires RunsShort(trace, 1 - v, inverted, windowMs)
    ensures Run(s, trace, inverted, windowMs).currentPcStatus == v
  {
    GlitchInvariant(s, trace, v, inverted, windowMs);
  }

  /** With a monotone clock, every sample taken after the recorded unstable
      timestamp agrees with the last read status. */
  lemma {:induction false} StableSinceUnstable(s: State, trace: seq<Sample>, inverted: bool, windowMs: nat)
    requires Monotone(trace)
    ensures var r := Run(s, trace, inverted, windowMs);
      forall j :: 0 <= j < |trace| && trace[j].atMs > r.lastStatusUnstableMs ==>
        Level(trace[j].raw, inverted) == r.lastReadStatus
    decreases |trace|
  {
    if trace != [] {
      var n := |trace| - 1;
      var p := trace[..n];
      assert forall j :: 0 <= j < n ==> p[j] == trace[j];
      StableSinceUnstable(s, p, inverted, windowMs);
    }
  }

  /** The converse of GlitchRejected: when a tick changes the status, the new
      value is what every sample of the last `windowMs` milliseconds read. */
  lemma CommitHeld(s: State, trace: seq<Sample>, inverted: bool, windowMs: nat)
    requires Monotone(trace) && trace != []
    requires Run(s, trace, inverted, windowMs).currentPcStatus !=
             Run(s, trace[..|trace| - 1], inverted, windowMs).currentPcStatus
    ensures var r := Run(s, trace, inverted, windowMs);
      var last := trace[|trace| - 1];
      r.currentPcStatus == Level(last.raw, inverted) &&
      forall j :: 0 <= j < |trace| && trace[j].atMs + windowMs >= last.atMs ==>
        Level(trace[j].raw, inverted) == r.currentPcStatus
  {
    StableSinceUnstable(s, trace, inverted, windowMs);
  }

  /** With a monotone clock that starts no earlier than the recorded unstable
      timestamp, that timestamp never runs ahead of the newest sample. */
  lemma {:induction false} UnstableNotAhead(s: State, trace: seq<Sample>, inverted: bool, windowMs: nat)
    requires Monotone(trace) && trace != [] && s.lastStatusUnstableMs <= trace[0].atMs
    ensures Run(s, trace, inverted, windowMs).lastStatusUnstableMs <= trace[|trace| - 1].atMs
    decreases |trace|
  {
    var n := |trace| - 1;
    if n > 0 {
      var p := trace[..n];
      assert forall j :: 0 <= j < n ==> p[j] == trace[j];
      UnstableNotAhead(s, p, inverted, windowMs);
    }
  }

  /** After a stretch of samples reading `v` from index `i` on, the last read
      status is `v` and the unstable timestamp is no later than sample `i`. */
  lemma {:induction false} HeldSince(s: State, trace: seq<Sample>, inverted: bool, windowMs: nat, i: nat, v: Byte)
    requires Monotone(trace) && i < |trace| && s.lastStatusUnstableMs <= trace[0].atMs
    requires HeldBetween(trace, i, |trace| - 1, v, inverted)
    ensures Run(s, trace, inverted, windowMs).lastReadStatus == v
    ensures Run(s, trace, inverted, windowMs).lastStatusUnstableMs <= trace[i].atMs
    decreases |trace|
  {
    var n := |trace| - 1;
    var p := trace[..n];
    assert forall j :: 0 <= j < n ==> p[j] == trace[j];
    assert Level(trace[n].raw, inverted) == v;
    if n == i {
      if i > 0 {
        UnstableNotAhead(s, p, inverted, windowMs);
      }
    } else {
      assert HeldBetween(p, i, n - 1, v, inverted);
      HeldSince(s, p, inverted, windowMs, i, v);
    }
  }

  /** The converse of CommitHeld: a reading that every sample has given for
      longer than the debounce window is the status. */
  lemma HeldCommits(s: State, trace: seq<Sample>, inverted: bool, windowMs: nat, i: nat, v: Byte)
    requires Monotone(trace) && i < |trace| && s.lastStatusUnstableMs <= trace[0].atMs
    requires HeldBetween(trace, i, |trace| - 1, v, inverted)
    requires trace[|trace| - 1].atMs - trace[i].atMs > windowMs
    ensures Run(s, trace, inverted, windowMs).currentPcStatus == v
  {
    var n := |trace| - 1;
    var p := trace[..n];
    assert forall j :: 0 <= j < n ==> p[j] == trace[j];
    assert Level(trace[n].raw, inverted) == v;
    assert HeldBetween(p, i, n - 1, v, inverted);
    HeldSince(s, p, inverted, windowMs, i, v);
  }
}
