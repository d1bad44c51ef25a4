/** The subscription callback: an inbound message on the power-state topic
    may pulse the power switch, one on the reset topic may pulse the reset
    switch, and nothing else has any effect. The callback changes no global. */
module CommandDispatcher {
  import opened Types

  /** The callback reads the first payload byte of a power-state message
      without looking at the length, so such a message must carry one. */
  predicate Readable(cfg: Config, m: Message) {
    m.topic == cfg.topicInPcState ==> |m.payload| >= 1
  }

  /** The status the power-state command asks for: 1 for 't', 0 for 'f',
      and otherwise the current one, which means "leave it". */
  function TargetState(first: char, current: Byte): (target: Byte)
    ensures first == 't' ==> target == 1
    ensures first == 'f' ==> target == 0
    ensures first != 't' && first != 'f' ==> target == current
  {
    if first == 't' then 1
    else if first == 'f' then 0
    else current
  }

  /** The pulse, if any, that `Subscription_Callback` issues for `m` while the
      PC status global holds `current`. The power-state topic is compared first. */
  function Dispatch(cfg: Config, current: Byte, m: Message): (p: Option<Pulse>)
    requires Readable(cfg, m)
    // power command: a pulse exactly when the asked-for state is a change
    ensures m.topic == cfg.topicInPcState ==>
      (p.Some? <==> (m.payload[0] == 't' && current != 1) || (m.payload[0] == 'f' && current != 0))
    // ... on the power line, `TOGGLE_ON` for on, `TOGGLE_OFF` for off
    ensures m.topic == cfg.topicInPcState && p.Some? ==>
      p.value == Pulse(PowerSwitch, if m.payload[0] == 't' then cfg.toggleOnMs else cfg.toggleOffMs)
    // reset command: the payload does not matter, only that the PC is on
    ensures m.topic != cfg.topicInPcState && m.topic == cfg.topicInPcReset ==>
      p == (if current == 1 then Some(Pulse(ResetSwitch, cfg.toggleOnMs)) else None)
    // any other topic is ignored
    ensures m.topic != cfg.topicInPcState && m.topic != cfg.topicInPcReset ==> p == None
  {
    if m.topic == cfg.topicInPcState then
      var target := TargetState(m.payload[0], current);
      if target != current then
        Some(Pulse(PowerSwitch, if target == 1 then cfg.toggleOnMs else cfg.toggleOffMs))
      else None
    else if m.topic == cfg.topicInPcReset then
      if current == 1 then Some(Pulse(ResetSwitch, cfg.toggleOnMs)) else None
    else None
  }

  /** A command that asks for the state the PC is already in never pulses:
      repeating a power command after it took effect changes nothing. */
  lemma PowerCommandIdempotent(cfg: Config, current: Byte, m: Message)
    requires m.topic == cfg.topicInPcState && |m.payload| >= 1
    ensures Dispatch(cfg, TargetState(m.payload[0], current), m) == None
  {
  }
}
