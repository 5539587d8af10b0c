/** The battery relay FSM of the BMS carrier: three states (OPEN, CLOSED,
    FAULT), entry actions that drive the contactors and persist the relay
    state, and per-tick input handlers that run the fault evaluation and
    follow the externally requested relay state. */
module RelaysFsm {
  import opened Common
  import opened Cells
  import opened BmsTrace
  import opened FaultCheck

  datatype RelayState = Open | Closed | Fault

  /** When one tick issues two fsm_transition requests (the fault check asks
      for FAULT, then the handler asks for the requested state), the FSM
      library decides which one takes effect. That library is not part of
      this model, so the rule is a parameter. */
  datatype Resolution = FirstWins | LastWins

  /** The levels of the three contactor enables (true = high = closed). */
  datatype Pins = Pins(pos: bool, neg: bool, solar: bool)

  const AllLow: Pins := Pins(false, false, false)
  const AllHigh: Pins := Pins(true, true, true)

  /** The controller's state: the FSM's current state, fsm_prev_state, the
      contactor outputs, and the last relay state handed to persistence. */
  datatype Relays = Relays(state: RelayState, prev: RelayState, pins: Pins, persisted: Option<RelayInfo>)

  /** What the outside world supplies for one tick: the AFE's answers and the
      requested relay state (get_bms_relays_relays_state). */
  datatype TickInput = TickInput(sensors: Sensors, request: RelayState)

  /** The result of a tick or of a run of ticks. */
  datatype Step = Step(next: Relays, events: seq<Event>)

  /** The transition table: the only edges the FSM accepts. They are exactly
      the moves between two different states that do not leave FAULT. */
  predicate Allowed(from: RelayState, to: RelayState)
    ensures from == Fault ==> !Allowed(from, to)
    ensures from != Fault ==> (Allowed(from, to) <==> from != to)
  {
    match from
    case Open => to == Closed || to == Fault
    case Closed => to == Open || to == Fault
    case Fault => false
  }

  // ---------------------------------------------------------------------
  // Contactor outputs

  function WritePin(p: Pins, c: Contactor, high: bool): Pins
  {
    match c
    case PosRelay => p.(pos := high)
    case NegRelay => p.(neg := high)
    case SolarRelay => p.(solar := high)
  }

  /** The contactor levels after one event. */
  function Apply(p: Pins, e: Event): Pins
  {
    match e
    case PinWrite(c, high) => WritePin(p, c, high)
    case PinInit(c, high) => WritePin(p, c, high)
    case _ => p
  }

  /** The contactor levels after the GPIO writes of a trace, starting from `p`. */
  function ApplyWrites(p: Pins, ev: seq<Event>): Pins
    decreases |ev|
  {
    if ev == [] then p else ApplyWrites(Apply(p, ev[0]), ev[1..])
  }

  lemma {:induction false} ApplyWritesAppend(p: Pins, a: seq<Event>, b: seq<Event>)
    ensures ApplyWrites(p, a + b) == ApplyWrites(ApplyWrites(p, a), b)
    decreases |a|
  {
    if a == [] {
      assert a + b == b;
    } else {
      assert (a + b)[1..] == a[1..] + b;
      ApplyWritesAppend(Apply(p, a[0]), a[1..], b);
    }
  }

  /** A trace without GPIO writes leaves the contactors where they were. */
  lemma {:induction false} ApplyWritesNoWrites(p: Pins, ev: seq<Event>)
    requires NoGpioWrites(ev)
    ensures ApplyWrites(p, ev) == p
    decreases |ev|
  {
    if ev != [] {
      ApplyWritesNoWrites(p, ev[1..]);
    }
  }

  lemma ApplyFour(p: Pins, r: seq<Event>)
    requires |r| == 4
    ensures ApplyWrites(p, r) == Apply(Apply(Apply(Apply(p, r[0]), r[1]), r[2]), r[3])
  {
    var r1 := r[1..];
    var r2 := r1[1..];
    var r3 := r2[1..];
    assert r1[0] == r[1] && r2[0] == r[2] && r3[0] == r[3] && r3[1..] == [];
    var q1 := Apply(p, r[0]);
    var q2 := Apply(q1, r[1]);
    var q3 := Apply(q2, r[2]);
    var q4 := Apply(q3, r[3]);
    calc {
      ApplyWrites(p, r);
      ApplyWrites(q1, r1);
      ApplyWrites(q2, r2);
      ApplyWrites(q3, r3);
      ApplyWrites(q4, r3[1..]);
      q4;
    }
  }

  lemma ApplyThree(p: Pins, r: seq<Event>)
    requires |r| == 3
    ensures ApplyWrites(p, r) == Apply(Apply(Apply(p, r[0]), r[1]), r[2])
  {
    var r1 := r[1..];
    var r2 := r1[1..];
    assert r1[0] == r[1] && r2[0] == r[2] && r2[1..] == [];
    var q1 := Apply(p, r[0]);
    var q2 := Apply(q1, r[1]);
    calc {
      ApplyWrites(p, r);
      ApplyWrites(q1, r1);
      ApplyWrites(q2, r2);
      ApplyWrites(Apply(q2, r[2]), r2[1..]);
    }
  }

  /** close_relays: positive, negative, then solar high, back to back. Three
      high writes and nothing else, which energise every contactor whatever
      the outputs were. */
  function CloseRelays(): (r: seq<Event>)
    ensures |r| == 3 && forall i :: 0 <= i < |r| ==> r[i].PinWrite? && r[i].high
    ensures forall p :: ApplyWrites(p, r) == AllHigh
  {
    var r := [PinWrite(PosRelay, true), PinWrite(NegRelay, true), PinWrite(SolarRelay, true)];
    forall p ensures ApplyWrites(p, r) == AllHigh {
      ApplyThree(p, r);
    }
    r
  }

  /** open_relays: three low writes and nothing else, which de-energise every
      contactor whatever the outputs were. */
  function OpenRelays(): (r: seq<Event>)
    ensures |r| == 3 && forall i :: 0 <= i < |r| ==> r[i].PinWrite? && !r[i].high
    ensures forall p :: ApplyWrites(p, r) == AllLow
  {
    var r := [PinWrite(PosRelay, false), PinWrite(NegRelay, false), PinWrite(SolarRelay, false)];
    forall p ensures ApplyWrites(p, r) == AllLow {
      ApplyThree(p, r);
    }
    r
  }

  /** The contactor levels each state stands for. */
  function PinsFor(s: RelayState): Pins
  {
    if s == Closed then AllHigh else AllLow
  }

  /** The relay-info value each state persists. */
  function InfoFor(s: RelayState): RelayInfo
  {
    match s
    case Open => InfoOpen
    case Closed => InfoClose
    case Fault => InfoFault
  }

  /** The output (entry) action of a state: drive the contactors, then persist. */
  function EntryEvents(s: RelayState): (r: seq<Event>)
    ensures |r| == 4 && r[3] == PersistRelayInfo(InfoFor(s))
    ensures forall p :: ApplyWrites(p, r) == PinsFor(s)
    ensures s == Closed ==> r[..3] == CloseRelays()
    ensures s != Closed ==> r[..3] == OpenRelays()
    ensures forall i :: 0 <= i < |r| ==> !r[i].Delay? && !r[i].PinInit?
  {
    var drive := if s == Closed then CloseRelays() else OpenRelays();
    var r := drive + [PersistRelayInfo(InfoFor(s))];
    forall p ensures ApplyWrites(p, r) == PinsFor(s) {
      ApplyFour(p, r);
    }
    r
  }

  /** Enter state `s`: run its output function, which also sets fsm_prev_state. */
  function Enter(r: Relays, s: RelayState): (t: Step)
    ensures t.next.state == s && t.next.prev == s
    ensures t.next.pins == PinsFor(s) && t.next.persisted == Some(InfoFor(s))
    ensures t.next.pins == ApplyWrites(r.pins, t.events)
    ensures t.events == EntryEvents(s)
  {
    var ev := EntryEvents(s);
    Step(Relays(s, s, ApplyWrites(r.pins, ev), Some(InfoFor(s))), ev)
  }

  // ---------------------------------------------------------------------
  // Invariant

  /** What holds of the controller between ticks: the contactors match the
      state, fsm_prev_state equals the state, and the persisted relay info
      names the state (nothing is persisted before the first entry action,
      while the FSM still sits in its initial OPEN state). */
  predicate Consistent(r: Relays)
  {
    && r.prev == r.state
    && r.pins == PinsFor(r.state)
    && (r.persisted == Some(InfoFor(r.state)) || (r.persisted == None && r.state == Open))
  }

  // ---------------------------------------------------------------------
  // Input handlers

  /** The state the OPEN and CLOSED handlers move to when the request names it. */
  function HandlerTarget(s: RelayState): (t: RelayState)
    ensures s != Fault ==> Allowed(s, t) && t != Fault
  {
    match s
    case Open => Closed
    case Closed => Open
    case Fault => Fault
  }

  /** The transition requests an OPEN or CLOSED handler issues in one tick, in
      order: FAULT from a failed evaluation, then the requested state. */
  function Requests(s: RelayState, fault: bool, request: RelayState): seq<RelayState>
  {
    (if fault then [Fault] else []) + (if request == HandlerTarget(s) then [request] else [])
  }

  function Resolve(policy: Resolution, reqs: seq<RelayState>): (r: Option<RelayState>)
    ensures r.None? <==> reqs == []
    ensures r.Some? ==> r.value in reqs
  {
    if reqs == [] then None
    else match policy
      case FirstWins => Some(reqs[0])
      case LastWins => Some(reqs[|reqs| - 1])
  }

  /** The OPEN or CLOSED input handler after its fault evaluation `e`: the
      transition it takes (if any) and that state's entry action. */
  function Handle(policy: Resolution, r: Relays, e: Evaluation, request: RelayState): (t: Step)
    requires r.state != Fault && NoGpioWrites(e.events)
    ensures t.next.state == r.state || Allowed(r.state, t.next.state)
    ensures t.next.state == r.state ==> t == Step(r, e.events)
    ensures t.next.state != r.state ==>
      t.events == e.events + EntryEvents(t.next.state) && t.next == Enter(r, t.next.state).next
    ensures t.next.pins == ApplyWrites(r.pins, t.events)
    ensures Consistent(r) ==> Consistent(t.next)
  {
    var target := Resolve(policy, Requests(r.state, e.fault, request));
    ApplyWritesNoWrites(r.pins, e.events);
    if target.Some? && Allowed(r.state, target.value) then
      var entry := Enter(r, target.value);
      ApplyWritesAppend(r.pins, e.events, entry.events);
      Step(entry.next, e.events + entry.events)
    else
      Step(r, e.events)
  }

  /** One FSM tick: run the current state's input handler, then the entry
      action of the state it transitions to, if any. */
  function Tick(policy: Resolution, r: Relays, input: TickInput): (t: Step)
    requires r.state != Fault ==> Readable(input.sensors)
    // FAULT's handler does nothing
    ensures r.state == Fault ==> t == Step(r, [])
    // only edges of the transition table are taken
    ensures t.next.state == r.state || Allowed(r.state, t.next.state)
    // without a transition nothing changes and no contactor is written
    ensures t.next.state == r.state ==> t.next == r && NoGpioWrites(t.events)
    // an OPEN or CLOSED tick is the fault evaluation, followed by exactly the
    // entry action of the new state when it transitions
    ensures r.state != Fault && t.next.state == r.state ==> t.events == Evaluate(input.sensors).events
    ensures t.next.state != r.state ==>
      t.events == Evaluate(input.sensors).events + EntryEvents(t.next.state)
    // the contactor record follows the GPIO writes of the trace
    ensures t.next.pins == ApplyWrites(r.pins, t.events)
    ensures Consistent(r) ==> Consistent(t.next)
  {
    if r.state == Fault then Step(r, [])
    else
      var e := Evaluate(input.sensors);
      Handle(policy, r, e, input.request)
  }

  // ---------------------------------------------------------------------
  // One tick: what the fault evaluation and the request decide

  /** With the first request winning, a failed evaluation in OPEN or CLOSED
      moves the FSM to FAULT in the same tick, with every contactor low and
      FAULT persisted, whatever the requested state. */
  lemma FirstWinsFaultOpensContactors(r: Relays, e: Evaluation, request: RelayState)
    requires r.state != Fault && NoGpioWrites(e.events) && e.fault
    ensures Handle(FirstWins, r, e, request).next.state == Fault
    ensures Handle(FirstWins, r, e, request).next.pins == AllLow
    ensures Handle(FirstWins, r, e, request).next.persisted == Some(InfoFault)
  {
  }

  /** With the last request winning, the handler's request overrides the
      FAULT that a failed evaluation asked for: in OPEN with CLOSED requested
      the contactors close although the fault check failed. */
  lemma LastWinsRequestOverridesFault(r: Relays, e: Evaluation, request: RelayState)
    requires r.state != Fault && NoGpioWrites(e.events) && e.fault
    requires request == HandlerTarget(r.state)
    ensures Handle(LastWins, r, e, request).next.state == HandlerTarget(r.state)
    ensures r.state == Open ==> Handle(LastWins, r, e, request).next.pins == AllHigh
  {
  }

  /** Either rule sends a failed evaluation to FAULT when the request does not
      name the other state. */
  lemma FaultWithoutRequestFaults(policy: Resolution, r: Relays, e: Evaluation, request: RelayState)
    requires r.state != Fault && NoGpioWrites(e.events) && e.fault
    requires request != HandlerTarget(r.state)
    ensures Handle(policy, r, e, request).next.state == Fault
    ensures Handle(policy, r, e, request).next.pins == AllLow
  {
  }

  /** After a passing evaluation, OPEN and CLOSED move to the other state
      exactly when it is the requested one, and stay put otherwise. */
  lemma PassingTickFollowsRequest(policy: Resolution, r: Relays, e: Evaluation, request: RelayState)
    requires r.state != Fault && NoGpioWrites(e.events) && !e.fault
    ensures Handle(policy, r, e, request).next.state ==
      (if request == HandlerTarget(r.state) then HandlerTarget(r.state) else r.state)
  {
  }

  /** The same at the level of a whole tick: a failed fault evaluation in
      OPEN or CLOSED is FAULT, with the contactors de-energised, by the end of
      that tick. */
  lemma TickFaultOpensContactors(r: Relays, input: TickInput)
    requires Readable(input.sensors) && r.state != Fault
    requires Evaluate(input.sensors).fault
    ensures Tick(FirstWins, r, input).next.state == Fault
    ensures Tick(FirstWins, r, input).next.pins == AllLow
  {
    var e := Evaluate(input.sensors);
    assert Tick(FirstWins, r, input) == Handle(FirstWins, r, e, input.request);
    FirstWinsFaultOpensContactors(r, e, input.request);
  }

  lemma NoWritesNoCount(ev: seq<Event>, c: Contactor, high: bool)
    requires NoGpioWrites(ev)
    ensures Count(ev, PinWrite(c, high)) == 0
  {
  }

  lemma EntryCounts()
    ensures Count(EntryEvents(Closed), PinWrite(PosRelay, true)) == 1
    ensures Count(EntryEvents(Closed), PinWrite(NegRelay, true)) == 1
    ensures Count(EntryEvents(Closed), PinWrite(SolarRelay, true)) == 1
  {
    var entry := EntryEvents(Closed);
    assert entry == [PinWrite(PosRelay, true), PinWrite(NegRelay, true),
                     PinWrite(SolarRelay, true), PersistRelayInfo(InfoClose)];
  }

  /** Closing from OPEN: after the fault evaluation, positive, negative and
      solar are written high in that order, back to back with no delay
      between them, then CLOSE is persisted; each is written exactly once. */
  lemma ClosingOrder(policy: Resolution, r: Relays, e: Evaluation, request: RelayState)
    requires r.state == Open && NoGpioWrites(e.events)
    requires Handle(policy, r, e, request).next.state == Closed
    ensures Handle(policy, r, e, request).events ==
      e.events + [PinWrite(PosRelay, true), PinWrite(NegRelay, true),
                  PinWrite(SolarRelay, true), PersistRelayInfo(InfoClose)]
    ensures
      var ev := Handle(policy, r, e, request).events;
      && Count(ev, PinWrite(PosRelay, true)) == 1
      && Count(ev, PinWrite(NegRelay, true)) == 1
      && Count(ev, PinWrite(SolarRelay, true)) == 1
  {
    var ev := Handle(policy, r, e, request).events;
    var entry := EntryEvents(Closed);
    assert ev == e.events + entry;
    assert multiset(ev) == multiset(e.events) + multiset(entry);
    EntryCounts();
    NoWritesNoCount(e.events, PosRelay, true);
    NoWritesNoCount(e.events, NegRelay, true);
    NoWritesNoCount(e.events, SolarRelay, true);
  }

  // ---------------------------------------------------------------------
  // Initialisation

  /** delay_ms between the AFE and current-sense initialisation. */
  const InitDelayMs: nat := 10

  datatype Boot = Boot(relays: Relays, events: seq<Event>, status: StatusCode)

  /** init_bms_relays: bring up the I2C bus, the AFE and current sense, drive
      the three contactor enables low as push-pull outputs, and start the FSM
      in OPEN. `powerOn` is whatever the outputs held before. */
  function Init(powerOn: Pins): (b: Boot)
    ensures b.relays.state == Open && b.relays.pins == AllLow
    ensures b.relays.pins == ApplyWrites(powerOn, b.events)
    ensures Consistent(b.relays) && b.relays.persisted == None
    ensures b.status == Ok
    ensures b.events == [I2cInit, AfeInit, Delay(InitDelayMs), CurrentSenseInit,
                         PinInit(PosRelay, false), PinInit(NegRelay, false), PinInit(SolarRelay, false)]
  {
    var bringUp := [I2cInit, AfeInit, Delay(InitDelayMs), CurrentSenseInit];
    var pins := [PinInit(PosRelay, false), PinInit(NegRelay, false), PinInit(SolarRelay, false)];
    var ev := bringUp + pins;
    ApplyWritesNoWrites(powerOn, bringUp);
    ApplyWritesAppend(powerOn, bringUp, pins);
    assert pins[1..][1..][1..] == [];
    Boot(Relays(Open, Open, ApplyWrites(powerOn, ev), None), ev, Ok)
  }

  // ---------------------------------------------------------------------
  // Runs of ticks

  /** Readable sensors on every input: enough for any run (ReadyWhenReadable). */
  predicate AllReadable(inputs: seq<TickInput>)
  {
    inputs == [] || (Readable(inputs[0].sensors) && AllReadable(inputs[1..]))
  }

  /** What a run needs from its inputs: readable sensors on every tick taken
      outside FAULT. Ticks taken once the run has reached FAULT read nothing,
      so their inputs are unconstrained. */
  predicate Ready(policy: Resolution, r: Relays, inputs: seq<TickInput>)
    decreases |inputs|
  {
    || inputs == []
    || r.state == Fault
    || (Readable(inputs[0].sensors) && Ready(policy, Tick(policy, r, inputs[0]).next, inputs[1..]))
  }

  /** Tick the FSM once per input, in order. FAULT absorbs every input
      silently; outside FAULT every tick leaves events (at least the
      conversion trigger), so the trace is empty exactly when nothing ran. */
  function Run(policy: Resolution, r: Relays, inputs: seq<TickInput>): (t: Step)
    requires Ready(policy, r, inputs)
    ensures r.state == Fault ==> t == Step(r, [])
    ensures t.events == [] <==> inputs == [] || r.state == Fault
    decreases |inputs|
  {
    if inputs == [] then Step(r, [])
    else
      var first := Tick(policy, r, inputs[0]);
      var rest := Run(policy, first.next, inputs[1..]);
      TickEmits(policy, r, inputs[0]);
      Step(rest.next, first.events + rest.events)
  }

  /** A tick records something exactly when the FSM is OPEN or CLOSED: its
      fault evaluation starts with a conversion trigger. */
  lemma TickEmits(policy: Resolution, r: Relays, input: TickInput)
    requires r.state != Fault ==> Readable(input.sensors)
    ensures Tick(policy, r, input).events != [] <==> r.state != Fault
  {
    if r.state != Fault {
      EvaluateEmits(input.sensors);
      var t := Tick(policy, r, input);
      ExtendsNonEmpty(t.events, Evaluate(input.sensors).events, EntryEvents(t.next.state));
    }
  }

  lemma ExtendsNonEmpty(t: seq<Event>, e: seq<Event>, entry: seq<Event>)
    requires e != [] && (t == e || t == e + entry)
    ensures t != []
  {
    assert |t| >= |e|;
  }

  lemma EvaluateEmits(s: Sensors)
    requires Readable(s)
    ensures Evaluate(s).events != []
  {
    var e := Evaluate(s).events;
    if s.trigger == Ok {
      assert [TriggerConversion, Delay(SettleDelayMs)] <= e;
    } else {
      assert [TriggerConversion, Delay(RetryDelayMs), TriggerConversion, Delay(SettleDelayMs)] <= e;
    }
  }

  /** A run keeps the relays consistent, and its final contactor outputs are
      exactly what its trace of GPIO writes leaves behind. */
  lemma {:induction false} RunConsistent(policy: Resolution, r: Relays, inputs: seq<TickInput>)
    requires Ready(policy, r, inputs)
    ensures var t := Run(policy, r, inputs);
      && (Consistent(r) ==> Consistent(t.next))
      && t.next.pins == ApplyWrites(r.pins, t.events)
    decreases |inputs|
  {
    if inputs != [] {
      var first := Tick(policy, r, inputs[0]);
      RunConsistent(policy, first.next, inputs[1..]);
      var rest := Run(policy, first.next, inputs[1..]);
      ApplyWritesAppend(r.pins, first.events, rest.events);
    }
  }

  /** Inputs whose sensors are all readable can be run from any state. */
  lemma {:induction false} ReadyWhenReadable(policy: Resolution, r: Relays, inputs: seq<TickInput>)
    requires AllReadable(inputs)
    ensures Ready(policy, r, inputs)
    decreases |inputs|
  {
    if inputs != [] && r.state != Fault {
      ReadyWhenReadable(policy, Tick(policy, r, inputs[0]).next, inputs[1..]);
    }
  }

  /** One tick, then the rest of the run: the same first tick starts both a
      run of `a` and a run of `a + b`. */
  lemma RunUnfold(policy: Resolution, r: Relays, a: seq<TickInput>, b: seq<TickInput>) returns (first: Step)
    requires a != [] && r.state != Fault && Ready(policy, r, a)
    ensures Ready(policy, first.next, a[1..]) && (a + b)[1..] == a[1..] + b
    ensures Ready(policy, first.next, a[1..] + b) ==> Ready(policy, r, a + b)
    ensures var rest := Run(policy, first.next, a[1..]);
      Run(policy, r, a) == Step(rest.next, first.events + rest.events)
    ensures Ready(policy, first.next, a[1..] + b) ==>
      var rest := Run(policy, first.next, a[1..] + b);
      Run(policy, r, a + b) == Step(rest.next, first.events + rest.events)
  {
    TailAppend(a, b);
    first := Tick(policy, r, a[0]);
  }

  /** Running two input sequences one after the other is running their
      concatenation; the concatenation can be run whenever the second
      sequence can be run from where the first left off. */
  lemma {:induction false} RunAppend(policy: Resolution, r: Relays, a: seq<TickInput>, b: seq<TickInput>)
    requires Ready(policy, r, a) && Ready(policy, Run(policy, r, a).next, b)
    ensures Ready(policy, r, a + b)
    ensures var m := Run(policy, r, a);
      var t := Run(policy, m.next, b);
      Run(policy, r, a + b) == Step(t.next, m.events + t.events)
    decreases |a|
  {
    if a == [] {
      RunAppendNil(policy, r, a, b);
    } else if r.state == Fault {
      RunAppendFromFault(policy, r, a, b);
    } else {
      var first := RunUnfold(policy, r, a, b);
      RunAppend(policy, first.next, a[1..], b);
      RunAppendCons(policy, r, a, b, first);
    }
  }

  /** RunAppend with nothing run first. */
  lemma RunAppendNil(policy: Resolution, r: Relays, a: seq<TickInput>, b: seq<TickInput>)
    requires a == [] && Ready(policy, r, b)
    ensures Ready(policy, r, a) && Ready(policy, r, a + b)
    ensures Run(policy, r, a + b) == Step(Run(policy, r, b).next, Run(policy, r, a).events + Run(policy, r, b).events)
  {
    NilAppend(a, b);
    assert Run(policy, r, a) == Step(r, []);
    NilAppend([], Run(policy, r, b).events);
  }

  /** RunAppend from FAULT: every run of it is empty. */
  lemma RunAppendFromFault(policy: Resolution, r: Relays, a: seq<TickInput>, b: seq<TickInput>)
    requires r.state == Fault
    ensures Ready(policy, r, a) && Ready(policy, r, b) && Ready(policy, r, a + b)
    ensures Run(policy, r, a + b) == Step(r, Run(policy, r, a).events + Run(policy, r, b).events)
  {
  }

  /** The inductive step of RunAppend: the first tick, then the rest. */
  lemma RunAppendCons(policy: Resolution, r: Relays, a: seq<TickInput>, b: seq<TickInput>, first: Step)
    requires a != [] && Ready(policy, r, a) && Ready(policy, Run(policy, r, a).next, b)
    requires Ready(policy, r, a + b) && Ready(policy, first.next, a[1..]) && Ready(policy, first.next, a[1..] + b)
    requires var rest := Run(policy, first.next, a[1..]);
      Run(policy, r, a) == Step(rest.next, first.events + rest.events)
    requires var rest := Run(policy, first.next, a[1..] + b);
      Run(policy, r, a + b) == Step(rest.next, first.events + rest.events)
    requires var m := Run(policy, first.next, a[1..]);
      && Ready(policy, m.next, b)
      && var t := Run(policy, m.next, b);
      Run(policy, first.next, a[1..] + b) == Step(t.next, m.events + t.events)
    ensures var m := Run(policy, r, a);
      var t := Run(policy, m.next, b);
      Run(policy, r, a + b) == Step(t.next, m.events + t.events)
  {
    var mid := Run(policy, first.next, a[1..]);
    StepConcat(Run(policy, r, a + b), first, Run(policy, first.next, a[1..] + b), mid, Run(policy, mid.next, b));
  }

  lemma StepConcat(whole: Step, first: Step, rest: Step, mid: Step, tail: Step)
    requires whole == Step(rest.next, first.events + rest.events)
    requires rest == Step(tail.next, mid.events + tail.events)
    ensures whole == Step(tail.next, (first.events + mid.events) + tail.events)
  {
    assert first.events + (mid.events + tail.events) == (first.events + mid.events) + tail.events;
  }

  /** Once a run has reached FAULT, any further inputs, readable or not, leave
      it there and add no events. */
  lemma FaultIsFinal(policy: Resolution, r: Relays, a: seq<TickInput>, b: seq<TickInput>)
    requires Ready(policy, r, a)
    requires Run(policy, r, a).next.state == Fault
    ensures Ready(policy, r, a + b)
    ensures Run(policy, r, a + b) == Run(policy, r, a)
  {
    var m := Run(policy, r, a);
    assert Ready(policy, m.next, b);
    RunAppend(policy, r, a, b);
    StepEmptyTail(Run(policy, r, a + b), m, Run(policy, m.next, b));
  }

  lemma StepEmptyTail(whole: Step, m: Step, t: Step)
    requires t == Step(m.next, [])
    requires whole == Step(t.next, m.events + t.events)
    ensures whole == m
  {
    assert m.events + [] == m.events;
  }

  /** From initialisation on, the contactors are energised only in CLOSED,
      fsm_prev_state tracks the current state, and the persisted relay info
      names it once any state has been entered. */
  lemma ContactorsMatchStateAfterInit(policy: Resolution, powerOn: Pins, inputs: seq<TickInput>)
    requires Ready(policy, Init(powerOn).relays, inputs)
    ensures
      var r := Run(policy, Init(powerOn).relays, inputs).next;
      && (r.state == Open || r.state == Fault ==> r.pins == AllLow)
      && (r.state == Closed ==> r.pins == AllHigh)
      && r.prev == r.state
  {
    RunConsistent(policy, Init(powerOn).relays, inputs);
  }
}
