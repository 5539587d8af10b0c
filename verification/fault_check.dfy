/** One pass of the BMS fault evaluation (prv_bms_fault_ok_or_transition):
    trigger a cell conversion with a single retry, settle, read the cells,
    publish the maximum cell voltage, then run the AFE fault check. The
    driver calls are answered by a sensor oracle; their side effects are
    recorded in the event trace. */
module FaultCheck {
  import opened Common
  import opened Cells
  import opened BmsTrace

  /** delay_ms before retrying a failed conversion trigger. */
  const RetryDelayMs: nat := 5
  /** delay_ms between the conversion trigger and the status check. */
  const SettleDelayMs: nat := 10
  /** delay_ms after every cell of the scan loop. */
  const CellDelayMs: nat := 1

  /** What the AFE driver answers during one pass: the status of the first
      trigger and of the retry (consulted only when the first one fails), the
      status of the cell read and the store's voltages and lookup table after
      it, and the status of the AFE fault check. */
  datatype Sensors = Sensors(
    trigger: StatusCode,
    retry: StatusCode,
    readCells: StatusCode,
    voltages: seq<u16>,
    lookup: seq<nat>,
    afeFault: StatusCode)

  /** The AFE store's lookup table addresses its voltage array for every
      configured cell. */
  predicate Readable(s: Sensors)
  {
    LookupInRange(s.voltages, s.lookup, NumCells)
  }

  /** The outcome of a pass: whether it requests FAULT, the maximum voltage
      it published (if it got that far), and the events it produced. */
  datatype Evaluation = Evaluation(fault: bool, published: Option<u16>, events: seq<Event>)

  /** Both the conversion trigger and its retry failed. */
  predicate ConversionFailed(s: Sensors)
  {
    s.trigger != Ok && s.retry != Ok
  }

  /** The conversion step: the trigger, the retry after a delay when the
      first trigger fails, then the settle delay. */
  function ConversionEvents(trigger: StatusCode): (r: seq<Event>)
    ensures Count(r, TriggerConversion) == (if trigger == Ok then 1 else 2)
    ensures trigger == Ok ==> r == [TriggerConversion, Delay(SettleDelayMs)]
    ensures trigger != Ok ==>
      r == [TriggerConversion, Delay(RetryDelayMs), TriggerConversion, Delay(SettleDelayMs)]
    ensures Count(r, ReadCells) == 0 && Count(r, AfeFaultCheck) == 0
    ensures NoPublish(r) && NoGpioWrites(r) && NoPersist(r)
  {
    if trigger == Ok then [TriggerConversion, Delay(SettleDelayMs)]
    else [TriggerConversion, Delay(RetryDelayMs), TriggerConversion, Delay(SettleDelayMs)]
  }

  /** The scan step: fuel-gauge read, cell read, one delay per cell, then the
      publish of the maximum `m` and the AFE fault check. */
  function ScanEvents(m: u16): (r: seq<Event>)
    ensures |r| == NumCells + 4
    ensures r[1] == ReadCells && r[|r| - 2] == PublishMaxVoltage(m) && r[|r| - 1] == AfeFaultCheck
    ensures Count(r, TriggerConversion) == 0 && Count(r, PublishMaxVoltage(m)) == 1
    // the cells are read once and the AFE fault check runs once
    ensures Count(r, ReadCells) == 1 && Count(r, AfeFaultCheck) == 1
    // the publish of m is the scan's only publish
    ensures NoPublish(r[..|r| - 2])
    ensures NoGpioWrites(r) && NoPersist(r)
  {
    ScanCounts(Delay(CellDelayMs), NumCells, m);
    ScanOnce(Delay(CellDelayMs), NumCells, m);
    ScanLayout(Delay(CellDelayMs), NumCells, m);
    [FuelGaugeRead, ReadCells] + Repeat(Delay(CellDelayMs), NumCells) + [PublishMaxVoltage(m), AfeFaultCheck]
  }

  /** ScanEvents' counts, for any number of per-cell events other than a
      trigger or a publish. */
  lemma ScanCounts(e: Event, n: nat, m: u16)
    requires e != TriggerConversion && !e.PublishMaxVoltage?
    ensures var r := [FuelGaugeRead, ReadCells] + Repeat(e, n) + [PublishMaxVoltage(m), AfeFaultCheck];
      Count(r, TriggerConversion) == 0 && Count(r, PublishMaxVoltage(m)) == 1
  {
    RepeatOnly(e, n, TriggerConversion);
    RepeatOnly(e, n, PublishMaxVoltage(m));
  }

  /** ScanEvents reads the cells and checks the AFE once each, for any
      number of per-cell events other than those two. */
  lemma ScanOnce(e: Event, n: nat, m: u16)
    requires e != ReadCells && e != AfeFaultCheck
    ensures var r := [FuelGaugeRead, ReadCells] + Repeat(e, n) + [PublishMaxVoltage(m), AfeFaultCheck];
      Count(r, ReadCells) == 1 && Count(r, AfeFaultCheck) == 1
  {
    RepeatOnly(e, n, ReadCells);
    RepeatOnly(e, n, AfeFaultCheck);
  }

  /** ScanEvents' layout, for any number of per-cell events that are neither
      publishes, GPIO writes nor persists. */
  lemma ScanLayout(e: Event, n: nat, m: u16)
    requires !e.PublishMaxVoltage? && !e.PinWrite? && !e.PinInit? && !e.PersistRelayInfo?
    ensures var r := [FuelGaugeRead, ReadCells] + Repeat(e, n) + [PublishMaxVoltage(m), AfeFaultCheck];
      && |r| == n + 4
      && r[1] == ReadCells && r[|r| - 2] == PublishMaxVoltage(m) && r[|r| - 1] == AfeFaultCheck
      && NoPublish(r[..|r| - 2])
      && NoGpioWrites(r) && NoPersist(r)
  {
    var r := [FuelGaugeRead, ReadCells] + Repeat(e, n) + [PublishMaxVoltage(m), AfeFaultCheck];
    assert r[..|r| - 2] == [FuelGaugeRead, ReadCells] + Repeat(e, n);
  }

  /** The trace of a pass whose conversion succeeded: the conversion step
      followed by the scan step. */
  function PassEvents(trigger: StatusCode, m: u16): (r: seq<Event>)
    ensures ConversionEvents(trigger) <= r
    ensures Count(r, TriggerConversion) == (if trigger == Ok then 1 else 2)
    ensures Count(r, PublishMaxVoltage(m)) == 1
    ensures Count(r, ReadCells) == 1 && Count(r, AfeFaultCheck) == 1
    ensures Before(r, ReadCells, PublishMaxVoltage(m)) && Before(r, PublishMaxVoltage(m), AfeFaultCheck)
    ensures r[|r| - 2] == PublishMaxVoltage(m) && NoPublish(r[..|r| - 2])
    ensures r[|r| - 1] == AfeFaultCheck
    ensures NoGpioWrites(r) && NoPersist(r)
  {
    PassEventsShape(trigger, m);
    ConversionEvents(trigger) + ScanEvents(m)
  }

  lemma PassEventsShape(trigger: StatusCode, m: u16)
    ensures
      var r := ConversionEvents(trigger) + ScanEvents(m);
      && ConversionEvents(trigger) <= r
      && Count(r, TriggerConversion) == (if trigger == Ok then 1 else 2)
      && Count(r, PublishMaxVoltage(m)) == 1
      && Count(r, ReadCells) == 1 && Count(r, AfeFaultCheck) == 1
      && Before(r, ReadCells, PublishMaxVoltage(m)) && Before(r, PublishMaxVoltage(m), AfeFaultCheck)
      && r[|r| - 2] == PublishMaxVoltage(m) && NoPublish(r[..|r| - 2])
      && r[|r| - 1] == AfeFaultCheck
      && NoGpioWrites(r) && NoPersist(r)
  {
    var head := ConversionEvents(trigger);
    NoPublishCount(head, m);
    AppendShape(head, ScanEvents(m), m);
    AppendOnce(head, ScanEvents(m), m);
  }

  /** The shape of a conversion trace followed by a scan trace, from the two
      parts' own properties alone. */
  lemma AppendShape(head: seq<Event>, scan: seq<Event>, m: u16)
    requires Count(head, PublishMaxVoltage(m)) == 0 && NoGpioWrites(head) && NoPersist(head)
    requires |scan| >= 4 && scan[1] == ReadCells
    requires scan[|scan| - 2] == PublishMaxVoltage(m) && scan[|scan| - 1] == AfeFaultCheck
    requires Count(scan, TriggerConversion) == 0 && Count(scan, PublishMaxVoltage(m)) == 1
    requires NoGpioWrites(scan) && NoPersist(scan)
    ensures
      var r := head + scan;
      && head <= r
      && Count(r, TriggerConversion) == Count(head, TriggerConversion)
      && Count(r, PublishMaxVoltage(m)) == 1
      && Before(r, ReadCells, PublishMaxVoltage(m)) && Before(r, PublishMaxVoltage(m), AfeFaultCheck)
      && r[|r| - 1] == AfeFaultCheck
      && NoGpioWrites(r) && NoPersist(r)
  {
    var r := head + scan;
    assert r[..|head|] == head;
    assert r[|head| + 1] == ReadCells && r[|r| - 2] == PublishMaxVoltage(m);
    assert multiset(r) == multiset(head) + multiset(scan);
    AppendKeepsAbsence(head, scan);
  }

  /** A conversion trace followed by a scan trace reads the cells, publishes
      and checks the AFE once each, from the two parts' own properties. */
  lemma AppendOnce(head: seq<Event>, scan: seq<Event>, m: u16)
    requires NoPublish(head) && Count(head, ReadCells) == 0 && Count(head, AfeFaultCheck) == 0
    requires |scan| >= 2 && scan[|scan| - 2] == PublishMaxVoltage(m) && NoPublish(scan[..|scan| - 2])
    requires Count(scan, ReadCells) == 1 && Count(scan, AfeFaultCheck) == 1
    ensures
      var r := head + scan;
      && Count(r, ReadCells) == 1 && Count(r, AfeFaultCheck) == 1
      && r[|r| - 2] == PublishMaxVoltage(m) && NoPublish(r[..|r| - 2])
  {
    var r := head + scan;
    assert multiset(r) == multiset(head) + multiset(scan);
    assert r[..|r| - 2] == head + scan[..|scan| - 2];
    AppendKeepsAbsence(head, scan[..|scan| - 2]);
  }

  /** The part of the pass after a successful conversion: read the cells
      (whatever the status), publish the remapped maximum, run the AFE fault
      check, and fold both statuses into the verdict. */
  function CompletePass(s: Sensors): (e: Evaluation)
    requires Readable(s) && !ConversionFailed(s)
    ensures e.fault <==> s.readCells != Ok || s.afeFault != Ok
    ensures e.published == Some(MaxCellVoltage(s.voltages, s.lookup, NumCells))
    ensures e.events == PassEvents(s.trigger, MaxCellVoltage(s.voltages, s.lookup, NumCells))
  {
    var m := MaxCellVoltage(s.voltages, s.lookup, NumCells);
    // status |= read_cells; status |= fault_check
    Evaluation(Accumulate(Accumulate(false, s.readCells), s.afeFault), Some(m), PassEvents(s.trigger, m))
  }

  /** prv_bms_fault_ok_or_transition: one fault evaluation pass, whose
      `fault` is the fsm_transition(RELAYS_FAULT) request it makes. */
  function Evaluate(s: Sensors): (e: Evaluation)
    requires Readable(s)
    // the pass requests FAULT exactly when the conversion failed twice, or the
    // cell read or the AFE fault check failed
    ensures e.fault <==> ConversionFailed(s) || s.readCells != Ok || s.afeFault != Ok
    // exactly one retry, after a 5 ms delay, and only when the first trigger fails
    ensures Count(e.events, TriggerConversion) == (if s.trigger == Ok then 1 else 2)
    ensures s.trigger == Ok ==> [TriggerConversion, Delay(SettleDelayMs)] <= e.events
    ensures s.trigger != Ok ==>
      [TriggerConversion, Delay(RetryDelayMs), TriggerConversion, Delay(SettleDelayMs)] <= e.events
    // a failed retry returns before any cell read, publish or AFE fault check
    ensures ConversionFailed(s) ==>
      && e.fault && e.published == None && NoPublish(e.events)
      && Count(e.events, ReadCells) == 0 && Count(e.events, AfeFaultCheck) == 0
    // otherwise the cells are read once, the remapped maximum is published once,
    // after the cell read (whatever its status) and before the AFE fault check,
    // which runs once and comes last
    ensures !ConversionFailed(s) ==>
      var m := MaxCellVoltage(s.voltages, s.lookup, NumCells);
      && e.published == Some(m)
      && Count(e.events, PublishMaxVoltage(m)) == 1
      && Count(e.events, ReadCells) == 1 && Count(e.events, AfeFaultCheck) == 1
      && Before(e.events, ReadCells, PublishMaxVoltage(m))
      && Before(e.events, PublishMaxVoltage(m), AfeFaultCheck)
      // m is the only value published, just before the final AFE fault check
      && e.events[|e.events| - 2] == PublishMaxVoltage(m) && NoPublish(e.events[..|e.events| - 2])
      && e.events[|e.events| - 1] == AfeFaultCheck
    // the evaluation never drives a contactor or persists a relay state
    ensures NoGpioWrites(e.events) && NoPersist(e.events)
  {
    // status starts OK; the first trigger's status only decides the retry, and the
    // retry's status is the one folded in
    var failed := if s.trigger == Ok then false else Accumulate(false, s.retry);
    if failed then
      Evaluation(true, None, ConversionEvents(s.trigger))
    else
      CompletePass(s)
  }
}
