/** The observable side effects of the BMS relay controller, recorded as an
    event trace: GPIO writes to the three contactor enables, calls into the
    AFE and fuel-gauge drivers, blocking delays, and the values handed to the
    telemetry and persistence sinks. */
module BmsTrace {
  import opened Cells

  /** The three contactor enable outputs: main positive, main negative, and
      the auxiliary solar contactor. */
  datatype Contactor = PosRelay | NegRelay | SolarRelay

  /** The relay state persisted through set_battery_relay_info_state. */
  datatype RelayInfo = InfoOpen | InfoClose | InfoFault

  datatype Event =
    | I2cInit                                  // i2c_init on the peripheral bus
    | AfeInit                                  // ltc_afe_init
    | CurrentSenseInit                         // current_sense_init
    | PinInit(contactor: Contactor, high: bool)  // gpio_init_pin as a push-pull output
    | PinWrite(contactor: Contactor, high: bool) // gpio_set_state
    | Delay(ms: nat)                           // delay_ms (blocking; no clock is modelled)
    | TriggerConversion                        // ltc_afe_impl_trigger_cell_conv
    | FuelGaugeRead                            // prv_fuel_gauge_read
    | ReadCells                                // ltc_afe_impl_read_cells
    | PublishMaxVoltage(voltage: u16)          // set_battery_vt_voltage
    | AfeFaultCheck                            // ltc_afe_impl_fault_check
    | PersistRelayInfo(info: RelayInfo)        // set_battery_relay_info_state

  /** Event `a` occurs somewhere before an occurrence of event `b`. */
  predicate Before(ev: seq<Event>, a: Event, b: Event)
  {
    exists i, j :: 0 <= i < j < |ev| && ev[i] == a && ev[j] == b
  }

  /** The number of occurrences of `e` in the trace. */
  function Count(ev: seq<Event>, e: Event): nat
  {
    multiset(ev)[e]
  }

  /** The trace drives no contactor output (no gpio_set_state, no gpio_init_pin). */
  predicate NoGpioWrites(ev: seq<Event>)
  {
    forall i :: 0 <= i < |ev| ==> !ev[i].PinWrite? && !ev[i].PinInit?
  }

  predicate NoPublish(ev: seq<Event>)
  {
    forall i :: 0 <= i < |ev| ==> !ev[i].PublishMaxVoltage?
  }

  predicate NoPersist(ev: seq<Event>)
  {
    forall i :: 0 <= i < |ev| ==> !ev[i].PersistRelayInfo?
  }

  /** The trace of a loop that records `e` on each of `n` iterations (the
      per-cell delay of the cell loop): `n` entries, every one of them `e`,
      so it holds `e` exactly `n` times and nothing else. */
  function Repeat(e: Event, n: nat): (r: seq<Event>)
    ensures |r| == n
    ensures forall i :: 0 <= i < n ==> r[i] == e
    ensures multiset(r) == multiset{}[e := n]
  {
    RepeatMultiset(e, n);
    seq(n, _ => e)
  }

  lemma {:induction false} RepeatMultiset(e: Event, n: nat)
    ensures multiset(seq(n, _ => e)) == multiset{}[e := n]
  {
    if n > 0 {
      RepeatMultiset(e, n - 1);
      assert seq(n, _ => e) == seq(n - 1, _ => e) + [e];
    }
  }

  lemma RepeatOnly(e: Event, n: nat, x: Event)
    requires x != e
    ensures Count(Repeat(e, n), x) == 0
  {
  }

  /** The "never happens" trace properties survive concatenation. */
  lemma AppendKeepsAbsence(a: seq<Event>, b: seq<Event>)
    ensures NoGpioWrites(a) && NoGpioWrites(b) ==> NoGpioWrites(a + b)
    ensures NoPersist(a) && NoPersist(b) ==> NoPersist(a + b)
    ensures NoPublish(a) && NoPublish(b) ==> NoPublish(a + b)
  {
    forall i | 0 <= i < |a + b| ensures (a + b)[i] == if i < |a| then a[i] else b[i - |a|] {
    }
  }

  lemma NoPublishCount(ev: seq<Event>, v: u16)
    requires NoPublish(ev)
    ensures Count(ev, PublishMaxVoltage(v)) == 0
  {
    assert PublishMaxVoltage(v) !in ev;
  }
}
