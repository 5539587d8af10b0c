# BMS relay controller, PCA9555 expander driver and software CRC-32

This project models three pieces of the firmware in Dafny:

- The battery relay FSM of the BMS carrier (`projects/bms_carrier/src/relays_fsm.c`). It has three states, OPEN, CLOSED and FAULT. The OPEN and CLOSED input handlers run one fault-evaluation pass per tick and then follow the externally requested relay state.
  - The pass triggers an AFE cell conversion, retrying once. It reads the cells, publishes the maximum cell voltage in physical cell order, and runs the AFE fault check.
  - The entry (output) actions drive the three contactor enables and persist the relay state.
  - FAULT has no outgoing edge.
- The PCA9555 16-bit I2C GPIO expander driver (`libraries/ms-drivers/src/pca9555_gpio_expander.c`):
  - the pin-to-register and pin-to-bit arithmetic;
  - the read-modify-write of a single register bit;
  - the initialisation guard;
  - the pin operations;
  - the whole-register read.
- The software CRC-32 of the x86 build (`libraries/ms-common/src/x86/crc32.c`). It is a word-wise, MSB-first shift/XOR division by the IEEE 802.3 generator polynomial 0x04C11DB7. It starts from all ones and inverts the result.

## How the model is built

- Every operation is a pure function over immutable data, or a method where the firmware has a loop.
- The driver calls the relay FSM makes are answered by a sensor oracle, `FaultCheck.Sensors`: AFE conversion, cell read and fault check. The effects the FSM produces are recorded as an event trace, `BmsTrace.Event`: GPIO writes, delays, telemetry publish, persistence. The contactor outputs are modelled as the state those GPIO writes leave behind (`RelaysFsm.ApplyWrites`).
- A PCA9555 is an 8-byte register bank indexed by its command byte (section 6.2 of the PCA9555 data sheet). An I2C register read returns the bank's byte, and a write replaces it.
- The CRC register is a `bv32`. Its C `uint32_t` arithmetic wraps exactly as `bv32` does.

Modules:
- `Common`: status codes, `Option`.
- `Cells`: voltages and the remapped maximum.
- `BmsTrace`: events.
- `FaultCheck`: one evaluation pass.
- `RelaysFsm`: entry actions, handlers, tick, init, runs.
- `Pca9555`: the expander driver.
- `Crc32`: the CRC.

The model follows the code, also where the code differs from its own comments or leaves a step out:
- The current-sense fault check is commented out (`relays_fsm.c:63`). The evaluation therefore never consults current sense, and the branch that would act on it is unreachable.
- When the conversion retry fails, the pass records the 10 ms settle delay and requests FAULT. It returns before the fuel-gauge read, the cell read, the publish and the AFE fault check (`relays_fsm.c:77-82`).
- `close_relays` carries a comment asking for a 150 ms gap between the relays, but writes the three enables back to back. The model has no delay between them (`RelaysFsm.ClosingOrder`).
- Only the retry's status is folded into `status`. The first trigger's status decides only whether to retry (`relays_fsm.c:71-75`).

Two `fsm_transition` requests in one tick:
- A failed evaluation requests FAULT, and the handler then requests the state it was asked for.
- The FSM library that decides between them is not part of this model. The rule is a parameter, `RelaysFsm.Resolution`, which is `FirstWins` or `LastWins`.
- The model takes at most one transition per tick, and only along an edge of the transition table.
- `FirstWinsFaultOpensContactors` and `LastWinsRequestOverridesFault` show how much the rule matters. Under `LastWins`, an OPEN controller whose fault check failed still closes its contactors when CLOSED is requested.

## Model

| member | source | states |
|---|---|---|
| Cells.MaxCellVoltage | projects/bms_carrier/src/relays_fsm.c:87-94 | Over the readings in physical cell order (cell i reads `voltages[lookup[i]]`), the reported maximum is at least every reading, and it is either 0 or one of them. |
| Cells.ScanMaxVoltage | projects/bms_carrier/src/relays_fsm.c:87-94 | The firmware's running-maximum loop, starting from 0, returns a bound on every remapped reading that is 0 or attained. That is the same value as the functional maximum. |
| Cells.MaxOrZeroSnoc | projects/bms_carrier/src/relays_fsm.c:90-92 | One iteration of the loop keeps the characterisation: with one more reading, the larger of the reading and the old maximum is the new maximum. |
| Cells.MaxUnique | projects/bms_carrier/src/relays_fsm.c:90-92 | "At least every reading, and 0 or one of them" has exactly one solution, so the loop's result is determined. |
| Cells.MaxIgnoresOrder | projects/bms_carrier/src/relays_fsm.c:87-94 | The maximum depends only on the multiset of readings, not on their order. |
| Cells.PermutingLookupKeepsMax | projects/bms_carrier/src/relays_fsm.c:89-91 | When the lookup table permutes the first n slots, the remapped maximum equals the maximum over the raw transfer order. |
| Cells.RemappedMaxDiffersFromRaw | projects/bms_carrier/src/relays_fsm.c:89-91 | A lookup that skips a slot gives a different maximum from the raw order (5 against 9), so the indirection matters. |
| Common.AccumulateIsOr | projects/bms_carrier/src/relays_fsm.c:74-99 | `status \|= s` on the integer codes gives a non-OK status exactly when the boolean the model keeps says failed, because OK is 0 and an OR of codes is 0 only when both are 0. |
| BmsTrace.Repeat | projects/bms_carrier/src/relays_fsm.c:87-95 | The delays of the cell loop are n entries, each the 1 ms delay, and hold that event exactly n times and nothing else. |
| FaultCheck.ScanEvents | projects/bms_carrier/src/relays_fsm.c:84-97 | The scan step has one entry per cell plus four. The cell read comes second, and the publish of the maximum and the AFE fault check come last. Nothing before that publish is a publish of any value, so the scan publishes exactly once. The cells are read exactly once and the AFE fault check runs exactly once. It holds no trigger and no GPIO write or persistence. |
| FaultCheck.ConversionEvents | projects/bms_carrier/src/relays_fsm.c:71-77 | A successful trigger is followed by the 10 ms settle delay only. A failed one is followed by a 5 ms delay, exactly one retry, then the settle delay. No cell read, fault check, publish, GPIO write or persistence happens here. |
| FaultCheck.Evaluate | projects/bms_carrier/src/relays_fsm.c:58-104 | FAULT is requested exactly when both triggers failed, the cell read failed or the AFE fault check failed. The trigger count is 1 or 2 and the retry comes only after a failure. A failed retry returns before the read, publish and fault check. Otherwise the cells are read once, whatever the read's status. The remapped maximum is then the only value published, once, just before the fault check. The fault check runs once and comes last. No contactor is driven. |
| FaultCheck.CompletePass | projects/bms_carrier/src/relays_fsm.c:84-103 | After a successful conversion, the pass faults exactly when the cell read or the AFE fault check fails, and it always publishes the remapped maximum. |
| FaultCheck.PassEventsShape | projects/bms_carrier/src/relays_fsm.c:71-97 | The full pass trace starts with the conversion step and counts one or two triggers. It reads the cells once and runs the AFE fault check once, as the last event. The maximum is the only value published, once, right before that check and after the cell read. |
| RelaysFsm.Allowed | projects/bms_carrier/src/relays_fsm.c:152-155 | The transition table allows exactly the moves between two different states that do not leave FAULT. |
| RelaysFsm.CloseRelays | projects/bms_carrier/src/relays_fsm.c:44-49 | close_relays is three high contactor writes and nothing else. From any outputs it leaves all three enables high. |
| RelaysFsm.OpenRelays | projects/bms_carrier/src/relays_fsm.c:51-55 | open_relays is three low contactor writes and nothing else. From any outputs it leaves all three enables low. |
| RelaysFsm.EntryEvents | projects/bms_carrier/src/relays_fsm.c:106-141 | Each entry action is three contactor writes followed by persisting its relay state. CLOSED writes high in the pos, neg, solar order. OPEN and FAULT write all low. From any starting outputs they leave exactly the levels the state stands for. There is no delay. |
| RelaysFsm.Enter | projects/bms_carrier/src/relays_fsm.c:106-141 | Entering a state sets the state and fsm_prev_state to it. The contactor outputs become the state's levels, and the persisted relay info names the state. |
| RelaysFsm.HandlerTarget | projects/bms_carrier/src/relays_fsm.c:113-134 | The OPEN handler reacts only to a CLOSED request and the CLOSED handler only to an OPEN request. Both are table edges other than FAULT. |
| RelaysFsm.Handle | projects/bms_carrier/src/relays_fsm.c:113-134 | An OPEN or CLOSED tick takes a table edge or no transition. With no transition, nothing but the evaluation's trace happens. With a transition, exactly the new state's entry action follows the evaluation. The outputs follow the trace's writes, and consistency of state, outputs, fsm_prev_state and persisted info is preserved. |
| RelaysFsm.Tick | projects/bms_carrier/src/relays_fsm.c:113-143 | FAULT's handler does nothing. Every other tick is the evaluation pass, then at most one table transition and its entry action. Without a transition no contactor is written. The consistency invariant is preserved. |
| RelaysFsm.TickEmits | projects/bms_carrier/src/relays_fsm.c:58-77 | A tick records something exactly when the FSM is OPEN or CLOSED: the evaluation pass starts with a conversion trigger, and FAULT's handler does nothing. |
| RelaysFsm.FirstWinsFaultOpensContactors | projects/bms_carrier/src/relays_fsm.c:99-141 | When the first request wins, a failed evaluation in OPEN or CLOSED ends the tick in FAULT, with all contactors low and FAULT persisted, whatever was requested. |
| RelaysFsm.LastWinsRequestOverridesFault | projects/bms_carrier/src/relays_fsm.c:113-126 | When the last request wins, the handler's request overrides the FAULT a failed evaluation asked for. In OPEN with CLOSED requested, the contactors close. |
| RelaysFsm.FaultWithoutRequestFaults | projects/bms_carrier/src/relays_fsm.c:113-141 | Under either rule, a failed evaluation without a request for the other state ends in FAULT with the contactors low. |
| RelaysFsm.PassingTickFollowsRequest | projects/bms_carrier/src/relays_fsm.c:113-134 | After a passing evaluation, OPEN and CLOSED move to the other state exactly when it is requested, and otherwise stay. |
| RelaysFsm.TickFaultOpensContactors | projects/bms_carrier/src/relays_fsm.c:58-141 | With the first request winning, a whole tick whose fault evaluation fails ends in FAULT with the contactors de-energised. |
| RelaysFsm.ClosingOrder | projects/bms_carrier/src/relays_fsm.c:45-50 | Closing from OPEN appends pos high, neg high, solar high and then CLOSE persisted, with nothing between them, to the evaluation's trace. Each enable is written high exactly once. |
| RelaysFsm.Init | projects/bms_carrier/src/relays_fsm.c:157-167 | Initialisation records exactly: I2C init, AFE init, the 10 ms delay, current-sense init, then the pos, neg and solar enables initialised low. From any power-on levels, the three enables end up low. The FSM starts consistent in OPEN with nothing persisted, and the status is OK. |
| RelaysFsm.RunConsistent | projects/bms_carrier/src/relays_fsm.c:106-155 | Over any sequence of ticks, the consistency invariant is preserved, and the outputs are what the trace's GPIO writes leave. |
| RelaysFsm.Run | projects/bms_carrier/src/relays_fsm.c:143-155 | From FAULT, no sequence of inputs changes anything or produces any event. A run records events exactly when it has inputs and does not start in FAULT. |
| RelaysFsm.RunAppend | projects/bms_carrier/src/relays_fsm.c:146-155 | Running two input sequences one after the other is the same as running their concatenation, in both state and trace. The concatenation can be run whenever the second sequence can be run from where the first left off. |
| RelaysFsm.FaultIsFinal | projects/bms_carrier/src/relays_fsm.c:143-155 | Once a run has reached FAULT, any further inputs, readable or not, can be run, add no events and leave the state as it is. |
| RelaysFsm.ContactorsMatchStateAfterInit | projects/bms_carrier/src/relays_fsm.c:106-167 | After init and any run, the contactors are energised exactly in CLOSED and de-energised in OPEN and FAULT, and fsm_prev_state equals the state. |
| Pca9555.IsPort0 | libraries/ms-drivers/src/pca9555_gpio_expander.c:10-12 | A pin is on port 0 exactly when its port number, the pin divided by 8, is 0. |
| Pca9555.SelectReg | libraries/ms-drivers/src/pca9555_gpio_expander.c:14-16 | Of a register pair, pins 0 to 7 select port 0's register and every other pin number selects port 1's. |
| Pca9555.PinBit | libraries/ms-drivers/src/pca9555_gpio_expander.c:18-21 | Every valid pin maps to a bit below 8 of its port register: its position within its group of eight. |
| Pca9555.PinDecomposition | libraries/ms-drivers/src/pca9555_gpio_expander.c:10-21 | The pin numbers 0..15 correspond one to one to (port, bit below 8) pairs, through prv_is_port_0 and prv_pin_bit. |
| Pca9555.MaskIsShift | libraries/ms-drivers/src/pca9555_gpio_expander.c:50-52 | The mask table is `1 << bit` for every bit of a byte. |
| Pca9555.SetBit | libraries/ms-drivers/src/pca9555_gpio_expander.c:49-53 | Setting or clearing with the mask gives the requested value at the bit and keeps every other bit. |
| Pca9555.FlipBit | libraries/ms-drivers/src/pca9555_gpio_expander.c:103 | XOR with the mask inverts the bit and keeps every other bit. |
| Pca9555.SetRegBit | libraries/ms-drivers/src/pca9555_gpio_expander.c:44-55 | The read-modify-write changes only the pin's bit of the selected register, which gets the requested value. Other bits and other registers are unchanged. |
| Pca9555.GpioInit | libraries/ms-drivers/src/pca9555_gpio_expander.c:23-28 | A first init with a port other than NUM_I2C_PORTS records it, and after that inits change nothing. An init while the NUM_I2C_PORTS sentinel is held takes the given port. The status is always OK. |
| Pca9555.InitPin | libraries/ms-drivers/src/pca9555_gpio_expander.c:57-76 | Uninitialised and invalid-argument calls leave the registers as they were. Otherwise the IODIR bit becomes 1 exactly for an input. For an output only, the output bit becomes the initial state. Nothing else changes. |
| Pca9555.InitPinWrites | libraries/ms-drivers/src/pca9555_gpio_expander.c:57-76 | The registers after each write init_pin makes, in order. A failed guard writes nothing. The IODIR write comes first and changes only the pin's IODIR bit. For an output, the OUTPUT write follows and changes only the pin's output bit. The last bank is the one init_pin leaves. |
| Pca9555.InitPinDrivesOldLevel | libraries/ms-drivers/src/pca9555_gpio_expander.c:68-73 | Consider an output pin whose output bit is already set, initialised LOW. Between the two writes it is configured as an output while its output bit is still set, so it drives HIGH until the second write clears the bit. |
| Pca9555.SetState | libraries/ms-drivers/src/pca9555_gpio_expander.c:78-89 | The guards report uninitialised or invalid arguments without writing. Otherwise the pin's output bit is high exactly for the HIGH state, and nothing else changes. |
| Pca9555.SetStateOverrides | libraries/ms-drivers/src/pca9555_gpio_expander.c:78-107 | Setting a pin twice is the same as setting it once. A toggle followed by a valid set is the same as the set alone. |
| Pca9555.ToggleState | libraries/ms-drivers/src/pca9555_gpio_expander.c:91-107 | After the guards, the pin's output bit is inverted and nothing else changes. |
| Pca9555.ToggleTwice | libraries/ms-drivers/src/pca9555_gpio_expander.c:100-104 | Toggling a pin twice restores every register. |
| Pca9555.GetState | libraries/ms-drivers/src/pca9555_gpio_expander.c:109-126 | After the guards, the reported state is HIGH exactly when the pin's bit of its input register is set. Failed calls report no state. |
| Pca9555.BadInitPortSticks | libraries/ms-drivers/src/pca9555_gpio_expander.c:23-28 | An init with a port above NUM_I2C_PORTS is recorded anyway. The driver then fails the initialisation guard, so init_pin, set_state, toggle_state and get_state all report uninitialised and leave the registers as they were. No later init can repair it. |
| Pca9555.FirstFailure | libraries/ms-drivers/src/pca9555_gpio_expander.c:145-151 | The register read succeeds only when all four transfers succeed. Otherwise it reports the status of the first failing transfer, in the order select 0, read 0, select 1, read 1. |
| Pca9555.JoinRoundTrip | libraries/ms-drivers/src/pca9555_gpio_expander.c:153-154 | `(reg0 << 8) + reg1` fits in 16 bits. It puts the first register in the high byte, both bytes can be recovered, and every 16-bit value arises this way. |
| Pca9555.GetRegisterStateAsWritten | libraries/ms-drivers/src/pca9555_gpio_expander.c:139-157 | As written: a device address of at least NUM_I2C_PORTS is rejected. Otherwise the first failing transfer's status is returned, or the joined registers. |
| Pca9555.AsWrittenRejectsEveryDevice | libraries/ms-drivers/src/pca9555_gpio_expander.c:140-142 | As written, every address a PCA9555 can have (0x20 to 0x27) is rejected. |
| Pca9555.GetRegisterState | libraries/ms-drivers/src/pca9555_gpio_expander.c:139-157 | Corrected: the guard checks that the driver's port is initialised. Transfer failures propagate, and success returns register 0 in the high byte and register 1 in the low byte. |
| Pca9555.CorrectedReadsEveryDevice | libraries/ms-drivers/src/pca9555_gpio_expander.c:139-157 | With the corrected guard, an initialised driver reads both input registers of any PCA9555 address on a working bus. |
| Crc32.Step | libraries/ms-common/src/x86/crc32.c:17-23 | The low bit of one division step's result is set exactly when the register's top bit was, because the shift clears it and the polynomial is odd. |
| Crc32.CalculateWord | libraries/ms-common/src/x86/crc32.c:13-25 | The per-word loop equals `UpdateWord`: XOR-ing the word into the register followed by 32 MSB-first shift/XOR steps. A word equal to the register yields 0. |
| Crc32.CrcCalculate | libraries/ms-common/src/x86/crc32.c:27-36 | The result is the inversion of the left fold of the word update over the buffer, starting from all ones. The empty buffer gives 0. |
| Crc32.CrcInit | libraries/ms-common/src/x86/crc32.c:38-41 | The x86 crc_init always reports OK. |
| Crc32.StepsZero | libraries/ms-common/src/x86/crc32.c:17-23 | The all-zero register stays zero through any number of steps. |
| Crc32.UpdateSelfIsZero | libraries/ms-common/src/x86/crc32.c:13-24 | Updating a register with a word equal to it gives 0. |
| Crc32.StepInverse | libraries/ms-common/src/x86/crc32.c:18-22 | One division step can be undone. The low bit of its result tells whether the polynomial was XOR-ed in, because the polynomial's low bit is set. |
| Crc32.StepsInjective | libraries/ms-common/src/x86/crc32.c:17-23 | Distinct registers stay distinct through any number of steps. |
| Crc32.UpdateInjective | libraries/ms-common/src/x86/crc32.c:13-25 | For a fixed register, distinct words give distinct updates. For a fixed word, distinct registers do. |
| Crc32.FoldAppend | libraries/ms-common/src/x86/crc32.c:31-33 | `Fold`, the loop over the buffer's words, folds a concatenation by continuing the fold of the prefix. |
| Crc32.FoldInjective | libraries/ms-common/src/x86/crc32.c:31-33 | The fold over any buffer is injective in its starting register. |
| Crc32.CrcConcat | libraries/ms-common/src/x86/crc32.c:27-36 | The CRC of `a + b` is the inverted fold of `b` continued from the prefix's register before inversion. That register is the prefix's CRC inverted back. |
| Crc32.SingleWordErrorDetected | libraries/ms-common/src/x86/crc32.c:27-36 | Two equal-length buffers that differ in exactly one word always have different CRCs. |

## Left out

- Hardware and framework services: the I2C, SPI and LTC AFE driver internals, `current_sense_*`, `prv_fuel_gauge_read` and `delay_ms` are calls into code outside this model. They appear only as trace events, or as oracle answers in `Sensors`, and no timing is modelled.
- `LOG_DEBUG`: logging only.
- The FreeRTOS FSM library (`FSM`, `fsm_init`, `fsm_transition`) is not part of this model. The tick structure (input handler, then at most one transition with its entry action) and the two resolution rules stand in for it. `fsm_init` is modelled as starting in OPEN without running OPEN's entry action, so nothing is persisted until the first transition.
- `get_bms_relays_relays_state` and `set_battery_*` are telemetry-store accessors outside this model. The request is an input of each tick, and the published and persisted values are trace events.
- The AFE and I2C configuration constants (`relays_fsm.c:15-43`) matter only as the cell count of 2 devices × 12 cells.
- RelaysFsm.Tick: in OPEN and CLOSED it requires the AFE store's lookup table to address its voltage array for every configured cell (`Readable`). The C code indexes without a check, and out-of-range indexing is undefined behaviour that the model does not represent. A FAULT tick accepts any input. `RelaysFsm.Run` requires the same of every input consumed outside FAULT (`RelaysFsm.Ready`). Inputs consumed after the run has reached FAULT are unconstrained.
- FaultCheck.Evaluate: it requires the same `Readable` condition as `RelaysFsm.Tick`, for the same reason. It is needed only for the cell scan.
- `status |= x`: only whether the accumulated status is non-OK is observed, so the model keeps a boolean (`Common.Accumulate`), and `Common.AccumulateIsOr` ties it to the OR of the codes. The header that numbers the status codes is not part of this model. `Common.Code` takes OK as 0 and numbers the others 1 to 5 in declaration order; only "OK is 0, the others are not" matters.
- The current-sense fault check is commented out in the code and is not modelled.
- `pca9555_gpio_subscribe_interrupts`: it only registers an interrupt.
- `prv_read_reg` ignores the status of its I2C read, and `prv_write_reg` ignores that of its write. The pin operations model only reads and writes that reach the register bank, so their frame properties hold on a working bus only. A failed read is not modelled. If the I2C driver leaves the buffer untouched on failure, the local `data` stays 0. set_state and init_pin then write a byte whose other seven bits are clear, toggle writes a byte with only the pin's bit set, and get_state reports LOW. Every one of them still returns OK.
- Pca9555.InitPin: pins, directions and states are naturals, so a negative enum value, which the C comparisons would treat as unsigned, is not modelled. The driver's header values are not part of this model. DIR_IN = 0, DIR_OUT = 1, LOW = 0, HIGH = 1 and NUM_I2C_PORTS = 2 are taken as given.
- The I2C bus address of a device is not checked against the bank; one register bank stands for the addressed device.
- The other files of the repository are outside this model: the simulation's operation listener, the ADS1115 driver, and the task, queue and timer demos.

## Findings

| source | as written | input that shows it | evidently intended | confidence | as-written member | corrected member |
|---|---|---|---|---|---|---|
| libraries/ms-drivers/src/pca9555_gpio_expander.c:140-142 | `pca9555_get_register_state` rejects `addr >= NUM_I2C_PORTS`, comparing the device's I2C address with the number of I2C ports. | `addr = 0x20`, the address of a PCA9555 with A2..A0 low: rejected with INVALID_ARGS before any transfer. | Reject the call when the driver's port is not initialised, as the message "Invalid PCA9555 port." says. | medium, not executed | Pca9555.GetRegisterStateAsWritten, Pca9555.AsWrittenRejectsEveryDevice | Pca9555.GetRegisterState, Pca9555.CorrectedReadsEveryDevice |
