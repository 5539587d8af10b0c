/** The PCA9555 16-pin I2C GPIO expander driver: pin-to-register selection,
    read-modify-write of single register bits, and the argument and
    initialisation guards of its pin operations. The I2C bus is modelled by
    the register bank of the addressed device; a register read returns the
    bank's byte and a register write replaces it. */
module Pca9555 {
  import opened Common

  /** The first pin of port 1 (PCA9555_PIN_IO1_0); pins 0-7 are port 0. */
  const PinIo1_0: nat := 8
  /** NUM_PCA9555_GPIO_PINS. */
  const NumPins: nat := 16
  /** Pca9555GpioDirection: input, output, and the count. */
  const DirIn: nat := 0
  const DirOut: nat := 1
  const NumDirs: nat := 2
  /** Pca9555GpioState: low, high, and the count. */
  const StateLow: nat := 0
  const StateHigh: nat := 1
  const NumStates: nat := 2
  /** NUM_I2C_PORTS: the MCU has I2C ports 0 and 1. */
  const NumI2cPorts: nat := 2

  /** Command bytes of the PCA9555 register file (section 6.2 of the PCA9555
      data sheet): input, output, polarity inversion and configuration
      (IODIR) registers for port 0 and port 1. */
  const Input0: bv8 := 0x00
  const Input1: bv8 := 0x01
  const Output0: bv8 := 0x02
  const Output1: bv8 := 0x03
  const Iodir0: bv8 := 0x06
  const Iodir1: bv8 := 0x07

  /** The eight registers of one device, indexed by command byte. */
  type Bank = b: seq<bv8> | |b| == 8 witness [0, 0, 0, 0, 0, 0, 0, 0]

  /** The driver's only state: the I2C port recorded by the first init
      (NUM_I2C_PORTS until then). */
  datatype Driver = Driver(port: nat)

  const Uninitialised: Driver := Driver(NumI2cPorts)

  /** The status of a pin operation and the device's registers after it. */
  datatype Outcome = Outcome(status: StatusCode, bank: Bank)

  /** The status of get_state and the state it reports, if any. */
  datatype Reading = Reading(status: StatusCode, state: Option<nat>)

  // ---------------------------------------------------------------------
  // Pins and bits

  /** A pin is on port 0 when it is one of the first eight, that is, when
      its port number (the pin divided by the eight pins per port) is 0. */
  predicate IsPort0(pin: nat)
    ensures IsPort0(pin) <==> pin / 8 == 0
  {
    pin < PinIo1_0
  }

  /** Of a register pair, the one of the pin's port: port 0's for pins 0-7,
      port 1's for every other pin number. */
  function SelectReg(pin: nat, reg0: bv8, reg1: bv8): (reg: bv8)
    ensures pin / 8 == 0 ==> reg == reg0
    ensures pin / 8 != 0 ==> reg == reg1
  {
    if IsPort0(pin) then reg0 else reg1
  }

  /** The bit that represents `pin` in its port's 8-bit register: the pin's
      position within its group of eight. */
  function PinBit(pin: nat): (bit: nat)
    requires pin < NumPins
    ensures bit < 8
    ensures bit == pin % 8
  {
    if IsPort0(pin) then pin else pin - PinIo1_0
  }

  /** The pin with bit `bit` of port 0 or port 1. */
  function PinAt(port0: bool, bit: nat): nat
  {
    (if port0 then 0 else PinIo1_0) + bit
  }

  /** Every valid pin is one port and one bit below 8, and every such pair is
      one valid pin: the pin numbering and the (port, bit) pairs correspond. */
  lemma PinDecomposition(pin: nat, port0: bool, bit: nat)
    ensures pin < NumPins ==> PinAt(IsPort0(pin), PinBit(pin)) == pin
    ensures bit < 8 ==>
      && PinAt(port0, bit) < NumPins
      && IsPort0(PinAt(port0, bit)) == port0
      && PinBit(PinAt(port0, bit)) == bit
  {
  }

  /** The byte with only bit `bit` set (`1 << bit` in the driver). */
  function Mask(bit: nat): (m: bv8)
    requires bit < 8
  {
    match bit
    case 0 => 0x01
    case 1 => 0x02
    case 2 => 0x04
    case 3 => 0x08
    case 4 => 0x10
    case 5 => 0x20
    case 6 => 0x40
    case _ => 0x80
  }

  lemma MaskIsShift(bit: nat)
    requires bit < 8
    ensures Mask(bit) == (1 as bv8) << bit
  {
  }

  /** Bit `i` of `x`, counted from the least significant. */
  predicate Bit(x: bv8, i: nat)
    requires i < 8
  {
    x & Mask(i) != 0
  }

  /** Two bytes agree on every bit except possibly `bit`. */
  predicate SameOtherBits(a: bv8, b: bv8, bit: nat)
  {
    forall i: nat :: i < 8 && i != bit ==> Bit(a, i) == Bit(b, i)
  }

  /** Two banks agree on every register except possibly `reg`. */
  predicate SameOtherRegs(a: Bank, b: Bank, reg: bv8)
  {
    forall r :: 0 <= r < 8 && r != reg as int ==> a[r] == b[r]
  }

  lemma SetAt(x: bv8, bit: nat, i: nat)
    requires bit < 8 && i < 8
    ensures Bit(x | Mask(bit), i) == (i == bit || Bit(x, i))
  {
  }

  lemma ClearAt(x: bv8, bit: nat, i: nat)
    requires bit < 8 && i < 8
    ensures Bit(x & !Mask(bit), i) == (i != bit && Bit(x, i))
  {
  }

  lemma FlipOther(x: bv8, bit: nat, i: nat)
    requires bit < 8 && i < 8 && i != bit
    ensures Bit(x ^ Mask(bit), i) == Bit(x, i)
  {
  }

  /** `x` with bit `bit` set to `val` (`x | 1 << bit` or `x & ~(1 << bit)`). */
  function SetBit(x: bv8, bit: nat, val: bool): (y: bv8)
    requires bit < 8
    ensures Bit(y, bit) == val && SameOtherBits(x, y, bit)
  {
    var y := if val then x | Mask(bit) else x & !Mask(bit);
    forall i: nat | i < 8 ensures Bit(y, i) == (if i == bit then val else Bit(x, i)) {
      SetAt(x, bit, i);
      ClearAt(x, bit, i);
    }
    y
  }

  /** `x` with bit `bit` flipped (`x ^ 1 << bit`). */
  function FlipBit(x: bv8, bit: nat): (y: bv8)
    requires bit < 8
    ensures Bit(y, bit) == !Bit(x, bit) && SameOtherBits(x, y, bit)
  {
    var y := x ^ Mask(bit);
    forall i: nat | i < 8 && i != bit ensures Bit(y, i) == Bit(x, i) {
      FlipOther(x, bit, i);
    }
    y
  }

  // ---------------------------------------------------------------------
  // Register read-modify-write

  /** prv_set_reg_bit: read the pin's register, set or clear the pin's bit,
      and write the byte back. */
  function SetRegBit(bank: Bank, pin: nat, reg0: bv8, reg1: bv8, val: bool): (r: Bank)
    requires pin < NumPins && reg0 < 8 && reg1 < 8
    ensures
      var reg := SelectReg(pin, reg0, reg1);
      && Bit(r[reg], PinBit(pin)) == val
      && SameOtherBits(bank[reg], r[reg], PinBit(pin))
      && SameOtherRegs(bank, r, reg)
  {
    var reg := SelectReg(pin, reg0, reg1);
    var bit := PinBit(pin);
    bank[reg as int := SetBit(bank[reg], bit, val)]
  }

  /** pca9555_gpio_init: record the port while none is recorded, that is,
      while the driver still holds the NUM_I2C_PORTS sentinel. An init with
      NUM_I2C_PORTS itself therefore leaves the driver open to the next one. */
  function GpioInit(d: Driver, port: nat): (r: (Driver, StatusCode))
    ensures r.1 == Ok
    ensures d == Uninitialised ==> r.0 == Driver(port)
    ensures d != Uninitialised ==> r.0 == d
  {
    (if d.port == NumI2cPorts then Driver(port) else d, Ok)
  }

  /** The guard every pin operation starts with. */
  predicate Initialised(d: Driver)
  {
    d.port < NumI2cPorts
  }

  /** pca9555_gpio_init_pin: set the IODIR bit (1 = input), and for an output
      also the output bit to the initial state. */
  function InitPin(d: Driver, bank: Bank, pin: nat, direction: nat, state: nat): (o: Outcome)
    ensures !Initialised(d) ==> o == Outcome(Uninitialized, bank)
    ensures Initialised(d) && (pin >= NumPins || direction >= NumDirs || state >= NumStates) ==>
      o == Outcome(InvalidArgs, bank)
    ensures Initialised(d) && pin < NumPins && direction < NumDirs && state < NumStates ==>
      var dirReg := SelectReg(pin, Iodir0, Iodir1);
      var outReg := SelectReg(pin, Output0, Output1);
      && o.status == Ok
      && Bit(o.bank[dirReg], PinBit(pin)) == (direction == DirIn)
      && SameOtherBits(bank[dirReg], o.bank[dirReg], PinBit(pin))
      && (direction == DirOut ==>
            Bit(o.bank[outReg], PinBit(pin)) == (state == StateHigh)
            && SameOtherBits(bank[outReg], o.bank[outReg], PinBit(pin)))
      && (direction == DirIn ==> o.bank[outReg] == bank[outReg])
      && forall r :: 0 <= r < 8 && r != dirReg as int && r != outReg as int ==> o.bank[r] == bank[r]
  {
    if !Initialised(d) then Outcome(Uninitialized, bank)
    else if pin >= NumPins || direction >= NumDirs || state >= NumStates then Outcome(InvalidArgs, bank)
    else
      var b1 := SetRegBit(bank, pin, Iodir0, Iodir1, direction == DirIn);
      // the state is passed as the bit value: any non-zero state sets it
      var b2 := if direction == DirOut then SetRegBit(b1, pin, Output0, Output1, state != StateLow) else b1;
      Outcome(Ok, b2)
  }

  /** The device's registers after each I2C register write init_pin makes,
      in order: the IODIR write first, then, for an output, the OUTPUT write.
      Between the two, the pin is already an output driving the old output
      bit. */
  function InitPinWrites(d: Driver, bank: Bank, pin: nat, direction: nat, state: nat): (banks: seq<Bank>)
    ensures !Initialised(d) || pin >= NumPins || direction >= NumDirs || state >= NumStates ==> banks == []
    ensures Initialised(d) && pin < NumPins && direction < NumDirs && state < NumStates ==>
      var dirReg := SelectReg(pin, Iodir0, Iodir1);
      var outReg := SelectReg(pin, Output0, Output1);
      && |banks| == (if direction == DirOut then 2 else 1)
      // the first write touches only the pin's IODIR bit
      && Bit(banks[0][dirReg], PinBit(pin)) == (direction == DirIn)
      && SameOtherBits(bank[dirReg], banks[0][dirReg], PinBit(pin))
      && SameOtherRegs(bank, banks[0], dirReg)
      // the second touches only the pin's output bit
      && (direction == DirOut ==>
            && Bit(banks[1][outReg], PinBit(pin)) == (state == StateHigh)
            && SameOtherBits(banks[0][outReg], banks[1][outReg], PinBit(pin))
            && SameOtherRegs(banks[0], banks[1], outReg))
      // the last bank is the one init_pin leaves
      && banks[|banks| - 1] == InitPin(d, bank, pin, direction, state).bank
  {
    if !Initialised(d) || pin >= NumPins || direction >= NumDirs || state >= NumStates then []
    else
      var b1 := SetRegBit(bank, pin, Iodir0, Iodir1, direction == DirIn);
      if direction == DirOut then [b1, SetRegBit(b1, pin, Output0, Output1, state != StateLow)]
      else [b1]
  }

  /** An output pin whose output bit is set at power-on and that is
      initialised LOW drives HIGH between init_pin's two writes. */
  lemma InitPinDrivesOldLevel(d: Driver, bank: Bank, pin: nat)
    requires Initialised(d) && pin < NumPins
    requires Bit(bank[SelectReg(pin, Output0, Output1)], PinBit(pin))
    ensures
      var banks := InitPinWrites(d, bank, pin, DirOut, StateLow);
      && |banks| == 2
      && !Bit(banks[0][SelectReg(pin, Iodir0, Iodir1)], PinBit(pin))
      && Bit(banks[0][SelectReg(pin, Output0, Output1)], PinBit(pin))
      && !Bit(banks[1][SelectReg(pin, Output0, Output1)], PinBit(pin))
  {
    var banks := InitPinWrites(d, bank, pin, DirOut, StateLow);
    var outReg := SelectReg(pin, Output0, Output1);
    assert banks[0][outReg] == bank[outReg];
  }

  /** pca9555_gpio_set_state: drive one output bit. */
  function SetState(d: Driver, bank: Bank, pin: nat, state: nat): (o: Outcome)
    ensures !Initialised(d) ==> o == Outcome(Uninitialized, bank)
    ensures Initialised(d) && (pin >= NumPins || state >= NumStates) ==> o == Outcome(InvalidArgs, bank)
    ensures Initialised(d) && pin < NumPins && state < NumStates ==>
      var reg := SelectReg(pin, Output0, Output1);
      && o.status == Ok
      && Bit(o.bank[reg], PinBit(pin)) == (state == StateHigh)
      && SameOtherBits(bank[reg], o.bank[reg], PinBit(pin))
      && SameOtherRegs(bank, o.bank, reg)
  {
    if !Initialised(d) then Outcome(Uninitialized, bank)
    else if pin >= NumPins || state >= NumStates then Outcome(InvalidArgs, bank)
    else Outcome(Ok, SetRegBit(bank, pin, Output0, Output1, state == StateHigh))
  }

  /** pca9555_gpio_toggle_state: flip one output bit with a single read. */
  function ToggleState(d: Driver, bank: Bank, pin: nat): (o: Outcome)
    ensures !Initialised(d) ==> o == Outcome(Uninitialized, bank)
    ensures Initialised(d) && pin >= NumPins ==> o == Outcome(InvalidArgs, bank)
    ensures Initialised(d) && pin < NumPins ==>
      var reg := SelectReg(pin, Output0, Output1);
      && o.status == Ok
      && Bit(o.bank[reg], PinBit(pin)) == !Bit(bank[reg], PinBit(pin))
      && SameOtherBits(bank[reg], o.bank[reg], PinBit(pin))
      && SameOtherRegs(bank, o.bank, reg)
  {
    if !Initialised(d) then Outcome(Uninitialized, bank)
    else if pin >= NumPins then Outcome(InvalidArgs, bank)
    else
      var reg := SelectReg(pin, Output0, Output1);
      var bit := PinBit(pin);
      Outcome(Ok, bank[reg as int := FlipBit(bank[reg], bit)])
  }

  /** Toggling a pin twice restores every register. */
  lemma ToggleTwice(d: Driver, bank: Bank, pin: nat)
    ensures ToggleState(d, ToggleState(d, bank, pin).bank, pin).bank == bank
  {
    if Initialised(d) && pin < NumPins {
      var reg := SelectReg(pin, Output0, Output1);
      var bit := PinBit(pin);
      var once := ToggleState(d, bank, pin).bank;
      assert once == bank[reg as int := FlipBit(bank[reg], bit)];
      assert FlipBit(FlipBit(bank[reg], bit), bit) == bank[reg];
    }
  }

  lemma SetBitAbsorbs(x: bv8, bit: nat, val: bool)
    requires bit < 8
    ensures SetBit(SetBit(x, bit, val), bit, val) == SetBit(x, bit, val)
    ensures SetBit(FlipBit(x, bit), bit, val) == SetBit(x, bit, val)
  {
  }

  /** Setting a pin's state overrides whatever that bit held: setting it again
      changes nothing, and a toggle before a valid set is forgotten. (An
      invalid state leaves the toggle in place, since only the set fails.) */
  lemma SetStateOverrides(d: Driver, bank: Bank, pin: nat, state: nat)
    ensures
      var once := SetState(d, bank, pin, state);
      && SetState(d, once.bank, pin, state) == once
      && (state < NumStates ==> SetState(d, ToggleState(d, bank, pin).bank, pin, state) == once)
  {
    if Initialised(d) && pin < NumPins && state < NumStates {
      var val := state == StateHigh;
      SetRegBitTwice(bank, pin, val);
      SetRegBitAfterFlip(bank, pin, val);
    }
  }

  lemma SetRegBitTwice(bank: Bank, pin: nat, val: bool)
    requires pin < NumPins
    ensures var once := SetRegBit(bank, pin, Output0, Output1, val);
      SetRegBit(once, pin, Output0, Output1, val) == once
  {
    var reg := SelectReg(pin, Output0, Output1);
    SetBitAbsorbs(bank[reg], PinBit(pin), val);
  }

  lemma SetRegBitAfterFlip(bank: Bank, pin: nat, val: bool)
    requires pin < NumPins
    ensures var reg := SelectReg(pin, Output0, Output1);
      var flipped := bank[reg as int := FlipBit(bank[reg], PinBit(pin))];
      SetRegBit(flipped, pin, Output0, Output1, val) == SetRegBit(bank, pin, Output0, Output1, val)
  {
    var reg := SelectReg(pin, Output0, Output1);
    var bit := PinBit(pin);
    SetBitAbsorbs(bank[reg], bit, val);
    var flipped := bank[reg as int := FlipBit(bank[reg], bit)];
    assert flipped[reg] == FlipBit(bank[reg], bit);
  }

  /** pca9555_gpio_get_state: report the pin's bit of the input register. */
  function GetState(d: Driver, bank: Bank, pin: nat): (r: Reading)
    ensures !Initialised(d) ==> r == Reading(Uninitialized, None)
    ensures Initialised(d) && pin >= NumPins ==> r == Reading(InvalidArgs, None)
    ensures Initialised(d) && pin < NumPins ==>
      && r.status == Ok
      && r.state == Some(if Bit(bank[SelectReg(pin, Input0, Input1)], PinBit(pin)) then StateHigh else StateLow)
  {
    if !Initialised(d) then Reading(Uninitialized, None)
    else if pin >= NumPins then Reading(InvalidArgs, None)
    else
      var data := bank[SelectReg(pin, Input0, Input1)];
      var bit := PinBit(pin);
      Reading(Ok, Some(if data & Mask(bit) == 0 then StateLow else StateHigh))
  }

  /** An init with a port above NUM_I2C_PORTS is recorded all the same, every
      pin operation then fails as uninitialised, and no later init can repair
      it. */
  lemma BadInitPortSticks(port: nat, later: nat, bank: Bank, pin: nat, direction: nat, state: nat)
    requires port > NumI2cPorts
    ensures
      var d := GpioInit(Uninitialised, port).0;
      && !Initialised(d)
      && InitPin(d, bank, pin, direction, state) == Outcome(Uninitialized, bank)
      && SetState(d, bank, pin, state) == Outcome(Uninitialized, bank)
      && ToggleState(d, bank, pin) == Outcome(Uninitialized, bank)
      && GetState(d, bank, pin) == Reading(Uninitialized, None)
      && GpioInit(d, later).0 == d
  {
  }

  // ---------------------------------------------------------------------
  // Whole register state

  /** The outcome of the four I2C transfers of get_register_state: select
      register 0, read it, select register 1, read it. */
  datatype Transfers = Transfers(select0: StatusCode, read0: StatusCode, select1: StatusCode, read1: StatusCode)

  /** The first failing transfer's status, or Ok when all succeed. */
  function FirstFailure(t: Transfers): (s: StatusCode)
    ensures s == Ok <==> t.select0 == Ok && t.read0 == Ok && t.select1 == Ok && t.read1 == Ok
    ensures t.select0 != Ok ==> s == t.select0
    ensures t.select0 == Ok && t.read0 != Ok ==> s == t.read0
    ensures t.select0 == Ok && t.read0 == Ok && t.select1 != Ok ==> s == t.select1
    ensures t.select0 == Ok && t.read0 == Ok && t.select1 == Ok ==> s == t.read1
  {
    if t.select0 != Ok then t.select0
    else if t.read0 != Ok then t.read0
    else if t.select1 != Ok then t.select1
    else t.read1
  }

  /** (reg0 << 8) + reg1 as a 16-bit value: the first register in the high byte. */
  function Join(hi: bv8, lo: bv8): (v: bv16)
  {
    ((hi as bv16) << 8) + (lo as bv16)
  }

  function HighByte(v: bv16): bv8
  {
    (v >> 8) as bv8
  }

  function LowByte(v: bv16): bv8
  {
    (v & 0xFF) as bv8
  }

  /** Joining two bytes loses nothing: the value is hi * 256 + lo, and both
      bytes can be recovered from it; every 16-bit value is such a join. */
  lemma JoinRoundTrip(hi: bv8, lo: bv8, v: bv16)
    ensures Join(hi, lo) as int == hi as int * 256 + lo as int
    ensures HighByte(Join(hi, lo)) == hi && LowByte(Join(hi, lo)) == lo
    ensures Join(HighByte(v), LowByte(v)) == v
  {
  }

  /** The status and value of get_register_state, as written: the guard
      compares the device address against the number of I2C ports. */
  function GetRegisterStateAsWritten(addr: nat, bank: Bank, t: Transfers): (r: (StatusCode, Option<bv16>))
    ensures addr >= NumI2cPorts ==> r == (InvalidArgs, None)
    ensures addr < NumI2cPorts && FirstFailure(t) != Ok ==> r == (FirstFailure(t), None)
    ensures addr < NumI2cPorts && FirstFailure(t) == Ok ==>
      r.0 == Ok && r.1.Some? && HighByte(r.1.value) == bank[0] && LowByte(r.1.value) == bank[1]
  {
    if addr >= NumI2cPorts then (InvalidArgs, None)
    else if FirstFailure(t) != Ok then (FirstFailure(t), None)
    else
      JoinRoundTrip(bank[0], bank[1], 0);
      (Ok, Some(Join(bank[0], bank[1])))
  }

  /** The addresses a PCA9555 answers to: 0100 A2 A1 A0 (section 6.1 of the
      PCA9555 data sheet). */
  predicate DeviceAddress(addr: nat)
  {
    0x20 <= addr <= 0x27
  }

  /** As written, get_register_state rejects every address a PCA9555 can
      have, whatever the bus would answer. */
  lemma AsWrittenRejectsEveryDevice(addr: nat, bank: Bank, t: Transfers)
    requires DeviceAddress(addr)
    ensures GetRegisterStateAsWritten(addr, bank, t) == (InvalidArgs, None)
  {
  }

  /** get_register_state with the guard on the driver's port, which the
      error message ("Invalid PCA9555 port.") names. */
  function GetRegisterState(d: Driver, addr: nat, bank: Bank, t: Transfers): (r: (StatusCode, Option<bv16>))
    ensures !Initialised(d) ==> r == (InvalidArgs, None)
    ensures Initialised(d) && FirstFailure(t) != Ok ==> r == (FirstFailure(t), None)
    ensures Initialised(d) && FirstFailure(t) == Ok ==>
      r.0 == Ok && r.1.Some? && HighByte(r.1.value) == bank[0] && LowByte(r.1.value) == bank[1]
  {
    if !Initialised(d) then (InvalidArgs, None)
    else if FirstFailure(t) != Ok then (FirstFailure(t), None)
    else
      JoinRoundTrip(bank[0], bank[1], 0);
      (Ok, Some(Join(bank[0], bank[1])))
  }

  /** With the corrected guard, an initialised driver reads back both input
      registers of any PCA9555 on a working bus. */
  lemma CorrectedReadsEveryDevice(d: Driver, addr: nat, bank: Bank, t: Transfers)
    requires Initialised(d) && DeviceAddress(addr) && FirstFailure(t) == Ok
    ensures GetRegisterState(d, addr, bank, t).0 == Ok
    ensures GetRegisterState(d, addr, bank, t).1 == Some(Join(bank[Input0], bank[Input1]))
  {
  }
}
