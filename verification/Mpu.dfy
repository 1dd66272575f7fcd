/**
 * The MPU6050 driver: the cached configuration, the device's registers and memory, and a bus on which any
 * transfer may fail. Each function is the specification of the method of the same name in MpuDriver and returns
 * the driver's return code.
 */
module Mpu {
  import opened Words

  /** A register value or a mask; the bits that matter are taken by division. */
  type Bits = Byte

  const SENSORS_ACCEL: Bits := 0x08

  /** Bit `weight` of a mask, `weight` being a power of two. */
  predicate HasBit(b: Bits, weight: Bits)
    requires weight > 0
  {
    b / weight % 2 == 1
  }

  predicate HasGyro(sensors: Bits) {
    HasBit(sensors, 0x40) || HasBit(sensors, 0x20) || HasBit(sensors, 0x10)
  }

  predicate HasCompass(sensors: Bits) {
    HasBit(sensors, 0x01)
  }

  const BIT_SLEEP: Bits := 0x40
  const BIT_LPA_CYCLE: Bits := 0x20
  const BIT_STBY_XYZA: Bits := 0x38
  const BIT_STBY_XYZG: Bits := 0x07
  const BIT_AUX_IF_EN: Bits := 0x20
  const BIT_FIFO_RST: Bits := 0x04
  const BIT_FIFO_EN: Bits := 0x40
  const BITS_FIFO_DMP_RST: Bits := 0x0C
  const BITS_FIFO_DMP_EN: Bits := 0xC0
  const BIT_DATA_RDY_EN: Bits := 0x01
  const BIT_DMP_INT_EN: Bits := 0x02
  const BIT_ACTL: Bits := 0x80
  const BITS_LATCH: Bits := 0x30
  const BIT_BYPASS_EN: Bits := 0x02

  /** The auxiliary interface bit of the user control register, set or cleared. */
  function WithAux(ctrl: Bits, aux: bool): Bits {
    if HasBit(ctrl, BIT_AUX_IF_EN) == aux then ctrl
    else if aux then ctrl + BIT_AUX_IF_EN
    else ctrl - BIT_AUX_IF_EN
  }

  function WithoutCompass(sensors: Bits): Bits {
    sensors - sensors % 2
  }

  const BANK_SIZE := 0x100
  const LOAD_CHUNK := 16

  /** `st.chip_cfg`, as far as the modelled functions read it. */
  datatype ChipCfg = ChipCfg(
    gyroFsr: Bits, accelFsr: Bits, sensors: Bits, lpf: Bits, sampleRate: Word, fifoEnable: Bits, intEnable: Bits,
    bypassMode: Bits, lpAccelMode: bool, activeLowInt: Bits, latchedInt: Bits, dmpOn: Bits, dmpLoaded: bool,
    dmpSampleRate: Word)

  datatype Regs = Regs(
    rateDiv: Byte, lpf: Bits, userCtrl: Bits, fifoEn: Bits, gyroCfg: Bits, accelCfg: Bits, intEnable: Bits,
    pwrMgmt1: Bits, pwrMgmt2: Bits, intPinCfg: Bits, memory: seq<Byte>, prgmStart: Word)

  /** What becomes of a transfer; `Corrupts` writes other bytes to the addressed memory, unnoticed. */
  datatype Outcome = Good | Fails | Corrupts(bytes: seq<Byte>)

  /** Driver, device, and the outcomes of the transfers to come; when they run out, all are good. */
  datatype Mpu = Mpu(cfg: ChipCfg, regs: Regs, bus: seq<Outcome>) {
    function Next(): Outcome {
      if bus == [] then Good else bus[0]
    }

    function Rest(): Mpu {
      this.(bus := if bus == [] then [] else bus[1..])
    }
  }

  /** A register write: on success the registers are `regs`; the flag tells success. */
  function Write(m: Mpu, regs: Regs): (Mpu, bool) {
    if m.Next().Fails? then (m.Rest(), false) else (m.Rest().(regs := regs), true)
  }

  function Read(m: Mpu): (Mpu, bool) {
    (m.Rest(), !m.Next().Fails?)
  }

  // ---------- interrupts and FIFO ----------

  function SetIntEnable(m: Mpu, enable: bool): (Mpu, int) {
    if m.cfg.dmpOn != 0 then
      WriteIntEnable(m, if enable then BIT_DMP_INT_EN else 0)
    else if m.cfg.sensors == 0 then (m, -1)
    else if enable && m.cfg.intEnable != 0 then (m, 0)
    else WriteIntEnable(m, if enable then BIT_DATA_RDY_EN else 0)
  }

  function WriteIntEnable(m: Mpu, v: Bits): (Mpu, int) {
    var (m1, ok) := Write(m, m.regs.(intEnable := v));
    if ok then (m1.(cfg := m1.cfg.(intEnable := v)), 0) else (m1, -1)
  }

  /** The FIFO and interrupt registers, written one after the other; the first failure ends the sequence. */
  function ResetFifo(m: Mpu): (Mpu, int) {
    if m.cfg.sensors == 0 then (m, -1)
    else
      var (m1, ok1) := Write(m, m.regs.(intEnable := 0));
      if !ok1 then (m1, -1) else
      var (m2, ok2) := Write(m1, m1.regs.(fifoEn := 0));
      if !ok2 then (m2, -1) else
      var (m3, ok3) := Write(m2, m2.regs.(userCtrl := 0));
      if !ok3 then (m3, -1)
      else if m.cfg.dmpOn != 0 then ResetDmpFifo(m3) else ResetPlainFifo(m3)
  }

  function ResetDmpFifo(m: Mpu): (Mpu, int) {
    var (m1, ok1) := Write(m, m.regs.(userCtrl := BITS_FIFO_DMP_RST));
    if !ok1 then (m1, -1) else
    var (m2, ok2) := Write(m1, m1.regs.(userCtrl := WithAux(BITS_FIFO_DMP_EN, HasCompass(m.cfg.sensors))));
    if !ok2 then (m2, -1) else
    var (m3, ok3) := Write(m2, m2.regs.(intEnable := if m.cfg.intEnable != 0 then BIT_DMP_INT_EN else 0));
    if !ok3 then (m3, -1) else
    var (m4, ok4) := Write(m3, m3.regs.(fifoEn := 0));
    (m4, if ok4 then 0 else -1)
  }

  function ResetPlainFifo(m: Mpu): (Mpu, int) {
    var (m1, ok1) := Write(m, m.regs.(userCtrl := BIT_FIFO_RST));
    if !ok1 then (m1, -1) else
    var aux := m.cfg.bypassMode == 0 && HasCompass(m.cfg.sensors);
    var (m2, ok2) := Write(m1, m1.regs.(userCtrl := WithAux(BIT_FIFO_EN, aux)));
    if !ok2 then (m2, -1) else
    var (m3, ok3) := Write(m2, m2.regs.(intEnable := if m.cfg.intEnable != 0 then BIT_DATA_RDY_EN else 0));
    if !ok3 then (m3, -1) else
    var (m4, ok4) := Write(m3, m3.regs.(fifoEn := m3.cfg.fifoEnable));
    (m4, if ok4 then 0 else -1)
  }

  function ConfigureFifo(m: Mpu, requested: Bits): (Mpu, int) {
    var sensors := WithoutCompass(requested);
    if m.cfg.dmpOn != 0 then (m, 0)
    else if m.cfg.sensors == 0 then (m, -1)
    else
      var prev := m.cfg.fifoEnable;
      var m1 := m.(cfg := m.cfg.(fifoEnable := AndBits(sensors, m.cfg.sensors)));
      var result := if m1.cfg.fifoEnable != sensors then -1 else 0;
      var m2 := SetIntEnable(m1, sensors != 0 || m1.cfg.lpAccelMode).0;
      if sensors == 0 then (m2, result)
      else
        var (m3, rc) := ResetFifo(m2);
        if rc != 0 then (m3.(cfg := m3.cfg.(fifoEnable := prev)), -1) else (m3, result)
  }

  // ---------- ranges, filter, rate ----------

  function GyroCode(fsr: Word): (c: int)
    ensures -1 <= c < 4
  {
    if fsr == 250 then 0 else if fsr == 500 then 1 else if fsr == 1000 then 2 else if fsr == 2000 then 3 else -1
  }

  function AccelCode(fsr: Byte): (c: int)
    ensures -1 <= c < 4
  {
    if fsr == 2 then 0 else if fsr == 4 then 1 else if fsr == 8 then 2 else if fsr == 16 then 3 else -1
  }

  function SetGyroFsr(m: Mpu, fsr: Word): (Mpu, int) {
    if m.cfg.sensors == 0 || GyroCode(fsr) < 0 then (m, -1)
    else
      var code: Bits := GyroCode(fsr);
      if m.cfg.gyroFsr == code then (m, 0)
      else
        var (m1, ok) := Write(m, m.regs.(gyroCfg := 8 * code));
        if ok then (m1.(cfg := m1.cfg.(gyroFsr := code)), 0) else (m1, -1)
  }

  function SetAccelFsr(m: Mpu, fsr: Byte): (Mpu, int) {
    if m.cfg.sensors == 0 || AccelCode(fsr) < 0 then (m, -1)
    else
      var code: Bits := AccelCode(fsr);
      if m.cfg.accelFsr == code then (m, 0)
      else
        var (m1, ok) := Write(m, m.regs.(accelCfg := 8 * code));
        if ok then (m1.(cfg := m1.cfg.(accelFsr := code)), 0) else (m1, -1)
  }

  function FilterCode(lpf: Word): Bits {
    if lpf >= 188 then 1 else if lpf >= 98 then 2 else if lpf >= 42 then 3
    else if lpf >= 20 then 4 else if lpf >= 10 then 5 else 6
  }

  function SetLpf(m: Mpu, lpf: Word): (Mpu, int) {
    if m.cfg.sensors == 0 then (m, -1)
    else if m.cfg.lpf == FilterCode(lpf) then (m, 0)
    else
      var (m1, ok) := Write(m, m.regs.(lpf := FilterCode(lpf)));
      if ok then (m1.(cfg := m1.cfg.(lpf := FilterCode(lpf))), 0) else (m1, -1)
  }

  /** The requested rate, limited to what the divider can express. */
  function ClampRate(rate: Word): (r: Word)
    ensures 4 <= r <= 1000
  {
    if rate < 4 then 4 else if rate > 1000 then 1000 else rate
  }

  lemma DividerRange(r: nat)
    requires 4 <= r <= 1000
    ensures 1 <= 1000 / r <= 250
  {
    var q := 1000 / r;
    assert q * r <= 1000 < (q + 1) * r;
    assert q >= 251 ==> q * r >= 251 * 4;
    assert q <= 0 ==> (q + 1) * r <= r;
  }

  /** The divider for a rate. */
  function Divider(rate: Word): Byte {
    DividerRange(ClampRate(rate));
    1000 / ClampRate(rate) - 1
  }

  /** The rate a divider gives. */
  function RateOf(div: Byte): (r: Word)
    ensures 3 <= r <= 1000
  {
    1000 / (1 + div)
  }

  function WriteRate(m: Mpu, rate: Word): (Mpu, int) {
    var div := Divider(rate);
    var (m1, ok) := Write(m, m.regs.(rateDiv := div));
    if !ok then (m1, -1)
    else
      var m2 := m1.(cfg := m1.cfg.(sampleRate := RateOf(div)));
      (SetLpf(m2, RateOf(div) / 2).0, 0)
  }

  function SetSampleRate(m: Mpu, rate: Word): (Mpu, int) {
    if m.cfg.sensors == 0 || m.cfg.dmpOn != 0 then (m, -1)
    else if m.cfg.lpAccelMode && 0 < rate <= 40 then (LpAccelMode(m, rate).0, 0)
    else WriteRate(if m.cfg.lpAccelMode then LpAccelMode(m, 0).0 else m, rate)
  }

  /** The wake-up code and the filter that go with a low-power rate. */
  function WakeCode(rate: Byte): (c: Bits)
    ensures c < 4
  {
    if rate == 1 then 0 else if rate <= 5 then 1 else if rate <= 20 then 2 else 3
  }

  function WakeFilter(rate: Byte): Word {
    if rate <= 5 then 5 else if rate <= 20 then 10 else 20
  }

  function LpAccelMode(m: Mpu, rate: Byte): (Mpu, int) {
    if rate == 0 then
      var m1 := SetIntLatched(m, 0).0;
      var (m2, ok) := Write(m1, m1.regs.(pwrMgmt1 := 0, pwrMgmt2 := BIT_STBY_XYZG));
      if ok then (m2.(cfg := m2.cfg.(lpAccelMode := false)), 0) else (m2, -1)
    else
      var m1 := SetIntLatched(m, 1).0;
      var m2 := SetLpf(m1, WakeFilter(rate)).0;
      var (m3, ok) := Write(m2, m2.regs.(pwrMgmt1 := BIT_LPA_CYCLE, pwrMgmt2 := 0x40 * WakeCode(rate) + BIT_STBY_XYZG));
      if !ok then (m3, -1)
      else
        var m4 := m3.(cfg := m3.cfg.(sensors := SENSORS_ACCEL, lpAccelMode := true));
        (ConfigureFifo(m4, 0).0, 0)
  }

  // ---------- power ----------

  function StandbyBits(sensors: Bits): Bits {
    (if HasBit(sensors, 0x40) then 0 else 0x04)
    + (if HasBit(sensors, 0x20) then 0 else 0x02)
    + (if HasBit(sensors, 0x10) then 0 else 0x01)
    + (if HasBit(sensors, SENSORS_ACCEL) then 0 else BIT_STBY_XYZA)
  }

  function SetSensors(m: Mpu, sensors: Bits): (Mpu, int) {
    var clock: Bits := if HasGyro(sensors) then 1 else if sensors != 0 then 0 else BIT_SLEEP;
    var (m1, ok1) := Write(m, m.regs.(pwrMgmt1 := clock));
    if !ok1 then (m1.(cfg := m1.cfg.(sensors := 0)), -1) else
    var (m2, ok2) := Write(m1, m1.regs.(pwrMgmt2 := StandbyBits(sensors)));
    if !ok2 then (m2.(cfg := m2.cfg.(sensors := 0)), -1) else
    var m3 := if sensors != 0 && sensors != SENSORS_ACCEL then SetIntLatched(m2, 0).0 else m2;
    (m3.(cfg := m3.cfg.(sensors := sensors, lpAccelMode := false)), 0)
  }

  // ---------- the interrupt pin ----------

  /** What the interrupt pin register should hold. */
  function PinConfig(latched: Bits, bypass: Bits, activeLow: Bits): Bits {
    (if latched != 0 then BITS_LATCH else 0)
    + (if bypass != 0 then BIT_BYPASS_EN else 0)
    + (if activeLow != 0 then BIT_ACTL else 0)
  }

  function SetBypass(m: Mpu, bypass: Bits): (Mpu, int) {
    if m.cfg.bypassMode == bypass then (m, 0)
    else
      var (m1, ok1) := Read(m);
      if !ok1 then (m1, -1) else
      var aux := bypass == 0 && HasCompass(m1.cfg.sensors);
      var (m2, ok2) := Write(m1, m1.regs.(userCtrl := WithAux(m1.regs.userCtrl, aux)));
      if !ok2 then (m2, -1) else
      var (m3, ok3) := Write(m2, m2.regs.(intPinCfg := PinConfig(m2.cfg.latchedInt, bypass, m2.cfg.activeLowInt)));
      if !ok3 then (m3, -1) else (m3.(cfg := m3.cfg.(bypassMode := bypass)), 0)
  }

  function SetIntLevel(m: Mpu, activeLow: Bits): (Mpu, int) {
    (m.(cfg := m.cfg.(activeLowInt := activeLow)), 0)
  }

  function SetIntLatched(m: Mpu, enable: Bits): (Mpu, int) {
    if m.cfg.latchedInt == enable then (m, 0)
    else
      var (m1, ok) := Write(m, m.regs.(intPinCfg := PinConfig(enable, m.cfg.bypassMode, m.cfg.activeLowInt)));
      if ok then (m1.(cfg := m1.cfg.(latchedInt := enable)), 0) else (m1, -1)
  }

  // ---------- the motion processor ----------

  function SetDmpState(m: Mpu, enable: Bits): (Mpu, int) {
    if m.cfg.dmpOn == enable then (m, 0)
    else if enable != 0 then
      if !m.cfg.dmpLoaded then (m, -1)
      else
        var m1 := SetIntEnable(m, false).0;
        var m2 := SetBypass(m1, 0).0;
        var m3 := SetSampleRate(m2, m2.cfg.dmpSampleRate).0;
        var (m4, ok) := Write(m3, m3.regs.(fifoEn := 0));
        if !ok then (m4, -1) else
        var m5 := m4.(cfg := m4.cfg.(dmpOn := 1));
        var m6 := SetIntEnable(m5, true).0;
        (ResetFifo(m6).0, 0)
    else
      var m1 := SetIntEnable(m, false).0;
      var (m2, ok) := Write(m1, m1.regs.(fifoEn := m1.cfg.fifoEnable));
      if !ok then (m2, -1) else
      var m3 := m2.(cfg := m2.cfg.(dmpOn := 0));
      (ResetFifo(m3).0, 0)
  }

  /** `length` bytes of memory at `addr`. */
  function MemAt(memory: seq<Byte>, addr: nat, length: nat): seq<Byte> {
    if addr + length <= |memory| then memory[addr..addr + length] else []
  }

  function MemWritten(memory: seq<Byte>, addr: nat, bytes: seq<Byte>): (r: seq<Byte>)
    ensures |r| == |memory|
  {
    if addr + |bytes| <= |memory| then memory[..addr] + bytes + memory[addr + |bytes|..] else memory
  }

  /** The bytes that arrive when `bytes` are sent: as many, but others if the transfer corrupts them. */
  function Arriving(outcome: Outcome, bytes: seq<Byte>): (r: seq<Byte>)
    ensures |r| == |bytes|
  {
    match outcome
    case Corrupts(other) => seq(|bytes|, i requires 0 <= i < |bytes| => if i < |other| then other[i] else bytes[i])
    case _ => bytes
  }

  /** Selecting the bank and the start address, unless the range crosses a bank or the chip is asleep. */
  function SelectMem(m: Mpu, addr: Word, length: nat): (Mpu, bool) {
    if m.cfg.sensors == 0 || addr % BANK_SIZE + length > BANK_SIZE then (m, false)
    else Write(m, m.regs)
  }

  function WriteMem(m: Mpu, addr: Word, bytes: seq<Byte>): (Mpu, int) {
    var (m1, ok1) := SelectMem(m, addr, |bytes|);
    if !ok1 then (m1, -1) else
    var (m2, ok2) := Write(m1, m1.regs.(memory := MemWritten(m1.regs.memory, addr, Arriving(m1.Next(), bytes))));
    (m2, if ok2 then 0 else -1)
  }

  function ReadMem(m: Mpu, addr: Word, length: nat): (Mpu, int, seq<Byte>) {
    var (m1, ok1) := SelectMem(m, addr, length);
    if !ok1 then (m1, -1, []) else
    var (m2, ok2) := Read(m1);
    if ok2 then (m2, 0, MemAt(m2.regs.memory, addr, length)) else (m2, -1, [])
  }

  function ChunkSize(firmware: seq<Byte>, ii: nat): nat
    requires ii <= |firmware|
  {
    if |firmware| - ii < LOAD_CHUNK then |firmware| - ii else LOAD_CHUNK
  }

  /** The loop of the firmware load from byte `ii`: write a chunk, read it back, compare. */
  function LoadFrom(m: Mpu, firmware: seq<Byte>, ii: nat): (Mpu, int)
    requires ii <= |firmware| <= 0xFFFF
    decreases |firmware| - ii
  {
    if ii == |firmware| then (m, 0)
    else
      var n := ChunkSize(firmware, ii);
      var chunk := firmware[ii..ii + n];
      var (m1, rc1) := WriteMem(m, ii, chunk);
      if rc1 != 0 then (m1, -2) else
      var (m2, rc2, cur) := ReadMem(m1, ii, n);
      if rc2 != 0 then (m2, -3)
      else if cur != chunk then (m2, -4)
      else LoadFrom(m2, firmware, ii + n)
  }

  function LoadFirmware(m: Mpu, firmware: seq<Byte>, startAddr: Word, sampleRate: Word): (Mpu, int)
    requires |firmware| <= 0xFFFF
  {
    if m.cfg.dmpLoaded then (m, -1)
    else
      var (m1, rc) := LoadFrom(m, firmware, 0);
      if rc != 0 then (m1, rc) else
      var (m2, ok) := Write(m1, m1.regs.(prgmStart := startAddr));
      if !ok then (m2, -5)
      else (m2.(cfg := m2.cfg.(dmpLoaded := true, dmpSampleRate := sampleRate)), 0)
  }

  // ---------- initialisation ----------

  /** The cache before the first setter of `mpu_init`: invalid values, so that no write is skipped. */
  function InvalidCfg(intEnable: Bits): ChipCfg {
    ChipCfg(0xFF, 0xFF, 0xFF, 0xFF, 0xFFFF, 0xFF, intEnable, 0xFF, false, 1, 0, 0, false, 0)
  }

  /** `mpu_init`; `reset` is what the registers hold after the device reset. */
  function Init(m: Mpu, reset: Regs): (Mpu, int) {
    var (m1, ok1) := Write(m, reset);
    if !ok1 then (m1, -1) else
    var (m2, ok2) := Write(m1, m1.regs.(pwrMgmt1 := 0));
    if !ok2 then (m2, -2) else
    var m3 := m2.(cfg := InvalidCfg(m2.cfg.intEnable));
    var (m4, rc4) := SetGyroFsr(m3, 2000);
    if rc4 != 0 then (m4, -30) else
    var (m5, rc5) := SetAccelFsr(m4, 2);
    if rc5 != 0 then (m5, -31) else
    var (m6, rc6) := SetLpf(m5, 42);
    if rc6 != 0 then (m6, -32) else
    var (m7, rc7) := SetSampleRate(m6, 50);
    if rc7 != 0 then (m7, -33) else
    var (m8, rc8) := ConfigureFifo(m7, 0);
    if rc8 != 0 then (m8, -34) else
    var (m9, rc9) := SetBypass(m8, 0);
    if rc9 != 0 then (m9, -4) else
    (SetSensors(m9, 0).0, 0)
  }

  // ---------- calls ----------

  datatype Call =
    | CallSetGyroFsr(fsr: Word)
    | CallSetAccelFsr(afsr: Byte)
    | CallSetLpf(lpf: Word)
    | CallSetSampleRate(rate: Word)
    | CallLpAccelMode(lpRate: Byte)
    | CallConfigureFifo(fifo: Bits)
    | CallResetFifo
    | CallSetSensors(sensors: Bits)
    | CallSetBypass(bypass: Bits)
    | CallSetIntLevel(activeLow: Bits)
    | CallSetIntLatched(latched: Bits)
    | CallSetDmpState(dmp: Bits)
    | CallLoadFirmware(firmware: seq<Byte>, startAddr: Word, sampleRate: Word)

  /** One call from outside; firmware images are limited to their 16-bit length. */
  function Do(m: Mpu, call: Call): Mpu {
    match call
    case CallSetGyroFsr(fsr) => SetGyroFsr(m, fsr).0
    case CallSetAccelFsr(fsr) => SetAccelFsr(m, fsr).0
    case CallSetLpf(lpf) => SetLpf(m, lpf).0
    case CallSetSampleRate(rate) => SetSampleRate(m, rate).0
    case CallLpAccelMode(rate) => LpAccelMode(m, rate).0
    case CallConfigureFifo(fifo) => ConfigureFifo(m, fifo).0
    case CallResetFifo => ResetFifo(m).0
    case CallSetSensors(sensors) => SetSensors(m, sensors).0
    case CallSetBypass(bypass) => SetBypass(m, bypass).0
    case CallSetIntLevel(activeLow) => SetIntLevel(m, activeLow).0
    case CallSetIntLatched(latched) => SetIntLatched(m, latched).0
    case CallSetDmpState(dmp) => SetDmpState(m, dmp).0
    case CallLoadFirmware(firmware, startAddr, sampleRate) =>
      if |firmware| <= 0xFFFF then LoadFirmware(m, firmware, startAddr, sampleRate).0 else m
  }

  function DoAll(m: Mpu, calls: seq<Call>): Mpu
    decreases |calls|
  {
    if calls == [] then m else DoAll(Do(m, calls[0]), calls[1..])
  }
}
