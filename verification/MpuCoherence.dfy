/** The driver's cache agrees with the device's registers, however the bus fails; so skipped writes are right. */
module MpuCoherence {
  import opened Words
  import opened Mpu

  ghost predicate RangesCoherent(m: Mpu) {
    && m.cfg.gyroFsr < 4 && m.regs.gyroCfg == 8 * m.cfg.gyroFsr
    && m.cfg.accelFsr < 4 && m.regs.accelCfg == 8 * m.cfg.accelFsr
    && m.regs.lpf == m.cfg.lpf
    && m.cfg.sampleRate == RateOf(m.regs.rateDiv)
  }

  ghost predicate PinCoherent(m: Mpu) {
    m.regs.intPinCfg == PinConfig(m.cfg.latchedInt, m.cfg.bypassMode, m.cfg.activeLowInt)
  }

  /** The gyro, accelerometer and filter registers, the rate divider and the pin register are as cached. */
  ghost predicate Coherent(m: Mpu) {
    RangesCoherent(m) && PinCoherent(m)
  }

  /** A step that keeps the one and the other. */
  ghost predicate Kept(m: Mpu, m': Mpu) {
    (RangesCoherent(m) ==> RangesCoherent(m')) && (PinCoherent(m) ==> PinCoherent(m'))
  }

  /** Two states that agree on everything coherence is about. */
  predicate SameSettings(m: Mpu, m': Mpu) {
    && m'.cfg.gyroFsr == m.cfg.gyroFsr && m'.regs.gyroCfg == m.regs.gyroCfg
    && m'.cfg.accelFsr == m.cfg.accelFsr && m'.regs.accelCfg == m.regs.accelCfg
    && m'.cfg.lpf == m.cfg.lpf && m'.regs.lpf == m.regs.lpf
    && m'.cfg.sampleRate == m.cfg.sampleRate && m'.regs.rateDiv == m.regs.rateDiv
    && m'.cfg.latchedInt == m.cfg.latchedInt && m'.cfg.bypassMode == m.cfg.bypassMode
    && m'.cfg.activeLowInt == m.cfg.activeLowInt && m'.regs.intPinCfg == m.regs.intPinCfg
  }

  lemma SameSettingsCoherent(m: Mpu, m': Mpu)
    requires SameSettings(m, m')
    ensures Kept(m, m')
  {
  }

  // ---------- functions that leave the settings alone ----------

  lemma SetIntEnableSettings(m: Mpu, enable: bool)
    ensures SameSettings(m, SetIntEnable(m, enable).0)
    ensures SetIntEnable(m, enable).0.cfg.sensors == m.cfg.sensors
    ensures SetIntEnable(m, enable).0.cfg.dmpOn == m.cfg.dmpOn
  {
  }

  lemma ResetDmpFifoSettings(m: Mpu)
    ensures SameSettings(m, ResetDmpFifo(m).0) && ResetDmpFifo(m).0.cfg == m.cfg
  {
  }

  lemma ResetPlainFifoSettings(m: Mpu)
    ensures SameSettings(m, ResetPlainFifo(m).0) && ResetPlainFifo(m).0.cfg == m.cfg
  {
  }

  lemma ResetFifoSettings(m: Mpu)
    ensures SameSettings(m, ResetFifo(m).0)
    ensures ResetFifo(m).0.cfg == m.cfg
  {
    hide ResetDmpFifo, ResetPlainFifo;
    if m.cfg.sensors != 0 {
      var (m1, ok1) := Write(m, m.regs.(intEnable := 0));
      var (m2, ok2) := Write(m1, m1.regs.(fifoEn := 0));
      var (m3, ok3) := Write(m2, m2.regs.(userCtrl := 0));
      ResetDmpFifoSettings(m3);
      ResetPlainFifoSettings(m3);
    }
  }

  lemma ConfigureFifoSettings(m: Mpu, sensors: Bits)
    ensures SameSettings(m, ConfigureFifo(m, sensors).0)
    ensures ConfigureFifo(m, sensors).0.cfg.dmpOn == m.cfg.dmpOn
  {
    hide SetIntEnable, ResetFifo;
    if m.cfg.dmpOn == 0 && m.cfg.sensors != 0 {
      var wanted := WithoutCompass(sensors);
      var m1 := m.(cfg := m.cfg.(fifoEnable := AndBits(wanted, m.cfg.sensors)));
      SetIntEnableSettings(m1, wanted != 0 || m1.cfg.lpAccelMode);
      var m2 := SetIntEnable(m1, wanted != 0 || m1.cfg.lpAccelMode).0;
      ResetFifoSettings(m2);
    }
  }

  // ---------- the setters ----------

  lemma SetGyroFsrCoherent(m: Mpu, fsr: Word)
    ensures Kept(m, SetGyroFsr(m, fsr).0)
  {
  }

  lemma SetAccelFsrCoherent(m: Mpu, fsr: Byte)
    ensures Kept(m, SetAccelFsr(m, fsr).0)
  {
  }

  lemma SetLpfCoherent(m: Mpu, lpf: Word)
    ensures Kept(m, SetLpf(m, lpf).0)
  {
  }

  lemma WriteRateCoherent(m: Mpu, rate: Word)
    ensures Kept(m, WriteRate(m, rate).0)
  {
  }

  lemma SetIntLatchedCoherent(m: Mpu, enable: Bits)
    ensures Kept(m, SetIntLatched(m, enable).0)
  {
  }

  lemma SetBypassCoherent(m: Mpu, bypass: Bits)
    ensures Kept(m, SetBypass(m, bypass).0)
  {
    hide PinConfig, RateOf, WithAux, HasCompass;
  }

  lemma LpAccelModeCoherent(m: Mpu, rate: Byte)
    ensures Kept(m, LpAccelMode(m, rate).0)
  {
    hide SetIntLatched, SetLpf, ConfigureFifo, RangesCoherent, PinCoherent, WakeFilter, WakeCode;
    SetIntLatchedCoherent(m, if rate == 0 then 0 else 1);
    if rate == 0 {
      var m1 := SetIntLatched(m, 0).0;
      SameSettingsCoherent(m1, LpAccelMode(m, 0).0);
    } else {
      var m1 := SetIntLatched(m, 1).0;
      SetLpfCoherent(m1, WakeFilter(rate));
      var m2 := SetLpf(m1, WakeFilter(rate)).0;
      var (m3, ok) := Write(m2, m2.regs.(pwrMgmt1 := BIT_LPA_CYCLE, pwrMgmt2 := 0x40 * WakeCode(rate) + BIT_STBY_XYZG));
      var m4 := m3.(cfg := m3.cfg.(sensors := SENSORS_ACCEL, lpAccelMode := true));
      ConfigureFifoSettings(m4, 0);
      SameSettingsCoherent(m2, LpAccelMode(m, rate).0);
    }
  }

  lemma SetSampleRateCoherent(m: Mpu, rate: Word)
    ensures Kept(m, SetSampleRate(m, rate).0)
  {
    hide LpAccelMode, WriteRate, RangesCoherent, PinCoherent;
    LpAccelModeCoherent(m, if rate <= 40 then rate else 0);
    LpAccelModeCoherent(m, 0);
    WriteRateCoherent(if m.cfg.lpAccelMode then LpAccelMode(m, 0).0 else m, rate);
  }

  lemma SetSensorsCoherent(m: Mpu, sensors: Bits)
    ensures Kept(m, SetSensors(m, sensors).0)
  {
  }

  lemma SetDmpStateCoherent(m: Mpu, enable: Bits)
    ensures Kept(m, SetDmpState(m, enable).0)
  {
    hide SetIntEnable, SetBypass, SetSampleRate, ResetFifo, RangesCoherent, PinCoherent;
    var m1 := SetIntEnable(m, false).0;
    SetIntEnableSettings(m, false);
    SameSettingsCoherent(m, m1);
    if m.cfg.dmpOn == enable || (enable != 0 && !m.cfg.dmpLoaded) {
    } else if enable != 0 {
      SetBypassCoherent(m1, 0);
      var m2 := SetBypass(m1, 0).0;
      SetSampleRateCoherent(m2, m2.cfg.dmpSampleRate);
      var m3 := SetSampleRate(m2, m2.cfg.dmpSampleRate).0;
      var (m4, ok) := Write(m3, m3.regs.(fifoEn := 0));
      var m5 := m4.(cfg := m4.cfg.(dmpOn := 1));
      SetIntEnableSettings(m5, true);
      ResetFifoSettings(SetIntEnable(m5, true).0);
      SameSettingsCoherent(m3, SetDmpState(m, enable).0);
    } else {
      var (m2, ok) := Write(m1, m1.regs.(fifoEn := m1.cfg.fifoEnable));
      ResetFifoSettings(m2.(cfg := m2.cfg.(dmpOn := 0)));
      SameSettingsCoherent(m1, SetDmpState(m, enable).0);
    }
  }

  lemma MemSettings(m: Mpu, addr: Word, bytes: seq<Byte>, length: nat)
    ensures SameSettings(m, WriteMem(m, addr, bytes).0) && WriteMem(m, addr, bytes).0.cfg == m.cfg
    ensures SameSettings(m, ReadMem(m, addr, length).0) && ReadMem(m, addr, length).0.cfg == m.cfg
    ensures WriteMem(m, addr, bytes).0.regs.intEnable == m.regs.intEnable
    ensures ReadMem(m, addr, length).0.regs.intEnable == m.regs.intEnable
  {
  }

  lemma {:induction false} LoadFromSettings(m: Mpu, firmware: seq<Byte>, ii: nat)
    requires ii <= |firmware| <= 0xFFFF
    ensures SameSettings(m, LoadFrom(m, firmware, ii).0) && LoadFrom(m, firmware, ii).0.cfg == m.cfg
    ensures LoadFrom(m, firmware, ii).0.regs.intEnable == m.regs.intEnable
    decreases |firmware| - ii
  {
    hide WriteMem, ReadMem;
    if ii < |firmware| {
      var n := ChunkSize(firmware, ii);
      var chunk := firmware[ii..ii + n];
      MemSettings(m, ii, chunk, n);
      var (m1, rc1) := WriteMem(m, ii, chunk);
      MemSettings(m1, ii, chunk, n);
      var (m2, rc2, cur) := ReadMem(m1, ii, n);
      if rc1 == 0 && rc2 == 0 && cur == chunk {
        LoadFromSettings(m2, firmware, ii + n);
      }
    }
  }

  lemma LoadFirmwareCoherent(m: Mpu, firmware: seq<Byte>, startAddr: Word, sampleRate: Word)
    requires |firmware| <= 0xFFFF
    ensures Kept(m, LoadFirmware(m, firmware, startAddr, sampleRate).0)
  {
    hide LoadFrom, RangesCoherent, PinCoherent;
    LoadFromSettings(m, firmware, 0);
    SameSettingsCoherent(m, LoadFirmware(m, firmware, startAddr, sampleRate).0);
  }

  // ---------- sessions ----------

  /**
   * The one call that breaks coherence: changing the interrupt level changes the cache only. It keeps coherence
   * exactly when the level is not really changed.
   */
  lemma SetIntLevelCoherentExactlyWhen(m: Mpu, activeLow: Bits)
    requires PinCoherent(m)
    ensures PinCoherent(SetIntLevel(m, activeLow).0) <==> (activeLow != 0) == (m.cfg.activeLowInt != 0)
  {
  }

  /** A call that does not turn the interrupt level over. */
  predicate KeepsLevel(m: Mpu, call: Call) {
    call.CallSetIntLevel? ==> (call.activeLow != 0) == (m.cfg.activeLowInt != 0)
  }

  /** Every call keeps the ranges, and the pin too unless it turns the level over. */
  lemma CallCoherent(m: Mpu, call: Call)
    ensures RangesCoherent(m) ==> RangesCoherent(Do(m, call))
    ensures PinCoherent(m) && KeepsLevel(m, call) ==> PinCoherent(Do(m, call))
  {
    hide RangesCoherent, PinCoherent, SetGyroFsr, SetAccelFsr, SetLpf, SetSampleRate, LpAccelMode, ConfigureFifo;
    hide ResetFifo, SetSensors, SetBypass, SetIntLevel, SetIntLatched, SetDmpState, LoadFirmware;
    match call
    case CallSetGyroFsr(fsr) => SetGyroFsrCoherent(m, fsr);
    case CallSetAccelFsr(fsr) => SetAccelFsrCoherent(m, fsr);
    case CallSetLpf(lpf) => SetLpfCoherent(m, lpf);
    case CallSetSampleRate(rate) => SetSampleRateCoherent(m, rate);
    case CallLpAccelMode(rate) => LpAccelModeCoherent(m, rate);
    case CallConfigureFifo(fifo) =>
      ConfigureFifoSettings(m, fifo);
      SameSettingsCoherent(m, ConfigureFifo(m, fifo).0);
    case CallResetFifo =>
      ResetFifoSettings(m);
      SameSettingsCoherent(m, ResetFifo(m).0);
    case CallSetSensors(sensors) => SetSensorsCoherent(m, sensors);
    case CallSetBypass(bypass) => SetBypassCoherent(m, bypass);
    case CallSetIntLevel(activeLow) =>
      if RangesCoherent(m) {
        LevelKeepsRanges(m, activeLow);
      }
      if PinCoherent(m) {
        SetIntLevelCoherentExactlyWhen(m, activeLow);
      }
    case CallSetIntLatched(latched) => SetIntLatchedCoherent(m, latched);
    case CallSetDmpState(dmp) => SetDmpStateCoherent(m, dmp);
    case CallLoadFirmware(firmware, startAddr, sampleRate) =>
      if |firmware| <= 0xFFFF {
        LoadFirmwareCoherent(m, firmware, startAddr, sampleRate);
      }
  }

  lemma LevelKeepsRanges(m: Mpu, activeLow: Bits)
    requires RangesCoherent(m)
    ensures RangesCoherent(SetIntLevel(m, activeLow).0)
  {
  }

  /** Every call of the sequence keeps the level, when its turn comes. */
  ghost predicate LevelKept(m: Mpu, calls: seq<Call>)
    decreases |calls|
  {
    calls == [] || (KeepsLevel(m, calls[0]) && LevelKept(Do(m, calls[0]), calls[1..]))
  }

  /** A successful initialisation makes cache and registers agree, whatever they held before. */
  lemma InitCoherent(m: Mpu, reset: Regs)
    requires Init(m, reset).1 == 0
    ensures Coherent(Init(m, reset).0)
  {
    hide SetIntEnable, ResetFifo, ConfigureFifo, SetSensors, LpAccelMode, RangesCoherent, PinCoherent, PinConfig;
    var m1 := Write(m, reset).0;
    var m2 := Write(m1, m1.regs.(pwrMgmt1 := 0)).0;
    var m3 := m2.(cfg := InvalidCfg(m2.cfg.intEnable));
    var m4 := SetGyroFsr(m3, 2000).0;
    var m5 := SetAccelFsr(m4, 2).0;
    var m6 := SetLpf(m5, 42).0;
    InitRanges(m3);
    var m7 := SetSampleRate(m6, 50).0;
    InitRate(m6);
    ConfigureFifoSettings(m7, 0);
    var m8 := ConfigureFifo(m7, 0).0;
    var m9 := SetBypass(m8, 0).0;
    InitPin(m8);
    SetSensorsCoherent(m9, 0);
  }

  lemma InitRanges(m: Mpu)
    requires m.cfg == InvalidCfg(m.cfg.intEnable)
    requires SetGyroFsr(m, 2000).1 == 0 && SetAccelFsr(SetGyroFsr(m, 2000).0, 2).1 == 0
    requires SetLpf(SetAccelFsr(SetGyroFsr(m, 2000).0, 2).0, 42).1 == 0
    ensures var m' := SetLpf(SetAccelFsr(SetGyroFsr(m, 2000).0, 2).0, 42).0;
            && m'.cfg == m.cfg.(gyroFsr := 3, accelFsr := 0, lpf := 3)
            && m'.regs == m.regs.(gyroCfg := 24, accelCfg := 0, lpf := 3)
  {
  }

  lemma InitRate(m: Mpu)
    requires m.cfg == InvalidCfg(m.cfg.intEnable).(gyroFsr := 3, accelFsr := 0, lpf := 3)
    requires m.regs.gyroCfg == 24 && m.regs.accelCfg == 0 && m.regs.lpf == 3
    requires SetSampleRate(m, 50).1 == 0
    ensures var m' := SetSampleRate(m, 50).0;
            && RangesCoherent(m')
            && m'.cfg.sensors == 0xFF && m'.cfg.bypassMode == 0xFF && m'.cfg.latchedInt == 0
            && m'.cfg.activeLowInt == 1 && m'.cfg.dmpOn == 0 && !m'.cfg.dmpLoaded
  {
  }

  lemma InitPin(m: Mpu)
    requires RangesCoherent(m) && m.cfg.bypassMode == 0xFF && SetBypass(m, 0).1 == 0
    ensures Coherent(SetBypass(m, 0).0)
  {
  }

  /**
   * From a successful initialisation, over every sequence of calls on a bus that may fail at any transfer, the cached
   * ranges, filter and rate agree with the registers; and so does the pin unless a call turned its level over.
   */
  lemma CacheStaysCoherent(m: Mpu, reset: Regs, calls: seq<Call>)
    requires Init(m, reset).1 == 0
    ensures RangesCoherent(DoAll(Init(m, reset).0, calls))
    ensures LevelKept(Init(m, reset).0, calls) ==> PinCoherent(DoAll(Init(m, reset).0, calls))
  {
    InitCoherent(m, reset);
    CallsCoherent(Init(m, reset).0, calls);
  }

  lemma {:induction false} CallsCoherent(m: Mpu, calls: seq<Call>)
    ensures RangesCoherent(m) ==> RangesCoherent(DoAll(m, calls))
    ensures PinCoherent(m) && LevelKept(m, calls) ==> PinCoherent(DoAll(m, calls))
    decreases |calls|
  {
    hide RangesCoherent, PinCoherent, Do, KeepsLevel;
    if calls != [] {
      CallCoherent(m, calls[0]);
      CallsCoherent(Do(m, calls[0]), calls[1..]);
    }
  }

  // ---------- what a zero return means ----------

  lemma RangesTakeEffect(m: Mpu, fsr: Word, accelFsr: Byte, lpf: Word)
    requires RangesCoherent(m)
    ensures SetGyroFsr(m, fsr).1 == 0 ==> SetGyroFsr(m, fsr).0.regs.gyroCfg == 8 * GyroCode(fsr)
    ensures SetAccelFsr(m, accelFsr).1 == 0 ==> SetAccelFsr(m, accelFsr).0.regs.accelCfg == 8 * AccelCode(accelFsr)
    ensures SetLpf(m, lpf).1 == 0 ==> SetLpf(m, lpf).0.regs.lpf == FilterCode(lpf)
  {
    hide RateOf, FilterCode, GyroCode, AccelCode;
  }

  /** The request is one that low-power mode can serve, in low-power mode. */
  predicate StaysLowPower(m: Mpu, rate: Word) {
    m.cfg.lpAccelMode && 0 < rate <= 40
  }

  lemma WriteRateSets(m: Mpu, rate: Word)
    ensures var (m', rc) := WriteRate(m, rate);
            rc == 0 ==> m'.regs.rateDiv == Divider(rate) && m'.cfg.sampleRate == RateOf(m'.regs.rateDiv)
  {
    hide SetLpf, RateOf, Divider, RangesCoherent;
    var div := Divider(rate);
    var m1 := Write(m, m.regs.(rateDiv := div)).0;
    LpfLeavesRate(m1.(cfg := m1.cfg.(sampleRate := RateOf(div))), RateOf(div) / 2);
  }

  lemma LpfLeavesRate(m: Mpu, lpf: Word)
    ensures SetLpf(m, lpf).0.regs.rateDiv == m.regs.rateDiv && SetLpf(m, lpf).0.cfg.sampleRate == m.cfg.sampleRate
  {
    hide FilterCode;
  }

  lemma LatchedLeavesRate(m: Mpu, pin: Bits)
    ensures SetIntLatched(m, pin).0.regs.rateDiv == m.regs.rateDiv
  {
    hide PinConfig;
  }

  lemma LpAccelModeLeavesRate(m: Mpu, rate: Byte)
    ensures LpAccelMode(m, rate).0.regs.rateDiv == m.regs.rateDiv
  {
    hide SetIntLatched, SetLpf, ConfigureFifo, WakeFilter, WakeCode;
    LatchedLeavesRate(m, if rate == 0 then 0 else 1);
    if rate != 0 {
      var m1 := SetIntLatched(m, 1).0;
      LpfLeavesRate(m1, WakeFilter(rate));
      var m2 := SetLpf(m1, WakeFilter(rate)).0;
      var m3 := Write(m2, m2.regs.(pwrMgmt1 := BIT_LPA_CYCLE, pwrMgmt2 := 0x40 * WakeCode(rate) + BIT_STBY_XYZG)).0;
      ConfigureFifoSettings(m3.(cfg := m3.cfg.(sensors := SENSORS_ACCEL, lpAccelMode := true)), 0);
    }
  }

  /**
   * A zero return of the rate setter: the divider is the one for the requested rate, limited to the device's range;
   * unless low-power mode serves the request, which leaves the divider alone.
   */
  lemma RateTakesEffect(m: Mpu, rate: Word)
    ensures var (m', rc) := SetSampleRate(m, rate);
            rc == 0 ==>
              if StaysLowPower(m, rate) then m'.regs.rateDiv == m.regs.rateDiv
              else m'.regs.rateDiv == Divider(rate) && m'.cfg.sampleRate == RateOf(m'.regs.rateDiv)
  {
    hide LpAccelMode, WriteRate, RateOf, Divider;
    if StaysLowPower(m, rate) {
      LpAccelModeLeavesRate(m, rate);
    }
    WriteRateSets(if m.cfg.lpAccelMode then LpAccelMode(m, 0).0 else m, rate);
  }

  lemma PinTakesEffect(m: Mpu, pin: Bits)
    requires PinCoherent(m)
    ensures SetIntLatched(m, pin).1 == 0 ==>
              SetIntLatched(m, pin).0.regs.intPinCfg == PinConfig(pin, m.cfg.bypassMode, m.cfg.activeLowInt)
    ensures SetBypass(m, pin).1 == 0 ==>
              SetBypass(m, pin).0.regs.intPinCfg == PinConfig(m.cfg.latchedInt, pin, m.cfg.activeLowInt)
  {
    hide PinConfig, WithAux, HasCompass;
  }
}
