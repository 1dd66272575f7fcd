/** The interrupt enable register while the bus works (MpuFaults says what faults do to it), and the frozen rate. */
module MpuInterrupts {
  import opened Words
  import opened Mpu
  import opened MpuCoherence

  /** The only interrupt the driver enables: the motion processor's when that is on, else data ready. */
  function InterruptBit(dmpOn: Bits): Bits {
    if dmpOn != 0 then BIT_DMP_INT_EN else BIT_DATA_RDY_EN
  }

  ghost predicate InterruptsAgree(m: Mpu) {
    && m.bus == []
    && m.regs.intEnable == m.cfg.intEnable
    && m.cfg.intEnable in {0, InterruptBit(m.cfg.dmpOn)}
    && (m.cfg.dmpOn != 0 ==> m.cfg.dmpLoaded)
  }

  /** A step that neither touches interrupts and motion processor nor meets a fault. */
  predicate Quiet(m: Mpu, m': Mpu) {
    && m'.bus == []
    && m'.regs.intEnable == m.regs.intEnable && m'.cfg.intEnable == m.cfg.intEnable
    && m'.cfg.dmpOn == m.cfg.dmpOn && m'.cfg.dmpLoaded == m.cfg.dmpLoaded
  }

  /** A step that may set interrupts but leaves them in order, and the motion processor alone. */
  ghost predicate KeepsAgreement(m: Mpu, m': Mpu) {
    InterruptsAgree(m') && m'.cfg.dmpOn == m.cfg.dmpOn && m'.cfg.dmpLoaded == m.cfg.dmpLoaded
  }

  lemma SettersQuiet(m: Mpu, fsr: Word, lpf: Word, pin: Bits)
    requires m.bus == []
    ensures Quiet(m, SetGyroFsr(m, fsr).0)
    ensures Quiet(m, SetAccelFsr(m, fsr % 256).0)
    ensures Quiet(m, SetLpf(m, lpf).0)
    ensures Quiet(m, SetIntLatched(m, pin).0)
    ensures Quiet(m, SetBypass(m, pin).0)
  {
    hide PinConfig, FilterCode, GyroCode, AccelCode, WithAux;
  }

  lemma WriteRateQuiet(m: Mpu, rate: Word)
    requires m.bus == []
    ensures Quiet(m, WriteRate(m, rate).0)
  {
  }

  lemma SetIntEnableAgrees(m: Mpu, enable: bool)
    requires InterruptsAgree(m)
    ensures KeepsAgreement(m, SetIntEnable(m, enable).0)
  {
  }

  lemma ResetFifoQuiet(m: Mpu)
    requires InterruptsAgree(m)
    ensures Quiet(m, ResetFifo(m).0)
  {
  }

  lemma ConfigureFifoAgrees(m: Mpu, requested: Bits)
    requires InterruptsAgree(m)
    ensures KeepsAgreement(m, ConfigureFifo(m, requested).0)
  {
  }

  lemma LpAccelModeAgrees(m: Mpu, rate: Byte)
    requires InterruptsAgree(m)
    ensures KeepsAgreement(m, LpAccelMode(m, rate).0)
  {
    hide SetIntLatched, SetLpf, ConfigureFifo, WakeFilter, WakeCode;
    if rate == 0 {
      SettersQuiet(m, 0, 0, 0);
    } else {
      SettersQuiet(m, 0, 0, 1);
      var m1 := SetIntLatched(m, 1).0;
      SettersQuiet(m1, 0, WakeFilter(rate), 0);
      var m2 := SetLpf(m1, WakeFilter(rate)).0;
      var m3 := Write(m2, m2.regs.(pwrMgmt1 := BIT_LPA_CYCLE, pwrMgmt2 := 0x40 * WakeCode(rate) + BIT_STBY_XYZG)).0;
      ConfigureFifoAgrees(m3.(cfg := m3.cfg.(sensors := SENSORS_ACCEL, lpAccelMode := true)), 0);
    }
  }

  lemma SetSampleRateAgrees(m: Mpu, rate: Word)
    requires InterruptsAgree(m)
    ensures KeepsAgreement(m, SetSampleRate(m, rate).0)
  {
    hide LpAccelMode, WriteRate;
    LpAccelModeAgrees(m, if rate <= 40 then rate else 0);
    LpAccelModeAgrees(m, 0);
    WriteRateQuiet(if m.cfg.lpAccelMode then LpAccelMode(m, 0).0 else m, rate);
  }

  lemma SetSensorsAgrees(m: Mpu, sensors: Bits)
    requires InterruptsAgree(m)
    ensures KeepsAgreement(m, SetSensors(m, sensors).0)
  {
  }

  /** Turning the motion processor on overwrites whatever interrupt setting was left, even with all sensors off. */
  lemma TurnedOnAgrees(m: Mpu)
    requires InterruptsAgree(m) && m.cfg.dmpLoaded
    ensures var m1 := m.(cfg := m.cfg.(dmpOn := 1));
            InterruptsAgree(ResetFifo(SetIntEnable(m1, true).0).0)
  {
  }

  /** Turning it off starts from interrupts that were switched off first. */
  lemma TurnedOffAgrees(m: Mpu)
    requires InterruptsAgree(m) && m.cfg.dmpOn != 0
    ensures var m1 := SetIntEnable(m, false).0;
            InterruptsAgree(ResetFifo(m1.(cfg := m1.cfg.(dmpOn := 0), regs := m1.regs.(fifoEn := m1.cfg.fifoEnable))).0)
  {
  }

  lemma SetDmpStateAgrees(m: Mpu, enable: Bits)
    requires InterruptsAgree(m)
    ensures InterruptsAgree(SetDmpState(m, enable).0)
  {
    hide SetIntEnable, SetBypass, SetSampleRate, ResetFifo;
    SetIntEnableAgrees(m, false);
    SetIntEnableSettings(m, false);
    var m1 := SetIntEnable(m, false).0;
    if m.cfg.dmpOn == enable || (enable != 0 && !m.cfg.dmpLoaded) {
    } else if enable != 0 {
      SettersQuiet(m1, 0, 0, 0);
      var m2 := SetBypass(m1, 0).0;
      SetSampleRateAgrees(m2, m2.cfg.dmpSampleRate);
      var m3 := SetSampleRate(m2, m2.cfg.dmpSampleRate).0;
      var m4 := Write(m3, m3.regs.(fifoEn := 0)).0;
      TurnedOnAgrees(m4);
    } else {
      TurnedOffAgrees(m);
    }
  }

  lemma {:induction false} LoadFromQuiet(m: Mpu, firmware: seq<Byte>, ii: nat)
    requires m.bus == [] && ii <= |firmware| <= 0xFFFF
    ensures Quiet(m, LoadFrom(m, firmware, ii).0)
    decreases |firmware| - ii
  {
    hide MemWritten, MemAt, Arriving;
    if ii < |firmware| {
      var n := ChunkSize(firmware, ii);
      var m1 := WriteMem(m, ii, firmware[ii..ii + n]).0;
      LoadFromQuiet(ReadMem(m1, ii, n).0, firmware, ii + n);
    }
  }

  lemma LoadFirmwareAgrees(m: Mpu, firmware: seq<Byte>, startAddr: Word, sampleRate: Word)
    requires InterruptsAgree(m) && |firmware| <= 0xFFFF
    ensures InterruptsAgree(LoadFirmware(m, firmware, startAddr, sampleRate).0)
  {
    hide LoadFrom;
    LoadFromQuiet(m, firmware, 0);
  }

  // ---------- sessions ----------

  lemma CallAgrees(m: Mpu, call: Call)
    requires InterruptsAgree(m)
    ensures InterruptsAgree(Do(m, call))
  {
    hide SetGyroFsr, SetAccelFsr, SetLpf, SetSampleRate, LpAccelMode, ConfigureFifo, ResetFifo, SetSensors;
    hide SetBypass, SetIntLatched, SetDmpState, LoadFirmware;
    match call
    case CallSetGyroFsr(fsr) => SettersQuiet(m, fsr, 0, 0);
    case CallSetAccelFsr(fsr) => SettersQuiet(m, fsr, 0, 0);
    case CallSetLpf(lpf) => SettersQuiet(m, 0, lpf, 0);
    case CallSetSampleRate(rate) => SetSampleRateAgrees(m, rate);
    case CallLpAccelMode(rate) => LpAccelModeAgrees(m, rate);
    case CallConfigureFifo(fifo) => ConfigureFifoAgrees(m, fifo);
    case CallResetFifo => ResetFifoQuiet(m);
    case CallSetSensors(sensors) => SetSensorsAgrees(m, sensors);
    case CallSetBypass(bypass) => SettersQuiet(m, 0, 0, bypass);
    case CallSetIntLevel(activeLow) =>
    case CallSetIntLatched(latched) => SettersQuiet(m, 0, 0, latched);
    case CallSetDmpState(dmp) => SetDmpStateAgrees(m, dmp);
    case CallLoadFirmware(firmware, startAddr, sampleRate) =>
      if |firmware| <= 0xFFFF {
        LoadFirmwareAgrees(m, firmware, startAddr, sampleRate);
      }
  }

  lemma {:induction false} CallsAgree(m: Mpu, calls: seq<Call>)
    requires InterruptsAgree(m)
    ensures InterruptsAgree(DoAll(m, calls))
    decreases |calls|
  {
    hide InterruptsAgree, Do;
    if calls != [] {
      CallAgrees(m, calls[0]);
      CallsAgree(Do(m, calls[0]), calls[1..]);
    }
  }

  /** On a working bus initialisation succeeds and leaves interrupts off. */
  lemma InitAgrees(m: Mpu, reset: Regs)
    requires m.bus == []
    ensures Init(m, reset).1 == 0 && InterruptsAgree(Init(m, reset).0)
    ensures Init(m, reset).0.regs.intEnable == 0
  {
    hide SetLpf, ConfigureFifo, SetBypass, SetSensors, SetSampleRate, InterruptsAgree;
    var m1 := Write(m, reset).0;
    var m2 := Write(m1, m1.regs.(pwrMgmt1 := 0)).0;
    var m3 := m2.(cfg := InvalidCfg(m2.cfg.intEnable));
    InitFirst(m3);
    var m6 := SetLpf(SetAccelFsr(SetGyroFsr(m3, 2000).0, 2).0, 42).0;
    InitSecond(m6);
    var m7 := SetSampleRate(m6, 50).0;
    InitThird(m7);
    var m9 := SetBypass(ConfigureFifo(m7, 0).0, 0).0;
    SetSensorsAgrees(m9, 0);
    AsleepQuiet(m9);
  }

  lemma AsleepQuiet(m: Mpu)
    requires m.bus == []
    ensures SetSensors(m, 0).0.regs.intEnable == m.regs.intEnable
  {
    hide StandbyBits;
  }

  predicate Starting(m: Mpu) {
    && m.bus == [] && m.cfg.sensors == 0xFF && m.cfg.dmpOn == 0 && !m.cfg.dmpLoaded && !m.cfg.lpAccelMode
    && m.cfg.bypassMode == 0xFF
  }

  lemma InitFirst(m: Mpu)
    requires m.bus == [] && m.cfg == InvalidCfg(m.cfg.intEnable)
    ensures var (m4, rc4) := SetGyroFsr(m, 2000);
            var (m5, rc5) := SetAccelFsr(m4, 2);
            var (m6, rc6) := SetLpf(m5, 42);
            rc4 == 0 && rc5 == 0 && rc6 == 0 && Starting(m6)
  {
  }

  lemma InitSecond(m: Mpu)
    requires Starting(m)
    ensures SetSampleRate(m, 50).1 == 0 && Starting(SetSampleRate(m, 50).0)
  {
  }

  lemma InitThird(m: Mpu)
    requires Starting(m)
    ensures var (m8, rc8) := ConfigureFifo(m, 0);
            var (m9, rc9) := SetBypass(m8, 0);
            rc8 == 0 && rc9 == 0 && InterruptsAgree(m9) && m9.regs.intEnable == 0
  {
  }

  /**
   * While no transfer fails, every sequence of calls after initialisation keeps the interrupt enable register equal
   * to its cache and to nothing or the one interrupt of the mode; and the motion processor runs only when loaded.
   */
  lemma InterruptsStayInOrder(m: Mpu, reset: Regs, calls: seq<Call>)
    requires m.bus == []
    ensures Init(m, reset).1 == 0
    ensures var m' := DoAll(Init(m, reset).0, calls);
            && m'.regs.intEnable == m'.cfg.intEnable
            && m'.cfg.intEnable in {0, InterruptBit(m'.cfg.dmpOn)}
            && (m'.cfg.dmpOn != 0 ==> m'.cfg.dmpLoaded)
  {
    hide Init;
    InitAgrees(m, reset);
    CallsAgree(Init(m, reset).0, calls);
  }

  // ---------- what the motion processor freezes ----------

  lemma RangesFrozen(m: Mpu, fsr: Word, accelFsr: Byte)
    ensures SetGyroFsr(m, fsr).0.regs.rateDiv == m.regs.rateDiv
    ensures SetAccelFsr(m, accelFsr).0.regs.rateDiv == m.regs.rateDiv
  {
  }

  lemma FrozenParts(m: Mpu, lpf: Word, b: Bits)
    ensures SetLpf(m, lpf).0.regs.rateDiv == m.regs.rateDiv
    ensures SetIntLatched(m, b).0.regs.rateDiv == m.regs.rateDiv
    ensures SetBypass(m, b).0.regs.rateDiv == m.regs.rateDiv
    ensures SetBypass(m, b).0.cfg.dmpOn == m.cfg.dmpOn
  {
  }

  lemma SetSensorsFrozen(m: Mpu, sensors: Bits)
    ensures SetSensors(m, sensors).0.regs.rateDiv == m.regs.rateDiv
  {
  }

  lemma SetDmpStateFrozen(m: Mpu, enable: Bits)
    requires m.cfg.dmpOn != 0
    ensures SetDmpState(m, enable).0.regs.rateDiv == m.regs.rateDiv
  {
    hide SetIntEnable, SetBypass, ResetFifo;
    SetIntEnableSettings(m, false);
    var m1 := SetIntEnable(m, false).0;
    FrozenParts(m1, 0, 0);
    if m.cfg.dmpOn == enable || (enable != 0 && !m.cfg.dmpLoaded) {
    } else if enable != 0 {
      var m2 := SetBypass(m1, 0).0;
      var m4 := Write(m2, m2.regs.(fifoEn := 0)).0;
      var m5 := m4.(cfg := m4.cfg.(dmpOn := 1));
      SetIntEnableSettings(m5, true);
      ResetFifoSettings(SetIntEnable(m5, true).0);
    } else {
      var m2 := Write(m1, m1.regs.(fifoEn := m1.cfg.fifoEnable)).0;
      ResetFifoSettings(m2.(cfg := m2.cfg.(dmpOn := 0)));
    }
  }

  /** No call made while the motion processor is on changes the sample rate divider, faults or not. */
  lemma RateFrozenWhileOn(m: Mpu, call: Call)
    requires m.cfg.dmpOn != 0
    ensures Do(m, call).regs.rateDiv == m.regs.rateDiv
  {
    hide SetGyroFsr, SetAccelFsr, SetLpf, LpAccelMode, ConfigureFifo, ResetFifo, SetSensors;
    hide SetBypass, SetIntLatched, SetDmpState, LoadFirmware;
    match call
    case CallSetGyroFsr(fsr) => RangesFrozen(m, fsr, 0);
    case CallSetAccelFsr(fsr) => RangesFrozen(m, 0, fsr);
    case CallSetLpf(lpf) => FrozenParts(m, lpf, 0);
    case CallSetSampleRate(rate) =>
    case CallLpAccelMode(rate) => LpAccelModeLeavesRate(m, rate);
    case CallConfigureFifo(fifo) => ConfigureFifoSettings(m, fifo);
    case CallResetFifo => ResetFifoSettings(m);
    case CallSetSensors(sensors) => SetSensorsFrozen(m, sensors);
    case CallSetBypass(bypass) => FrozenParts(m, 0, bypass);
    case CallSetIntLevel(activeLow) =>
    case CallSetIntLatched(latched) => FrozenParts(m, 0, latched);
    case CallSetDmpState(dmp) => SetDmpStateFrozen(m, dmp);
    case CallLoadFirmware(firmware, startAddr, sampleRate) =>
      if |firmware| <= 0xFFFF {
        LoadFirmwareFrozen(m, firmware, startAddr, sampleRate);
      }
  }

  lemma LoadFirmwareFrozen(m: Mpu, firmware: seq<Byte>, startAddr: Word, sampleRate: Word)
    requires |firmware| <= 0xFFFF
    ensures LoadFirmware(m, firmware, startAddr, sampleRate).0.regs.rateDiv == m.regs.rateDiv
  {
    hide LoadFrom;
    LoadFromSettings(m, firmware, 0);
  }
}
