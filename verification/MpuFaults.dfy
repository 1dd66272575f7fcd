/** The interrupt enable register on a bus that may fail: exactly which faults part it from its cache. */
module MpuFaults {
  import opened Words
  import opened Mpu
  import opened MpuCoherence
  import opened MpuInterrupts

  /** The transfer after the next `k` fails. */
  predicate FailsAt(m: Mpu, k: nat) {
    k < |m.bus| && m.bus[k].Fails?
  }

  ghost predicate FailsWithin(m: Mpu, lo: nat, hi: nat) {
    exists k :: lo <= k <= hi && FailsAt(m, k)
  }

  predicate Matches(m: Mpu) {
    m.regs.intEnable == m.cfg.intEnable
  }

  lemma TransferFails(m: Mpu, regs: Regs)
    ensures Write(m, regs).1 <==> !FailsAt(m, 0)
    ensures forall k: nat :: FailsAt(Write(m, regs).0, k) <==> FailsAt(m, k + 1)
  {
  }

  // ---------- a FIFO reset ----------

  /**
   * A reset switches interrupts off with its first transfer and back on, in the bit of the mode, with its sixth. So it
   * is harmless if it does not get through the first, or nothing was on, or it gets through to the sixth and what was
   * on is the mode's own interrupt.
   */
  ghost predicate ResetSound(m: Mpu) {
    if m.cfg.sensors == 0 || FailsAt(m, 0) then Matches(m)
    else m.cfg.intEnable == 0 || (m.cfg.intEnable == InterruptBit(m.cfg.dmpOn) && !FailsWithin(m, 1, 5))
  }

  /** What the last part of a reset, after three transfers, leaves in the register. */
  lemma ResetTail(m: Mpu)
    requires m.regs.intEnable == 0
    ensures var on := if m.cfg.intEnable != 0 then InterruptBit(m.cfg.dmpOn) else 0;
            var m' := if m.cfg.dmpOn != 0 then ResetDmpFifo(m).0 else ResetPlainFifo(m).0;
            m'.regs.intEnable == if FailsAt(m, 0) || FailsAt(m, 1) || FailsAt(m, 2) then 0 else on
  {
    hide WithAux, HasCompass;
  }

  /** Exactly when register and cache agree after a reset, for every state and every bus. */
  lemma ResetMatchesExactlyWhen(m: Mpu)
    ensures Matches(ResetFifo(m).0) <==> ResetSound(m)
  {
    hide ResetDmpFifo, ResetPlainFifo, FailsWithin;
    ResetFifoSettings(m);
    var (m1, ok1) := Write(m, m.regs.(intEnable := 0));
    var (m2, ok2) := Write(m1, m1.regs.(fifoEn := 0));
    var (m3, ok3) := Write(m2, m2.regs.(userCtrl := 0));
    TransferFails(m, m.regs.(intEnable := 0));
    TransferFails(m1, m1.regs.(fifoEn := 0));
    TransferFails(m2, m2.regs.(userCtrl := 0));
    FiveTransfers(m);
    if m.cfg.sensors != 0 && ok1 && ok2 && ok3 {
      ResetTail(m3);
    }
  }

  lemma FiveTransfers(m: Mpu)
    ensures FailsWithin(m, 1, 5) <==>
            FailsAt(m, 1) || FailsAt(m, 2) || FailsAt(m, 3) || FailsAt(m, 4) || FailsAt(m, 5)
  {
  }

  /** The same from a state in order, as it is after initialisation. */
  lemma ResetKeepsOrderExactlyWhen(m: Mpu)
    requires Matches(m) && m.cfg.intEnable in {0, InterruptBit(m.cfg.dmpOn)}
    ensures Matches(ResetFifo(m).0) <==>
            m.cfg.sensors == 0 || m.cfg.intEnable == 0 || FailsAt(m, 0) || !FailsWithin(m, 1, 5)
  {
    hide FailsAt, FailsWithin, ResetFifo;
    ResetMatchesExactlyWhen(m);
  }

  // ---------- switching interrupts ----------

  /** The call does not skip its write. */
  predicate EnableWrites(m: Mpu, enable: bool) {
    m.cfg.dmpOn != 0 || (m.cfg.sensors != 0 && !(enable && m.cfg.intEnable != 0))
  }

  /** Switching interrupts never parts the two, and brings them together exactly when its write is made. */
  lemma EnableMatchesExactlyWhen(m: Mpu, enable: bool)
    ensures Matches(SetIntEnable(m, enable).0) <==> Matches(m) || (EnableWrites(m, enable) && !FailsAt(m, 0))
  {
  }

  /**
   * What a broken reset costs: with data ready interrupts on, any failure within the reset leaves them off in the
   * device and on in the cache; asking for them again then writes nothing, so they stay off until they are switched
   * off or reset.
   */
  lemma FaultLosesInterrupts(m: Mpu)
    requires Matches(m) && m.cfg.intEnable == BIT_DATA_RDY_EN && m.cfg.dmpOn == 0 && m.cfg.sensors != 0
    ensures var m1 := ResetFifo(m).0;
            m1.regs.intEnable == 0 && m1.cfg.intEnable == BIT_DATA_RDY_EN && SetIntEnable(m1, true) == (m1, 0)
            <==> !FailsAt(m, 0) && FailsWithin(m, 1, 5)
  {
    hide FailsWithin, ResetFifo;
    ResetMatchesExactlyWhen(m);
    ResetFifoSettings(m);
    ResetOnlyClears(m);
  }

  lemma ResetOnlyClears(m: Mpu)
    ensures var r := ResetFifo(m).0.regs.intEnable;
            r == m.regs.intEnable || r == 0 || r == InterruptBit(m.cfg.dmpOn)
  {
    hide ResetDmpFifo, ResetPlainFifo;
    var m1 := Write(m, m.regs.(intEnable := 0)).0;
    var m2 := Write(m1, m1.regs.(fifoEn := 0)).0;
    var m3 := Write(m2, m2.regs.(userCtrl := 0)).0;
    if m3.regs.intEnable == 0 {
      ResetTail(m3);
    }
  }

  // ---------- every call ----------

  /** Whether a call resets the FIFO, and in which state it starts to. */
  datatype Reset = NoReset | ResetFrom(start: Mpu)

  function ConfigureReset(m: Mpu, requested: Bits): Reset {
    var sensors := WithoutCompass(requested);
    if m.cfg.dmpOn != 0 || m.cfg.sensors == 0 || sensors == 0 then NoReset
    else
      var m1 := m.(cfg := m.cfg.(fifoEnable := AndBits(sensors, m.cfg.sensors)));
      ResetFrom(SetIntEnable(m1, true).0)
  }

  function DmpOnReset(m: Mpu): Reset {
    var m2 := SetBypass(SetIntEnable(m, false).0, 0).0;
    var m3 := SetSampleRate(m2, m2.cfg.dmpSampleRate).0;
    var (m4, ok) := Write(m3, m3.regs.(fifoEn := 0));
    if ok then ResetFrom(SetIntEnable(m4.(cfg := m4.cfg.(dmpOn := 1)), true).0) else NoReset
  }

  function DmpOffReset(m: Mpu): Reset {
    var m1 := SetIntEnable(m, false).0;
    var (m2, ok) := Write(m1, m1.regs.(fifoEn := m1.cfg.fifoEnable));
    if ok then ResetFrom(m2.(cfg := m2.cfg.(dmpOn := 0))) else NoReset
  }

  function ResetOf(m: Mpu, call: Call): Reset {
    match call
    case CallResetFifo => ResetFrom(m)
    case CallConfigureFifo(fifo) => ConfigureReset(m, fifo)
    case CallSetDmpState(dmp) =>
      if m.cfg.dmpOn == dmp || (dmp != 0 && !m.cfg.dmpLoaded) then NoReset
      else if dmp != 0 then DmpOnReset(m)
      else DmpOffReset(m)
    case _ => NoReset
  }

  ghost predicate CallSound(m: Mpu, call: Call) {
    match ResetOf(m, call)
    case NoReset => true
    case ResetFrom(start) => ResetSound(start)
  }

  /** A step that leaves the interrupt register and its cache alone. */
  predicate SameInterrupts(m: Mpu, m': Mpu) {
    m'.regs.intEnable == m.regs.intEnable && m'.cfg.intEnable == m.cfg.intEnable
  }

  lemma RangesLeaveInterrupts(m: Mpu, fsr: Word, accelFsr: Byte)
    ensures SameInterrupts(m, SetGyroFsr(m, fsr).0)
    ensures SameInterrupts(m, SetAccelFsr(m, accelFsr).0)
  {
    hide GyroCode, AccelCode;
  }

  lemma BypassLeavesInterrupts(m: Mpu, pin: Bits)
    ensures SameInterrupts(m, SetBypass(m, pin).0)
  {
    hide PinConfig, WithAux, HasCompass;
  }

  lemma SettersLeaveInterrupts(m: Mpu, lpf: Word, pin: Bits)
    ensures SameInterrupts(m, SetLpf(m, lpf).0)
    ensures SameInterrupts(m, SetIntLatched(m, pin).0)
    ensures SameInterrupts(m, SetBypass(m, pin).0)
  {
    hide PinConfig, FilterCode, SetBypass;
    BypassLeavesInterrupts(m, pin);
  }

  lemma WriteRateLeavesInterrupts(m: Mpu, rate: Word)
    ensures SameInterrupts(m, WriteRate(m, rate).0)
  {
    hide SetLpf, RateOf, Divider;
    var div := Divider(rate);
    var m1 := Write(m, m.regs.(rateDiv := div)).0;
    SettersLeaveInterrupts(m1.(cfg := m1.cfg.(sampleRate := RateOf(div))), RateOf(div) / 2, 0);
  }

  lemma ConfigureMatchesExactlyWhen(m: Mpu, requested: Bits)
    requires Matches(m)
    ensures Matches(ConfigureFifo(m, requested).0) <==> CallSound(m, CallConfigureFifo(requested))
    ensures requested == 0 ==> Matches(ConfigureFifo(m, requested).0)
  {
    hide SetIntEnable, ResetFifo, ResetSound, AndBits;
    if m.cfg.dmpOn == 0 && m.cfg.sensors != 0 {
      var sensors := WithoutCompass(requested);
      var m1 := m.(cfg := m.cfg.(fifoEnable := AndBits(sensors, m.cfg.sensors)));
      EnableMatchesExactlyWhen(m1, sensors != 0 || m1.cfg.lpAccelMode);
      ResetMatchesExactlyWhen(SetIntEnable(m1, true).0);
    }
  }

  lemma LpAccelModeMatches(m: Mpu, rate: Byte)
    requires Matches(m)
    ensures Matches(LpAccelMode(m, rate).0)
  {
    hide SetIntLatched, SetLpf, ConfigureFifo, WakeFilter, WakeCode;
    SettersLeaveInterrupts(m, 0, if rate == 0 then 0 else 1);
    if rate != 0 {
      var m1 := SetIntLatched(m, 1).0;
      SettersLeaveInterrupts(m1, WakeFilter(rate), 0);
      var m2 := SetLpf(m1, WakeFilter(rate)).0;
      var m3 := Write(m2, m2.regs.(pwrMgmt1 := BIT_LPA_CYCLE, pwrMgmt2 := 0x40 * WakeCode(rate) + BIT_STBY_XYZG)).0;
      ConfigureMatchesExactlyWhen(m3.(cfg := m3.cfg.(sensors := SENSORS_ACCEL, lpAccelMode := true)), 0);
    }
  }

  lemma SetSampleRateMatches(m: Mpu, rate: Word)
    requires Matches(m)
    ensures Matches(SetSampleRate(m, rate).0)
  {
    hide LpAccelMode, WriteRate;
    LpAccelModeMatches(m, if rate <= 40 then rate else 0);
    LpAccelModeMatches(m, 0);
    WriteRateLeavesInterrupts(if m.cfg.lpAccelMode then LpAccelMode(m, 0).0 else m, rate);
  }

  lemma SetSensorsLeavesInterrupts(m: Mpu, sensors: Bits)
    ensures SameInterrupts(m, SetSensors(m, sensors).0)
  {
    hide SetIntLatched, StandbyBits, HasGyro;
    var clock: Bits := if HasGyro(sensors) then 1 else if sensors != 0 then 0 else BIT_SLEEP;
    var m1 := Write(m, m.regs.(pwrMgmt1 := clock)).0;
    SettersLeaveInterrupts(Write(m1, m1.regs.(pwrMgmt2 := StandbyBits(sensors))).0, 0, 0);
  }

  /** Turning the motion processor on or off: the two agree afterwards exactly when its reset is harmless. */
  lemma SetDmpStateMatchesExactlyWhen(m: Mpu, enable: Bits)
    requires Matches(m)
    ensures Matches(SetDmpState(m, enable).0) <==> CallSound(m, CallSetDmpState(enable))
  {
    hide SetIntEnable, SetBypass, SetSampleRate, ResetFifo, ResetSound;
    EnableMatchesExactlyWhen(m, false);
    var m1 := SetIntEnable(m, false).0;
    if m.cfg.dmpOn == enable || (enable != 0 && !m.cfg.dmpLoaded) {
    } else if enable != 0 {
      SettersLeaveInterrupts(m1, 0, 0);
      var m2 := SetBypass(m1, 0).0;
      SetSampleRateMatches(m2, m2.cfg.dmpSampleRate);
      var m3 := SetSampleRate(m2, m2.cfg.dmpSampleRate).0;
      var m4 := Write(m3, m3.regs.(fifoEn := 0)).0;
      ResetMatchesExactlyWhen(SetIntEnable(m4.(cfg := m4.cfg.(dmpOn := 1)), true).0);
    } else {
      var m2 := Write(m1, m1.regs.(fifoEn := m1.cfg.fifoEnable)).0;
      ResetMatchesExactlyWhen(m2.(cfg := m2.cfg.(dmpOn := 0)));
    }
  }

  /**
   * Turning it off, in terms of the transfers alone: what parts register and cache is a failure to switch the
   * interrupt off, followed by two transfers that go through; the cached bit is then the wrong one for the mode.
   */
  lemma TurnOffMatchesExactlyWhen(m: Mpu)
    requires Matches(m) && m.cfg.dmpOn != 0 && m.cfg.intEnable in {0, BIT_DMP_INT_EN}
    ensures Matches(SetDmpState(m, 0).0) <==>
            m.cfg.intEnable == 0 || m.cfg.sensors == 0 || !FailsAt(m, 0) || FailsAt(m, 1) || FailsAt(m, 2)
  {
    hide ResetFifo, SetDmpState, FailsWithin;
    SetDmpStateMatchesExactlyWhen(m, 0);
    TransferFails(m, m.regs.(intEnable := 0));
    var m1 := SetIntEnable(m, false).0;
    TransferFails(m1, m1.regs.(fifoEn := m1.cfg.fifoEnable));
  }

  /**
   * For every call and every bus: a call keeps the register equal to its cache if and only if it does not reset the
   * FIFO or the reset is harmless.
   */
  lemma CallMatchesExactlyWhen(m: Mpu, call: Call)
    requires Matches(m)
    ensures Matches(Do(m, call)) <==> CallSound(m, call)
  {
    hide SetGyroFsr, SetAccelFsr, SetLpf, SetSampleRate, LpAccelMode, ConfigureFifo, ResetFifo, SetSensors;
    hide SetBypass, SetIntLatched, SetDmpState, LoadFirmware, ResetSound, ConfigureReset, DmpOnReset, DmpOffReset;
    match call
    case CallSetGyroFsr(fsr) => RangesLeaveInterrupts(m, fsr, 0);
    case CallSetAccelFsr(fsr) => RangesLeaveInterrupts(m, 0, fsr);
    case CallSetLpf(lpf) => SettersLeaveInterrupts(m, lpf, 0);
    case CallSetSampleRate(rate) => SetSampleRateMatches(m, rate);
    case CallLpAccelMode(rate) => LpAccelModeMatches(m, rate);
    case CallConfigureFifo(fifo) => ConfigureMatchesExactlyWhen(m, fifo);
    case CallResetFifo => ResetMatchesExactlyWhen(m);
    case CallSetSensors(sensors) => SetSensorsLeavesInterrupts(m, sensors);
    case CallSetBypass(bypass) => SettersLeaveInterrupts(m, 0, bypass);
    case CallSetIntLevel(activeLow) =>
    case CallSetIntLatched(latched) => SettersLeaveInterrupts(m, 0, latched);
    case CallSetDmpState(dmp) => SetDmpStateMatchesExactlyWhen(m, dmp);
    case CallLoadFirmware(firmware, startAddr, sampleRate) =>
      if |firmware| <= 0xFFFF {
        LoadFirmwareLeavesInterrupts(m, firmware, startAddr, sampleRate);
      }
  }

  lemma LoadFirmwareLeavesInterrupts(m: Mpu, firmware: seq<Byte>, startAddr: Word, sampleRate: Word)
    requires |firmware| <= 0xFFFF
    ensures SameInterrupts(m, LoadFirmware(m, firmware, startAddr, sampleRate).0)
  {
    hide LoadFrom;
    LoadFromSettings(m, firmware, 0);
  }

  // ---------- sessions ----------

  /** The two agree before the first call and after every one. */
  ghost predicate MatchesThroughout(m: Mpu, calls: seq<Call>)
    decreases |calls|
  {
    Matches(m) && (calls == [] || MatchesThroughout(Do(m, calls[0]), calls[1..]))
  }

  ghost predicate ResetsSound(m: Mpu, calls: seq<Call>)
    decreases |calls|
  {
    calls == [] || (CallSound(m, calls[0]) && ResetsSound(Do(m, calls[0]), calls[1..]))
  }

  /** Over every session on every bus they agree throughout if and only if every FIFO reset is harmless. */
  lemma {:induction false} SessionMatchesExactlyWhen(m: Mpu, calls: seq<Call>)
    requires Matches(m)
    ensures MatchesThroughout(m, calls) <==> ResetsSound(m, calls)
    decreases |calls|
  {
    hide Do, CallSound, Matches;
    if calls != [] {
      CallMatchesExactlyWhen(m, calls[0]);
      if Matches(Do(m, calls[0])) {
        SessionMatchesExactlyWhen(Do(m, calls[0]), calls[1..]);
      }
    }
  }
}
