/**
 * What every call does to device and cache, in register values: for all requests, and on every bus where the statement
 * does not ask for a working one. Sensor masks are tested by division: bits 0x40, 0x20 and 0x10 are the gyro's axes, 0x08
 * the accelerometer, 0x01 the compass.
 */
module MpuEffects {
  import opened Words
  import opened Mpu
  import opened MpuCoherence
  import opened MpuFaults

  // ---------- ranges and filter ----------

  /** Full-scale code for the gyro's 250, 500, 1000 and 2000 degrees per second. */
  predicate GyroRequest(fsr: Word, code: int) {
    (fsr == 250 && code == 0) || (fsr == 500 && code == 1) || (fsr == 1000 && code == 2) || (fsr == 2000 && code == 3)
  }

  /** Full-scale code for the accelerometer's 2, 4, 8 and 16 g. */
  predicate AccelRequest(fsr: Byte, code: int) {
    (fsr == 2 && code == 0) || (fsr == 4 && code == 1) || (fsr == 8 && code == 2) || (fsr == 16 && code == 3)
  }

  lemma GyroCodeIs(fsr: Word, code: int)
    ensures GyroRequest(fsr, code) ==> GyroCode(fsr) == code
    ensures GyroCode(fsr) >= 0 ==> GyroRequest(fsr, GyroCode(fsr))
  {
  }

  lemma AccelCodeIs(fsr: Byte, code: int)
    ensures AccelRequest(fsr, code) ==> AccelCode(fsr) == code
    ensures AccelCode(fsr) >= 0 ==> AccelRequest(fsr, AccelCode(fsr))
  {
  }

  /** The gyro range: register 8 times the code and cached code, or nothing changed. */
  lemma GyroSet(m: Mpu, fsr: Word, code: Bits)
    requires RangesCoherent(m)
    ensures var (m', rc) := SetGyroFsr(m, fsr);
            && (GyroRequest(fsr, code) && m.cfg.sensors != 0 && (m.cfg.gyroFsr == code || !FailsAt(m, 0)) ==>
                  rc == 0 && m'.regs == m.regs.(gyroCfg := 8 * code) && m'.cfg == m.cfg.(gyroFsr := code))
            && (rc != 0 ==> rc == -1 && m'.regs == m.regs && m'.cfg == m.cfg)
            && (rc == 0 ==> m.cfg.sensors != 0 && GyroRequest(fsr, m'.cfg.gyroFsr))
  {
    hide GyroCode, GyroRequest, RateOf;
    GyroCodeIs(fsr, code);
    GyroCodeIs(fsr, m.cfg.gyroFsr);
  }

  lemma AccelSet(m: Mpu, fsr: Byte, code: Bits)
    requires RangesCoherent(m)
    ensures var (m', rc) := SetAccelFsr(m, fsr);
            && (AccelRequest(fsr, code) && m.cfg.sensors != 0 && (m.cfg.accelFsr == code || !FailsAt(m, 0)) ==>
                  rc == 0 && m'.regs == m.regs.(accelCfg := 8 * code) && m'.cfg == m.cfg.(accelFsr := code))
            && (rc != 0 ==> rc == -1 && m'.regs == m.regs && m'.cfg == m.cfg)
            && (rc == 0 ==> m.cfg.sensors != 0 && AccelRequest(fsr, m'.cfg.accelFsr))
  {
    hide AccelCode, AccelRequest, RateOf;
    AccelCodeIs(fsr, code);
    AccelCodeIs(fsr, m.cfg.accelFsr);
  }

  /** The highest of the cutoffs 188, 98, 42, 20, 10 and 5 Hz, codes 1 to 6, that is not above the request; or 5 Hz. */
  predicate FilterRequest(lpf: Word, code: Bits) {
    || (188 <= lpf && code == 1) || (98 <= lpf < 188 && code == 2) || (42 <= lpf < 98 && code == 3)
    || (20 <= lpf < 42 && code == 4) || (10 <= lpf < 20 && code == 5) || (lpf < 10 && code == 6)
  }

  lemma FilterCodeIs(lpf: Word, code: Bits)
    ensures FilterRequest(lpf, code) <==> FilterCode(lpf) == code
  {
  }

  lemma LpfSet(m: Mpu, lpf: Word, code: Bits)
    requires m.regs.lpf == m.cfg.lpf && FilterRequest(lpf, code)
    ensures var (m', rc) := SetLpf(m, lpf);
            if m.cfg.sensors != 0 && (m.cfg.lpf == code || !FailsAt(m, 0)) then
              rc == 0 && m'.regs == m.regs.(lpf := code) && m'.cfg == m.cfg.(lpf := code)
            else rc == -1 && m'.regs == m.regs && m'.cfg == m.cfg
  {
    hide FilterCode, FilterRequest;
    FilterCodeIs(lpf, code);
  }

  // ---------- the sample rate ----------

  /** The request, limited to 4 to 1000 Hz. */
  predicate LimitedRate(rate: Word, r: Word) {
    (rate < 4 && r == 4) || (rate > 1000 && r == 1000) || (4 <= rate <= 1000 && r == rate)
  }

  /** The divider is the last one that does not give more than the rate asked for. */
  predicate Divides(r: Word, div: Byte) {
    (div as int + 1) * r <= 1000 < (div as int + 2) * r
  }

  lemma DividerDivides(rate: Word, r: Word)
    requires LimitedRate(rate, r)
    ensures r > 0 && Divides(r, Divider(rate))
  {
    var q := 1000 / r;
    assert ClampRate(rate) == r;
    assert q * r <= 1000 < (q + 1) * r;
  }

  /** The rate of a divider. */
  lemma RateIs(div: Byte)
    ensures RateOf(div) as int == 1000 / (1 + div as int)
  {
  }

  /**
   * A rate written: the divider, one less than the number of base periods, is the last that does not give more than
   * the rate asked for, and the cached rate is 1000 over that number.
   */
  lemma RateSet(m: Mpu, rate: Word, r: Word)
    requires LimitedRate(rate, r)
    ensures var (m', rc) := SetSampleRate(m, rate);
            && (m.cfg.sensors == 0 || m.cfg.dmpOn != 0 ==> rc == -1 && m' == m)
            && (rc == 0 && !(m.cfg.lpAccelMode && 0 < rate <= 40) ==>
                  && (m'.regs.rateDiv as int + 1) * r <= 1000 < (m'.regs.rateDiv as int + 2) * r
                  && m'.cfg.sampleRate as int == 1000 / (1 + m'.regs.rateDiv as int))
  {
    hide LpAccelMode, WriteRate, RateOf, Divider, LimitedRate;
    RateTakesEffect(m, rate);
    DividerDivides(rate, r);
    RateIs(SetSampleRate(m, rate).0.regs.rateDiv);
  }

  /** On a working bus in full power: divider, cached rate, and the filter of half the rate. */
  lemma RateSetWorking(m: Mpu, rate: Word, r: Word, div: Byte, code: Bits)
    requires m.bus == [] && m.cfg.sensors != 0 && m.cfg.dmpOn == 0 && !m.cfg.lpAccelMode && m.regs.lpf == m.cfg.lpf
    requires LimitedRate(rate, r) && Divides(r, div)
    requires FilterRequest(RateOf(div) / 2, code)
    ensures SetSampleRate(m, rate)
         == (m.(regs := m.regs.(rateDiv := div, lpf := code), cfg := m.cfg.(sampleRate := RateOf(div), lpf := code)), 0)
  {
    hide Divider, RateOf, LimitedRate, FilterRequest, SetLpf, Divides;
    DividerDivides(rate, r);
    OneDivider(r, div, Divider(rate));
    var m1 := m.(regs := m.regs.(rateDiv := div), cfg := m.cfg.(sampleRate := RateOf(div)));
    LpfSet(m1, RateOf(div) / 2, code);
    SetLpfBus(m1, RateOf(div) / 2);
  }

  lemma SetLpfBus(m: Mpu, lpf: Word)
    requires m.bus == []
    ensures SetLpf(m, lpf).0.bus == []
  {
    hide FilterCode;
  }

  lemma OneDivider(r: Word, a: Byte, b: Byte)
    requires r > 0 && Divides(r, a) && Divides(r, b)
    ensures a == b
  {
    assert a > b ==> (a as int + 1) * r >= (b as int + 2) * r;
    assert b > a ==> (b as int + 1) * r >= (a as int + 2) * r;
  }

  // ---------- the interrupt pin ----------

  /** The pin register: 0x30 for latched, 0x02 for bypass, 0x80 for active low. */
  function PinBits(latched: Bits, bypass: Bits, activeLow: Bits): Bits {
    (if latched == 0 then 0x00 else 0x30) + (if bypass == 0 then 0x00 else 0x02) + (if activeLow == 0 then 0x00 else 0x80)
  }

  lemma PinIs(latched: Bits, bypass: Bits, activeLow: Bits)
    ensures PinConfig(latched, bypass, activeLow) == PinBits(latched, bypass, activeLow)
  {
  }

  lemma LatchedSet(m: Mpu, enable: Bits)
    ensures var (m', rc) := SetIntLatched(m, enable);
            if m.cfg.latchedInt == enable then rc == 0 && m' == m
            else if FailsAt(m, 0) then rc == -1 && m'.regs == m.regs && m'.cfg == m.cfg
            else rc == 0 && m'.cfg == m.cfg.(latchedInt := enable)
                 && m'.regs == m.regs.(intPinCfg := PinBits(enable, m.cfg.bypassMode, m.cfg.activeLowInt))
  {
    hide PinConfig, PinBits;
    PinIs(enable, m.cfg.bypassMode, m.cfg.activeLowInt);
  }

  /** A control value with its bit 0x20 set or cleared and all other bits kept. */
  predicate AuxiliaryBit(ctrl: Bits, set': bool, ctrl': Bits) {
    ctrl' as int == ctrl as int - 0x20 * (ctrl / 0x20 % 2) + if set' then 0x20 else 0
  }

  lemma AuxIs(ctrl: Bits, aux: bool)
    ensures AuxiliaryBit(ctrl, aux, WithAux(ctrl, aux))
    ensures forall other: Bits :: AuxiliaryBit(ctrl, aux, other) ==> other == WithAux(ctrl, aux)
  {
  }

  /**
   * Bypass: the auxiliary interface goes on exactly when bypass goes off and the compass is in use, then the pin
   * register follows; a failure leaves what came after it.
   */
  lemma BypassSet(m: Mpu, bypass: Bits, ctrl: Bits)
    requires AuxiliaryBit(m.regs.userCtrl, bypass == 0 && m.cfg.sensors % 2 == 1, ctrl)
    ensures var (m', rc) := SetBypass(m, bypass);
            if m.cfg.bypassMode == bypass then rc == 0 && m' == m
            else if FailsAt(m, 0) || FailsAt(m, 1) then rc == -1 && m'.regs == m.regs && m'.cfg == m.cfg
            else if FailsAt(m, 2) then rc == -1 && m'.regs == m.regs.(userCtrl := ctrl) && m'.cfg == m.cfg
            else rc == 0 && m'.cfg == m.cfg.(bypassMode := bypass)
                 && m'.regs == m.regs.(userCtrl := ctrl,
                                       intPinCfg := PinBits(m.cfg.latchedInt, bypass, m.cfg.activeLowInt))
  {
    hide PinConfig, PinBits, WithAux, AuxiliaryBit;
    AuxIs(m.regs.userCtrl, bypass == 0 && m.cfg.sensors % 2 == 1);
    assert HasCompass(m.cfg.sensors) <==> m.cfg.sensors % 2 == 1;
    PinIs(m.cfg.latchedInt, bypass, m.cfg.activeLowInt);
  }

  // ---------- interrupts and FIFO ----------

  /** Switching interrupts: bit 0x02 with the motion processor on, else bit 0x01, written unless known to be on. */
  lemma IntEnableSet(m: Mpu, enable: bool)
    ensures var (m', rc) := SetIntEnable(m, enable);
            var v := if !enable then 0 else if m.cfg.dmpOn != 0 then 0x02 else 0x01;
            if m.cfg.dmpOn == 0 && m.cfg.sensors == 0 then rc == -1 && m' == m
            else if m.cfg.dmpOn == 0 && enable && m.cfg.intEnable != 0 then rc == 0 && m' == m
            else if FailsAt(m, 0) then rc == -1 && m'.regs == m.regs && m'.cfg == m.cfg
            else rc == 0 && m'.regs == m.regs.(intEnable := v) && m'.cfg == m.cfg.(intEnable := v)
  {
  }

  /** From agreement a zero return means that interrupts are as asked for. */
  lemma IntEnableDirection(m: Mpu, enable: bool)
    requires m.regs.intEnable == m.cfg.intEnable && SetIntEnable(m, enable).1 == 0
    ensures SetIntEnable(m, enable).0.regs.intEnable != 0 <==> enable
  {
  }

  /** The control value a reset ends with: FIFO on, motion processor on, auxiliary interface on. */
  function ResetControl(m: Mpu): Bits {
    if m.cfg.dmpOn != 0 then (if m.cfg.sensors % 2 == 1 then 0xE0 else 0xC0)
    else if m.cfg.bypassMode == 0 && m.cfg.sensors % 2 == 1 then 0x60
    else 0x40
  }

  /** The device when `k` of the seven transfers of a reset have gone through. */
  function ResetSoFar(m: Mpu, k: nat): Regs {
    var reset: Bits := if m.cfg.dmpOn != 0 then 0x0C else 0x04;
    var on: Bits := if m.cfg.intEnable == 0 then 0 else if m.cfg.dmpOn != 0 then 0x02 else 0x01;
    if k == 0 then m.regs
    else if k == 1 then m.regs.(intEnable := 0)
    else if k == 2 then m.regs.(intEnable := 0, fifoEn := 0)
    else if k == 3 then m.regs.(intEnable := 0, fifoEn := 0, userCtrl := 0)
    else if k == 4 then m.regs.(intEnable := 0, fifoEn := 0, userCtrl := reset)
    else if k == 5 then m.regs.(intEnable := 0, fifoEn := 0, userCtrl := ResetControl(m))
    else if k == 6 then m.regs.(intEnable := on, fifoEn := 0, userCtrl := ResetControl(m))
    else m.regs.(intEnable := on, fifoEn := if m.cfg.dmpOn != 0 then 0 else m.cfg.fifoEnable, userCtrl := ResetControl(m))
  }

  /** How many transfers from the `i`-th on go through before one fails, of `n` at most. */
  function GoodFrom(m: Mpu, i: nat, n: nat): (k: nat)
    ensures k <= n
    decreases n
  {
    if n == 0 || FailsAt(m, i) then 0 else 1 + GoodFrom(m, i + 1, n - 1)
  }

  /** How many of the next `n` transfers go through before one fails. */
  function FirstFailure(m: Mpu, n: nat): (k: nat)
    ensures k <= n
  {
    GoodFrom(m, 0, n)
  }

  lemma ControlIs(m: Mpu)
    ensures m.cfg.dmpOn != 0 ==> WithAux(BITS_FIFO_DMP_EN, HasCompass(m.cfg.sensors)) == ResetControl(m)
    ensures m.cfg.dmpOn == 0 ==>
              WithAux(BIT_FIFO_EN, m.cfg.bypassMode == 0 && HasCompass(m.cfg.sensors)) == ResetControl(m)
  {
  }

  /** The last four transfers, by the number that go through. */
  function EndSoFar(m: Mpu, k: nat, reset: Bits, on: Bits, fifo: Bits): Regs {
    if k == 0 then m.regs
    else if k == 1 then m.regs.(userCtrl := reset)
    else if k == 2 then m.regs.(userCtrl := ResetControl(m))
    else if k == 3 then m.regs.(userCtrl := ResetControl(m), intEnable := on)
    else m.regs.(userCtrl := ResetControl(m), intEnable := on, fifoEn := fifo)
  }

  lemma WriteIs(m: Mpu, regs: Regs)
    ensures var (m', ok) := Write(m, regs);
            && m'.cfg == m.cfg && m'.regs == (if FailsAt(m, 0) then m.regs else regs) && ok == !FailsAt(m, 0)
            && forall k: nat :: FailsAt(m', k) <==> FailsAt(m, k + 1)
  {
    TransferFails(m, regs);
  }

  lemma DmpResetEnds(m: Mpu)
    requires m.cfg.dmpOn != 0
    ensures var (m', rc) := ResetDmpFifo(m);
            var k := FirstFailure(m, 4);
            && m'.regs == EndSoFar(m, k, 0x0C, if m.cfg.intEnable == 0 then 0 else 0x02, 0)
            && m'.cfg == m.cfg && rc == (if k == 4 then 0 else -1)
  {
    hide WithAux, HasCompass, ResetControl, FirstFailure, Write, FailsAt;
    ControlIs(m);
    FourFailures(m);
    var m1 := Write(m, m.regs.(userCtrl := BITS_FIFO_DMP_RST)).0;
    WriteIs(m, m.regs.(userCtrl := BITS_FIFO_DMP_RST));
    var m2 := Write(m1, m1.regs.(userCtrl := ResetControl(m))).0;
    WriteIs(m1, m1.regs.(userCtrl := ResetControl(m)));
    var m3 := Write(m2, m2.regs.(intEnable := if m.cfg.intEnable != 0 then BIT_DMP_INT_EN else 0)).0;
    WriteIs(m2, m2.regs.(intEnable := if m.cfg.intEnable != 0 then BIT_DMP_INT_EN else 0));
    WriteIs(m3, m3.regs.(fifoEn := 0));
  }

  lemma PlainResetEnds(m: Mpu)
    requires m.cfg.dmpOn == 0
    ensures var (m', rc) := ResetPlainFifo(m);
            var k := FirstFailure(m, 4);
            && m'.regs == EndSoFar(m, k, 0x04, if m.cfg.intEnable == 0 then 0 else 0x01, m.cfg.fifoEnable)
            && m'.cfg == m.cfg && rc == (if k == 4 then 0 else -1)
  {
    hide WithAux, HasCompass, ResetControl, FirstFailure, Write, FailsAt;
    ControlIs(m);
    FourFailures(m);
    var m1 := Write(m, m.regs.(userCtrl := BIT_FIFO_RST)).0;
    WriteIs(m, m.regs.(userCtrl := BIT_FIFO_RST));
    var m2 := Write(m1, m1.regs.(userCtrl := ResetControl(m))).0;
    WriteIs(m1, m1.regs.(userCtrl := ResetControl(m)));
    var m3 := Write(m2, m2.regs.(intEnable := if m.cfg.intEnable != 0 then BIT_DATA_RDY_EN else 0)).0;
    WriteIs(m2, m2.regs.(intEnable := if m.cfg.intEnable != 0 then BIT_DATA_RDY_EN else 0));
    WriteIs(m3, m3.regs.(fifoEn := m.cfg.fifoEnable));
  }

  lemma ResetEnds(m: Mpu, orig: Mpu)
    requires m.cfg == orig.cfg && m.regs == ResetSoFar(orig, 3)
    ensures var (m', rc) := if m.cfg.dmpOn != 0 then ResetDmpFifo(m) else ResetPlainFifo(m);
            var k := FirstFailure(m, 4);
            m'.regs == ResetSoFar(orig, 3 + k) && m'.cfg == m.cfg && rc == (if k == 4 then 0 else -1)
  {
    hide ResetDmpFifo, ResetPlainFifo, ResetControl, FirstFailure;
    SameControl(m, orig);
    if m.cfg.dmpOn != 0 {
      DmpResetEnds(m);
    } else {
      PlainResetEnds(m);
    }
  }

  lemma SameControl(m: Mpu, orig: Mpu)
    requires m.cfg == orig.cfg
    ensures ResetControl(m) == ResetControl(orig)
  {
  }

  lemma GoodNext(m: Mpu, i: nat, n: nat)
    ensures GoodFrom(m, i, n + 1) == if FailsAt(m, i) then 0 else 1 + GoodFrom(m, i + 1, n)
    ensures GoodFrom(m, i, 0) == 0
  {
  }

  lemma FourFailures(m: Mpu)
    ensures FirstFailure(m, 4) == if FailsAt(m, 0) then 0 else if FailsAt(m, 1) then 1
                                  else if FailsAt(m, 2) then 2 else if FailsAt(m, 3) then 3 else 4
  {
    hide GoodFrom, FailsAt;
    GoodNext(m, 0, 3);
    GoodNext(m, 1, 2);
    GoodNext(m, 2, 1);
    GoodNext(m, 3, 0);
    GoodNext(m, 4, 0);
  }

  lemma {:induction false} GoodShifted(a: Mpu, b: Mpu, i: nat, n: nat)
    requires forall k: nat :: FailsAt(a, k) <==> FailsAt(b, k + 3)
    ensures GoodFrom(a, i, n) == GoodFrom(b, i + 3, n)
    decreases n
  {
    hide FailsAt;
    if n > 0 {
      GoodShifted(a, b, i + 1, n - 1);
    }
  }

  lemma SevenFailures(m: Mpu, m3: Mpu)
    requires forall k: nat :: FailsAt(m3, k) <==> FailsAt(m, k + 3)
    ensures FirstFailure(m, 7) == if FailsAt(m, 0) then 0 else if FailsAt(m, 1) then 1
                                  else if FailsAt(m, 2) then 2 else 3 + FirstFailure(m3, 4)
  {
    hide GoodFrom, FailsAt;
    GoodNext(m, 0, 6);
    GoodNext(m, 1, 5);
    GoodNext(m, 2, 4);
    GoodShifted(m3, m, 0, 4);
  }

  /** A FIFO reset on every bus: the device holds what the transfers before the first failure put there. */
  lemma ResetLeaves(m: Mpu)
    ensures var (m', rc) := ResetFifo(m);
            if m.cfg.sensors == 0 then rc == -1 && m' == m
            else
              var k := FirstFailure(m, 7);
              m'.regs == ResetSoFar(m, k) && m'.cfg == m.cfg && rc == (if k == 7 then 0 else -1)
  {
    hide ResetDmpFifo, ResetPlainFifo, ResetControl, FirstFailure, Write, FailsAt;
    var m1 := Write(m, m.regs.(intEnable := 0)).0;
    var m2 := Write(m1, m1.regs.(fifoEn := 0)).0;
    var m3 := Write(m2, m2.regs.(userCtrl := 0)).0;
    WriteIs(m, m.regs.(intEnable := 0));
    WriteIs(m1, m1.regs.(fifoEn := 0));
    WriteIs(m2, m2.regs.(userCtrl := 0));
    SevenFailures(m, m3);
    if m.cfg.sensors != 0 && !FailsAt(m, 0) && !FailsAt(m, 1) && !FailsAt(m, 2) {
      ResetEnds(m3, m);
    }
  }

  lemma {:induction false} AllGood(m: Mpu, i: nat, n: nat)
    requires m.bus == []
    ensures GoodFrom(m, i, n) == n
    decreases n
  {
    if n > 0 {
      AllGood(m, i + 1, n - 1);
    }
  }

  lemma ResetBus(m: Mpu)
    requires m.bus == []
    ensures ResetFifo(m).0.bus == []
  {
    hide WithAux, HasCompass;
  }

  /** A FIFO reset on a working bus. */
  lemma ResetWorking(m: Mpu)
    requires m.bus == [] && m.cfg.sensors != 0
    ensures ResetFifo(m) == (m.(regs := ResetSoFar(m, 7)), 0)
  {
    hide ResetFifo, ResetSoFar;
    AllGood(m, 0, 7);
    ResetLeaves(m);
    ResetBus(m);
  }

  /**
   * Configuring the FIFO on a working bus with the motion processor off: the compass is left out, the sensors that are
   * off too, and a non-zero return says that some were. Interrupts are on exactly if a sensor is asked for or low-power
   * mode is on. If none is asked for the FIFO registers stay.
   */
  lemma FifoConfigured(m: Mpu, requested: Bits)
    requires m.bus == [] && m.cfg.dmpOn == 0 && m.cfg.sensors != 0
    requires m.regs.intEnable == m.cfg.intEnable && m.cfg.intEnable <= 1
    ensures var (m', rc) := ConfigureFifo(m, requested);
            var wanted := requested - requested % 2;
            var on: Bits := if wanted != 0 || m.cfg.lpAccelMode then 1 else 0;
            && m'.cfg == m.cfg.(fifoEnable := AndBits(wanted, m.cfg.sensors), intEnable := on)
            && rc == (if AndBits(wanted, m.cfg.sensors) == wanted then 0 else -1)
            && m'.regs == if wanted == 0 then m.regs.(intEnable := on)
                          else m.regs.(intEnable := on, fifoEn := AndBits(wanted, m.cfg.sensors),
                                       userCtrl := if m.cfg.bypassMode == 0 && m.cfg.sensors % 2 == 1 then 0x60 else 0x40)
  {
    hide AndBits, SetIntEnable, ResetFifo;
    var wanted := WithoutCompass(requested);
    var m1 := m.(cfg := m.cfg.(fifoEnable := AndBits(wanted, m.cfg.sensors)));
    IntEnableSet(m1, wanted != 0 || m1.cfg.lpAccelMode);
    SetIntEnableBus(m1, wanted != 0 || m1.cfg.lpAccelMode);
    if wanted != 0 {
      ResetWorking(SetIntEnable(m1, true).0);
    }
  }

  lemma SetIntEnableBus(m: Mpu, enable: bool)
    requires m.bus == []
    ensures SetIntEnable(m, enable).0.bus == []
  {
  }

  /** A reset that fails puts the sensors of the FIFO back as they were, in the cache. */
  lemma FifoRestored(m: Mpu, requested: Bits)
    requires m.cfg.dmpOn == 0 && m.cfg.sensors != 0 && requested - requested % 2 != 0
    ensures var (m', rc) := ConfigureFifo(m, requested);
            var wanted := requested - requested % 2;
            var m1 := SetIntEnable(m.(cfg := m.cfg.(fifoEnable := AndBits(wanted, m.cfg.sensors))), true).0;
            ResetFifo(m1).1 != 0 ==> rc == -1 && m'.cfg.fifoEnable == m.cfg.fifoEnable && m'.regs == ResetFifo(m1).0.regs
  {
    hide AndBits, SetIntEnable, ResetFifo;
  }

  /** With the motion processor on nothing is configured; with all sensors off it is refused. */
  lemma FifoRefused(m: Mpu, requested: Bits)
    requires m.cfg.dmpOn != 0 || m.cfg.sensors == 0
    ensures ConfigureFifo(m, requested) == (m, if m.cfg.dmpOn != 0 then 0 else -1)
  {
  }

  // ---------- power ----------

  /** Clock and standby registers for a set of sensors. */
  function ClockBits(sensors: Bits): Bits {
    if sensors / 0x10 % 8 != 0 then 1 else if sensors != 0 then 0 else 0x40
  }

  function Standby(sensors: Bits): Bits {
    4 * (1 - sensors / 0x40 % 2) + 2 * (1 - sensors / 0x20 % 2) + (1 - sensors / 0x10 % 2)
    + (if sensors / 0x08 % 2 == 0 then 0x38 else 0)
  }

  lemma GyroIs(sensors: Bits)
    ensures HasGyro(sensors) <==> sensors / 0x10 % 8 != 0
  {
  }

  lemma StandbyIs(sensors: Bits)
    ensures StandbyBits(sensors) == Standby(sensors)
  {
  }

  /**
   * Choosing sensors: the clock is the gyro's, the internal one or asleep; axes and accelerometer not asked for are put
   * on standby; latching is switched off unless the accelerometer alone or nothing runs; a failure counts as all off.
   */
  lemma SensorsSet(m: Mpu, sensors: Bits)
    ensures var (m', rc) := SetSensors(m, sensors);
            var awake := m.regs.(pwrMgmt1 := ClockBits(sensors));
            var chosen := awake.(pwrMgmt2 := Standby(sensors));
            if FailsAt(m, 0) then rc == -1 && m'.regs == m.regs && m'.cfg == m.cfg.(sensors := 0)
            else if FailsAt(m, 1) then rc == -1 && m'.regs == awake && m'.cfg == m.cfg.(sensors := 0)
            else
              && rc == 0 && m'.cfg.sensors == sensors && !m'.cfg.lpAccelMode
              && (sensors == 0 || sensors == 0x08 || m.cfg.latchedInt == 0 || FailsAt(m, 2) ==>
                    m'.regs == chosen && m'.cfg == m.cfg.(sensors := sensors, lpAccelMode := false))
              && (sensors != 0 && sensors != 0x08 && m.cfg.latchedInt != 0 && !FailsAt(m, 2) ==>
                    && m'.regs == chosen.(intPinCfg := PinBits(0, m.cfg.bypassMode, m.cfg.activeLowInt))
                    && m'.cfg == m.cfg.(sensors := sensors, lpAccelMode := false, latchedInt := 0))
  {
    hide SetIntLatched, StandbyBits, HasGyro, Standby, ClockBits, PinBits;
    ClockIs(sensors);
    StandbyIs(sensors);
    var m1 := Write(m, m.regs.(pwrMgmt1 := ClockBits(sensors))).0;
    var m2 := Write(m1, m1.regs.(pwrMgmt2 := Standby(sensors))).0;
    LatchedSet(m2, 0);
  }

  lemma ClockIs(sensors: Bits)
    ensures ClockBits(sensors) == (if HasGyro(sensors) then 1 else if sensors != 0 then 0 else BIT_SLEEP)
  {
    GyroIs(sensors);
    hide HasGyro;
  }

  /** Leaving low-power mode: power registers 0 and 0x07, latching off. */
  lemma FullPower(m: Mpu)
    ensures var (m', rc) := LpAccelMode(m, 0);
            var m1 := SetIntLatched(m, 0).0;
            if FailsAt(m1, 0) then rc == -1 && m'.regs == m1.regs && m'.cfg == m1.cfg
            else rc == 0 && m'.regs == m1.regs.(pwrMgmt1 := 0, pwrMgmt2 := 0x07)
                 && m'.cfg == m1.cfg.(lpAccelMode := false)
  {
    hide SetIntLatched;
  }

  /** Wake-up code, filter cutoff: up to 1, 5, 20 and 40 Hz. */
  predicate WakeRequest(rate: Byte, code: Bits, cutoff: Word) {
    || (rate == 1 && code == 0 && cutoff == 5) || (2 <= rate <= 5 && code == 1 && cutoff == 5)
    || (6 <= rate <= 20 && code == 2 && cutoff == 10) || (rate > 20 && code == 3 && cutoff == 20)
  }

  lemma WakeIs(rate: Byte, code: Bits, cutoff: Word)
    requires rate != 0
    ensures WakeRequest(rate, code, cutoff) ==> WakeCode(rate) == code && WakeFilter(rate) == cutoff
  {
  }

  /**
   * Entering low-power mode on a working bus: latched pin, the cutoff's filter, cycling at the wake-up code with the gyro
   * on standby, the accelerometer alone, an empty FIFO and data ready interrupts.
   */
  lemma LowPower(m: Mpu, rate: Byte, code: Bits, cutoff: Word, filter: Bits)
    requires m.bus == [] && m.cfg.dmpOn == 0 && m.cfg.sensors != 0 && m.regs.lpf == m.cfg.lpf && PinCoherent(m)
    requires m.regs.intEnable == m.cfg.intEnable && m.cfg.intEnable <= 1 && m.cfg.latchedInt <= 1
    requires rate != 0 && WakeRequest(rate, code, cutoff) && FilterRequest(cutoff, filter)
    ensures var low := m.(regs := m.regs.(intPinCfg := PinBits(1, m.cfg.bypassMode, m.cfg.activeLowInt), lpf := filter,
                                          pwrMgmt1 := 0x20, pwrMgmt2 := 0x40 * code + 0x07, intEnable := 1),
                          cfg := m.cfg.(latchedInt := 1, lpf := filter, sensors := 0x08, lpAccelMode := true,
                                        fifoEnable := 0, intEnable := 1));
            && LpAccelMode(m, rate) == (low, 0)
            && (m.cfg.lpAccelMode && rate <= 40 ==> SetSampleRate(m, rate) == (low, 0))
  {
    hide SetIntLatched, SetLpf, ConfigureFifo, WakeCode, WakeFilter, WakeRequest, FilterRequest;
    hide PinBits, PinConfig, AndBits;
    WakeIs(rate, code, cutoff);
    LatchedSet(m, 1);
    PinIs(m.cfg.latchedInt, m.cfg.bypassMode, m.cfg.activeLowInt);
    LatchedBus(m, 1);
    var m1 := SetIntLatched(m, 1).0;
    LpfSet(m1, cutoff, filter);
    SetLpfBus(m1, cutoff);
    var m2 := SetLpf(m1, cutoff).0;
    var m3 := m2.(regs := m2.regs.(pwrMgmt1 := 0x20, pwrMgmt2 := 0x40 * code + 0x07));
    var m4 := m3.(cfg := m3.cfg.(sensors := 0x08, lpAccelMode := true));
    FifoConfigured(m4, 0);
    ConfigureBus(m4);
    NothingAnd();
  }

  /**
   * A rate of 0 or above 40 Hz asked for in low-power mode is set after a return to full power: both power registers, the
   * pin no longer latched, and the mode's flag.
   */
  lemma RateLeavesLowPower(m: Mpu, rate: Word)
    requires m.bus == [] && m.cfg.dmpOn == 0 && m.cfg.sensors != 0 && PinCoherent(m) && m.cfg.lpAccelMode
    requires rate == 0 || rate > 40
    ensures var full := m.(regs := m.regs.(intPinCfg := PinBits(0, m.cfg.bypassMode, m.cfg.activeLowInt),
                                           pwrMgmt1 := 0, pwrMgmt2 := 0x07),
                           cfg := m.cfg.(latchedInt := 0, lpAccelMode := false));
            SetSampleRate(m, rate) == SetSampleRate(full, rate)
  {
    hide SetIntLatched, PinBits, PinConfig, WriteRate;
    LatchedSet(m, 0);
    PinIs(m.cfg.latchedInt, m.cfg.bypassMode, m.cfg.activeLowInt);
    LatchedBus(m, 0);
  }

  lemma NothingAnd()
    ensures AndBits(0, 0x08) == 0 && AndBits(0, 0xFF) == 0
  {
  }

  lemma LatchedBus(m: Mpu, pin: Bits)
    requires m.bus == []
    ensures SetIntLatched(m, pin).0.bus == []
  {
    hide PinConfig;
  }

  lemma ConfigureBus(m: Mpu)
    requires m.bus == []
    ensures ConfigureFifo(m, 0).0.bus == []
  {
    hide ResetFifo, AndBits;
  }

  // ---------- the motion processor ----------

  /** Without firmware, or without a change, nothing is done. */
  lemma DmpRefused(m: Mpu, enable: Bits)
    ensures m.cfg.dmpOn == enable ==> SetDmpState(m, enable) == (m, 0)
    ensures m.cfg.dmpOn != enable && enable != 0 && !m.cfg.dmpLoaded ==> SetDmpState(m, enable) == (m, -1)
  {
  }

  /**
   * Turning it on, on a working bus from full power and bypass: bypass off, the firmware's rate set with its filter,
   * the FIFO empty, its interrupt alone enabled, motion processor and FIFO started.
   */
  lemma DmpTurnedOn(m: Mpu, enable: Bits, r: Word, div: Byte, code: Bits)
    requires m.bus == [] && m.cfg.sensors != 0 && !m.cfg.lpAccelMode && RangesCoherent(m) && PinCoherent(m)
    requires m.cfg.dmpOn == 0 && enable != 0 && m.cfg.dmpLoaded
    requires LimitedRate(m.cfg.dmpSampleRate, r) && Divides(r, div)
    requires FilterRequest(RateOf(div) / 2, code)
    ensures SetDmpState(m, enable)
         == (m.(regs := m.regs.(intEnable := 0x02, fifoEn := 0, rateDiv := div, lpf := code,
                                userCtrl := if m.cfg.sensors % 2 == 1 then 0xE0 else 0xC0,
                                intPinCfg := PinBits(m.cfg.latchedInt, 0, m.cfg.activeLowInt)),
                cfg := m.cfg.(intEnable := 0x02, bypassMode := 0, sampleRate := RateOf(div), lpf := code,
                              dmpOn := 1)), 0)
  {
    hide SetIntEnable, SetBypass, SetSampleRate, ResetFifo, RateOf, FilterRequest, LimitedRate, Divides;
    hide PinBits, PinConfig, RangesCoherent, PinCoherent, ResetSoFar;
    var ctrl := DmpPrepared(m);
    var m2 := m.(regs := m.regs.(intEnable := 0, userCtrl := ctrl,
                                 intPinCfg := PinBits(m.cfg.latchedInt, 0, m.cfg.activeLowInt)),
                 cfg := m.cfg.(intEnable := 0, bypassMode := 0));
    FilterAgrees(m);
    RateSetWorking(m2, m.cfg.dmpSampleRate, r, div, code);
    var m3 := SetSampleRate(m2, m.cfg.dmpSampleRate).0;
    DmpStarted(m3.(regs := m3.regs.(fifoEn := 0), cfg := m3.cfg.(dmpOn := 1)));
  }

  lemma FilterAgrees(m: Mpu)
    requires RangesCoherent(m)
    ensures m.regs.lpf == m.cfg.lpf
  {
  }

  /** Interrupts and bypass off. */
  lemma DmpPrepared(m: Mpu) returns (ctrl: Bits)
    requires m.bus == [] && m.cfg.sensors != 0 && PinCoherent(m) && m.cfg.dmpOn == 0
    ensures SetBypass(SetIntEnable(m, false).0, 0).0
         == m.(regs := m.regs.(intEnable := 0, userCtrl := ctrl,
                               intPinCfg := PinBits(m.cfg.latchedInt, 0, m.cfg.activeLowInt)),
               cfg := m.cfg.(intEnable := 0, bypassMode := 0))
  {
    hide SetIntEnable, SetBypass, PinBits, PinConfig, WithAux, AuxiliaryBit;
    IntEnableSet(m, false);
    SetIntEnableBus(m, false);
    PinIs(m.cfg.latchedInt, m.cfg.bypassMode, m.cfg.activeLowInt);
    var m1 := SetIntEnable(m, false).0;
    ctrl := if m.cfg.bypassMode == 0 then m.regs.userCtrl else WithAux(m.regs.userCtrl, m.cfg.sensors % 2 == 1);
    AuxIs(m.regs.userCtrl, m.cfg.sensors % 2 == 1);
    BypassSet(m1, 0, WithAux(m.regs.userCtrl, m.cfg.sensors % 2 == 1));
    BypassBus(m1, 0);
  }

  /** The last part, with the processor marked as on. */
  lemma DmpStarted(m: Mpu)
    requires m.bus == [] && m.cfg.sensors != 0 && m.cfg.dmpOn == 1
    ensures ResetFifo(SetIntEnable(m, true).0).0
         == m.(regs := m.regs.(intEnable := 0x02, fifoEn := 0, userCtrl := if m.cfg.sensors % 2 == 1 then 0xE0 else 0xC0),
               cfg := m.cfg.(intEnable := 0x02))
  {
    hide SetIntEnable, ResetFifo;
    IntEnableSet(m, true);
    SetIntEnableBus(m, true);
    ResetWorking(SetIntEnable(m, true).0);
  }

  lemma BypassBus(m: Mpu, bypass: Bits)
    requires m.bus == []
    ensures SetBypass(m, bypass).0.bus == []
  {
    hide PinConfig, WithAux, HasCompass;
  }

  /** Turning it off, on a working bus: interrupts off, and the FIFO back to the sensors it was configured for. */
  lemma DmpTurnedOff(m: Mpu)
    requires m.bus == [] && m.cfg.sensors != 0 && m.cfg.dmpOn != 0
    ensures SetDmpState(m, 0)
         == (m.(regs := m.regs.(intEnable := 0, fifoEn := m.cfg.fifoEnable,
                                userCtrl := if m.cfg.bypassMode == 0 && m.cfg.sensors % 2 == 1 then 0x60 else 0x40),
                cfg := m.cfg.(intEnable := 0, dmpOn := 0)), 0)
  {
    hide SetIntEnable, ResetFifo;
    IntEnableSet(m, false);
    SetIntEnableBus(m, false);
    var m1 := SetIntEnable(m, false).0;
    var m3 := m1.(regs := m1.regs.(fifoEn := m1.cfg.fifoEnable), cfg := m1.cfg.(dmpOn := 0));
    ResetWorking(m3);
  }

  // ---------- initialisation ----------

  /**
   * Initialisation on a working bus, whatever the device and the cache held: 2000 degrees per second, 2 g, 50 Hz with a
   * 20 Hz filter, no interrupt, active-low unlatched pin, no bypass, everything asleep, nothing loaded.
   */
  lemma Initialised(m: Mpu, reset: Regs, ctrl: Bits)
    requires m.bus == [] && AuxiliaryBit(reset.userCtrl, true, ctrl)
    ensures Init(m, reset)
         == (Mpu(ChipCfg(3, 0, 0, 4, 50, 0, 0, 0, false, 1, 0, 0, false, 0),
                 reset.(rateDiv := 19, lpf := 4, gyroCfg := 0x18, accelCfg := 0x00, intEnable := 0, pwrMgmt1 := 0x40,
                        pwrMgmt2 := 0x3F, userCtrl := ctrl, intPinCfg := 0x80), []), 0)
  {
    hide SetSampleRate, SetBypass, SetSensors, ConfigureFifo, WithAux, AuxiliaryBit;
    var m3 := Mpu(InvalidCfg(m.cfg.intEnable), reset.(pwrMgmt1 := 0), []);
    InitRangesWorking(m3);
    var m6 := m3.(cfg := m3.cfg.(gyroFsr := 3, accelFsr := 0, lpf := 3),
                  regs := m3.regs.(gyroCfg := 0x18, accelCfg := 0, lpf := 3));
    RateSetWorking(m6, 50, 50, 19, 4);
    var m7 := m6.(cfg := m6.cfg.(sampleRate := 50, lpf := 4), regs := m6.regs.(rateDiv := 19, lpf := 4));
    InitFifo(m7);
    var m8 := m7.(cfg := m7.cfg.(fifoEnable := 0, intEnable := 0), regs := m7.regs.(intEnable := 0));
    BypassSet(m8, 0, ctrl);
    BypassBus(m8, 0);
    InitAsleep(SetBypass(m8, 0).0);
  }

  /**
   * Initialisation on every bus: the return code tells the first of the transfers that failed, reset, wake-up, gyro
   * range, accelerometer range, filter, rate or bypass. A failure to set the filter of the rate, to switch interrupts off or to
   * put the sensors to sleep goes unnoticed; the code -34 is never returned.
   */
  lemma InitTells(m: Mpu, reset: Regs)
    ensures Init(m, reset).1 ==
              if FailsAt(m, 0) then -1 else if FailsAt(m, 1) then -2 else if FailsAt(m, 2) then -30
              else if FailsAt(m, 3) then -31 else if FailsAt(m, 4) then -32 else if FailsAt(m, 5) then -33
              else if FailsAt(m, 8) || FailsAt(m, 9) || FailsAt(m, 10) then -4 else 0
  {
    hide Write, FailsAt, SetGyroFsr, SetAccelFsr, SetLpf, SetSampleRate, ConfigureFifo, SetBypass, SetSensors;
    var m1 := Write(m, reset).0;
    WriteIs(m, reset);
    var m2 := Write(m1, m1.regs.(pwrMgmt1 := 0)).0;
    WriteIs(m1, m1.regs.(pwrMgmt1 := 0));
    var m3 := m2.(cfg := InvalidCfg(m2.cfg.intEnable));
    SameFailures(m2, m3);
    InitRangesTell(m3);
    if !FailsAt(m, 0) && !FailsAt(m, 1) && !FailsAt(m, 2) && !FailsAt(m, 3) && !FailsAt(m, 4) {
      var m6 := SetLpf(SetAccelFsr(SetGyroFsr(m3, 2000).0, 2).0, 42).0;
      InitRateTells(m6);
      if !FailsAt(m, 5) {
        var m7 := SetSampleRate(m6, 50).0;
        InitFifoBus(m7);
        InitBypass(ConfigureFifo(m7, 0).0);
      }
    }
  }

  lemma SameFailures(a: Mpu, b: Mpu)
    requires a.bus == b.bus
    ensures forall k: nat :: FailsAt(a, k) <==> FailsAt(b, k)
  {
  }

  /** The three setters of the ranges and the filter, each with one transfer. */
  lemma InitRangesTell(m: Mpu)
    requires m.cfg == InvalidCfg(m.cfg.intEnable)
    ensures SetGyroFsr(m, 2000).1 == if FailsAt(m, 0) then -1 else 0
    ensures !FailsAt(m, 0) ==>
              var m1 := SetGyroFsr(m, 2000).0;
              && SetAccelFsr(m1, 2).1 == (if FailsAt(m, 1) then -1 else 0)
              && (!FailsAt(m, 1) ==>
                    var m2 := SetAccelFsr(m1, 2).0;
                    && SetLpf(m2, 42).1 == (if FailsAt(m, 2) then -1 else 0)
                    && (!FailsAt(m, 2) ==>
                          var m3 := SetLpf(m2, 42).0;
                          && m3.cfg == InvalidCfg(m.cfg.intEnable).(gyroFsr := 3, accelFsr := 0, lpf := 3)
                          && forall k: nat :: FailsAt(m3, k) <==> FailsAt(m, k + 3)))
  {
    hide Write, FailsAt;
    WriteIs(m, m.regs.(gyroCfg := 0x18));
    var m1 := SetGyroFsr(m, 2000).0;
    SameFailures(Write(m, m.regs.(gyroCfg := 0x18)).0, m1);
    WriteIs(m1, m1.regs.(accelCfg := 0));
    var m2 := SetAccelFsr(m1, 2).0;
    SameFailures(Write(m1, m1.regs.(accelCfg := 0)).0, m2);
    WriteIs(m2, m2.regs.(lpf := 3));
    SameFailures(Write(m2, m2.regs.(lpf := 3)).0, SetLpf(m2, 42).0);
  }

  /** The rate takes two transfers, the second for its filter. */
  lemma InitRateTells(m: Mpu)
    requires m.cfg == InvalidCfg(m.cfg.intEnable).(gyroFsr := 3, accelFsr := 0, lpf := 3)
    ensures SetSampleRate(m, 50).1 == if FailsAt(m, 0) then -1 else 0
    ensures !FailsAt(m, 0) ==>
              var m1 := SetSampleRate(m, 50).0;
              && m1.cfg == m.cfg.(sampleRate := 50, lpf := m1.cfg.lpf)
              && forall k: nat :: FailsAt(m1, k) <==> FailsAt(m, k + 2)
  {
    hide Write, FailsAt;
    WriteIs(m, m.regs.(rateDiv := 19));
    var m1 := Write(m, m.regs.(rateDiv := 19)).0;
    var m2 := m1.(cfg := m1.cfg.(sampleRate := 50));
    SameFailures(m1, m2);
    WriteIs(m2, m2.regs.(lpf := 4));
    SameFailures(Write(m2, m2.regs.(lpf := 4)).0, SetLpf(m2, 25).0);
  }

  /** Configuring an empty FIFO takes one transfer and does not fail. */
  lemma InitFifoBus(m: Mpu)
    requires m.cfg.dmpOn == 0 && m.cfg.sensors == 0xFF && !m.cfg.lpAccelMode
    ensures var (m', rc) := ConfigureFifo(m, 0);
            && rc == 0 && m'.cfg.bypassMode == m.cfg.bypassMode
            && forall k: nat :: FailsAt(m', k) <==> FailsAt(m, k + 1)
  {
    hide Write, FailsAt, ResetFifo, AndBits;
    NothingAnd();
    var m1 := m.(cfg := m.cfg.(fifoEnable := 0));
    SameFailures(m, m1);
    WriteIs(m1, m1.regs.(intEnable := 0));
    SameFailures(Write(m1, m1.regs.(intEnable := 0)).0, ConfigureFifo(m, 0).0);
  }

  lemma InitBypass(m: Mpu)
    requires m.cfg.bypassMode == 0xFF
    ensures SetBypass(m, 0).1 == if FailsAt(m, 0) || FailsAt(m, 1) || FailsAt(m, 2) then -1 else 0
  {
    hide FailsAt, AuxiliaryBit, PinBits, SetBypass, WithAux;
    AuxIs(m.regs.userCtrl, m.cfg.sensors % 2 == 1);
    BypassSet(m, 0, WithAux(m.regs.userCtrl, m.cfg.sensors % 2 == 1));
  }

  lemma InitRangesWorking(m: Mpu)
    requires m.bus == [] && m.cfg == InvalidCfg(m.cfg.intEnable)
    ensures SetGyroFsr(m, 2000) == (m.(cfg := m.cfg.(gyroFsr := 3), regs := m.regs.(gyroCfg := 0x18)), 0)
    ensures var m1 := m.(cfg := m.cfg.(gyroFsr := 3), regs := m.regs.(gyroCfg := 0x18));
            SetAccelFsr(m1, 2) == (m1.(cfg := m1.cfg.(accelFsr := 0), regs := m1.regs.(accelCfg := 0)), 0)
    ensures var m1 := m.(cfg := m.cfg.(gyroFsr := 3, accelFsr := 0), regs := m.regs.(gyroCfg := 0x18, accelCfg := 0));
            SetLpf(m1, 42) == (m1.(cfg := m1.cfg.(lpf := 3), regs := m1.regs.(lpf := 3)), 0)
  {
  }

  lemma InitFifo(m: Mpu)
    requires m.bus == [] && m.cfg.dmpOn == 0 && m.cfg.sensors == 0xFF && !m.cfg.lpAccelMode
    ensures ConfigureFifo(m, 0)
         == (m.(cfg := m.cfg.(fifoEnable := 0, intEnable := 0), regs := m.regs.(intEnable := 0)), 0)
  {
    hide ResetFifo, AndBits;
    NothingAnd();
  }

  lemma InitAsleep(m: Mpu)
    requires m.bus == []
    ensures SetSensors(m, 0) == (m.(cfg := m.cfg.(sensors := 0, lpAccelMode := false),
                                    regs := m.regs.(pwrMgmt1 := 0x40, pwrMgmt2 := 0x3F)), 0)
  {
  }

  // ---------- memory and firmware ----------

  /** Memory access on a working bus: refused asleep or across a 256-byte bank, else exactly those bytes. */
  lemma MemoryWorking(m: Mpu, addr: Word, bytes: seq<Byte>, length: nat)
    requires m.bus == [] && addr + |bytes| <= |m.regs.memory| && addr + length <= |m.regs.memory|
    ensures WriteMem(m, addr, bytes) ==
              if m.cfg.sensors == 0 || addr % 256 + |bytes| > 256 then (m, -1)
              else (m.(regs := m.regs.(memory := m.regs.memory[..addr] + bytes + m.regs.memory[addr + |bytes|..])), 0)
    ensures ReadMem(m, addr, length) ==
              if m.cfg.sensors == 0 || addr % 256 + length > 256 then (m, -1, [])
              else (m, 0, m.regs.memory[addr..addr + length])
  {
  }

  /** A failed transfer of either kind is reported, and a failed write leaves the memory. */
  lemma MemoryFails(m: Mpu, addr: Word, bytes: seq<Byte>, length: nat)
    requires FailsAt(m, 0) || FailsAt(m, 1)
    ensures WriteMem(m, addr, bytes).1 == -1 && WriteMem(m, addr, bytes).0.regs == m.regs
    ensures ReadMem(m, addr, length).1 == -1 && ReadMem(m, addr, length).0.regs == m.regs
  {
    hide MemAt, MemWritten, Arriving;
  }

  /** The return codes of the firmware load, and what is set when it is zero. */
  lemma FirmwareSet(m: Mpu, firmware: seq<Byte>, startAddr: Word, sampleRate: Word)
    requires |firmware| <= 0xFFFF
    ensures var (m', rc) := LoadFirmware(m, firmware, startAddr, sampleRate);
            var (m1, failed) := LoadFrom(m, firmware, 0);
            if m.cfg.dmpLoaded then rc == -1 && m' == m
            else if failed != 0 then rc == failed && m' == m1
            else if FailsAt(m1, 0) then rc == -5 && m'.regs == m1.regs && m'.cfg == m1.cfg
            else rc == 0 && m'.regs == m1.regs.(prgmStart := startAddr)
                 && m'.cfg == m1.cfg.(dmpLoaded := true, dmpSampleRate := sampleRate)
  {
    hide LoadFrom;
  }

  /** The loop's return codes: a write that failed, a read that failed, a comparison that failed. */
  lemma FirmwareCodes(m: Mpu, firmware: seq<Byte>, ii: nat)
    requires ii < |firmware| <= 0xFFFF
    ensures var n := if |firmware| - ii < 16 then |firmware| - ii else 16;
            var (m1, rc1) := WriteMem(m, ii, firmware[ii..ii + n]);
            var (m2, rc2, cur) := ReadMem(m1, ii, n);
            LoadFrom(m, firmware, ii) ==
              if rc1 != 0 then (m1, -2) else if rc2 != 0 then (m2, -3)
              else if cur != firmware[ii..ii + n] then (m2, -4) else LoadFrom(m2, firmware, ii + n)
  {
    hide WriteMem, ReadMem;
  }

  // ---------- after any session ----------

  /**
   * After any session a range, filter or rate setter that returns zero has put the requested value into the device,
   * whether it wrote it or skipped the write because the cache held it already.
   */
  lemma SettersTakeEffect(m: Mpu, reset: Regs, calls: seq<Call>, fsr: Word, accelFsr: Byte, lpf: Word,
                          rate: Word, r: Word)
    requires Init(m, reset).1 == 0 && LimitedRate(rate, r)
    ensures var n := DoAll(Init(m, reset).0, calls);
            && (SetGyroFsr(n, fsr).1 == 0 ==>
                  var g := SetGyroFsr(n, fsr).0.regs.gyroCfg; g % 8 == 0 && GyroRequest(fsr, g / 8))
            && (SetAccelFsr(n, accelFsr).1 == 0 ==>
                  var a := SetAccelFsr(n, accelFsr).0.regs.accelCfg; a % 8 == 0 && AccelRequest(accelFsr, a / 8))
            && (SetLpf(n, lpf).1 == 0 ==> FilterRequest(lpf, SetLpf(n, lpf).0.regs.lpf))
            && (SetSampleRate(n, rate).1 == 0 ==>
                  if n.cfg.lpAccelMode && 0 < rate <= 40 then SetSampleRate(n, rate).0.regs.rateDiv == n.regs.rateDiv
                  else
                    var div := SetSampleRate(n, rate).0.regs.rateDiv as int;
                    && (div + 1) * r <= 1000 < (div + 2) * r
                    && SetSampleRate(n, rate).0.cfg.sampleRate as int == 1000 / (1 + div))
  {
    hide Init, DoAll, RangesCoherent, SetGyroFsr, SetAccelFsr, SetLpf, SetSampleRate;
    hide LimitedRate, FilterCode, FilterRequest, GyroRequest, AccelRequest;
    CacheStaysCoherent(m, reset, calls);
    var n := DoAll(Init(m, reset).0, calls);
    RangesTakeEffect(n, fsr, accelFsr, lpf);
    GyroCodeIs(fsr, 0);
    AccelCodeIs(accelFsr, 0);
    SetOnlyIfKnown(n, fsr, accelFsr);
    FilterCodeIs(lpf, FilterCode(lpf));
    RateSet(n, rate, r);
    RateTakesEffect(n, rate);
  }

  lemma SetOnlyIfKnown(m: Mpu, fsr: Word, accelFsr: Byte)
    ensures SetGyroFsr(m, fsr).1 == 0 ==> GyroCode(fsr) >= 0
    ensures SetAccelFsr(m, accelFsr).1 == 0 ==> AccelCode(accelFsr) >= 0
  {
    hide GyroCode, AccelCode;
  }

  /** The same for the pin's setters, in a session that does not turn its level over. */
  lemma PinSettersTakeEffect(m: Mpu, reset: Regs, calls: seq<Call>, pin: Bits)
    requires Init(m, reset).1 == 0 && LevelKept(Init(m, reset).0, calls)
    ensures var n := DoAll(Init(m, reset).0, calls);
            && (SetIntLatched(n, pin).1 == 0 ==>
                  SetIntLatched(n, pin).0.regs.intPinCfg == PinBits(pin, n.cfg.bypassMode, n.cfg.activeLowInt))
            && (SetBypass(n, pin).1 == 0 ==>
                  SetBypass(n, pin).0.regs.intPinCfg == PinBits(n.cfg.latchedInt, pin, n.cfg.activeLowInt))
  {
    hide Init, DoAll, LevelKept, RangesCoherent, PinCoherent, SetIntLatched, SetBypass, PinConfig, PinBits;
    CacheStaysCoherent(m, reset, calls);
    var n := DoAll(Init(m, reset).0, calls);
    PinTakesEffect(n, pin);
    PinIs(pin, n.cfg.bypassMode, n.cfg.activeLowInt);
    PinIs(n.cfg.latchedInt, pin, n.cfg.activeLowInt);
  }
}
