/** The driver itself: a cached configuration and a device, changed transfer by transfer. */
module MpuDriver {
  import opened Words
  import opened Mpu
  import Spec = Mpu

  class Driver {
    var cfg: ChipCfg
    var regs: Regs
    var bus: seq<Outcome>

    ghost function View(): Mpu
      reads this
    {
      Mpu(cfg, regs, bus)
    }

    constructor (cfg: ChipCfg, regs: Regs, bus: seq<Outcome>)
      ensures View() == Mpu(cfg, regs, bus)
    {
      this.cfg, this.regs, this.bus := cfg, regs, bus;
    }

    // ---------- the bus ----------

    /** One transfer; when it succeeds the device's registers become `updated`. */
    method I2cWrite(updated: Regs) returns (ok: bool)
      modifies `regs, `bus
      ensures (View(), ok) == Write(old(View()), updated)
    {
      ok := bus == [] || !bus[0].Fails?;
      if bus != [] {
        bus := bus[1..];
      }
      if ok {
        regs := updated;
      }
    }

    method I2cRead() returns (ok: bool)
      modifies `bus
      ensures (View(), ok) == Read(old(View()))
    {
      ok := bus == [] || !bus[0].Fails?;
      if bus != [] {
        bus := bus[1..];
      }
    }

    // ---------- interrupts and FIFO ----------

    method SetIntEnable(enable: bool) returns (rc: int)
      modifies this
      ensures (View(), rc) == Spec.SetIntEnable(old(View()), enable)
    {
      var tmp: Bits := 0;
      if cfg.dmpOn != 0 {
        if enable {
          tmp := BIT_DMP_INT_EN;
        }
      } else {
        if cfg.sensors == 0 {
          return -1;
        }
        if enable && cfg.intEnable != 0 {
          return 0;
        }
        if enable {
          tmp := BIT_DATA_RDY_EN;
        }
      }
      var ok := I2cWrite(regs.(intEnable := tmp));
      if !ok {
        return -1;
      }
      cfg := cfg.(intEnable := tmp);
      return 0;
    }

    method ResetFifo() returns (rc: int)
      modifies this
      ensures (View(), rc) == Spec.ResetFifo(old(View()))
    {
      hide Spec.ResetDmpFifo, Spec.ResetPlainFifo;
      if cfg.sensors == 0 {
        return -1;
      }
      var ok := I2cWrite(regs.(intEnable := 0));
      if !ok {
        return -1;
      }
      ok := I2cWrite(regs.(fifoEn := 0));
      if !ok {
        return -1;
      }
      ok := I2cWrite(regs.(userCtrl := 0));
      if !ok {
        return -1;
      }
      if cfg.dmpOn != 0 {
        rc := ResetDmpFifo();
      } else {
        rc := ResetPlainFifo();
      }
    }

    method ResetDmpFifo() returns (rc: int)
      modifies this
      ensures (View(), rc) == Spec.ResetDmpFifo(old(View()))
    {
      hide WithAux, HasCompass;
      var ok := I2cWrite(regs.(userCtrl := BITS_FIFO_DMP_RST));
      if !ok {
        return -1;
      }
      ok := I2cWrite(regs.(userCtrl := WithAux(BITS_FIFO_DMP_EN, HasCompass(cfg.sensors))));
      if !ok {
        return -1;
      }
      ok := I2cWrite(regs.(intEnable := if cfg.intEnable != 0 then BIT_DMP_INT_EN else 0));
      if !ok {
        return -1;
      }
      ok := I2cWrite(regs.(fifoEn := 0));
      rc := if ok then 0 else -1;
    }

    method ResetPlainFifo() returns (rc: int)
      modifies this
      ensures (View(), rc) == Spec.ResetPlainFifo(old(View()))
    {
      hide WithAux, HasCompass;
      var ok := I2cWrite(regs.(userCtrl := BIT_FIFO_RST));
      if !ok {
        return -1;
      }
      if cfg.bypassMode != 0 || !HasCompass(cfg.sensors) {
        ok := I2cWrite(regs.(userCtrl := WithAux(BIT_FIFO_EN, false)));
      } else {
        ok := I2cWrite(regs.(userCtrl := WithAux(BIT_FIFO_EN, true)));
      }
      if !ok {
        return -1;
      }
      ok := I2cWrite(regs.(intEnable := if cfg.intEnable != 0 then BIT_DATA_RDY_EN else 0));
      if !ok {
        return -1;
      }
      ok := I2cWrite(regs.(fifoEn := cfg.fifoEnable));
      rc := if ok then 0 else -1;
    }

    method ConfigureFifo(requested: Bits) returns (rc: int)
      modifies this
      ensures (View(), rc) == Spec.ConfigureFifo(old(View()), requested)
    {
      hide Spec.SetIntEnable, Spec.ResetFifo, AndBits;
      var sensors := WithoutCompass(requested);
      if cfg.dmpOn != 0 {
        return 0;
      }
      if cfg.sensors == 0 {
        return -1;
      }
      var prev := cfg.fifoEnable;
      cfg := cfg.(fifoEnable := AndBits(sensors, cfg.sensors));
      var result := if cfg.fifoEnable != sensors then -1 else 0;
      var ignored := SetIntEnable(sensors != 0 || cfg.lpAccelMode);
      if sensors != 0 {
        var failed := ResetFifo();
        if failed != 0 {
          cfg := cfg.(fifoEnable := prev);
          return -1;
        }
      }
      return result;
    }

    // ---------- ranges, filter, rate ----------

    method SetGyroFsr(fsr: Word) returns (rc: int)
      modifies this
      ensures (View(), rc) == Spec.SetGyroFsr(old(View()), fsr)
    {
      hide GyroCode;
      if cfg.sensors == 0 || GyroCode(fsr) < 0 {
        return -1;
      }
      var code: Bits := GyroCode(fsr);
      if cfg.gyroFsr == code {
        return 0;
      }
      var ok := I2cWrite(regs.(gyroCfg := 8 * code));
      if !ok {
        return -1;
      }
      cfg := cfg.(gyroFsr := code);
      return 0;
    }

    method SetAccelFsr(fsr: Byte) returns (rc: int)
      modifies this
      ensures (View(), rc) == Spec.SetAccelFsr(old(View()), fsr)
    {
      hide AccelCode;
      if cfg.sensors == 0 || AccelCode(fsr) < 0 {
        return -1;
      }
      var code: Bits := AccelCode(fsr);
      if cfg.accelFsr == code {
        return 0;
      }
      var ok := I2cWrite(regs.(accelCfg := 8 * code));
      if !ok {
        return -1;
      }
      cfg := cfg.(accelFsr := code);
      return 0;
    }

    method SetLpf(lpf: Word) returns (rc: int)
      modifies this
      ensures (View(), rc) == Spec.SetLpf(old(View()), lpf)
    {
      hide FilterCode;
      if cfg.sensors == 0 {
        return -1;
      }
      var data := FilterCode(lpf);
      if cfg.lpf == data {
        return 0;
      }
      var ok := I2cWrite(regs.(lpf := data));
      if !ok {
        return -1;
      }
      cfg := cfg.(lpf := data);
      return 0;
    }

    method SetSampleRate(requested: Word) returns (rc: int)
      modifies this
      ensures (View(), rc) == Spec.SetSampleRate(old(View()), requested)
    {
      hide Spec.LpAccelMode, Spec.SetLpf, RateOf, Divider;
      if cfg.sensors == 0 || cfg.dmpOn != 0 {
        return -1;
      }
      if cfg.lpAccelMode {
        if 0 < requested <= 40 {
          var ignored := LpAccelMode(requested);
          return 0;
        }
        var ignored := LpAccelMode(0);
      }
      var div := Divider(requested);
      var ok := I2cWrite(regs.(rateDiv := div));
      if !ok {
        return -1;
      }
      cfg := cfg.(sampleRate := RateOf(div));
      var unused := SetLpf(cfg.sampleRate / 2);
      return 0;
    }

    method LpAccelMode(rate: Byte) returns (rc: int)
      modifies this
      ensures (View(), rc) == Spec.LpAccelMode(old(View()), rate)
    {
      hide Spec.SetIntLatched, Spec.SetLpf, Spec.ConfigureFifo, WakeCode, WakeFilter;
      if rate == 0 {
        var ignored := SetIntLatched(0);
        var ok := I2cWrite(regs.(pwrMgmt1 := 0, pwrMgmt2 := BIT_STBY_XYZG));
        if !ok {
          return -1;
        }
        cfg := cfg.(lpAccelMode := false);
        return 0;
      }
      var ignored := SetIntLatched(1);
      ignored := SetLpf(WakeFilter(rate));
      var ok := I2cWrite(regs.(pwrMgmt1 := BIT_LPA_CYCLE, pwrMgmt2 := 0x40 * WakeCode(rate) + BIT_STBY_XYZG));
      if !ok {
        return -1;
      }
      cfg := cfg.(sensors := SENSORS_ACCEL, lpAccelMode := true);
      ignored := ConfigureFifo(0);
      return 0;
    }

    // ---------- power and the interrupt pin ----------

    method SetSensors(sensors: Bits) returns (rc: int)
      modifies this
      ensures (View(), rc) == Spec.SetSensors(old(View()), sensors)
    {
      hide Spec.SetIntLatched, StandbyBits, HasGyro;
      var clock: Bits := if HasGyro(sensors) then 1 else if sensors != 0 then 0 else BIT_SLEEP;
      var ok := I2cWrite(regs.(pwrMgmt1 := clock));
      if !ok {
        cfg := cfg.(sensors := 0);
        return -1;
      }
      ok := I2cWrite(regs.(pwrMgmt2 := StandbyBits(sensors)));
      if !ok {
        cfg := cfg.(sensors := 0);
        return -1;
      }
      if sensors != 0 && sensors != SENSORS_ACCEL {
        var ignored := SetIntLatched(0);
      }
      cfg := cfg.(sensors := sensors, lpAccelMode := false);
      return 0;
    }

    method SetBypass(bypass: Bits) returns (rc: int)
      modifies this
      ensures (View(), rc) == Spec.SetBypass(old(View()), bypass)
    {
      hide WithAux, HasCompass, PinConfig;
      if cfg.bypassMode == bypass {
        return 0;
      }
      var ok := I2cRead();
      if !ok {
        return -1;
      }
      var tmp := WithAux(regs.userCtrl, bypass == 0 && HasCompass(cfg.sensors));
      ok := I2cWrite(regs.(userCtrl := tmp));
      if !ok {
        return -1;
      }
      ok := I2cWrite(regs.(intPinCfg := PinConfig(cfg.latchedInt, bypass, cfg.activeLowInt)));
      if !ok {
        return -1;
      }
      cfg := cfg.(bypassMode := bypass);
      return 0;
    }

    method SetIntLevel(activeLow: Bits) returns (rc: int)
      modifies this
      ensures (View(), rc) == Spec.SetIntLevel(old(View()), activeLow)
    {
      cfg := cfg.(activeLowInt := activeLow);
      return 0;
    }

    method SetIntLatched(enable: Bits) returns (rc: int)
      modifies this
      ensures (View(), rc) == Spec.SetIntLatched(old(View()), enable)
    {
      hide PinConfig;
      if cfg.latchedInt == enable {
        return 0;
      }
      var ok := I2cWrite(regs.(intPinCfg := PinConfig(enable, cfg.bypassMode, cfg.activeLowInt)));
      if !ok {
        return -1;
      }
      cfg := cfg.(latchedInt := enable);
      return 0;
    }

    // ---------- the motion processor ----------

    method SetDmpState(enable: Bits) returns (rc: int)
      modifies this
      ensures (View(), rc) == Spec.SetDmpState(old(View()), enable)
    {
      hide Spec.SetIntEnable, Spec.SetBypass, Spec.SetSampleRate, Spec.ResetFifo;
      if cfg.dmpOn == enable {
        return 0;
      }
      if enable != 0 {
        if !cfg.dmpLoaded {
          return -1;
        }
        var ignored := SetIntEnable(false);
        ignored := SetBypass(0);
        ignored := SetSampleRate(cfg.dmpSampleRate);
        var ok := I2cWrite(regs.(fifoEn := 0));
        if !ok {
          return -1;
        }
        cfg := cfg.(dmpOn := 1);
        ignored := SetIntEnable(true);
        ignored := ResetFifo();
      } else {
        var ignored := SetIntEnable(false);
        var ok := I2cWrite(regs.(fifoEn := cfg.fifoEnable));
        if !ok {
          return -1;
        }
        cfg := cfg.(dmpOn := 0);
        ignored := ResetFifo();
      }
      return 0;
    }

    method WriteMem(addr: Word, bytes: seq<Byte>) returns (rc: int)
      modifies `regs, `bus
      ensures (View(), rc) == Spec.WriteMem(old(View()), addr, bytes)
    {
      hide MemWritten, Arriving;
      if cfg.sensors == 0 || addr % BANK_SIZE + |bytes| > BANK_SIZE {
        return -1;
      }
      var ok := I2cWrite(regs);
      if !ok {
        return -1;
      }
      var arriving := Arriving(if bus == [] then Good else bus[0], bytes);
      ok := I2cWrite(regs.(memory := MemWritten(regs.memory, addr, arriving)));
      rc := if ok then 0 else -1;
    }

    method ReadMem(addr: Word, length: nat) returns (rc: int, bytes: seq<Byte>)
      modifies `regs, `bus
      ensures (View(), rc, bytes) == Spec.ReadMem(old(View()), addr, length)
    {
      hide MemAt;
      if cfg.sensors == 0 || addr % BANK_SIZE + length > BANK_SIZE {
        return -1, [];
      }
      var ok := I2cWrite(regs);
      if !ok {
        return -1, [];
      }
      ok := I2cRead();
      if !ok {
        return -1, [];
      }
      return 0, MemAt(regs.memory, addr, length);
    }

    method LoadFirmware(firmware: seq<Byte>, startAddr: Word, sampleRate: Word) returns (rc: int)
      requires |firmware| <= 0xFFFF
      modifies this
      ensures (View(), rc) == Spec.LoadFirmware(old(View()), firmware, startAddr, sampleRate)
    {
      hide Spec.WriteMem, Spec.ReadMem;
      if cfg.dmpLoaded {
        return -1;
      }
      var ii := 0;
      while ii < |firmware|
        invariant ii <= |firmware|
        invariant cfg == old(cfg)
        invariant LoadFrom(View(), firmware, ii) == LoadFrom(old(View()), firmware, 0)
      {
        var thisWrite := ChunkSize(firmware, ii);
        var chunk := firmware[ii..ii + thisWrite];
        var failed := WriteMem(ii, chunk);
        if failed != 0 {
          return -2;
        }
        var cur;
        failed, cur := ReadMem(ii, thisWrite);
        if failed != 0 {
          return -3;
        }
        if cur != chunk {
          return -4;
        }
        ii := ii + thisWrite;
      }
      var ok := I2cWrite(regs.(prgmStart := startAddr));
      if !ok {
        return -5;
      }
      cfg := cfg.(dmpLoaded := true, dmpSampleRate := sampleRate);
      return 0;
    }

    // ---------- initialisation ----------

    method Init(reset: Regs) returns (rc: int)
      modifies this
      ensures (View(), rc) == Spec.Init(old(View()), reset)
    {
      hide Spec.SetGyroFsr, Spec.SetAccelFsr, Spec.SetLpf, Spec.SetSampleRate, Spec.ConfigureFifo, Spec.SetBypass;
      hide Spec.SetSensors;
      var ok := I2cWrite(reset);
      if !ok {
        return -1;
      }
      ok := I2cWrite(regs.(pwrMgmt1 := 0));
      if !ok {
        return -2;
      }
      cfg := InvalidCfg(cfg.intEnable);
      var failed := SetGyroFsr(2000);
      if failed != 0 {
        return -30;
      }
      failed := SetAccelFsr(2);
      if failed != 0 {
        return -31;
      }
      failed := SetLpf(42);
      if failed != 0 {
        return -32;
      }
      failed := SetSampleRate(50);
      if failed != 0 {
        return -33;
      }
      failed := ConfigureFifo(0);
      if failed != 0 {
        return -34;
      }
      failed := SetBypass(0);
      if failed != 0 {
        return -4;
      }
      var ignored := SetSensors(0);
      return 0;
    }
  }
}
