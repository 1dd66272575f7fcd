/** Loading the motion processor's firmware: what a zero return proves about the device, whatever the bus did. */
module MpuFirmware {
  import opened Words
  import opened Mpu
  import opened MpuCoherence

  /** Bytes `lo..hi` of the memory are those of the firmware. */
  predicate Loaded(memory: seq<Byte>, firmware: seq<Byte>, lo: nat, hi: nat) {
    && hi <= |firmware| && hi <= |memory|
    && forall k :: lo <= k < hi ==> memory[k] == firmware[k]
  }

  /** Nothing at or beyond `from` and nothing below `upTo` has changed. */
  predicate UnchangedOutside(before: seq<Byte>, after: seq<Byte>, upTo: nat, from: nat) {
    && |after| == |before|
    && forall k :: 0 <= k < |before| && (k < upTo || from <= k) ==> after[k] == before[k]
  }

  /** Chunks start at multiples of 16, so none crosses the boundary of a 256-byte bank. */
  lemma ChunkInBank(firmware: seq<Byte>, ii: nat)
    requires ii <= |firmware| && ii % LOAD_CHUNK == 0
    ensures ii % BANK_SIZE + ChunkSize(firmware, ii) <= BANK_SIZE
    ensures ii + ChunkSize(firmware, ii) == |firmware| || (ii + ChunkSize(firmware, ii)) % LOAD_CHUNK == 0
  {
  }

  lemma WriteMemWrites(m: Mpu, addr: Word, bytes: seq<Byte>)
    ensures UnchangedOutside(m.regs.memory, WriteMem(m, addr, bytes).0.regs.memory, addr, addr + |bytes|)
    ensures WriteMem(m, addr, bytes).0.cfg == m.cfg
  {
  }

  lemma ReadMemReads(m: Mpu, addr: Word, length: nat)
    ensures ReadMem(m, addr, length).0.regs == m.regs && ReadMem(m, addr, length).0.cfg == m.cfg
    ensures ReadMem(m, addr, length).1 == 0 ==> ReadMem(m, addr, length).2 == MemAt(m.regs.memory, addr, length)
  {
  }

  /**
   * If the loop gets through, everything from `ii` on is in memory; below `ii` and beyond the image nothing changed,
   * whether it gets through or not.
   */
  lemma {:induction false} LoadFromLoads(m: Mpu, firmware: seq<Byte>, ii: nat)
    requires ii <= |firmware| <= 0xFFFF
    ensures var (m', rc) := LoadFrom(m, firmware, ii);
            && UnchangedOutside(m.regs.memory, m'.regs.memory, ii, |firmware|)
            && (rc == 0 && ii < |firmware| ==> Loaded(m'.regs.memory, firmware, ii, |firmware|))
    decreases |firmware| - ii
  {
    hide WriteMem, ReadMem;
    if ii < |firmware| {
      var n := ChunkSize(firmware, ii);
      var chunk := firmware[ii..ii + n];
      WriteMemWrites(m, ii, chunk);
      var (m1, rc1) := WriteMem(m, ii, chunk);
      ReadMemReads(m1, ii, n);
      var (m2, rc2, cur) := ReadMem(m1, ii, n);
      if rc1 == 0 && rc2 == 0 && cur == chunk {
        ChunkLoaded(m2.regs.memory, firmware, ii, n);
        LoadFromLoads(m2, firmware, ii + n);
      }
    }
  }

  lemma ChunkLoaded(memory: seq<Byte>, firmware: seq<Byte>, ii: nat, n: nat)
    requires ii + n <= |firmware| && n > 0 && MemAt(memory, ii, n) == firmware[ii..ii + n]
    ensures Loaded(memory, firmware, ii, ii + n)
  {
  }

  /**
   * A zero return means that the whole image is in memory, even if writes were corrupted on the way; anything else
   * leaves the firmware marked as it was. Memory beyond the image is never touched.
   */
  lemma ZeroMeansLoaded(m: Mpu, firmware: seq<Byte>, startAddr: Word, sampleRate: Word)
    requires |firmware| <= 0xFFFF
    ensures var (m', rc) := LoadFirmware(m, firmware, startAddr, sampleRate);
            && (rc == 0 ==> Loaded(m'.regs.memory, firmware, 0, |firmware|))
            && (rc == 0 ==> m'.cfg.dmpLoaded && m'.regs.prgmStart == startAddr)
            && (rc != 0 ==> m'.cfg == m.cfg)
            && UnchangedOutside(m.regs.memory, m'.regs.memory, 0, |firmware|)
  {
    hide LoadFrom;
    LoadFromLoads(m, firmware, 0);
    LoadFromSettings(m, firmware, 0);
  }

  // ---------- when the load succeeds ----------

  predicate NoFailures(bus: seq<Outcome>) {
    forall k :: 0 <= k < |bus| ==> !bus[k].Fails?
  }

  /** On an awake chip a chunk transfer is given up for a failed transfer only, never for its address. */
  lemma ChunkNotRefused(m: Mpu, firmware: seq<Byte>, ii: nat)
    requires m.cfg.sensors != 0 && NoFailures(m.bus) && ii < |firmware| <= 0xFFFF && ii % LOAD_CHUNK == 0
    ensures var n := ChunkSize(firmware, ii);
            var (m1, rc1) := WriteMem(m, ii, firmware[ii..ii + n]);
            var (m2, rc2, cur) := ReadMem(m1, ii, n);
            && rc1 == 0 && rc2 == 0 && m2.cfg == m.cfg && NoFailures(m2.bus)
  {
    hide MemWritten, MemAt, Arriving;
    ChunkInBank(firmware, ii);
  }

  /** Without failed transfers the load of an awake chip can stop early on a wrong comparison only. */
  lemma {:induction false} OnlyMismatchStops(m: Mpu, firmware: seq<Byte>, ii: nat)
    requires m.cfg.sensors != 0 && NoFailures(m.bus)
    requires ii <= |firmware| <= 0xFFFF && (ii % LOAD_CHUNK == 0 || ii == |firmware|)
    ensures LoadFrom(m, firmware, ii).1 in {0, -4}
    decreases |firmware| - ii
  {
    hide WriteMem, ReadMem, NoFailures;
    if ii < |firmware| {
      ChunkNotRefused(m, firmware, ii);
      ChunkInBank(firmware, ii);
      var n := ChunkSize(firmware, ii);
      var m1 := WriteMem(m, ii, firmware[ii..ii + n]).0;
      OnlyMismatchStops(ReadMem(m1, ii, n).0, firmware, ii + n);
    }
  }

  /** On a working bus a chunk inside memory is written, read back and found right. */
  lemma ChunkGoesThrough(m: Mpu, firmware: seq<Byte>, ii: nat)
    requires m.bus == [] && m.cfg.sensors != 0
    requires ii < |firmware| <= 0xFFFF && |firmware| <= |m.regs.memory| && ii % LOAD_CHUNK == 0
    ensures var n := ChunkSize(firmware, ii);
            var (m1, rc1) := WriteMem(m, ii, firmware[ii..ii + n]);
            var (m2, rc2, cur) := ReadMem(m1, ii, n);
            && rc1 == 0 && rc2 == 0 && cur == firmware[ii..ii + n]
            && m2.bus == [] && m2.cfg == m.cfg && |m2.regs.memory| == |m.regs.memory|
  {
  }

  lemma {:induction false} LoadFromSucceeds(m: Mpu, firmware: seq<Byte>, ii: nat)
    requires m.bus == [] && m.cfg.sensors != 0
    requires ii <= |firmware| <= 0xFFFF && |firmware| <= |m.regs.memory|
    requires ii % LOAD_CHUNK == 0 || ii == |firmware|
    ensures LoadFrom(m, firmware, ii).1 == 0 && LoadFrom(m, firmware, ii).0.bus == []
    decreases |firmware| - ii
  {
    hide WriteMem, ReadMem;
    if ii < |firmware| {
      ChunkGoesThrough(m, firmware, ii);
      ChunkInBank(firmware, ii);
      var n := ChunkSize(firmware, ii);
      var m1 := WriteMem(m, ii, firmware[ii..ii + n]).0;
      LoadFromSucceeds(ReadMem(m1, ii, n).0, firmware, ii + n);
    }
  }

  /**
   * On a working bus the load succeeds exactly when none was loaded before, and the image is empty or fits the memory
   * of a chip that is awake; the check for bank boundaries never gets in the way.
   */
  lemma LoadSucceedsExactlyWhen(m: Mpu, firmware: seq<Byte>, startAddr: Word, sampleRate: Word)
    requires m.bus == [] && |firmware| <= 0xFFFF
    ensures LoadFirmware(m, firmware, startAddr, sampleRate).1 == 0 <==>
            !m.cfg.dmpLoaded && (firmware == [] || (m.cfg.sensors != 0 && |firmware| <= |m.regs.memory|))
  {
    hide WriteMem, ReadMem;
    if m.cfg.sensors != 0 && |firmware| <= |m.regs.memory| {
      LoadFromSucceeds(m, firmware, 0);
    } else if firmware != [] {
      ZeroMeansLoaded(m, firmware, startAddr, sampleRate);
      if m.cfg.sensors == 0 {
        AsleepFails(m, firmware);
      }
    }
  }

  lemma AsleepFails(m: Mpu, firmware: seq<Byte>)
    requires 0 < |firmware| <= 0xFFFF && m.cfg.sensors == 0
    ensures LoadFrom(m, firmware, 0) == (m, -2)
  {
  }
}
