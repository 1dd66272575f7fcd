/** DFU programming and reading of the EEPROM as a plain range write and read; addresses wrap at 16 bits. */
module DfuEeprom {
  import opened Words
  import opened Dfu
  import opened DfuRange

  /** How far `x` lies behind `a`, going up and round. */
  function Distance(a: Word, x: Word): Word {
    if a <= x then x - a else x - a + 0x1_0000
  }

  /** The first `n` bytes of `data` from byte `k` on have been written from address `a`, and nothing else. */
  ghost predicate BytesWritten(eeprom: map<Word, Byte>, data: seq<Byte>, k: nat, n: nat, a: Word,
                               eeprom': map<Word, Byte>)
  {
    && k + n <= |data|
    && forall x: Word ::
         EepromByte(eeprom', x) == if Distance(a, x) as nat < n then data[k + Distance(a, x)] else EepromByte(eeprom, x)
  }

  /** The number of bytes the loop gets to. */
  function Available(data: seq<Byte>, k: nat, bytes: nat): nat
    requires k <= |data|
  {
    if k + bytes <= |data| then bytes else |data| - k
  }

  lemma AdvanceNext(a: Word, n: nat)
    ensures Advance(Next(a), n) == Advance(a, n + 1) && Advance(a, 0) == a
  {
    if a == 0xFFFF {
      assert a + (n + 1) == n + 0x1_0000;
    }
  }

  /** One byte, then the rest from the next address on. */
  lemma ByteThenRest(eeprom: map<Word, Byte>, data: seq<Byte>, k: nat, n: nat, a: Word, eeprom': map<Word, Byte>)
    requires k < |data| && n < 0xFFFF
    requires BytesWritten(eeprom[a := data[k]], data, k + 1, n, Next(a), eeprom')
    ensures BytesWritten(eeprom, data, k, n + 1, a, eeprom')
  {
  }

  /** The EEPROM programming loop writes the range as far as the payload lasts, and changes no other byte. */
  lemma {:induction false} ProgramBytesRange(eeprom: map<Word, Byte>, payload: seq<Byte>, k: nat, bytes: nat, a: Word)
    requires k <= |payload| && bytes < 0x1_0000
    ensures var (e, a', done) := ProgramBytes(eeprom, payload, k, bytes, a);
            var n := Available(payload, k, bytes);
            BytesWritten(eeprom, payload, k, n, a, e) && a' == Advance(a, n) && (done <==> n == bytes)
    decreases bytes
  {
    hide BytesWritten, Advance;
    if bytes == 0 || k == |payload| {
      NothingWritten(eeprom, payload, k, a);
      AdvanceNext(a, 0);
    } else {
      var n := Available(payload, k + 1, bytes - 1);
      var e := ProgramBytes(eeprom[a := payload[k]], payload, k + 1, bytes - 1, Next(a)).0;
      ProgramBytesRange(eeprom[a := payload[k]], payload, k + 1, bytes - 1, Next(a));
      ByteThenRest(eeprom, payload, k, n, a, e);
      AdvanceNext(a, n);
    }
  }

  lemma NothingWritten(eeprom: map<Word, Byte>, data: seq<Byte>, k: nat, a: Word)
    requires k <= |data|
    ensures BytesWritten(eeprom, data, k, 0, a, eeprom)
  {
  }

  /** The read loop sends the bytes of the range in order. */
  lemma {:induction false} EepromBytesAt(eeprom: map<Word, Byte>, a: Word, n: nat, i: nat)
    requires i < n
    ensures EepromBytes(eeprom, a, n)[i] == EepromByte(eeprom, Advance(a, i))
    decreases n
  {
    hide EepromByte, Advance;
    AdvanceNext(a, 0);
    if i > 0 {
      AdvanceNext(a, i - 1);
      EepromBytesAt(eeprom, Next(a), n - 1, i - 1);
    }
  }

  /** A program command for the EEPROM, with any payload: the range is written as far as the payload lasts. */
  lemma DnloadProgramsEeprom(c: Config, s: State, w: Word, start: Word, end: Word, payload: seq<Byte>)
    requires c.g.Valid() && !s.secure && !s.waitForExit && w != 0 && w != 6
    ensures var s' := Handle(c, s, Dnload(w, MemoryCommand(1, 1, start, end), payload)).0;
            var n := Available(payload, 0, RangeBytes(start, end));
            && !s'.secure && !s'.waitForExit && s'.state.DnloadIdle? && s'.dev == s.dev
            && BytesWritten(s.eeprom, payload, 0, n, start, s'.eeprom)
            && s'.startAddr == Advance(start, n)
  {
    hide ProgramBytes, BytesWritten, LoadStartEndAddresses, LoadCommand, Advance, RangeBytes;
    ValidPageSize(c.g);
    CommandLoaded(s, w, 1, 1, start, end);
    ProgramBytesRange(s.eeprom, payload, 0, RangeBytes(start, end), start);
  }

  /** A read command for the EEPROM and an upload send the bytes of the range and change nothing. */
  lemma UploadReturnsEeprom(c: Config, s: State, w: Word, w': Word, start: Word, end: Word, payload: seq<Byte>)
    requires c.g.Valid() && !s.secure && !s.waitForExit && w != 0
    ensures var s1 := Handle(c, s, Dnload(w, MemoryCommand(3, 2, start, end), payload)).0;
            var (s2, out) := Handle(c, s1, Upload(w'));
            && s2.state.DfuIdle? && s2.dev == s.dev && s2.eeprom == s.eeprom
            && out == EepromBytes(s.eeprom, start, RangeBytes(start, end))
  {
    hide EepromBytes, LoadCommand, LoadStartEndAddresses, FirstNonBlank, RangeBytes, Advance, LongAddress;
    ValidPageSize(c.g);
    CommandLoaded(s, w, 3, 2, start, end);
  }

  lemma DistanceOfAdvance(a: Word, i: nat)
    requires i < 0x1_0000
    ensures Distance(a, Advance(a, i)) == i
  {
    assert Advance(a, i) == if a + i < 0x1_0000 then a + i else a + i - 0x1_0000;
  }

  /**
   * Exactly when programming a range of EEPROM and reading it back returns the payload: the range is not the whole
   * 65536 bytes, whose number wraps to zero.
   */
  lemma EepromRoundTripExactlyWhen(c: Config, s: State, w: Word, w': Word, w'': Word, start: Word, end: Word,
                                   payload: seq<Byte>, ignored: seq<Byte>)
    requires c.g.Valid() && !s.secure && !s.waitForExit
    requires w != 0 && w != 6 && w' != 0 && start <= end && end - start + 1 <= |payload|
    ensures var n := end - start + 1;
            var sent := Session(c, s, [Dnload(w, MemoryCommand(1, 1, start, end), payload),
                                       Dnload(w', MemoryCommand(3, 2, start, end), ignored),
                                       Upload(w'')]).1;
            sent == [[], [], payload[..n]] <==> n < 0x1_0000
  {
    hide Handle, Session, MemoryCommand, EepromBytes, EepromByte, Advance, Distance;
    var n := end - start + 1;
    assert RangeBytes(start, end) as nat == if n < 0x1_0000 then n else 0;
    ValidPageSize(c.g);
    hide RangeBytes;
    var r0 := Dnload(w, MemoryCommand(1, 1, start, end), payload);
    var r1 := Dnload(w', MemoryCommand(3, 2, start, end), ignored);
    DnloadProgramsEeprom(c, s, w, start, end, payload);
    var s1 := Handle(c, s, r0).0;
    UploadReturnsEeprom(c, s1, w', w'', start, end, ignored);
    SessionOfThree(c, s, r0, r1, Upload(w''));
    DnloadIsSilent(c, s, r0);
    DnloadIsSilent(c, s1, r1);
    if n < 0x1_0000 {
      forall i | 0 <= i < n ensures EepromBytes(s1.eeprom, start, n)[i] == payload[i] {
        EepromBytesAt(s1.eeprom, start, n, i);
        DistanceOfAdvance(start, i);
      }
      assert EepromBytes(s1.eeprom, start, n) == payload[..n];
    }
  }
}
