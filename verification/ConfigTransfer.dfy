/**
 * The transfer of the configuration over feature reports: written in numbered 28-byte packets, read back in
 * 50-byte blocks. The AVR board updates its EEPROM with each packet; the Pico board collects the packets in a
 * copy and programs its flash when one reaches the end of the configuration.
 */
module ConfigTransfer {
  import opened Words

  const PACKET_SIZE := 28
  const READ_SIZE := 50
  const COMMAND_READ_CONFIG: Byte := 0x3E

  /** The number of blocks of `size` bytes that `n` bytes take. */
  function Blocks(n: nat, size: nat): nat
    requires size > 0
  {
    (n + size - 1) / size
  }

  /** Block `b` of a configuration; the last one is shorter. */
  function Block(config: seq<Byte>, b: nat, size: nat): seq<Byte>
    requires size > 0 && b * size <= |config|
  {
    if (b + 1) * size <= |config| then config[b * size..(b + 1) * size] else config[b * size..]
  }

  /** The data of a write report: the block number, then the block. */
  function Packet(config: seq<Byte>, b: Byte): seq<Byte>
    requires b * 28 <= |config|
  {
    [b] + config[28 * b as nat..if 28 * b as nat + 28 <= |config| then 28 * b as nat + 28 else |config|]
  }

  /** Overwrites `store` from `offset` on. */
  function Overwrite(store: seq<Byte>, offset: nat, data: seq<Byte>): (r: seq<Byte>)
    requires offset + |data| <= |store|
    ensures |r| == |store|
    ensures forall i | 0 <= i < |r| ::
              r[i] == if offset <= i < offset + |data| then data[i - offset] else store[i]
  {
    store[..offset] + data + store[offset + |data|..]
  }

  /** The packets of a configuration fit the store whose size it has. */
  ghost predicate BlockNumber(n: nat, b: Byte) {
    b as nat < Blocks(n, 28)
  }

  lemma BlockFits(config: seq<Byte>, b: Byte)
    requires BlockNumber(|config|, b)
    ensures b * 28 < |config|
    ensures var block := Block(config, b, 28);
            && 1 <= |block| <= 28
            && b * 28 + |block| <= |config|
            && (b * 28 + |block| == |config| <==> b + 1 == Blocks(|config|, 28))
  {
  }

  // ---------- the AVR board: each packet is stored ----------

  /** The write branch of the report handler: block number, then data. */
  function WriteReport(store: seq<Byte>, data: seq<Byte>): (r: seq<Byte>)
    requires data != [] && data[0] * 28 + |data| - 1 <= |store|
    ensures |r| == |store|
    ensures var offset := 28 * (data[0] as int);
            forall i | 0 <= i < |r| ::
              r[i] == if offset <= i < offset + |data| - 1 then data[1 + (i - offset)] else store[i]
  {
    Overwrite(store, data[0] * PACKET_SIZE, data[1..])
  }

  /** The packets of one configuration, sent in any order and any number of times. */
  ghost predicate Sendable(config: seq<Byte>, order: seq<Byte>) {
    forall b | b in order :: BlockNumber(|config|, b)
  }

  function WriteAll(store: seq<Byte>, config: seq<Byte>, order: seq<Byte>): (r: seq<Byte>)
    requires |store| == |config| && Sendable(config, order)
    ensures |r| == |store|
  {
    if order == [] then store
    else
      BlockFits(config, order[|order| - 1]);
      WriteReport(WriteAll(store, config, order[..|order| - 1]), Packet(config, order[|order| - 1]))
  }

  lemma PacketWritten(store: seq<Byte>, config: seq<Byte>, b: Byte)
    requires |store| == |config| && BlockNumber(|config|, b)
    ensures b * 28 + |Packet(config, b)| - 1 <= |store|
    ensures var r := WriteReport(store, Packet(config, b));
            forall i | 0 <= i < |config| :: r[i] == if i / 28 == b then config[i] else store[i]
  {
    BlockFits(config, b);
    forall i | 0 <= i < |config| ensures i / 28 == b <==> 28 * b as nat <= i < 28 * b as nat + 28 {
      BlockOf(i, b);
    }
  }

  lemma BlockOf(i: nat, b: Byte)
    ensures i / 28 == b <==> 28 * b as nat <= i < 28 * b as nat + 28
  {
  }

  /** After any packets, exactly the bytes of the blocks sent are those of the configuration. */
  lemma {:induction false} BytesAfterWrites(store: seq<Byte>, config: seq<Byte>, order: seq<Byte>)
    requires |store| == |config| && Sendable(config, order)
    ensures forall i | 0 <= i < |config| ::
              WriteAll(store, config, order)[i] == if i / 28 in order then config[i] else store[i]
  {
    if order != [] {
      var init, b := order[..|order| - 1], order[|order| - 1];
      assert order == init + [b];
      BytesAfterWrites(store, config, init);
      BlockFits(config, b);
      PacketWritten(WriteAll(store, config, init), config, b);
      hide WriteReport, Packet;
    }
  }

  /** Every block has been sent. */
  ghost predicate Complete(config: seq<Byte>, order: seq<Byte>) {
    forall b: Byte | BlockNumber(|config|, b) :: b in order
  }

  /** Any order, with any repetitions, stores the configuration once every block has been sent. */
  lemma AnyOrderStores(store: seq<Byte>, config: seq<Byte>, order: seq<Byte>)
    requires |store| == |config| <= 0x100 * 28 && Sendable(config, order) && Complete(config, order)
    ensures WriteAll(store, config, order) == config
  {
    BytesAfterWrites(store, config, order);
    forall i | 0 <= i < |config| ensures WriteAll(store, config, order)[i] == config[i] {
      assert BlockNumber(|config|, i / 28);
    }
  }

  // ---------- the Pico board: packets are collected, the last block programs the flash ----------

  /** The copy in RAM and the flash. */
  datatype Pico = Pico(copy: seq<Byte>, flash: seq<Byte>)

  function PicoWrite(p: Pico, data: seq<Byte>): (r: Pico)
    requires data != [] && |p.copy| == |p.flash| && data[0] * 28 + |data| - 1 <= |p.copy|
    ensures |r.copy| == |r.flash| == |p.copy|
  {
    var copy := WriteReport(p.copy, data);
    Pico(copy, if data[0] * PACKET_SIZE + |data| - 1 >= |p.copy| then copy else p.flash)
  }

  function PicoWriteAll(p: Pico, config: seq<Byte>, order: seq<Byte>): (r: Pico)
    requires |p.copy| == |p.flash| == |config| && Sendable(config, order)
    ensures |r.copy| == |r.flash| == |config|
  {
    if order == [] then p
    else
      BlockFits(config, order[|order| - 1]);
      PicoWrite(PicoWriteAll(p, config, order[..|order| - 1]), Packet(config, order[|order| - 1]))
  }

  /** The packets up to the last that reaches the end of the configuration. */
  function UpToLast(order: seq<Byte>, last: nat): seq<Byte> {
    if order == [] || order[|order| - 1] as nat == last then order
    else UpToLast(order[..|order| - 1], last)
  }

  lemma {:induction false} PicoCopy(p: Pico, config: seq<Byte>, order: seq<Byte>)
    requires |p.copy| == |p.flash| == |config| && Sendable(config, order)
    ensures PicoWriteAll(p, config, order).copy == WriteAll(p.copy, config, order)
  {
    if order != [] {
      PicoCopy(p, config, order[..|order| - 1]);
      BlockFits(config, order[|order| - 1]);
      hide WriteReport, Packet;
    }
  }

  /** A byte of flash comes from the last time the final block was written. */
  lemma {:induction false} PicoFlash(p: Pico, config: seq<Byte>, order: seq<Byte>)
    requires |p.copy| == |p.flash| == |config| && Sendable(config, order) && config != []
    ensures var last := Blocks(|config|, 28) - 1;
            && Sendable(config, UpToLast(order, last))
            && PicoWriteAll(p, config, order).flash ==
               if UpToLast(order, last) == [] then p.flash else WriteAll(p.copy, config, UpToLast(order, last))
  {
    var last := Blocks(|config|, 28) - 1;
    if order != [] {
      var init, b := order[..|order| - 1], order[|order| - 1];
      BlockFits(config, b);
      if b as nat == last {
        PicoCopy(p, config, order);
      } else {
        PicoFlash(p, config, init);
      }
    }
  }

  /** What the Pico's flash needs to end up with the configuration, whatever was sent, in whatever order. */
  ghost predicate PicoStored(p: Pico, config: seq<Byte>, order: seq<Byte>)
    requires |p.copy| == |config|
  {
    var last := Blocks(|config|, 28) - 1;
    if last in order then
      forall i | 0 <= i < |config| && p.copy[i] != config[i] :: i / 28 in UpToLast(order, last)
    else
      p.flash == config
  }

  /**
   * Exactly when it does: the final block was sent, and every block that had to change before the last time it was;
   * or the final block was never sent and the flash held the configuration already.
   */
  lemma PicoStoresExactlyWhen(p: Pico, config: seq<Byte>, order: seq<Byte>)
    requires |p.copy| == |p.flash| == |config| && Sendable(config, order) && config != []
    ensures PicoWriteAll(p, config, order).flash == config <==> PicoStored(p, config, order)
  {
    hide PicoWriteAll, WriteAll;
    var last := Blocks(|config|, 28) - 1;
    var sent := UpToLast(order, last);
    PicoFlash(p, config, order);
    if last in order {
      UpToLastNonEmpty(order, last);
      WriteAllIs(p.copy, config, sent);
    } else {
      UpToLastEmpty(order, last);
    }
  }

  /** Exactly when the AVR's store ends up with the configuration. */
  lemma WriteAllIs(store: seq<Byte>, config: seq<Byte>, order: seq<Byte>)
    requires |store| == |config| && Sendable(config, order)
    ensures WriteAll(store, config, order) == config <==>
            forall i | 0 <= i < |config| && store[i] != config[i] :: i / 28 in order
  {
    hide WriteAll;
    BytesAfterWrites(store, config, order);
  }

  lemma {:induction false} UpToLastEmpty(order: seq<Byte>, last: int)
    requires last >= 0 && last !in order
    ensures UpToLast(order, last) == []
  {
    if order != [] {
      assert order[|order| - 1] in order;
      UpToLastEmpty(order[..|order| - 1], last);
    }
  }

  lemma {:induction false} UpToLastNonEmpty(order: seq<Byte>, last: nat)
    requires last in order
    ensures UpToLast(order, last) != []
  {
    if order[|order| - 1] as nat != last {
      assert last in order[..|order| - 1];
      UpToLastNonEmpty(order[..|order| - 1], last);
    }
  }

  // ---------- reading back ----------

  /** The answers to the read commands from number `k` on, put together. */
  function ReadFrom(store: seq<Byte>, k: nat): seq<Byte>
    requires k <= Blocks(|store|, 50)
    decreases Blocks(|store|, 50) - k
  {
    if k == Blocks(|store|, 50) then [] else Block(store, k, 50) + ReadFrom(store, k + 1)
  }

  /** The blocks of 50 bytes cover the store, in order and without overlap. */
  lemma {:induction false} ReadReturnsStore(store: seq<Byte>, k: nat)
    requires k <= Blocks(|store|, 50)
    ensures k * 50 >= |store| ==> ReadFrom(store, k) == []
    ensures k * 50 <= |store| ==> ReadFrom(store, k) == store[k * 50..]
    decreases Blocks(|store|, 50) - k
  {
    if k < Blocks(|store|, 50) {
      ReadReturnsStore(store, k + 1);
      if (k + 1) * 50 > |store| {
        assert k + 1 == Blocks(|store|, 50);
      }
    }
  }

  /**
   * On the AVR, writing a configuration in any order and reading it back returns it if every block was sent; exactly
   * when every block that had to change was. Each block has a read command of its own.
   */
  lemma WriteThenRead(store: seq<Byte>, config: seq<Byte>, order: seq<Byte>)
    requires |store| == |config| <= 0x100 * 28 && Sendable(config, order)
    ensures ReadFrom(WriteAll(store, config, order), 0) == config <==>
            forall i | 0 <= i < |config| && store[i] != config[i] :: i / 28 in order
    ensures Complete(config, order) ==> ReadFrom(WriteAll(store, config, order), 0) == config
    ensures 0x3E + Blocks(|config|, 50) <= 0x100
  {
    hide WriteAll, ReadFrom;
    WriteAllIs(store, config, order);
    var after := WriteAll(store, config, order);
    ReadReturnsStore(after, 0);
    assert after[0..] == after;
    if Complete(config, order) {
      AnyOrderStores(store, config, order);
    }
  }

  /** On the Pico, where reading goes to the flash: exactly when what was sent stored the configuration there. */
  lemma PicoReadBackExactlyWhen(p: Pico, config: seq<Byte>, order: seq<Byte>)
    requires |p.copy| == |p.flash| == |config| && Sendable(config, order) && config != []
    ensures ReadFrom(PicoWriteAll(p, config, order).flash, 0) == config <==> PicoStored(p, config, order)
  {
    hide PicoWriteAll, ReadFrom, PicoStored;
    PicoStoresExactlyWhen(p, config, order);
    var after := PicoWriteAll(p, config, order).flash;
    ReadReturnsStore(after, 0);
    assert after[0..] == after;
  }

  lemma TwoBlocks()
    ensures Blocks(29, 28) == 2 && forall b: Byte :: BlockNumber(29, b) <==> b == 0 || b == 1
    ensures UpToLast([1, 0], 1) == [1]
  {
    var order: seq<Byte> := [1, 0];
    assert order[..1] == [1] && UpToLast([1], 1) == [1];
  }

  /** It can fail with every block sent: a configuration of two blocks sent last block first, over another one. */
  lemma LastBlockFirstIsLost(p: Pico, config: seq<Byte>)
    requires |p.copy| == |p.flash| == |config| == 29 && p.copy[0] != config[0]
    ensures Sendable(config, [1, 0]) && Complete(config, [1, 0])
    ensures ReadFrom(PicoWriteAll(p, config, [1, 0]).flash, 0) != config
  {
    hide PicoWriteAll, ReadFrom, UpToLast, Blocks, BlockNumber;
    TwoBlocks();
    PicoReadBackExactlyWhen(p, config, [1, 0]);
    assert p.copy[0] != config[0] && 0 / 28 == 0;
  }

  // ---------- the answer to a read command, past the end too ----------

  /** The size of the data in the answer to read command `k`, for a configuration of `n` bytes: cut to eight bits. */
  function AnswerSize(n: nat, k: nat): Byte {
    if n >= READ_SIZE * k + READ_SIZE then READ_SIZE else (n - READ_SIZE * k) % 0x100
  }

  /**
   * The 64-byte report buffer holds the answer exactly for the commands that name a block, and for those past the end
   * whose size happens to come out small.
   */
  lemma AnswerFitsExactlyWhen(n: nat, k: nat)
    ensures AnswerSize(n, k) + 1 <= 64 <==> k < Blocks(n, 50) || (n - 50 * k) % 0x100 <= 63
  {
  }

  /** For a command that names a block the answer is the block. */
  lemma AnswerIsBlock(memory: seq<Byte>, n: nat, k: nat)
    requires n <= |memory| && k < Blocks(n, 50)
    ensures var index, size := 50 * k, AnswerSize(n, k) as nat;
            index + size <= n && memory[index..index + size] == Block(memory[..n], k, 50)
  {
  }

  /** One past the end of a configuration of 150 bytes is answered, with no data; of one of 160 bytes it overruns. */
  lemma PastTheEnd()
    ensures AnswerSize(150, 3) == 0 && AnswerSize(160, 4) + 1 > 64
  {
  }

  /** The report handlers over a memory that starts with the configuration, and the report buffer. */
  class Reports {
    const memory: array<Byte>
    const n: nat
    const dbuf: array<Byte>

    ghost predicate Valid() {
      n <= memory.Length && n <= 0x100 * 28 && dbuf.Length == 64 && dbuf != memory
    }

    constructor (memory: array<Byte>, n: nat)
      requires n <= memory.Length && n <= 0x100 * 28
      ensures this.memory == memory && this.n == n && fresh(dbuf) && Valid()
    {
      this.memory := memory;
      this.n := n;
      dbuf := new Byte[64](_ => 0);
    }

    /** The COMMAND_WRITE_CONFIG branch: it does not look at the size of the configuration, only memory bounds it. */
    method WriteConfig(data: seq<Byte>)
      requires data != [] && data[0] * 28 + |data| - 1 <= memory.Length
      modifies memory
      ensures memory[..] == WriteReport(old(memory[..]), data)
      ensures var offset := 28 * (data[0] as int);
              forall i | 0 <= i < memory.Length ::
                memory[i] == if offset <= i < offset + |data| - 1 then data[1 + (i - offset)] else old(memory[i])
    {
      var offset := data[0] * PACKET_SIZE;
      forall i | 0 <= i < |data| - 1 {
        memory[offset + i] := data[1 + i];
      }
      assert memory[..] == Overwrite(old(memory[..]), offset, data[1..]);
    }

    /**
     * The COMMAND_READ_CONFIG branch: the size of the answer, whose first byte is the report number. It asks only that
     * the answer fits the report buffer and the memory it is copied from.
     */
    method ReadConfig(cmd: Byte, reportId: Byte) returns (size: Byte)
      requires Valid() && 0x3E <= cmd
      requires var k := cmd - 0x3E;
               AnswerSize(n, k) + 1 <= 64 && 50 * k + AnswerSize(n, k) <= memory.Length
      modifies dbuf
      ensures memory[..] == old(memory[..])
      ensures var k := cmd - 0x3E;
              && size == AnswerSize(n, k) + 1
              && dbuf[..size] == [reportId] + memory[50 * k..50 * k + (size - 1)]
              && dbuf[size..] == old(dbuf[size..])
    {
      dbuf[0] := reportId;
      var index: int := READ_SIZE * (cmd - COMMAND_READ_CONFIG);
      size := READ_SIZE;
      var left := n - index;
      if left < size {
        size := left % 0x100;
      }
      var i: nat := 0;
      while i < size
        invariant i <= size
        invariant dbuf[..1 + i] == [reportId] + memory[index..index + i]
        invariant dbuf[1 + size as nat..] == old(dbuf[1 + AnswerSize(n, cmd - 0x3E) as nat..])
        invariant memory[..] == old(memory[..])
      {
        dbuf[1 + i] := memory[index + i];
        assert dbuf[..2 + i] == dbuf[..1 + i] + [memory[index + i]];
        assert memory[index..index + (i + 1)] == memory[index..index + i] + [memory[index + i]];
        i := i + 1;
      }
      size := size + 1;
    }
  }
}
