/**
 * The DFU-class bootloader as a function from its state and a control request to the new state and the bytes
 * sent to the host. State names are those of section 6.1.2 of the USB DFU 1.1 specification; only the four
 * that the program assigns are modelled. `Handle` is the specification of the class in DfuBootloader.
 */
module Dfu {
  import opened Words
  import opened Flash

  datatype DfuState = DfuIdle | DnloadIdle | UploadIdle | DfuError {
    function Code(): Byte {
      match this
      case DfuIdle => 2
      case DnloadIdle => 5
      case UploadIdle => 9
      case DfuError => 10
    }
  }

  const STATUS_OK: Byte := 0
  const ERR_WRITE: Byte := 3
  const ERR_CHECK_ERASED: Byte := 5
  const ERR_ADDRESS: Byte := 8

  const COMMAND_PROG_START: Byte := 1
  const COMMAND_DISP_DATA: Byte := 3
  const COMMAND_WRITE: Byte := 4
  const COMMAND_READ: Byte := 5
  const COMMAND_CHANGE_BASE_ADDR: Byte := 6

  const BOOTLOADER_INFO: seq<Byte> := [0x20, 0xDC, 0xFB]

  /** Five command parameters. */
  type Params = p: seq<Byte> | |p| == 5 witness [0, 0, 0, 0, 0]

  datatype State = State(
    secure: bool,
    run: bool,
    waitForExit: bool,
    state: DfuState,
    status: Byte,
    command: Byte,
    params: Params,
    dataSize: Word,
    response: Byte,
    appStart: Word,
    watchdog: bool,
    flash64K: Byte,
    startAddr: Word,
    endAddr: Word,
    dev: Device,
    eeprom: map<Word, Byte>)

  /**
   * A class request to the DFU interface. For DNLOAD, `packet` is the first packet of the data stage and
   * `payload` what follows the filler bytes; a transfer ends early when the device is unplugged.
   */
  datatype Request =
    | Dnload(wLength: Word, packet: seq<Byte>, payload: seq<Byte>)
    | Upload(wLength: Word)
    | GetStatus(wLength: Word)
    | ClearStatus(wLength: Word)
    | GetState(wLength: Word)
    | Abort(wLength: Word)
    | OtherRequest(wLength: Word)

  const SIGNATURE_START: Byte := 0x58

  /** The part: its geometry and the three bytes AVR_SIGNATURE_1 to 3. */
  datatype Config = Config(g: Geometry, signature1: Byte, signature2: Byte, signature3: Byte)

  // ---------- memories ----------

  function LongAddress(flash64K: Byte, addr: Word): nat {
    0x1_0000 * (flash64K as nat) + addr
  }

  /** `pgm_read_byte` takes a 16-bit address, `pgm_read_byte_far` a long one. */
  function FlashByte(g: Geometry, flash: seq<Byte>, a: nat): Byte {
    var b := if g.flashSize > 0x1_0000 then a else a % 0x1_0000;
    if b < |flash| then flash[b] else 0xFF
  }

  function FlashWords(g: Geometry, flash: seq<Byte>, a: nat, words: nat): (r: seq<Byte>)
    ensures |r| == 2 * words
    decreases words
  {
    if words == 0 then []
    else [FlashByte(g, flash, a), FlashByte(g, flash, a + 1)] + FlashWords(g, flash, a + 2, words - 1)
  }

  function EepromByte(eeprom: map<Word, Byte>, a: Word): Byte {
    if a in eeprom then eeprom[a] else 0xFF
  }

  function EepromBytes(eeprom: map<Word, Byte>, a: Word, n: nat): (r: seq<Byte>)
    ensures |r| == n
    decreases n
  {
    if n == 0 then [] else [EepromByte(eeprom, a)] + EepromBytes(eeprom, Next(a), n - 1)
  }

  function Next(a: Word): Word {
    if a == 0xFFFF then 0 else a + 1
  }

  function Advance(a: Word, n: nat): Word {
    (a + n) % 0x1_0000
  }

  /** The byte count of a range: 16-bit arithmetic, so a range of 65536 bytes counts as none. */
  function RangeBytes(start: Word, end: Word): Word {
    (end - start + 1) % 0x1_0000
  }

  /**
   * The flash programming loop from byte `k` of the payload with `words` words to go; the flag tells whether
   * the payload lasted. A page is written when full or when the words run out, and the next one erased.
   */
  function ProgramWords(g: Geometry, d: Device, payload: seq<Byte>, k: nat, words: nat,
                        addr: nat, pageStart: nat, wordsInPage: nat): (Device, bool)
    requires g.pageSize > 0
    decreases words
  {
    if words == 0 then (d, true)
    else if k + 2 > |payload| then (d, false)
    else
      var d1 := Exec(g, d, FillWord(addr, WordOf(payload[k], payload[k + 1])));
      var inPage := (wordsInPage + 1) % 0x100;
      if inPage == g.pageSize / 2 || words == 1 then
        var d2 := Exec(g, d1, WritePage(pageStart));
        if words == 1 then (d2, true)
        else
          var d3 := Exec(g, d2, ErasePage(addr + 2));
          ProgramWords(g, d3, payload, k + 2, words - 1, addr + 2, addr + 2, 0)
      else
        ProgramWords(g, d1, payload, k + 2, words - 1, addr + 2, pageStart, inPage)
  }

  /** The EEPROM programming loop: new contents, new start address, and whether the payload lasted. */
  function ProgramBytes(eeprom: map<Word, Byte>, payload: seq<Byte>, k: nat, bytes: nat, a: Word)
    : (map<Word, Byte>, Word, bool)
    decreases bytes
  {
    if bytes == 0 then (eeprom, a, true)
    else if k >= |payload| then (eeprom, a, false)
    else ProgramBytes(eeprom[a := payload[k]], payload, k + 1, bytes - 1, Next(a))
  }

  /** Erases the pages from `a` up to the boot section. */
  function EraseFrom(g: Geometry, d: Device, a: nat): Device
    requires g.pageSize > 0
    decreases g.bootStart - a
  {
    if a >= g.bootStart then d else EraseFrom(g, Exec(g, d, ErasePage(a)), a + g.pageSize)
  }

  /** The first byte below the boot section, from `a` on, that is not 0xFF; or `bootStart`. */
  function FirstNonBlank(g: Geometry, flash: seq<Byte>, a: nat): (r: nat)
    requires a <= g.bootStart
    ensures a <= r <= g.bootStart
    decreases g.bootStart - a
  {
    if a == g.bootStart || FlashByte(g, flash, a) != 0xFF then a else FirstNonBlank(g, flash, a + 1)
  }

  // ---------- commands ----------

  function LoadStartEndAddresses(s: State): State {
    s.(startAddr := WordOf(s.params[2], s.params[1]), endAddr := WordOf(s.params[4], s.params[3]))
  }

  function ProcessMemProgCommand(g: Geometry, s: State): State
    requires g.pageSize > 0
  {
    if s.params[0] == 0 || s.params[0] == 1 then
      var s1 := LoadStartEndAddresses(s);
      var s2 :=
        if s.params[0] == 0 then s1.(dev := Exec(g, s1.dev, ErasePage(LongAddress(s1.flash64K, s1.startAddr))))
        else s1;
      s2.(state := DnloadIdle)
    else
      s
  }

  function ProcessMemReadCommand(g: Geometry, s: State): State {
    if s.params[0] == 0 || s.params[0] == 2 then
      LoadStartEndAddresses(s).(state := UploadIdle)
    else if s.params[0] == 1 then
      var a := FirstNonBlank(g, s.dev.flash, 0);
      if a < g.bootStart then
        s.(flash64K := a / 0x1_0000 % 0x100, startAddr := a % 0x1_0000,
           state := DfuError, status := ERR_CHECK_ERASED)
      else s
    else s
  }

  predicate IsErase(params: Params) {
    params[0] == 0 && params[1] == 0xFF
  }

  function ProcessWriteCommand(g: Geometry, s: State): State
    requires g.pageSize > 0
  {
    if s.params[0] == 3 then
      var s1 := s.(waitForExit := true);
      if s.dataSize != 0 then
        if s.params[1] == 1 then s1.(appStart := WordOf(s.params[4], s.params[3])) else s1
      else if s.params[1] == 0 then
        s1.(watchdog := true)
      else if FlashByte(g, s.dev.flash, 0) == 0xFF && FlashByte(g, s.dev.flash, 1) == 0xFF then
        s1.(run := false)
      else s1
    else if IsErase(s.params) then
      s.(dev := EraseFrom(g, s.dev, 0), secure := false)
    else s
  }

  function ProcessReadCommand(c: Config, s: State): State {
    var i := s.params[1];
    var invalid := s.(state := DfuError, status := ERR_ADDRESS);
    if s.params[0] == 0 then
      if i < 3 then s.(response := BOOTLOADER_INFO[i]) else invalid
    else if s.params[0] == 1 then
      if i == 0x30 then s.(response := SIGNATURE_START)
      else if i == 0x31 then s.(response := c.signature1)
      else if i == 0x60 then s.(response := c.signature2)
      else if i == 0x61 then s.(response := c.signature3)
      else invalid
    else s
  }

  function ProcessBootloaderCommand(c: Config, s: State): State
    requires c.g.pageSize > 0
  {
    if s.secure && !(s.command == COMMAND_WRITE && IsErase(s.params)) && s.command != COMMAND_READ then
      s.(state := DfuError, status := ERR_WRITE)
    else if s.command == COMMAND_PROG_START then ProcessMemProgCommand(c.g, s)
    else if s.command == COMMAND_DISP_DATA then ProcessMemReadCommand(c.g, s)
    else if s.command == COMMAND_WRITE then ProcessWriteCommand(c.g, s)
    else if s.command == COMMAND_READ then ProcessReadCommand(c, s)
    else if s.command == COMMAND_CHANGE_BASE_ADDR && s.params[0] == 3 && s.params[1] == 0 then
      s.(flash64K := s.params[2])
    else s
  }

  // ---------- requests ----------

  /** The command byte and up to five parameters, taken from the first packet. */
  function LoadCommand(s: State, packet: seq<Byte>): State
    requires packet != []
  {
    var n := if |packet| - 1 < 5 then |packet| - 1 else 5;
    s.(command := packet[0],
       params := packet[1..1 + n] + s.params[n..],
       dataSize := (s.dataSize - 1 - n) % 0x1_0000)
  }

  /** The firmware part of a DNLOAD request in the dfuDNLOAD-IDLE state. */
  function Download(g: Geometry, s: State, payload: seq<Byte>): State
    requires g.pageSize > 0
  {
    if s.dataSize == 0 then
      s.(state := DfuIdle)
    else
      var n := RangeBytes(s.startAddr, s.endAddr);
      if s.params[0] == 0 then
        var a := LongAddress(s.flash64K, s.startAddr);
        var (d, done) := ProgramWords(g, s.dev, payload, 0, n / 2, a, a, 0);
        if done then s.(dev := d, startAddr := s.endAddr) else s.(dev := d)
      else
        var (e, a, _) := ProgramBytes(s.eeprom, payload, 0, n, s.startAddr);
        s.(eeprom := e, startAddr := a)
  }

  function HandleDnload(c: Config, s: State, packet: seq<Byte>, payload: seq<Byte>): State
    requires c.g.pageSize > 0
  {
    var s1 := if s.waitForExit then ProcessBootloaderCommand(c, s).(waitForExit := false) else s;
    if s1.dataSize != 0 && packet == [] then
      s1
    else
      var s2 := if s1.dataSize != 0 then ProcessBootloaderCommand(c, LoadCommand(s1, packet)) else s1;
      if s2.state.DnloadIdle? then Download(c.g, s2, payload) else s2
  }

  function HandleUpload(g: Geometry, s: State): (State, seq<Byte>) {
    if !s.state.UploadIdle? then
      (s, if s.state.DfuError? && s.params[0] == 1 then [s.startAddr % 0x100, s.startAddr / 0x100]
          else [s.response])
    else
      var n := RangeBytes(s.startAddr, s.endAddr);
      if s.params[0] == 0 then
        (s.(startAddr := s.endAddr, state := DfuIdle),
         FlashWords(g, s.dev.flash, LongAddress(s.flash64K, s.startAddr), n / 2))
      else if s.params[0] == 2 then
        (s.(startAddr := Advance(s.startAddr, n), state := DfuIdle),
         EepromBytes(s.eeprom, s.startAddr, n))
      else
        (s.(state := DfuIdle), [])
  }

  function Handle(c: Config, s0: State, req: Request): (State, seq<Byte>)
    requires c.g.pageSize > 0
  {
    var s := s0.(dataSize := req.wLength);
    match req
    case Dnload(_, packet, payload) => (HandleDnload(c, s, packet, payload), [])
    case Upload(_) => HandleUpload(c.g, s)
    case GetStatus(_) => (s, [s.status, 0, 0, 0, s.state.Code(), 0])
    case ClearStatus(_) => (s.(status := STATUS_OK), [])
    case GetState(_) => (s, [s.state.Code()])
    case Abort(_) => (s.(state := DfuIdle), [])
    case OtherRequest(_) => (s, [])
  }

  /** A session: the final state and what each request sent to the host. */
  function Session(c: Config, s: State, reqs: seq<Request>): (State, seq<seq<Byte>>)
    requires c.g.pageSize > 0
    decreases |reqs|
  {
    if reqs == [] then (s, [])
    else
      var (s1, out) := Handle(c, s, reqs[0]);
      var (s2, outs) := Session(c, s1, reqs[1..]);
      (s2, [out] + outs)
  }
}
