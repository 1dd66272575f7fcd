/** Secure mode of the DFU bootloader: nothing the host can see depends on the application flash. */
module DfuSecure {
  import opened Words
  import opened Flash
  import opened Dfu

  /** What secure mode keeps true; it holds when the bootloader starts. */
  ghost predicate Locked(s: State) {
    s.secure && (s.state.DfuIdle? || s.state.DfuError?) && !s.waitForExit
  }

  /** Two bootloaders that differ at most in their application flash. */
  ghost predicate SameOutside(g: Geometry, s: State, t: State) {
    && t == s.(dev := t.dev)
    && t.dev.temp == s.dev.temp
    && |t.dev.flash| == |s.dev.flash|
    && forall i | g.bootStart <= i < |s.dev.flash| :: t.dev.flash[i] == s.dev.flash[i]
  }

  ghost predicate ApplicationBlank(g: Geometry, flash: seq<Byte>) {
    forall i | 0 <= i < g.bootStart && i < |flash| :: flash[i] == 0xFF
  }

  /** The erase loop blanks every page of the application and touches nothing else. */
  lemma {:induction false} EraseFromBlanks(g: Geometry, d: Device, a: nat)
    requires g.Valid() && a % g.pageSize == 0
    ensures var d' := EraseFrom(g, d, a);
            && |d'.flash| == |d.flash|
            && forall i | 0 <= i < |d.flash| :: d'.flash[i] == if a <= i < g.bootStart then 0xFF else d.flash[i]
    ensures a < g.bootStart ==> EraseFrom(g, d, a).temp == map[]
    decreases g.bootStart - a
  {
    if a < g.bootStart {
      AlignedApart(g, a, g.bootStart);
      NextPage(g, a);
      var d1 := Exec(g, d, ErasePage(a));
      EraseFromBlanks(g, d1, a + g.pageSize);
      assert a + g.pageSize >= g.bootStart ==> EraseFrom(g, d1, a + g.pageSize) == d1;
    }
  }

  lemma EraseAll(g: Geometry, d: Device)
    requires g.Valid()
    ensures var d' := EraseFrom(g, d, 0);
            && |d'.flash| == |d.flash|
            && forall i | 0 <= i < |d.flash| :: d'.flash[i] == if i < g.bootStart then 0xFF else d.flash[i]
    ensures g.bootStart > 0 ==> EraseFrom(g, d, 0).temp == map[]
  {
    MultipleOf(0, g.pageSize);
    EraseFromBlanks(g, d, 0);
  }

  /** One command: either the lock stays, or the application has been erased. */
  lemma LockedCommand(c: Config, s: State)
    requires c.g.Valid() && Locked(s)
    ensures var s' := ProcessBootloaderCommand(c, s);
            Locked(s') || (!s'.secure && s' == s.(secure := false, dev := EraseFrom(c.g, s.dev, 0)))
    ensures var s' := ProcessBootloaderCommand(c, s);
            !s'.state.DnloadIdle? && (s'.secure ==> s'.dev == s.dev && s' == ProcessBootloaderCommand(c, s).(dev := s.dev))
  {
  }

  lemma SameErased(g: Geometry, s: State, t: State)
    requires g.Valid() && SameOutside(g, s, t)
    ensures EraseFrom(g, s.dev, 0) == EraseFrom(g, t.dev, 0)
  {
    EraseAll(g, s.dev);
    EraseAll(g, t.dev);
    assert EraseFrom(g, s.dev, 0).flash == EraseFrom(g, t.dev, 0).flash;
    if g.bootStart == 0 {
      assert s.dev.flash == t.dev.flash;
    }
  }

  /** A command to two locked devices: both stay locked, or both are erased into the same state. */
  lemma SameCommand(c: Config, s: State, t: State)
    requires c.g.Valid() && Locked(s) && SameOutside(c.g, s, t)
    ensures var s', t' := ProcessBootloaderCommand(c, s), ProcessBootloaderCommand(c, t);
            if s'.secure then SameOutside(c.g, s', t') else s' == t'
  {
    SameErased(c.g, s, t);
    hide EraseFrom, FirstNonBlank, FlashByte, Exec, Geometry.Valid;
  }

  /** One request to two locked devices: the same bytes, and the same state once they are unlocked. */
  lemma LockedStep(c: Config, s: State, t: State, req: Request)
    requires c.g.Valid() && Locked(s) && SameOutside(c.g, s, t)
    ensures var (s', out) := Handle(c, s, req);
            var (t', out') := Handle(c, t, req);
            && out == out'
            && (if s'.secure then Locked(s') && SameOutside(c.g, s', t') && s'.dev == s.dev
                else s' == t' && ApplicationBlank(c.g, s'.dev.flash))
  {
    var s1, t1 := s.(dataSize := req.wLength), t.(dataSize := req.wLength);
    if req.Dnload? && req.wLength != 0 && req.packet != [] {
      var s2, t2 := LoadCommand(s1, req.packet), LoadCommand(t1, req.packet);
      LockedCommand(c, s2);
      SameCommand(c, s2, t2);
      EraseAll(c.g, s2.dev);
      hide ProcessBootloaderCommand, EraseFrom, Download;
    }
  }

  /**
   * Two devices that start locked and differ only in application flash answer every request sequence with the
   * same bytes, for ever; the first device left unlocked has had its whole application erased.
   */
  lemma {:induction false} SecureSession(c: Config, s: State, t: State, reqs: seq<Request>)
    requires c.g.Valid() && Locked(s) && SameOutside(c.g, s, t)
    ensures Session(c, s, reqs).1 == Session(c, t, reqs).1
    ensures Session(c, s, reqs).0.secure ==> Session(c, s, reqs).0.dev == s.dev
    decreases |reqs|
  {
    hide Handle;
    if reqs != [] {
      LockedStep(c, s, t, reqs[0]);
      var s', t' := Handle(c, s, reqs[0]).0, Handle(c, t, reqs[0]).0;
      if s'.secure {
        SecureSession(c, s', t', reqs[1..]);
      } else {
        StaysUnlocked(c, s', reqs[1..]);
      }
    }
  }

  lemma AddressesKeep(s: State)
    ensures LoadStartEndAddresses(s).secure == s.secure && LoadStartEndAddresses(s).dataSize == s.dataSize
  {
  }

  lemma ProgKeeps(c: Config, s: State)
    requires c.g.pageSize > 0
    ensures ProcessMemProgCommand(c.g, s).secure == s.secure && ProcessMemProgCommand(c.g, s).dataSize == s.dataSize
  {
    hide Exec, LongAddress, LoadStartEndAddresses;
    AddressesKeep(s);
  }

  lemma DispKeeps(c: Config, s: State)
    ensures ProcessMemReadCommand(c.g, s).secure == s.secure && ProcessMemReadCommand(c.g, s).dataSize == s.dataSize
  {
    hide FirstNonBlank, LoadStartEndAddresses;
    AddressesKeep(s);
  }

  lemma WriteKeeps(c: Config, s: State)
    requires c.g.pageSize > 0
    ensures ProcessWriteCommand(c.g, s).secure ==> s.secure
    ensures ProcessWriteCommand(c.g, s).dataSize == s.dataSize
  {
    hide EraseFrom, FlashByte, WordOf;
  }

  lemma ReadKeeps(c: Config, s: State)
    ensures ProcessReadCommand(c, s).secure == s.secure && ProcessReadCommand(c, s).dataSize == s.dataSize
  {
  }

  /** No command locks the device, nor changes the size of the request it came with. */
  lemma CommandKeeps(c: Config, s: State)
    requires c.g.pageSize > 0
    ensures ProcessBootloaderCommand(c, s).secure ==> s.secure
    ensures ProcessBootloaderCommand(c, s).dataSize == s.dataSize
  {
    hide ProcessMemProgCommand, ProcessMemReadCommand, ProcessWriteCommand, ProcessReadCommand, IsErase;
    ProgKeeps(c, s);
    DispKeeps(c, s);
    WriteKeeps(c, s);
    ReadKeeps(c, s);
  }

  lemma DownloadKeeps(c: Config, s: State, packet: seq<Byte>, payload: seq<Byte>)
    requires c.g.pageSize > 0 && packet != []
    ensures LoadCommand(s, packet).secure == s.secure && Download(c.g, s, payload).secure == s.secure
  {
    hide ProgramWords, ProgramBytes, RangeBytes, LongAddress;
  }

  lemma UploadKeeps(g: Geometry, s: State)
    ensures HandleUpload(g, s).0.secure == s.secure
  {
    hide FlashWords, EepromBytes, RangeBytes, LongAddress, Advance;
  }

  lemma DnloadKeeps(c: Config, s: State, packet: seq<Byte>, payload: seq<Byte>)
    requires c.g.pageSize > 0 && !s.secure
    ensures !HandleDnload(c, s, packet, payload).secure
  {
    hide ProcessBootloaderCommand, LoadCommand, Download;
    CommandKeeps(c, s);
    var s1 := if s.waitForExit then ProcessBootloaderCommand(c, s).(waitForExit := false) else s;
    if packet != [] {
      DownloadKeeps(c, s1, packet, payload);
      CommandKeeps(c, LoadCommand(s1, packet));
      DownloadKeeps(c, ProcessBootloaderCommand(c, LoadCommand(s1, packet)), packet, payload);
    }
    DownloadKeeps(c, s1, [0], payload);
  }

  lemma UnlockedStep(c: Config, s: State, req: Request)
    requires c.g.pageSize > 0 && !s.secure
    ensures !Handle(c, s, req).0.secure
  {
    hide HandleDnload, HandleUpload, DfuState.Code;
    var s1 := s.(dataSize := req.wLength);
    UploadKeeps(c.g, s1);
    if req.Dnload? {
      DnloadKeeps(c, s1, req.packet, req.payload);
    }
  }

  lemma {:induction false} StaysUnlocked(c: Config, s: State, reqs: seq<Request>)
    requires c.g.pageSize > 0 && !s.secure
    ensures !Session(c, s, reqs).0.secure
    decreases |reqs|
  {
    hide Handle;
    if reqs != [] {
      UnlockedStep(c, s, reqs[0]);
      StaysUnlocked(c, Handle(c, s, reqs[0]).0, reqs[1..]);
    }
  }

  /** Parameter `i` once a packet has been read: a short packet leaves the parameters of the one before. */
  function ParameterAfter(s: State, packet: seq<Byte>, i: nat): Byte
    requires i < 5
  {
    if i + 1 < |packet| then packet[i + 1] else s.params[i]
  }

  /** The request carries the chip erase command. */
  predicate Erases(s: State, req: Request) {
    && req.Dnload? && req.wLength != 0 && req.packet != []
    && req.packet[0] == 4 && ParameterAfter(s, req.packet, 0) == 0 && ParameterAfter(s, req.packet, 1) == 0xFF
  }

  lemma ParametersLoaded(s: State, packet: seq<Byte>)
    requires packet != []
    ensures var s' := LoadCommand(s, packet);
            && s'.command == packet[0]
            && s' == s.(command := s'.command, params := s'.params, dataSize := s'.dataSize)
            && forall i | 0 <= i < 5 :: s'.params[i] == ParameterAfter(s, packet, i)
  {
  }

  /** A locked device is unlocked by exactly the requests that carry the chip erase command. */
  lemma UnlocksExactlyWhen(c: Config, s: State, req: Request)
    requires c.g.Valid() && Locked(s)
    ensures !Handle(c, s, req).0.secure <==> Erases(s, req)
    ensures Erases(s, req) ==> ApplicationBlank(c.g, Handle(c, s, req).0.dev.flash)
  {
    hide EraseFrom, LoadCommand, ParameterAfter, Download, FlashWords, EepromBytes, ProcessReadCommand;
    if req.Dnload? && req.packet != [] {
      var s1 := s.(dataSize := req.wLength);
      ParametersLoaded(s1, req.packet);
      SameParameters(s, s1, req.packet);
      EraseAll(c.g, s.dev);
      ReadKeeps(c, LoadCommand(s1, req.packet));
      ReadState(c, LoadCommand(s1, req.packet));
    }
  }

  lemma SameParameters(s: State, t: State, packet: seq<Byte>)
    requires t.params == s.params
    ensures forall i | 0 <= i < 5 :: ParameterAfter(t, packet, i) == ParameterAfter(s, packet, i)
  {
  }

  lemma ReadState(c: Config, s: State)
    ensures ProcessReadCommand(c, s).state == s.state || ProcessReadCommand(c, s).state == DfuError
  {
  }

  /** A locked device that ends up unlocked was erased by the very request that unlocked it. */
  lemma {:induction false} UnlockedOnlyByErasing(c: Config, s: State, reqs: seq<Request>) returns (k: nat)
    requires c.g.Valid() && Locked(s) && !Session(c, s, reqs).0.secure
    ensures k < |reqs|
    ensures Session(c, s, reqs[..k]).0.secure && Session(c, s, reqs[..k]).0.dev == s.dev
    ensures var s' := Session(c, s, reqs[..k + 1]).0;
            !s'.secure && ApplicationBlank(c.g, s'.dev.flash)
    ensures Erases(Session(c, s, reqs[..k]).0, reqs[k])
    decreases |reqs|
  {
    hide Handle, ApplicationBlank, Erases;
    UnlocksExactlyWhen(c, s, reqs[0]);
    SameAsItself(c.g, s);
    LockedStep(c, s, s, reqs[0]);
    var s1 := Handle(c, s, reqs[0]).0;
    if s1.secure {
      k := UnlockedOnlyByErasing(c, s1, reqs[1..]);
      k := k + 1;
      assert reqs[..k][1..] == reqs[1..][..k - 1] && reqs[..k + 1][1..] == reqs[1..][..k];
    } else {
      k := 0;
      assert reqs[..1][1..] == [];
      assert Session(c, s1, []).0 == s1;
    }
  }

  lemma SameAsItself(g: Geometry, s: State)
    ensures SameOutside(g, s, s)
  {
  }
}
