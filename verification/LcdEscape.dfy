/** The serial-to-LCD bridge: an escape byte marks commands in the stream of display data. */
module LcdEscape {
  import opened Words

  const ESCAPE: Byte := 0x1B

  /** What is written to the display. */
  datatype Token = Data(b: Byte) | Command(b: Byte) {
    /** The escape byte itself cannot be sent as a command. */
    predicate Sendable() {
      this != Command(0x1B)
    }
  }

  /** The host's side: data 0x1B doubled, commands prefixed. */
  function EncodeToken(t: Token): seq<Byte> {
    match t
    case Data(b) => if b == 0x1B then [0x1B, 0x1B] else [b]
    case Command(b) => [0x1B, b]
  }

  function Encode(tokens: seq<Token>): seq<Byte> {
    if tokens == [] then [] else EncodeToken(tokens[0]) + Encode(tokens[1..])
  }

  /** One byte in the drain loop: the new pending flag and the display write, if any. */
  function Step(pending: bool, b: Byte): (bool, seq<Token>) {
    if b == ESCAPE then
      if pending then (false, [Data(b)]) else (true, [])
    else
      (false, if pending then [Command(b)] else [Data(b)])
  }

  function Decode(pending: bool, bytes: seq<Byte>): (bool, seq<Token>)
    decreases |bytes|
  {
    if bytes == [] then (pending, [])
    else
      var (p1, t1) := Step(pending, bytes[0]);
      var (p2, t2) := Decode(p1, bytes[1..]);
      (p2, t1 + t2)
  }

  /** Draining in two loops is draining in one. */
  lemma {:induction false} DecodeConcat(pending: bool, a: seq<Byte>, b: seq<Byte>)
    ensures var (p1, t1) := Decode(pending, a);
            var (p2, t2) := Decode(p1, b);
            Decode(pending, a + b) == (p2, t1 + t2)
    decreases |a|
  {
    if a == [] {
      assert a + b == b;
      assert [] + Decode(pending, b).1 == Decode(pending, b).1;
    } else {
      var (p, t) := Step(pending, a[0]);
      assert (a + b)[1..] == a[1..] + b;
      DecodeConcat(p, a[1..], b);
      var (p1, t1) := Decode(p, a[1..]);
      var (p2, t2) := Decode(p1, b);
      AppendAssoc(t, t1, t2);
    }
  }

  lemma DecodeTwo(a: Byte, b: Byte)
    ensures var (p1, t1) := Step(false, a);
            var (p2, t2) := Step(p1, b);
            Decode(false, [a, b]) == (p2, t1 + t2)
  {
    assert [a, b][1..] == [b] && [b][1..] == [];
    var (p1, t1) := Step(false, a);
    var (p2, t2) := Step(p1, b);
    assert Decode(p1, [b]) == (p2, t2 + []);
    assert t2 + [] == t2;
  }

  lemma DecodeOne(a: Byte)
    ensures Decode(false, [a]) == Step(false, a)
  {
    assert [a][1..] == [];
    var t := Step(false, a).1;
    assert t + [] == t;
  }

  lemma DecodeOfToken(t: Token)
    requires t.Sendable()
    ensures Decode(false, EncodeToken(t)) == (false, [t])
  {
    if t.Command? || t.b == ESCAPE {
      DecodeTwo(ESCAPE, t.b);
      assert [] + [t] == [t];
    } else {
      DecodeOne(t.b);
    }
  }

  /** What the host encodes, the display gets, with no escape left pending. */
  lemma {:induction false} DecodeOfEncode(tokens: seq<Token>)
    requires forall t | t in tokens :: t.Sendable()
    ensures Decode(false, Encode(tokens)) == (false, tokens)
  {
    if tokens != [] {
      hide EncodeToken, Token.Sendable;
      DecodeOfEncode(tokens[1..]);
      DecodeOfToken(tokens[0]);
      DecodeConcat(false, EncodeToken(tokens[0]), Encode(tokens[1..]));
      assert [tokens[0]] + tokens[1..] == tokens;
    }
  }

  /** The byte still owed while an escape is pending. */
  function Owed(pending: bool): seq<Byte> {
    if pending then [0x1B] else []
  }

  lemma StepAccountsForByte(pending: bool, b: Byte)
    ensures var (p, t) := Step(pending, b);
            && |t| <= 1
            && (t == [] ==> Owed(p) == Owed(pending) + [b])
            && (t != [] ==> t[0].Sendable() && Owed(p) == [] && EncodeToken(t[0]) == Owed(pending) + [b])
  {
  }

  /**
   * Encoding what any stream displayed, plus the pending escape if there is one, gives the stream back;
   * and only sendable tokens are ever displayed.
   */
  lemma {:induction false} EncodeOfDecode(pending: bool, bytes: seq<Byte>)
    ensures var (p, tokens) := Decode(pending, bytes);
            Encode(tokens) + Owed(p) == Owed(pending) + bytes
    ensures forall t | t in Decode(pending, bytes).1 :: t.Sendable()
    decreases |bytes|
  {
    hide Step, EncodeToken, Owed, Token.Sendable;
    if bytes == [] {
      assert Owed(pending) + bytes == Owed(pending);
      assert [] + Owed(pending) == Owed(pending);
    } else {
      var b, rest := bytes[0], bytes[1..];
      var (p1, t1) := Step(pending, b);
      var (p2, t2) := Decode(p1, rest);
      EncodeOfDecode(p1, rest);
      StepAccountsForByte(pending, b);
      AppendAssoc(Owed(pending), [b], rest);
      assert [b] + rest == bytes;
      if t1 == [] {
        assert t1 + t2 == t2;
      } else {
        assert (t1 + t2)[0] == t1[0] && (t1 + t2)[1..] == t2;
        AppendAssoc(EncodeToken(t1[0]), Encode(t2), Owed(p2));
        assert [] + rest == rest;
      }
    }
  }

  /** What the USB side returns in one iteration: a byte, or a negative number if none has come. */
  type Arrival = r: int | r < 0x100

  /** The bytes that came: what each iteration received, but for those that received nothing. */
  function Arrived(received: seq<Arrival>): seq<Byte> {
    if received == [] then []
    else
      var n := |received| - 1;
      Arrived(received[..n]) + if received[n] < 0 then [] else [received[n]]
  }

  lemma ArrivedNext(received: seq<Arrival>, i: nat)
    requires i < |received|
    ensures Arrived(received[..i + 1]) == Arrived(received[..i]) + Arrived([received[i]])
  {
    var upTo := received[..i + 1];
    assert upTo[..i] == received[..i] && upTo[i] == received[i];
    assert [received[i]][..0] == [];
    assert [] + Arrived([received[i]]) == Arrived([received[i]]);
  }

  /** The bridge's main loop: one byte at most is received, then the buffer is drained. */
  class Bridge {
    const capacity: nat := 128
    var fromHost: seq<Byte>
    var escapePending: bool
    var written: seq<Token>

    constructor ()
      ensures fromHost == [] && !escapePending && written == []
    {
      fromHost, escapePending, written := [], false, [];
    }

    method Drain()
      modifies this
      ensures fromHost == []
      ensures var (p, tokens) := Decode(old(escapePending), old(fromHost));
              escapePending == p && written == old(written) + tokens
    {
      ghost var target := Decode(escapePending, fromHost);
      assert written + target.1 == old(written) + target.1;
      while |fromHost| > 0
        invariant target.0 == Decode(escapePending, fromHost).0
        invariant old(written) + target.1 == written + Decode(escapePending, fromHost).1
      {
        var b := fromHost[0];
        ghost var (p1, t1) := Step(escapePending, b);
        AppendAssoc(written, t1, Decode(p1, fromHost[1..]).1);
        fromHost := fromHost[1..];
        if b == ESCAPE {
          if escapePending {
            written := written + [Data(b)];
            escapePending := false;
          } else {
            escapePending := true;
            assert written + [] == written;
          }
        } else if escapePending {
          written := written + [Command(b)];
          escapePending := false;
        } else {
          written := written + [Data(b)];
        }
      }
      assert written + [] == written;
    }

    /** One iteration of the main loop. */
    method Iterate(received: Arrival)
      requires fromHost == []
      modifies this
      ensures fromHost == []
      ensures var (p, tokens) := Decode(old(escapePending), Arrived([received]));
              escapePending == p && written == old(written) + tokens
    {
      if |fromHost| < capacity {
        if received >= 0 {
          fromHost := fromHost + [received];
        }
      }
      assert [received][..0] == [] && fromHost == Arrived([received]);
      Drain();
    }

    /** The display writes of any number of iterations are the decoding of the bytes that came, in order. */
    method Serve(received: seq<Arrival>)
      requires fromHost == []
      modifies this
      ensures fromHost == []
      ensures var (p, tokens) := Decode(old(escapePending), Arrived(received));
              escapePending == p && written == old(written) + tokens
    {
      var i := 0;
      assert written + [] == written;
      while i < |received|
        invariant 0 <= i <= |received| && fromHost == []
        invariant escapePending == Decode(old(escapePending), Arrived(received[..i])).0
        invariant written == old(written) + Decode(old(escapePending), Arrived(received[..i])).1
      {
        ghost var before, p := Arrived(received[..i]), old(escapePending);
        Iterate(received[i]);
        ArrivedNext(received, i);
        DecodeConcat(p, before, Arrived([received[i]]));
        AppendAssoc(old(written), Decode(p, before).1, Decode(Decode(p, before).0, Arrived([received[i]])).1);
        i := i + 1;
      }
      assert received[..i] == received;
    }
  }
}
