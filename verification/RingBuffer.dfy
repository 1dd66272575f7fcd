/** The lightweight ring buffer, used by one thread at a time. */
module RingBuffer {
  import opened Words

  /** The fields of a ring buffer; `inPos` and `outPos` are the distances of the pointers from the buffer. */
  datatype Ring = Ring(buf: seq<Byte>, inPos: nat, outPos: nat, count: Byte) {
    ghost predicate Valid() {
      && 1 <= |buf| <= 255
      && outPos < |buf|
      && count <= |buf|
      && inPos == Slot(outPos + count)
    }

    /** A position less than two buffer lengths away, brought back into the buffer. */
    function Slot(i: nat): nat {
      if i < |buf| then i else i - |buf|
    }

    /** The unread bytes, oldest first. */
    ghost function Contents(): (r: seq<Byte>)
      requires Valid()
      ensures |r| == count
      ensures forall i | 0 <= i < |r| :: r[i] == buf[Slot(outPos + i)]
    {
      seq(count, i requires 0 <= i < count => buf[Slot(outPos + i)])
    }

    predicate IsFull() {
      count == |buf|
    }

    predicate IsEmpty() {
      count == 0
    }
  }

  function Inserted(r: Ring, x: Byte): Ring
    requires r.Valid() && !r.IsFull()
  {
    r.(buf := r.buf[r.inPos := x], inPos := r.Slot(r.inPos + 1), count := r.count + 1)
  }

  function Removed(r: Ring): (Ring, Byte)
    requires r.Valid() && !r.IsEmpty()
  {
    (r.(outPos := r.Slot(r.outPos + 1), count := r.count - 1), r.buf[r.outPos])
  }

  /** Inserting appends, removing takes the oldest: a first-in first-out queue. */
  lemma InsertAppends(r: Ring, x: Byte)
    requires r.Valid() && !r.IsFull()
    ensures Inserted(r, x).Valid()
    ensures Inserted(r, x).Contents() == r.Contents() + [x]
  {
  }

  lemma RemoveTakesOldest(r: Ring)
    requires r.Valid() && !r.IsEmpty()
    ensures Removed(r).0.Valid()
    ensures [Removed(r).1] + Removed(r).0.Contents() == r.Contents()
  {
  }

  class Buffer {
    const data: array<Byte>
    var inPos: nat
    var outPos: nat
    var count: Byte

    ghost function View(): Ring
      reads this, data
    {
      Ring(data[..], inPos, outPos, count)
    }

    ghost predicate Valid()
      reads this, data
    {
      View().Valid()
    }

    constructor (data: array<Byte>)
      requires 1 <= data.Length <= 255
      ensures this.data == data && Valid() && View().Contents() == []
    {
      this.data := data;
      inPos, outPos, count := 0, 0, 0;
    }

    method GetCount() returns (n: Byte)
      requires Valid()
      ensures n == |View().Contents()|
    {
      n := count;
    }

    method IsFull() returns (full: bool)
      requires Valid()
      ensures full <==> |View().Contents()| == data.Length
    {
      full := count == data.Length;
    }

    method IsEmpty() returns (empty: bool)
      requires Valid()
      ensures empty <==> View().Contents() == []
    {
      empty := count == 0;
    }

    method Insert(x: Byte)
      requires Valid() && !View().IsFull()
      modifies this, data
      ensures Valid() && View() == Inserted(old(View()), x)
      ensures View().Contents() == old(View().Contents()) + [x]
    {
      ghost var r := View();
      InsertAppends(r, x);
      data[inPos] := x;
      inPos := inPos + 1;
      if inPos == data.Length {
        inPos := 0;
      }
      count := count + 1;
      assert View() == Inserted(r, x);
    }

    method Remove() returns (x: Byte)
      requires Valid() && !View().IsEmpty()
      modifies this
      ensures Valid() && (View(), x) == Removed(old(View()))
      ensures [x] + View().Contents() == old(View().Contents())
    {
      ghost var r := View();
      RemoveTakesOldest(r);
      x := data[outPos];
      outPos := outPos + 1;
      if outPos == data.Length {
        outPos := 0;
      }
      count := count - 1;
      assert (View(), x) == Removed(r);
    }

    method Peek() returns (x: Byte)
      requires Valid() && !View().IsEmpty()
      ensures x == View().Contents()[0]
    {
      x := data[outPos];
      assert View().Slot(outPos + 0) == outPos;
    }

    method Clear()
      requires Valid()
      modifies this
      ensures Valid() && View().Contents() == []
      ensures View() == old(View()).(inPos := 0, outPos := 0, count := 0)
    {
      count, inPos, outPos := 0, 0, 0;
    }
  }
}
