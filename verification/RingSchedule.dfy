/**
 * The ring buffer between one producer and one consumer whose steps interleave freely, as those of an interrupt
 * and the main loop do: only the reading and the updating of `Count` are atomic.
 */
module RingSchedule {
  import opened Words
  import opened RingBuffer

  /** Where the producer is in `if (!IsFull) Insert(x)`. */
  datatype Producer = PIdle | PStore(x: Byte) | PAdvance | PWrap | PCount

  /** Where the consumer is in `if (!IsEmpty) Remove()`. */
  datatype Consumer = CIdle | CLoad | CAdvance | CWrap | CCount

  /** `sent` and `got` record the bytes stored and loaded since the last clear, in order. */
  datatype System = System(ring: Ring, producer: Producer, consumer: Consumer, sent: seq<Byte>, got: seq<Byte>)

  datatype Action =
    | BeginInsert(x: Byte) | Store | AdvanceIn | WrapIn | CountUp
    | BeginRemove | Load | AdvanceOut | WrapOut | CountDown
    | Clear

  /** Which thread is to move, and that it starts only when not full or not empty. */
  predicate Enabled(s: System, a: Action) {
    match a
    case BeginInsert(_) => s.producer.PIdle? && !s.ring.IsFull()
    case Store => s.producer.PStore? && s.ring.inPos < |s.ring.buf|
    case AdvanceIn => s.producer.PAdvance?
    case WrapIn => s.producer.PWrap?
    case CountUp => s.producer.PCount?
    case BeginRemove => s.consumer.CIdle? && !s.ring.IsEmpty()
    case Load => s.consumer.CLoad? && s.ring.outPos < |s.ring.buf|
    case AdvanceOut => s.consumer.CAdvance?
    case WrapOut => s.consumer.CWrap?
    case CountDown => s.consumer.CCount?
    case Clear => s.producer.PIdle? && s.consumer.CIdle?
  }

  function Do(s: System, a: Action): System
    requires Enabled(s, a)
  {
    var r := s.ring;
    match a
    case BeginInsert(x) => s.(producer := PStore(x))
    case Store =>
      s.(ring := r.(buf := r.buf[r.inPos := s.producer.x]), sent := s.sent + [s.producer.x], producer := PAdvance)
    case AdvanceIn => s.(ring := r.(inPos := r.inPos + 1), producer := PWrap)
    case WrapIn => s.(ring := if r.inPos == |r.buf| then r.(inPos := 0) else r, producer := PCount)
    case CountUp => s.(ring := r.(count := (r.count + 1) % 0x100), producer := PIdle)
    case BeginRemove => s.(consumer := CLoad)
    case Load => s.(got := s.got + [r.buf[r.outPos]], consumer := CAdvance)
    case AdvanceOut => s.(ring := r.(outPos := r.outPos + 1), consumer := CWrap)
    case WrapOut => s.(ring := if r.outPos == |r.buf| then r.(outPos := 0) else r, consumer := CCount)
    case CountDown => s.(ring := r.(count := (r.count - 1) % 0x100), consumer := CIdle)
    case Clear => s.(ring := r.(inPos := 0, outPos := 0, count := 0), sent := [], got := [])
  }

  /** A schedule is possible: each action is enabled when its turn comes. */
  predicate Possible(s: System, schedule: seq<Action>)
    decreases |schedule|
  {
    schedule == [] || (Enabled(s, schedule[0]) && Possible(Do(s, schedule[0]), schedule[1..]))
  }

  function Run(s: System, schedule: seq<Action>): System
    requires Possible(s, schedule)
    decreases |schedule|
  {
    if schedule == [] then s else Run(Do(s, schedule[0]), schedule[1..])
  }

  // ---------- the invariant ----------

  /** Inserts whose count update is done. */
  function Completed(s: System): int {
    |s.sent| - if s.producer.PAdvance? || s.producer.PWrap? || s.producer.PCount? then 1 else 0
  }

  function Released(s: System): int {
    |s.got| - if s.consumer.CAdvance? || s.consumer.CWrap? || s.consumer.CCount? then 1 else 0
  }

  /** The slot of the `k`-th byte since the last clear. */
  function SlotOf(n: nat, k: nat): (r: nat)
    requires n > 0
    ensures r < n
    decreases k
  {
    if k == 0 then 0 else if SlotOf(n, k - 1) + 1 == n then 0 else SlotOf(n, k - 1) + 1
  }

  ghost predicate PointersRight(s: System)
    requires |s.ring.buf| > 0
  {
    var n, i, o := |s.ring.buf|, |s.sent|, |s.got|;
    && s.ring.inPos == (match s.producer
                        case PIdle => SlotOf(n, i)
                        case PStore(_) => SlotOf(n, i)
                        case PAdvance => if i > 0 then SlotOf(n, i - 1) else n
                        case PWrap => if i > 0 then SlotOf(n, i - 1) + 1 else n
                        case PCount => SlotOf(n, i))
    && s.ring.outPos == (match s.consumer
                         case CIdle => SlotOf(n, o)
                         case CLoad => SlotOf(n, o)
                         case CAdvance => if o > 0 then SlotOf(n, o - 1) else n
                         case CWrap => if o > 0 then SlotOf(n, o - 1) + 1 else n
                         case CCount => SlotOf(n, o))
  }

  ghost predicate Inv(s: System) {
    && 1 <= |s.ring.buf| <= 255
    && 0 <= Released(s) <= Completed(s)
    && s.ring.count == Completed(s) - Released(s) <= |s.ring.buf|
    && (!s.producer.PIdle? ==> s.ring.count < |s.ring.buf|)
    && (!s.consumer.CIdle? ==> s.ring.count > 0)
    && PointersRight(s)
    && (forall k | Released(s) <= k < |s.sent| :: s.ring.buf[SlotOf(|s.ring.buf|, k)] == s.sent[k])
    && |s.got| <= Completed(s)
    && s.got == s.sent[..|s.got|]
  }

  lemma {:induction false} SlotPeriod(n: nat, k: nat, d: nat)
    requires n > 0 && SlotOf(n, k) + d < n
    ensures SlotOf(n, k + d) == SlotOf(n, k) + d
    decreases d
  {
    if d > 0 {
      SlotPeriod(n, k, d - 1);
    }
  }

  /** Fewer than `n` bytes apart means in different slots. */
  lemma SlotsApart(n: nat, j: nat, k: nat)
    requires n > 0 && j < k < j + n
    ensures SlotOf(n, j) != SlotOf(n, k)
  {
    var a := n - 1 - SlotOf(n, j);
    if k - j <= a {
      SlotPeriod(n, j, k - j);
    } else {
      SlotPeriod(n, j, a);
      assert SlotOf(n, j + a + 1) == 0;
      SlotPeriod(n, j + a + 1, k - (j + a + 1));
    }
  }

  /** The store of an insert hits no slot whose byte is still to be read. */
  lemma StoreHitsFreeSlot(s: System)
    requires Inv(s) && Enabled(s, Store)
    ensures forall k | Released(s) <= k < |s.sent| :: SlotOf(|s.ring.buf|, k) != s.ring.inPos
  {
    forall k | Released(s) <= k < |s.sent| ensures SlotOf(|s.ring.buf|, k) != s.ring.inPos {
      SlotsApart(|s.ring.buf|, k, |s.sent|);
    }
  }

  lemma SlotNext(n: nat, k: nat)
    requires n > 0
    ensures SlotOf(n, 0) == 0
    ensures SlotOf(n, k + 1) == if SlotOf(n, k) + 1 == n then 0 else SlotOf(n, k) + 1
  {
  }

  lemma StoreKeepsInv(s: System)
    requires Inv(s) && Enabled(s, Store)
    ensures Inv(Do(s, Store))
  {
    hide SlotOf, Ring.Slot;
    StoreHitsFreeSlot(s);
    var s' := Do(s, Store);
    assert s'.sent[..|s.sent|] == s.sent;
  }

  lemma LoadKeepsInv(s: System)
    requires Inv(s) && Enabled(s, Load)
    ensures Inv(Do(s, Load))
  {
    hide SlotOf;
    assert s.ring.buf[SlotOf(|s.ring.buf|, |s.got|)] == s.sent[|s.got|];
    assert s.sent[..|s.got| + 1] == s.sent[..|s.got|] + [s.sent[|s.got|]];
  }

  lemma ProducerKeepsInv(s: System, a: Action)
    requires Inv(s) && Enabled(s, a) && (a.BeginInsert? || a.AdvanceIn? || a.WrapIn? || a.CountUp?)
    ensures Inv(Do(s, a))
  {
    hide SlotOf, Ring.Valid, Ring.Slot;
    if a.WrapIn? {
      SlotNext(|s.ring.buf|, |s.sent| - 1);
    }
  }

  lemma ConsumerKeepsInv(s: System, a: Action)
    requires Inv(s) && Enabled(s, a) && (a.BeginRemove? || a.AdvanceOut? || a.WrapOut? || a.CountDown?)
    ensures Inv(Do(s, a))
  {
    hide SlotOf;
    if a.WrapOut? {
      SlotNext(|s.ring.buf|, |s.got| - 1);
    }
  }

  /** Every enabled step of either thread keeps the invariant. */
  lemma StepKeepsInv(s: System, a: Action)
    requires Inv(s) && Enabled(s, a)
    ensures Inv(Do(s, a))
  {
    match a
    case Store => StoreKeepsInv(s);
    case Load => LoadKeepsInv(s);
    case BeginInsert(_) => ProducerKeepsInv(s, a);
    case AdvanceIn => ProducerKeepsInv(s, a);
    case WrapIn => ProducerKeepsInv(s, a);
    case CountUp => ProducerKeepsInv(s, a);
    case BeginRemove => ConsumerKeepsInv(s, a);
    case AdvanceOut => ConsumerKeepsInv(s, a);
    case WrapOut => ConsumerKeepsInv(s, a);
    case CountDown => ConsumerKeepsInv(s, a);
    case Clear =>
      SlotNext(|s.ring.buf|, 0);
  }

  ghost predicate Cleared(s: System) {
    && 1 <= |s.ring.buf| <= 255
    && s.ring.inPos == 0 && s.ring.outPos == 0 && s.ring.count == 0
    && s.producer.PIdle? && s.consumer.CIdle? && s.sent == [] && s.got == []
  }

  lemma {:induction false} RunKeepsInv(s: System, schedule: seq<Action>)
    requires Inv(s) && Possible(s, schedule)
    ensures Inv(Run(s, schedule))
    decreases |schedule|
  {
    if schedule != [] {
      StepKeepsInv(s, schedule[0]);
      RunKeepsInv(Do(s, schedule[0]), schedule[1..]);
    }
  }

  /**
   * For every schedule from a cleared buffer: what has been removed is a prefix of what has been inserted,
   * `Count` is the completed inserts less the completed removes and stays within the buffer, no step is ever
   * stuck on a pointer outside it, and between operations the buffer holds exactly the bytes in between.
   */
  lemma FifoUnderEverySchedule(s: System, schedule: seq<Action>)
    requires Cleared(s) && Possible(s, schedule)
    ensures var t := Run(s, schedule);
            && t.got <= t.sent
            && t.ring.count == Completed(t) - Released(t)
            && 0 <= t.ring.count <= |t.ring.buf| == |s.ring.buf|
            && (t.producer.PStore? ==> Enabled(t, Store))
            && (t.consumer.CLoad? ==> Enabled(t, Load))
            && (t.producer.PIdle? && t.consumer.CIdle? ==>
                  t.ring.Valid() && t.ring.Contents() == t.sent[|t.got|..])
  {
    assert Inv(s);
    RunKeepsInv(s, schedule);
    SizeKept(s, schedule);
    var t := Run(s, schedule);
    if t.producer.PIdle? && t.consumer.CIdle? {
      IdleContents(t);
    }
  }

  lemma {:induction false} SizeKept(s: System, schedule: seq<Action>)
    requires Possible(s, schedule)
    ensures |Run(s, schedule).ring.buf| == |s.ring.buf|
    decreases |schedule|
  {
    if schedule != [] {
      SizeKept(Do(s, schedule[0]), schedule[1..]);
    }
  }

  lemma {:induction false} SlotFrom(n: nat, k: nat, d: nat)
    requires n > 0 && d <= n
    ensures SlotOf(n, k + d) == if SlotOf(n, k) + d < n then SlotOf(n, k) + d else SlotOf(n, k) + d - n
    decreases d
  {
    if d > 0 {
      SlotFrom(n, k, d - 1);
    }
  }

  lemma IdleContents(s: System)
    requires Inv(s) && s.producer.PIdle? && s.consumer.CIdle?
    ensures s.ring.Valid() && s.ring.Contents() == s.sent[|s.got|..]
  {
    var n := |s.ring.buf|;
    SlotFrom(n, |s.got|, s.ring.count);
    hide SlotOf;
    assert s.ring.Valid();
    forall i | 0 <= i < s.ring.count ensures s.ring.Contents()[i] == s.sent[|s.got| + i] {
      SlotFrom(n, |s.got|, i);
      assert s.ring.buf[SlotOf(n, |s.got| + i)] == s.sent[|s.got| + i];
    }
  }

  // ---------- without interleaving ----------

  lemma StoreSteps(s: System, x: Byte)
    requires s.ring.Valid() && !s.ring.IsFull() && s.producer.PIdle?
    ensures Enabled(s, BeginInsert(x)) && Enabled(Do(s, BeginInsert(x)), Store)
    ensures Do(Do(s, BeginInsert(x)), Store)
         == s.(ring := s.ring.(buf := s.ring.buf[s.ring.inPos := x]), sent := s.sent + [x], producer := PAdvance)
  {
  }

  lemma AdvanceInSteps(s: System)
    requires s.producer.PAdvance? && s.ring.inPos < |s.ring.buf| && s.ring.count < 255
    ensures Enabled(s, AdvanceIn) && Enabled(Do(s, AdvanceIn), WrapIn)
    ensures Enabled(Do(Do(s, AdvanceIn), WrapIn), CountUp)
    ensures Do(Do(Do(s, AdvanceIn), WrapIn), CountUp)
         == s.(ring := s.ring.(inPos := s.ring.Slot(s.ring.inPos + 1), count := s.ring.count + 1), producer := PIdle)
  {
  }

  /** The producer's steps in a row are the sequential insert. */
  lemma InsertWithoutInterleaving(s: System, x: Byte)
    requires s.ring.Valid() && !s.ring.IsFull() && s.producer.PIdle?
    ensures var schedule := [BeginInsert(x), Store, AdvanceIn, WrapIn, CountUp];
            Possible(s, schedule) && Run(s, schedule) == s.(ring := Inserted(s.ring, x), sent := s.sent + [x])
  {
    hide Possible, Run, Enabled, Do;
    StoreSteps(s, x);
    AdvanceInSteps(Do(Do(s, BeginInsert(x)), Store));
    RunFive(s, BeginInsert(x), Store, AdvanceIn, WrapIn, CountUp);
  }

  lemma LoadSteps(s: System)
    requires s.ring.Valid() && !s.ring.IsEmpty() && s.consumer.CIdle?
    ensures Enabled(s, BeginRemove) && Enabled(Do(s, BeginRemove), Load)
    ensures Do(Do(s, BeginRemove), Load) == s.(got := s.got + [s.ring.buf[s.ring.outPos]], consumer := CAdvance)
  {
  }

  lemma AdvanceOutSteps(s: System)
    requires s.consumer.CAdvance? && s.ring.outPos < |s.ring.buf| && s.ring.count > 0
    ensures Enabled(s, AdvanceOut) && Enabled(Do(s, AdvanceOut), WrapOut)
    ensures Enabled(Do(Do(s, AdvanceOut), WrapOut), CountDown)
    ensures Do(Do(Do(s, AdvanceOut), WrapOut), CountDown)
         == s.(ring := s.ring.(outPos := s.ring.Slot(s.ring.outPos + 1), count := s.ring.count - 1), consumer := CIdle)
  {
  }

  /** The consumer's steps in a row are the sequential remove. */
  lemma RemoveWithoutInterleaving(s: System)
    requires s.ring.Valid() && !s.ring.IsEmpty() && s.consumer.CIdle?
    ensures var schedule := [BeginRemove, Load, AdvanceOut, WrapOut, CountDown];
            var (r, x) := Removed(s.ring);
            Possible(s, schedule) && Run(s, schedule) == s.(ring := r, got := s.got + [x])
  {
    hide Possible, Run, Enabled, Do;
    LoadSteps(s);
    AdvanceOutSteps(Do(Do(s, BeginRemove), Load));
    RunFive(s, BeginRemove, Load, AdvanceOut, WrapOut, CountDown);
  }

  lemma RunNext(s: System, a: Action, rest: seq<Action>)
    requires Enabled(s, a) && Possible(Do(s, a), rest)
    ensures Possible(s, [a] + rest) && Run(s, [a] + rest) == Run(Do(s, a), rest)
  {
    hide Enabled, Do;
    assert ([a] + rest)[1..] == rest;
  }

  lemma RunFive(s: System, a: Action, b: Action, c: Action, d: Action, e: Action)
    requires Enabled(s, a)
    requires Enabled(Do(s, a), b)
    requires Enabled(Do(Do(s, a), b), c)
    requires Enabled(Do(Do(Do(s, a), b), c), d)
    requires Enabled(Do(Do(Do(Do(s, a), b), c), d), e)
    ensures Possible(s, [a, b, c, d, e])
    ensures Run(s, [a, b, c, d, e]) == Do(Do(Do(Do(Do(s, a), b), c), d), e)
  {
    hide Enabled, Do;
    var s1 := Do(s, a);
    var s2 := Do(s1, b);
    var s3 := Do(s2, c);
    var s4 := Do(s3, d);
    assert Possible(Do(s4, e), []) && Run(Do(s4, e), []) == Do(s4, e);
    hide Possible, Run;
    RunNext(s4, e, []);
    RunNext(s3, d, [e] + []);
    RunNext(s2, c, [d] + ([e] + []));
    RunNext(s1, b, [c] + ([d] + ([e] + [])));
    RunNext(s, a, [b] + ([c] + ([d] + ([e] + []))));
    FiveConcat(a, b, c, d, e);
  }

  lemma FiveConcat(a: Action, b: Action, c: Action, d: Action, e: Action)
    ensures [a] + ([b] + ([c] + ([d] + ([e] + [])))) == [a, b, c, d, e]
  {
  }
}
