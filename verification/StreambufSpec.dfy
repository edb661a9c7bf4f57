/** What the growable byte queue of `basic_streambuf` does to its array, and the bounded
    FIFO that its documentation promises. */
module StreambufSpec {
  import opened Machine

  /** The array up to `epptr`, cut at `gptr` and at `pptr`. */
  datatype Areas = Areas(dead: seq<byte>, unread: seq<byte>, room: seq<byte>) {
    function All(): seq<byte> {
      dead + unread + room
    }

    predicate Within(max: nat) {
      |dead| + |unread| + |room| <= max
    }
  }

  function Cut(s: seq<byte>, g: nat, p: nat): (a: Areas)
    requires g <= p <= |s|
    ensures |a.All()| == |s|
  {
    Areas(s[..g], s[g..p], s[p..])
  }

  lemma CutCovers(s: seq<byte>, g: nat, p: nat)
    requires g <= p <= |s|
    ensures Cut(s, g, p).All() == s
  {
    assert s[..g] + s[g..p] == s[..p];
    assert s[..p] + s[p..] == s;
  }

  const BUFFER_DELTA: nat := 128

  function Zeros(n: nat): (s: seq<byte>)
    ensures |s| == n
  {
    seq(n, _ => 0)
  }

  function Initial(max: nat): Areas {
    Areas([], [], Zeros(MinInt(max, BUFFER_DELTA)))
  }

  datatype Outcome = Done(areas: Areas) | Threw(areas: Areas)

  /** The bytes after the unread ones have been moved to the front; what lies behind them
      keeps its old values. */
  function Shifted(a: Areas): (s: seq<byte>)
    ensures |s| == |a.All()|
  {
    a.unread + a.All()[|a.unread|..]
  }

  lemma NothingToShift(a: Areas)
    ensures a.dead == [] ==> Shifted(a) == a.All()
  {
    if a.dead == [] {
      assert a.All()[..|a.unread|] == a.unread;
    }
  }

  lemma ShiftedCut(s: seq<byte>, g: nat, p: nat, i: nat)
    requires g <= p <= |s| && i < |s|
    ensures Shifted(Cut(s, g, p))[i] == if i < p - g then s[g + i] else s[i]
  {
    CutCovers(s, g, p);
  }

  /** The array shifted, and then extended with zeros to length `end`. */
  function MovedToFront(a: Areas, end: nat): Areas
    requires |a.All()| <= end
  {
    Cut(Shifted(a) + Zeros(end - |a.All()|), 0, |a.unread|)
  }

  /** The array shifted under positions that have not moved. */
  function ShiftedInPlace(a: Areas): Areas {
    Cut(Shifted(a), |a.dead|, |a.dead| + |a.unread|)
  }

  function AfterReserve(a: Areas, n: nat, max: nat): Outcome {
    var end := |a.unread| + n;
    if n <= |a.room| then Done(a)
    else if end <= |a.All()| then Done(MovedToFront(a, |a.All()|))
    else if end <= max then Done(MovedToFront(a, end))
    else Threw(ShiftedInPlace(a))
  }

  lemma ReserveCases(a: Areas, n: nat, max: nat)
    ensures n <= |a.room| ==> AfterReserve(a, n, max) == Done(a)
    ensures |a.room| < n && |a.unread| + n <= |a.All()| ==>
              AfterReserve(a, n, max) == Done(MovedToFront(a, |a.All()|))
    ensures |a.All()| < |a.unread| + n <= max ==>
              AfterReserve(a, n, max) == Done(MovedToFront(a, |a.unread| + n))
    ensures |a.room| < n && |a.All()| < |a.unread| + n && max < |a.unread| + n ==>
              AfterReserve(a, n, max) == Threw(ShiftedInPlace(a))
  {
  }

  /** A request that is met leaves room for it. */
  lemma PrepareRoom(a: Areas, n: nat, max: nat)
    ensures AfterReserve(a, n, max).Done? ==> n <= |AfterReserve(a, n, max).areas.room|
  {
  }

  function OverflowReserveSize(a: Areas, max: nat): nat {
    var size := |a.unread|;
    if size < max && max - size < BUFFER_DELTA then max - size else BUFFER_DELTA
  }

  function AfterPut(a: Areas, c: byte, max: nat): Outcome {
    var o := if a.room == [] then AfterReserve(a, OverflowReserveSize(a, max), max) else Done(a);
    match o
    case Threw(_) => o
    case Done(b) =>
      if b.room == [] then o
      else Done(Areas(b.dead, b.unread + [c], b.room[1..]))
  }

  /** A request that fits behind the unread bytes changes nothing; any other that is met moves
      them to the front, and the array grows only if it must, and then to exactly what is asked
      for. */
  lemma ReserveShape(a: Areas, n: nat, max: nat)
    requires AfterReserve(a, n, max).Done?
    ensures var b := AfterReserve(a, n, max).areas;
            && b.unread == a.unread
            && (n <= |a.room| ==> b == a)
            && (|a.room| < n ==> b.dead == [] && |b.All()| == MaxInt(|a.All()|, |a.unread| + n))
  {
  }

  /** A new buffer has room for 128 bytes, and one that is full grows by 128, or as much as the
      maximum still allows. */
  lemma PutGrowth(a: Areas, c: byte, max: nat)
    requires |a.unread| < max
    ensures |Initial(max).room| == |Initial(max).All()| == MinInt(128, max)
    ensures var o := AfterPut(a, c, max);
            && o.Done? && o.areas.unread == a.unread + [c]
            && (a.room != [] ==> o.areas.dead == a.dead && o.areas.room == a.room[1..])
            && (a.room == [] ==>
                  o.areas.dead == [] && |o.areas.All()| == MaxInt(|a.All()|, MinInt(max, |a.unread| + 128)))
  {
    if a.room == [] {
      ReserveShape(a, OverflowReserveSize(a, max), max);
    }
    hide AfterReserve, Cut, Shifted;
  }

  function AfterCommit(a: Areas, n: nat): Areas {
    var k := MinInt(n, |a.room|);
    Areas(a.dead, a.unread + a.room[..k], a.room[k..])
  }

  function AfterConsume(a: Areas, n: nat): Areas {
    var k := MinInt(n, |a.unread|);
    Areas(a.dead + a.unread[..k], a.unread[k..], a.room)
  }

  lemma ConsumeNothing(a: Areas)
    requires a.unread == []
    ensures AfterConsume(a, 1) == a
  {
    assert a.dead + [] == a.dead;
  }

  // Moving a cut is committing, consuming or appending.

  lemma CutCommit(s: seq<byte>, g: nat, p: nat, n: nat)
    requires g <= p <= |s|
    ensures Cut(s, g, p + MinInt(n, |s| - p)) == AfterCommit(Cut(s, g, p), n)
  {
    var k := MinInt(n, |s| - p);
    assert s[g..p + k] == s[g..p] + s[p..][..k];
    assert s[p + k..] == s[p..][k..];
  }

  lemma CutConsume(s: seq<byte>, g: nat, p: nat, n: nat)
    requires g <= p <= |s|
    ensures Cut(s, g + MinInt(n, p - g), p) == AfterConsume(Cut(s, g, p), n)
  {
    var k := MinInt(n, p - g);
    assert s[..g + k] == s[..g] + s[g..p][..k];
    assert s[g + k..p] == s[g..p][k..];
  }

  lemma CutAppend(s: seq<byte>, g: nat, p: nat, c: byte)
    requires g <= p < |s|
    ensures var a := Cut(s, g, p);
            Cut(s[p := c], g, p + 1) == Areas(a.dead, a.unread + [c], a.room[1..])
  {
    var t := s[p := c];
    assert t[..g] == s[..g];
    assert t[g..p + 1] == s[g..p] + [c];
    assert t[p + 1..] == s[p..][1..];
  }

  lemma CutStore(s: seq<byte>, g: nat, p: nat, i: nat, b: byte)
    requires g <= p && p + i < |s|
    ensures var a := Cut(s, g, p);
            Cut(s[p + i := b], g, p) == a.(room := a.room[i := b])
  {
    var t := s[p + i := b];
    assert t[..g] == s[..g] && t[g..p] == s[g..p];
    assert t[p..] == s[p..][i := b];
  }

  /** What a user of the buffer can do between construction and destruction.  `Write` is the
      caller storing into the memory that `prepare` returned; `Put` and `Get` are
      `sputc` and `sbumpc` of `std::streambuf`. */
  datatype Op =
    | Prepare(n: nat)
    | Write(i: nat, b: byte)
    | Commit(n: nat)
    | Consume(n: nat)
    | Put(c: byte)
    | Get

  function Step(a: Areas, op: Op, max: nat): Outcome {
    match op
    case Prepare(n) => AfterReserve(a, n, max)
    case Write(i, b) => Done(if i < |a.room| then a.(room := a.room[i := b]) else a)
    case Commit(n) => Done(AfterCommit(a, n))
    case Consume(n) => Done(AfterConsume(a, n))
    case Put(c) => AfterPut(a, c, max)
    case Get => Done(AfterConsume(a, 1))
  }

  function Run(a: Areas, ops: seq<Op>, max: nat): Areas
    decreases |ops|
  {
    if ops == [] then a else Run(Step(a, ops[0], max).areas, ops[1..], max)
  }

  // ---------------------------------------------------------------- bounds

  /** No operation, thrown or not, leaves the array longer than `max_size`. */
  lemma StepWithin(a: Areas, op: Op, max: nat)
    requires a.Within(max)
    ensures Step(a, op, max).areas.Within(max)
    ensures op.Prepare? && Step(a, op, max).Done? ==> op.n <= |Step(a, op, max).areas.room|
  {
  }

  /** The documented invariant `size() <= max_size()`, over every run from construction. */
  lemma {:induction false} RunWithin(a: Areas, ops: seq<Op>, max: nat)
    requires a.Within(max)
    ensures Run(a, ops, max).Within(max)
    ensures |Run(a, ops, max).unread| <= max
    decreases |ops|
  {
    if ops != [] {
      StepWithin(a, ops[0], max);
      RunWithin(Step(a, ops[0], max).areas, ops[1..], max);
    }
  }

  // ---------------------------------------------------------------- throws

  /** `prepare` throws exactly when the documentation says so, and a `prepare` that does
      not throw leaves the input sequence alone. */
  lemma ReserveThrowsIff(a: Areas, n: nat, max: nat)
    requires a.Within(max)
    ensures AfterReserve(a, n, max).Threw? <==> |a.unread| + n > max
    ensures AfterReserve(a, n, max).Done? ==> AfterReserve(a, n, max).areas.unread == a.unread
  {
  }

  /** Appending a character throws exactly when the queue is full.  A full queue has nothing
      consumed in front of it, so that throw changes nothing; in every other state the
      character is appended. */
  lemma PutThrowsIffFull(a: Areas, c: byte, max: nat)
    requires a.Within(max)
    ensures AfterPut(a, c, max).Threw? <==> |a.unread| == max
    ensures AfterPut(a, c, max).Threw? ==> AfterPut(a, c, max).areas == a
    ensures AfterPut(a, c, max).Done? ==> AfterPut(a, c, max).areas.unread == a.unread + [c]
  {
  }

  /** The input sequence after a `prepare` that threw with `g` bytes consumed in front of
      the `|s|` unread ones. */
  function AfterThrow(s: seq<byte>, g: nat): seq<byte> {
    if g < |s| then s[g..] + s[|s| - g..] else s
  }

  lemma ThrowEffect(a: Areas, n: nat, max: nat)
    requires AfterReserve(a, n, max).Threw?
    ensures var b := AfterReserve(a, n, max).areas;
            && |b.dead| == |a.dead| && |b.room| == |a.room|
            && b.unread == AfterThrow(a.unread, |a.dead|)
  {
    ShiftedUnread(a);
  }

  lemma ShiftedAt(a: Areas, i: nat)
    requires i < |a.unread| + |a.dead|
    ensures Shifted(a)[i] == if i < |a.unread| then a.unread[i] else a.All()[i]
  {
  }

  lemma UnreadAt(a: Areas, i: nat)
    requires i < |a.unread|
    ensures a.All()[|a.dead| + i] == a.unread[i]
  {
  }

  lemma ThrowAt(s: seq<byte>, g: nat, i: nat)
    requires i < |s|
    ensures |AfterThrow(s, g)| == |s|
    ensures AfterThrow(s, g)[i] == if g + i < |s| then s[g + i] else s[i]
  {
  }

  /** What lies between the positions after the bytes were moved under them. */
  lemma ShiftedUnread(a: Areas)
    ensures var g, u := |a.dead|, |a.unread|;
            Shifted(a)[g..g + u] == AfterThrow(a.unread, g)
  {
    var g, u := |a.dead|, |a.unread|;
    hide Shifted, AfterThrow;
    var moved, want := Shifted(a)[g..g + u], AfterThrow(a.unread, g);
    if u == 0 {
      EmptyThrow(g);
    } else {
      ThrowAt(a.unread, g, 0);
    }
    forall i | 0 <= i < u
      ensures moved[i] == want[i]
    {
      ShiftedAt(a, g + i);
      UnreadAt(a, i);
      ThrowAt(a.unread, g, i);
    }
  }

  lemma EmptyThrow(g: nat)
    ensures AfterThrow([], g) == []
  {
  }

  /** A throwing `prepare` keeps the input sequence, whatever its bytes are, exactly when
      nothing was consumed since the last shift or at least as much was consumed as is
      left. */
  lemma ThrowKeepsContentsIff(g: nat, size: nat)
    ensures (forall s: seq<byte> :: |s| == size ==> AfterThrow(s, g) == s) <==> (g == 0 || size <= g)
  {
    if 0 < g < size {
      var s: seq<byte> := [1] + Zeros(size - 1);
      assert AfterThrow(s, g)[0] == s[g] == 0;
      assert AfterThrow(s, g) != s;
    } else {
      forall s: seq<byte> | |s| == size
        ensures AfterThrow(s, g) == s
      {
        if g == 0 { assert s[0..] + s[|s|..] == s; }
      }
    }
  }

  /** A reachable buffer whose contents a refused `prepare` changes: three bytes are
      written, one is consumed, and a request that cannot fit turns the unread "bc"
      into "cc". */
  lemma ThrowCanLoseData()
    ensures var max := 3;
            var ops := [Op.Put(97), Op.Put(98), Op.Put(99), Op.Consume(1)];
            var a := Run(Initial(max), ops, max);
            && a.unread == [98, 99]
            && AfterReserve(a, 2, max).Threw?
            && AfterReserve(a, 2, max).areas.unread == [99, 99]
  {
    var ops := [Op.Put(97), Op.Put(98), Op.Put(99), Op.Consume(1)];
    ThreePuts();
    var a := Areas([97], [98, 99], []);
    hide Step, Run;
    RunFirst(Initial(3), ops, 3);
    RunFirst(Areas([], [97], [0, 0]), ops[1..], 3);
    RunFirst(Areas([], [97, 98], [0]), ops[1..][1..], 3);
    RunFirst(Areas([], [97, 98, 99], []), ops[1..][1..][1..], 3);
    RunNone(a, ops[1..][1..][1..][1..], 3);
    ThrowEffect(a, 2, 3);
    assert AfterThrow([98, 99], 1) == [99, 99];
  }

  lemma ThreePuts()
    ensures Step(Initial(3), Op.Put(97), 3).areas == Areas([], [97], [0, 0])
    ensures Step(Areas([], [97], [0, 0]), Op.Put(98), 3).areas == Areas([], [97, 98], [0])
    ensures Step(Areas([], [97, 98], [0]), Op.Put(99), 3).areas == Areas([], [97, 98, 99], [])
    ensures Step(Areas([], [97, 98, 99], []), Op.Consume(1), 3).areas == Areas([97], [98, 99], [])
  {
    assert Initial(3).room == [0, 0, 0];
    assert [0, 0, 0][1..] == [0, 0] && [0, 0][1..] == [0] && [0][1..] == [];
    assert [97, 98, 99][..1] == [97] && [97, 98, 99][1..] == [98, 99];
  }

  lemma RunFirst(a: Areas, ops: seq<Op>, max: nat)
    requires ops != []
    ensures Run(a, ops, max) == Run(Step(a, ops[0], max).areas, ops[1..], max)
  {
  }

  lemma RunNone(a: Areas, ops: seq<Op>, max: nat)
    requires ops == []
    ensures Run(a, ops, max) == a
  {
  }

  // ---------------------------------------------------------------- the FIFO

  /** A bounded queue of bytes, with the window handed out by the last `prepare`; a cell of
      the window is `None` until the caller stores into it. */
  datatype Fifo = Fifo(items: seq<byte>, window: seq<Option<byte>>)

  predicate AllWritten(w: seq<Option<byte>>) {
    forall i :: 0 <= i < |w| ==> w[i].Some?
  }

  function Values(w: seq<Option<byte>>): (s: seq<byte>)
    requires AllWritten(w)
    ensures |s| == |w|
  {
    seq(|w|, i requires 0 <= i < |w| => w[i].value)
  }

  /** The caller's side of the contract: it stores inside the window and commits only what
      it has stored since a `prepare` with nothing in between. */
  predicate Allowed(f: Fifo, op: Op) {
    match op
    case Write(i, _) => i < |f.window|
    case Commit(n) => n <= |f.window| && AllWritten(f.window[..n])
    case _ => true
  }

  predicate Refused(f: Fifo, op: Op, max: nat) {
    match op
    case Prepare(n) => |f.items| + n > max
    case Put(_) => |f.items| >= max
    case _ => false
  }

  function FifoStep(f: Fifo, op: Op, max: nat): Fifo
    requires Allowed(f, op)
  {
    if Refused(f, op, max) then f.(window := [])
    else
      match op
      case Prepare(n) => Fifo(f.items, seq(n, _ => None))
      case Write(i, b) => f.(window := f.window[i := Some(b)])
      case Commit(n) => Fifo(f.items + Values(f.window[..n]), [])
      case Consume(n) => Fifo(f.items[MinInt(n, |f.items|)..], [])
      case Put(c) => Fifo(f.items + [c], [])
      case Get => Fifo(if f.items == [] then [] else f.items[1..], [])
  }

  /** The queue in the array is the FIFO, and the room behind it starts with the window. */
  predicate Simulates(a: Areas, f: Fifo) {
    && a.unread == f.items
    && |f.window| <= |a.room|
    && forall i :: 0 <= i < |f.window| && f.window[i].Some? ==> a.room[i] == f.window[i].value
  }

  /** A refused `prepare` met the condition of `ThrowKeepsContentsIff`. */
  predicate KeepsContents(a: Areas, op: Op, max: nat) {
    op.Prepare? && |a.unread| + op.n > max ==> a.dead == [] || |a.unread| <= |a.dead|
  }

  lemma StepSimulates(a: Areas, f: Fifo, op: Op, max: nat)
    requires a.Within(max) && Simulates(a, f) && Allowed(f, op) && KeepsContents(a, op, max)
    ensures Step(a, op, max).Threw? <==> Refused(f, op, max)
    ensures Simulates(Step(a, op, max).areas, FifoStep(f, op, max))
  {
    match op
    case Prepare(n) =>
      ReserveThrowsIff(a, n, max);
      if AfterReserve(a, n, max).Threw? {
        ThrowEffect(a, n, max);
        ThrowKeepsContentsIff(|a.dead|, |a.unread|);
      } else {
        StepWithin(a, op, max);
      }
    case Commit(n) =>
      assert a.room[..n] == Values(f.window[..n]);
    case Put(c) => PutThrowsIffFull(a, c, max);
    case _ =>
  }

  ghost predicate AllowedRun(f: Fifo, ops: seq<Op>, max: nat)
    decreases |ops|
  {
    ops == [] || (Allowed(f, ops[0]) && AllowedRun(FifoStep(f, ops[0], max), ops[1..], max))
  }

  ghost function FifoRun(f: Fifo, ops: seq<Op>, max: nat): Fifo
    requires AllowedRun(f, ops, max)
    decreases |ops|
  {
    if ops == [] then f else FifoRun(FifoStep(f, ops[0], max), ops[1..], max)
  }

  /** Every refused `prepare` of the run met the condition of `ThrowKeepsContentsIff`. */
  ghost predicate RunKeepsContents(a: Areas, ops: seq<Op>, max: nat)
    decreases |ops|
  {
    ops == [] ||
    (KeepsContents(a, ops[0], max) && RunKeepsContents(Step(a, ops[0], max).areas, ops[1..], max))
  }

  /** In every run of allowed steps the readable bytes are those of the bounded FIFO, and
      the next step throws exactly when the FIFO refuses it: shifting the array and growing
      it are not observable. */
  lemma {:induction false} RunIsFifo(a: Areas, f: Fifo, ops: seq<Op>, max: nat)
    requires a.Within(max) && Simulates(a, f)
    requires AllowedRun(f, ops, max) && RunKeepsContents(a, ops, max)
    ensures Simulates(Run(a, ops, max), FifoRun(f, ops, max))
    ensures forall op :: Step(Run(a, ops, max), op, max).Threw? <==> Refused(FifoRun(f, ops, max), op, max)
    decreases |ops|
  {
    if ops == [] {
      forall op: Op
        ensures Step(a, op, max).Threw? <==> Refused(f, op, max)
      {
        match op
        case Prepare(n) => ReserveThrowsIff(a, n, max);
        case Put(c) => PutThrowsIffFull(a, c, max);
        case _ =>
      }
    } else {
      StepSimulates(a, f, ops[0], max);
      StepWithin(a, ops[0], max);
      RunIsFifo(Step(a, ops[0], max).areas, FifoStep(f, ops[0], max), ops[1..], max);
    }
  }

  function Writes(data: seq<byte>, at: nat): seq<Op> {
    if data == [] then [] else [Op.Write(at, data[0])] + Writes(data[1..], at + 1)
  }

  lemma {:induction false} WritesThenCommit(a: Areas, data: seq<byte>, at: nat, max: nat)
    requires at + |data| <= |a.room|
    ensures Run(a, Writes(data, at) + [Op.Commit(at + |data|)], max).unread == a.unread + a.room[..at] + data
    decreases |data|
  {
    var tail := [Op.Commit(at + |data|)];
    if data == [] {
      assert Writes(data, at) + tail == tail;
      assert tail[1..] == [];
    } else {
      var b := a.(room := a.room[at := data[0]]);
      var ops := Writes(data, at) + tail;
      assert ops[1..] == Writes(data[1..], at + 1) + tail;
      WritesThenCommit(b, data[1..], at + 1, max);
      assert b.room[..at + 1] == a.room[..at] + [data[0]];
      assert [data[0]] + data[1..] == data;
    }
  }

  /** `prepare(n)`, storing `data` into the memory returned, and committing its length
      appends exactly `data`, from any state where the bound allows the request. */
  lemma FillAppends(a: Areas, n: nat, data: seq<byte>, max: nat)
    requires a.Within(max) && |a.unread| + n <= max && |data| <= n
    ensures Run(a, [Op.Prepare(n)] + (Writes(data, 0) + [Op.Commit(|data|)]), max).unread == a.unread + data
  {
    var rest := Writes(data, 0) + [Op.Commit(|data|)];
    ReserveThrowsIff(a, n, max);
    StepWithin(a, Op.Prepare(n), max);
    var b := Step(a, Op.Prepare(n), max).areas;
    assert ([Op.Prepare(n)] + rest)[1..] == rest;
    WritesThenCommit(b, data, 0, max);
    assert b.room[..0] == [];
  }
}
