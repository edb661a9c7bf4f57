/** The stream over a socket as a value: its two buffers, and the history of what went over
    the wire. */
module SocketStream {
  import opened Machine
  import opened SocketSpec
  import opened SocketConnect
  import Clock

  /** One run of the sending loop: what it was to send, how much of it went out, and whether
      it was a single character sent without a buffer. */
  datatype Attempt = Attempt(offered: seq<byte>, sent: nat, direct: bool) {
    predicate Complete() {
      sent >= |offered|
    }
  }

  /** What became of characters accepted for output. */
  datatype Fate = Delivered | LostAtConnect | LostAtClose | LostAtMove | LostAtEnd

  datatype Entry = Entry(bytes: seq<byte>, fate: Fate)

  /** Since construction: the characters accepted, and what became of those no longer pending,
      in order.  The entries from `mark` on were made since the buffers were last reset. */
  datatype Books = Books(accepted: seq<byte>, ledger: seq<Entry>, mark: nat)

  function Settled(b: Books, bytes: seq<byte>, fate: Fate): Books {
    if bytes == [] then b else b.(ledger := b.ledger + [Entry(bytes, fate)])
  }

  /** Since the buffers were last reset: all bytes on the wire, the attempts that put them
      there, the characters accepted for output, all bytes received, and the characters
      handed to the reader. */
  datatype History = History(
    wire: seq<byte>, log: seq<Attempt>, accepted: seq<byte>, received: seq<byte>, taken: seq<byte>, books: Books)

  const NO_HISTORY := History([], [], [], [], [], Books([], [], 0))

  /** A character is accepted. */
  function Noted(h: History, c: byte): History {
    h.(accepted := h.accepted + [c], books := h.books.(accepted := h.books.accepted + [c]))
  }

  /** The buffers are reset while `pending` is not flushed. */
  function Cleared(h: History, pending: seq<byte>, fate: Fate): History {
    var b := Settled(h.books, pending, fate);
    NO_HISTORY.(books := b.(mark := |b.ledger|))
  }

  /** `room` counts the free places behind the pending characters. */
  datatype Stream = Stream(
    unread: seq<byte>, pending: seq<byte>, room: nat, buffered: bool, ec: Error, expiry: int, past: History)

  const MAX_EXPIRY: int := Clock.TICK_MAX

  const INITIAL := Stream([], [], BUFFER_SIZE, true, NoError, MAX_EXPIRY, NO_HISTORY)

  /** `init_buffers`: what was pending is lost. */
  function Reset(s: Stream, fate: Fate): Stream {
    s.(unread := [], pending := [], room := if s.buffered then BUFFER_SIZE else 0,
       past := Cleared(s.past, s.pending, fate))
  }

  /** `Blocked`: the answers given do not yet end the operation. */
  datatype Ret = Returned(v: IntType) | Blocked

  datatype Result = Result(stream: Stream, ret: Ret)

  function Offered(s: Stream, c: IntType): seq<byte> {
    if s.buffered then s.pending else if c.Char? then [c.c] else []
  }

  /** After a run of the sending loop. */
  function Attempted(s: Stream, offered: seq<byte>, f: Flush): Stream
    requires f.sent <= |offered|
  {
    s.(ec := f.ec,
       past := s.past.(wire := s.past.wire + offered[..f.sent],
                       log := s.past.log + [Attempt(offered, f.sent, !s.buffered)],
                       books := if f.end.Completed? then Settled(s.past.books, offered, Delivered) else s.past.books))
  }

  /** The put area emptied, and the character that did not fit taken in. */
  function Refilled(s: Stream, c: IntType): Stream {
    var t := if s.buffered then s.(pending := [], room := BUFFER_SIZE) else s;
    if c.Eof? then t
    else
      var u := if s.buffered then t.(pending := [c.c], room := BUFFER_SIZE - 1) else t;
      u.(past := Noted(u.past, c.c))
  }

  function Overflow(s: Stream, c: IntType, rounds: seq<SendRound>): Result {
    if !s.buffered && c.Eof? then Result(s, Returned(Char(0)))
    else
      var offered := Offered(s, c);
      var f := FlushRun(offered, s.expiry, rounds, s.ec);
      var t := Attempted(s, offered, f);
      match f.end
      case Unfinished => Result(t, Blocked)
      case Failed => Result(t, Returned(Eof))
      case Completed => Result(Refilled(t, c), Returned(if c.Eof? then Char(0) else c))
  }

  /** `sputc`. */
  function Put(s: Stream, c: byte, rounds: seq<SendRound>): Result {
    if s.room > 0 then
      var t := s.(pending := s.pending + [c], room := s.room - 1);
      Result(t.(past := Noted(t.past, c)), Returned(Char(c)))
    else Overflow(s, Char(c), rounds)
  }

  function Underflow(s: Stream, rounds: seq<RecvRound>): Result {
    if s.unread != [] then Result(s, Returned(Eof))
    else
      var f := RefillRun(s.expiry, rounds, s.ec);
      var t := s.(ec := f.ec);
      match f.end
      case Unfinished => Result(t, Blocked)
      case Failed => Result(t, Returned(Eof))
      case Completed =>
        Result(t.(unread := f.data, past := t.past.(received := t.past.received + f.data)), Returned(Char(f.data[0])))
  }

  function TakeOne(s: Stream): Stream
    requires s.unread != []
  {
    s.(unread := s.unread[1..], past := s.past.(taken := s.past.taken + [s.unread[0]]))
  }

  /** `sbumpc`. */
  function Get(s: Stream, rounds: seq<RecvRound>): Result {
    if s.unread != [] then Result(TakeOne(s), Returned(Char(s.unread[0])))
    else
      var r := Underflow(s, rounds);
      if r.ret.Returned? && r.ret.v.Char? && r.stream.unread != [] then Result(TakeOne(r.stream), r.ret) else r
  }

  /** `setbuf(0, 0)`: refused while characters are pending. */
  function SetUnbuffered(s: Stream): Result {
    if s.pending != [] then Result(s, Returned(Eof))
    else Result(s.(room := 0, buffered := false), Returned(Char(0)))
  }

  /** `close`, given what closing the socket answers.  The result of flushing is not looked
      at. */
  function Close(s: Stream, rounds: seq<SendRound>, answer: Error): Result {
    var r := Overflow(s, Eof, rounds);
    if r.ret.Blocked? then r
    else if answer == NoError then Result(Reset(r.stream.(ec := NoError), LostAtClose), Returned(Char(0)))
    else Result(r.stream.(ec := answer), Returned(Eof))
  }

  /** `connect`, by endpoint or by name, given what resolving the name answers: the buffers
      are reset, whatever comes of it. */
  function Connect(s: Stream, resolved: Error, tries: seq<Try>): Result {
    var ec := ConnectError(resolved, tries, s.expiry);
    Result(Reset(s, LostAtConnect).(ec := ec), Returned(if ec == NoError then Char(0) else Eof))
  }

  /** The destructor flushes only if something is pending. */
  function Destroyed(s: Stream, rounds: seq<SendRound>): Result {
    if s.pending != [] then Overflow(s, Eof, rounds) else Result(s, Returned(Char(0)))
  }

  /** The object moved to: the put area starts behind what was pending. */
  function MovedTo(other: Stream): Stream {
    other.(pending := [], past := other.past.(books := Settled(other.past.books, other.pending, LostAtMove)))
  }

  /** A stream that is given up. */
  function Ended(s: Stream): Stream {
    s.(pending := [], past := s.past.(books := Settled(s.past.books, s.pending, LostAtEnd)))
  }

  // ------------------------------------------------------------ the wire law

  function SentBytes(log: seq<Attempt>): seq<byte> {
    if log == [] then []
    else
      var a := log[|log| - 1];
      SentBytes(log[..|log| - 1]) + a.offered[..MinInt(a.sent, |a.offered|)]
  }

  /** What the successful attempts sent. */
  function DeliveredBytes(log: seq<Attempt>): seq<byte> {
    if log == [] then []
    else
      var a := log[|log| - 1];
      DeliveredBytes(log[..|log| - 1]) + if a.Complete() then a.offered else []
  }

  ghost predicate AllComplete(log: seq<Attempt>) {
    forall i :: 0 <= i < |log| ==> log[i].Complete()
  }

  /** After a failed attempt to flush the buffer the next one starts again from its first
      byte. */
  ghost predicate Resends(log: seq<Attempt>, pending: seq<byte>) {
    && (forall i, j :: 0 <= i < j < |log| && j == i + 1 && !log[i].direct && !log[i].Complete() ==>
          !log[j].direct && log[i].offered <= log[j].offered)
    && (log != [] && !log[|log| - 1].direct && !log[|log| - 1].Complete() ==> log[|log| - 1].offered <= pending)
  }

  /** The law of the wire: it carries what each attempt sent, in order; the characters
      accepted are those delivered, then those pending; a failed flush is repeated from its
      start. */
  ghost predicate WireLaw(s: Stream) {
    && s.past.wire == SentBytes(s.past.log)
    && s.past.accepted == DeliveredBytes(s.past.log) + s.pending
    && Resends(s.past.log, s.pending)
    && (!s.buffered ==> s.pending == [] && s.room == 0)
  }

  /** The law of the reader: nothing lost, repeated or reordered. */
  ghost predicate ReadLaw(s: Stream) {
    s.past.received == s.past.taken + s.unread
  }

  ghost predicate Lawful(s: Stream) {
    WireLaw(s) && ReadLaw(s) && |s.pending| + s.room <= BUFFER_SIZE && |s.unread| <= BUFFER_SIZE - PUTBACK_MAX
  }

  lemma LogGrows(log: seq<Attempt>, a: Attempt)
    ensures SentBytes(log + [a]) == SentBytes(log) + a.offered[..MinInt(a.sent, |a.offered|)]
    ensures DeliveredBytes(log + [a]) == DeliveredBytes(log) + if a.Complete() then a.offered else []
  {
  }

  /** A failed attempt puts a strict prefix of what was to be sent on the wire, and a
      successful one all of it. */
  lemma AttemptSends(s: Stream, offered: seq<byte>, rounds: seq<SendRound>)
    requires s.past.wire == SentBytes(s.past.log)
    ensures var f := FlushRun(offered, s.expiry, rounds, s.ec);
            var t := Attempted(s, offered, f);
            && t.past.wire == SentBytes(t.past.log)
            && (f.end.Completed? ==>
                  && t.past.wire == s.past.wire + offered
                  && DeliveredBytes(t.past.log) == DeliveredBytes(s.past.log) + offered)
            && (!f.end.Completed? ==>
                  && offered != [] && f.sent < |offered| && t.past.wire == s.past.wire + offered[..f.sent]
                  && DeliveredBytes(t.past.log) == DeliveredBytes(s.past.log))
  {
    var f := FlushRun(offered, s.expiry, rounds, s.ec);
    FlushSends(offered, s.expiry, rounds, s.ec);
    hide FlushRun, SentBytes, DeliveredBytes;
    var a := Attempt(offered, f.sent, !s.buffered);
    LogGrows(s.past.log, a);
    assert offered[..f.sent] == offered[..MinInt(a.sent, |a.offered|)];
  }

  lemma AttemptResends(s: Stream, offered: seq<byte>, rounds: seq<SendRound>)
    requires Resends(s.past.log, s.pending)
    requires if s.buffered then offered == s.pending else s.pending == []
    ensures var f := FlushRun(offered, s.expiry, rounds, s.ec);
            Resends(Attempted(s, offered, f).past.log, if f.end.Completed? then [] else s.pending)
  {
    var f := FlushRun(offered, s.expiry, rounds, s.ec);
    FlushSends(offered, s.expiry, rounds, s.ec);
    hide FlushRun;
    var log := s.past.log;
    if log != [] && !log[|log| - 1].direct && !log[|log| - 1].Complete() {
      assert log[|log| - 1].offered <= s.pending;
    }
  }

  /** Flushing, with or without a character to add, keeps the law of the wire; it leaves the
      put area as it was unless everything in it was sent. */
  lemma OverflowLawful(s: Stream, c: IntType, rounds: seq<SendRound>)
    requires WireLaw(s)
    ensures var r := Overflow(s, c, rounds);
            && WireLaw(r.stream)
            && r.stream.unread == s.unread && r.stream.expiry == s.expiry && r.stream.buffered == s.buffered
            && (r.ret.Blocked? || r.ret.v.Eof? ==> r.stream.pending == s.pending && r.stream.room == s.room)
            && (r.ret.Returned? && r.ret.v.Char? && s.buffered ==>
                  r.stream.past.wire == s.past.wire + s.pending && r.stream.pending == if c.Eof? then [] else [c.c])
  {
    hide FlushRun, SentBytes, DeliveredBytes, Resends;
    if s.buffered || c.Char? {
      var offered := Offered(s, c);
      AttemptSends(s, offered, rounds);
      AttemptResends(s, offered, rounds);
      var f := FlushRun(offered, s.expiry, rounds, s.ec);
      var t := Attempted(s, offered, f);
      if f.end.Completed? {
        CompletedLawful(s, c, t);
        hide WireLaw;
      }
    }
  }

  lemma {:induction false} CompletedLawful(s: Stream, c: IntType, t: Stream)
    requires WireLaw(s) && (s.buffered || c.Char?)
    requires t == s.(ec := t.ec, past := t.past) && t.past.accepted == s.past.accepted
    requires t.past.wire == SentBytes(t.past.log) && Resends(t.past.log, [])
    requires DeliveredBytes(t.past.log) == DeliveredBytes(s.past.log) + Offered(s, c)
    ensures WireLaw(Refilled(t, c))
  {
    hide SentBytes, DeliveredBytes;
    var d := DeliveredBytes(s.past.log);
    assert d + s.pending + [] == d + s.pending;
    assert s.pending == [] ==> d + s.pending == d;
  }

  datatype Op =
    | DoPut(c: byte, sends: seq<SendRound>)
    | DoSync(sends: seq<SendRound>)
    | DoGet(recvs: seq<RecvRound>)
    | DoUnderflow(recvs: seq<RecvRound>)
    | DoSetUnbuffered
    | DoClose(sends: seq<SendRound>, answer: Error)
    | DoConnect(resolved: Error, tries: seq<Try>)
    | DoExpireAt(at: int)
    | DoExpireAfter(now: int, d: int)

  predicate Allowed(op: Op) {
    match op
    case DoGet(recvs) => Possible(recvs)
    case DoUnderflow(recvs) => Possible(recvs)
    case DoExpireAfter(now, d) => Clock.Ticks(now) && Clock.Ticks(d)
    case _ => true
  }

  function Step(s: Stream, op: Op): Result
    requires Allowed(op)
  {
    match op
    case DoPut(c, sends) => Put(s, c, sends)
    case DoSync(sends) => Overflow(s, Eof, sends)
    case DoGet(recvs) => Get(s, recvs)
    case DoUnderflow(recvs) => Underflow(s, recvs)
    case DoSetUnbuffered => SetUnbuffered(s)
    case DoClose(sends, answer) => Close(s, sends, answer)
    case DoConnect(resolved, tries) => Connect(s, resolved, tries)
    case DoExpireAt(at) => Result(s.(expiry := at), Returned(Char(0)))
    case DoExpireAfter(now, d) => Result(s.(expiry := Clock.Add(now, d)), Returned(Char(0)))
  }

  /** A character goes into the put area. */
  lemma StoreLawful(s: Stream, t: Stream, c: byte)
    requires WireLaw(s) && s.buffered && t.buffered && t.pending == s.pending + [c]
    requires t.past.wire == s.past.wire && t.past.log == s.past.log && t.past.accepted == s.past.accepted + [c]
    ensures WireLaw(t)
  {
    hide SentBytes, DeliveredBytes;
    assert DeliveredBytes(s.past.log) + (s.pending + [c]) == (DeliveredBytes(s.past.log) + s.pending) + [c];
    assert s.pending <= t.pending;
  }

  lemma PutLawful(s: Stream, c: byte, rounds: seq<SendRound>)
    requires WireLaw(s)
    ensures WireLaw(Put(s, c, rounds).stream)
  {
    assert s.room > 0 ==> s.buffered;
    hide WireLaw, Overflow;
    if s.room == 0 {
      OverflowLawful(s, Char(c), rounds);
    } else {
      StoreLawful(s, Put(s, c, rounds).stream, c);
    }
  }

  lemma UnderflowLawful(s: Stream, rounds: seq<RecvRound>)
    requires ReadLaw(s) && Possible(rounds) && |s.unread| <= BUFFER_SIZE - PUTBACK_MAX
    ensures var r := Underflow(s, rounds);
            && ReadLaw(r.stream) && |r.stream.unread| <= BUFFER_SIZE - PUTBACK_MAX
            && (r.ret.Blocked? || r.ret.v.Eof? ==> r.stream == s.(ec := r.stream.ec))
            && (r.ret.Returned? && r.ret.v.Char? ==> r.stream.unread != [] && r.ret.v == Char(r.stream.unread[0]))
  {
  }

  lemma GetLawful(s: Stream, rounds: seq<RecvRound>)
    requires ReadLaw(s) && Possible(rounds) && |s.unread| <= BUFFER_SIZE - PUTBACK_MAX
    ensures var r := Get(s, rounds);
            ReadLaw(r.stream) && |r.stream.unread| <= BUFFER_SIZE - PUTBACK_MAX
  {
  }

  lemma OverflowBounds(s: Stream, c: IntType, rounds: seq<SendRound>)
    requires |s.pending| + s.room <= BUFFER_SIZE
    ensures var t := Overflow(s, c, rounds).stream;
            && |t.pending| + t.room <= BUFFER_SIZE
            && t.past.received == s.past.received && t.past.taken == s.past.taken && t.unread == s.unread
  {
  }

  lemma ResetLawful(s: Stream, fate: Fate)
    ensures Lawful(Reset(s, fate))
  {
  }

  lemma InitialLawful()
    ensures Lawful(INITIAL)
  {
  }

  lemma SyncLawful(s: Stream, c: IntType, sends: seq<SendRound>)
    requires Lawful(s)
    ensures Lawful(Overflow(s, c, sends).stream)
  {
    hide WireLaw, Overflow;
    OverflowLawful(s, c, sends);
    OverflowBounds(s, c, sends);
  }

  lemma PutStaysLawful(s: Stream, c: byte, sends: seq<SendRound>)
    requires Lawful(s)
    ensures Lawful(Put(s, c, sends).stream)
  {
    if s.room == 0 {
      SyncLawful(s, Char(c), sends);
    } else {
      PutLawful(s, c, sends);
      hide WireLaw;
    }
  }

  lemma GetStaysLawful(s: Stream, recvs: seq<RecvRound>)
    requires Lawful(s) && Possible(recvs)
    ensures Lawful(Get(s, recvs).stream) && Lawful(Underflow(s, recvs).stream)
  {
    hide WireLaw, Get, Underflow;
    GetLawful(s, recvs);
    GetFrame(s, recvs);
    UnderflowLawful(s, recvs);
    UnderflowFrame(s, recvs);
  }

  lemma CloseStaysLawful(s: Stream, sends: seq<SendRound>, answer: Error)
    requires Lawful(s)
    ensures Lawful(Close(s, sends, answer).stream)
  {
    hide Overflow, Reset;
    SyncLawful(s, Eof, sends);
    ResetLawful(Overflow(s, Eof, sends).stream.(ec := NoError), LostAtClose);
  }

  lemma ConnectStaysLawful(s: Stream, resolved: Error, tries: seq<Try>)
    ensures Lawful(Connect(s, resolved, tries).stream)
  {
    hide Reset, ConnectError;
    ResetLawful(s, LostAtConnect);
  }

  lemma SettingsStayLawful(s: Stream, expiry: int)
    requires Lawful(s)
    ensures Lawful(SetUnbuffered(s).stream) && Lawful(s.(expiry := expiry))
  {
    hide SentBytes, DeliveredBytes, Resends;
  }

  /** Both laws hold after any step, whatever the system answered. */
  lemma StepLawful(s: Stream, op: Op)
    requires Lawful(s) && Allowed(op)
    ensures Lawful(Step(s, op).stream)
  {
    hide Lawful, Put, Overflow, Get, Underflow, SetUnbuffered, Close, Connect, Possible;
    match op
    case DoPut(c, sends) => PutStaysLawful(s, c, sends);
    case DoSync(sends) => SyncLawful(s, Eof, sends);
    case DoGet(recvs) => GetStaysLawful(s, recvs);
    case DoUnderflow(recvs) => GetStaysLawful(s, recvs);
    case DoSetUnbuffered => SettingsStayLawful(s, 0);
    case DoClose(sends, answer) => CloseStaysLawful(s, sends, answer);
    case DoConnect(resolved, tries) => ConnectStaysLawful(s, resolved, tries);
    case DoExpireAt(at) => SettingsStayLawful(s, at);
    case DoExpireAfter(now, d) => SettingsStayLawful(s, Clock.Add(now, d));
  }

  lemma UnderflowFrame(s: Stream, rounds: seq<RecvRound>)
    ensures var t := Underflow(s, rounds).stream;
            && t.pending == s.pending && t.room == s.room && t.buffered == s.buffered
            && t.past == s.past.(received := t.past.received)
    ensures WireLaw(s) ==> WireLaw(Underflow(s, rounds).stream)
  {
  }

  lemma GetFrame(s: Stream, rounds: seq<RecvRound>)
    ensures var t := Get(s, rounds).stream;
            && t.pending == s.pending && t.room == s.room && t.buffered == s.buffered
            && t.past == s.past.(received := t.past.received, taken := t.past.taken)
    ensures WireLaw(s) ==> WireLaw(Get(s, rounds).stream)
  {
  }

  /** A run stops when an operation does not come back. */
  function Run(s: Stream, ops: seq<Op>): Stream
    requires AllowedRun(ops)
    decreases |ops|
  {
    if ops == [] then s
    else
      var r := Step(s, ops[0]);
      if r.ret.Blocked? then r.stream else Run(r.stream, ops[1..])
  }

  predicate AllowedRun(ops: seq<Op>) {
    forall i :: 0 <= i < |ops| ==> Allowed(ops[i])
  }

  lemma {:induction false} RunLawful(s: Stream, ops: seq<Op>)
    requires Lawful(s) && AllowedRun(ops)
    ensures Lawful(Run(s, ops))
    decreases |ops|
  {
    if ops != [] {
      StepLawful(s, ops[0]);
      hide Lawful, Step;
      RunLawful(Step(s, ops[0]).stream, ops[1..]);
    }
  }

  lemma {:induction false} CompleteLog(log: seq<Attempt>)
    requires AllComplete(log)
    ensures SentBytes(log) == DeliveredBytes(log)
    decreases |log|
  {
    if log != [] {
      CompleteLog(log[..|log| - 1]);
      var a := log[|log| - 1];
      assert a.offered[..MinInt(a.sent, |a.offered|)] == a.offered;
    }
  }

  /** In every run from construction, as long as no flush has failed since the buffers were
      last reset, the wire followed by the pending characters is exactly what was accepted;
      and at any time what was read followed by what is left to read is exactly what was
      received. */
  lemma WireAndReader(ops: seq<Op>)
    requires AllowedRun(ops)
    ensures var s := Run(INITIAL, ops);
            && Lawful(s)
            && (AllComplete(s.past.log) ==> s.past.wire + s.pending == s.past.accepted)
            && s.past.taken + s.unread == s.past.received
  {
    InitialLawful();
    RunLawful(INITIAL, ops);
    var s := Run(INITIAL, ops);
    hide Run;
    if AllComplete(s.past.log) {
      CompleteLog(s.past.log);
    }
  }

  // ------------------------------------------------------------ where output can be lost

  /** The stream when `close` is done flushing. */
  function AtClose(s: Stream, rounds: seq<SendRound>): Stream {
    Overflow(s, Eof, rounds).stream
  }

  /** `close` reports success as soon as the socket closes, whether or not the flush before it
      worked.  What was accepted is then sure to have been delivered exactly when nothing was
      pending. */
  lemma CloseKeepsOutputIff(s: Stream)
    requires Lawful(s)
    ensures (forall rounds: seq<SendRound> :: Close(s, rounds, NoError).ret == Returned(Char(0)) ==>
               DeliveredBytes(AtClose(s, rounds).past.log) == s.past.accepted) <==> s.pending == []
  {
    hide SentBytes, DeliveredBytes;
    if s.pending == [] {
      forall rounds: seq<SendRound>
        ensures DeliveredBytes(AtClose(s, rounds).past.log) == s.past.accepted
      {
        if s.buffered { AttemptSends(s, [], rounds); }
      }
    } else {
      var refused := [SendRound(s.expiry, SendFailed(Other(0)), s.expiry, Ready)];
      assert FlushRun(s.pending, s.expiry, refused, s.ec) == Flush(0, Failed, Other(0), 1);
      AttemptSends(s, s.pending, refused);
      assert DeliveredBytes(AtClose(s, refused).past.log) == DeliveredBytes(s.past.log);
      assert Close(s, refused, NoError).ret == Returned(Char(0));
    }
  }

  /** If no flush has failed, that is to say that all of it is on the wire, each byte once. */
  lemma CloseKeepsWireIff(s: Stream)
    requires Lawful(s) && AllComplete(s.past.log)
    ensures (forall rounds: seq<SendRound> :: Close(s, rounds, NoError).ret == Returned(Char(0)) ==>
               AtClose(s, rounds).past.wire == s.past.accepted) <==> s.pending == []
  {
    CompleteLog(s.past.log);
    assert s.past.accepted == s.past.wire + s.pending;
    if s.pending == [] {
      forall rounds: seq<SendRound>
        ensures AtClose(s, rounds).past.wire == s.past.accepted
      {
        if s.buffered { AttemptSends(s, [], rounds); }
      }
    } else {
      var refused := [SendRound(s.expiry, SendFailed(Other(0)), s.expiry, Ready)];
      assert FlushRun(s.pending, s.expiry, refused, s.ec) == Flush(0, Failed, Other(0), 1);
      assert AtClose(s, refused).past.wire == s.past.wire;
      assert Close(s, refused, NoError).ret == Returned(Char(0));
    }
  }

  /** One character is written, its flush refused, and `close` reports success. */
  lemma CloseCanLoseOutput()
    ensures var s := Run(INITIAL, [DoPut(97, [])]);
            var refused := [SendRound(0, SendFailed(Other(0)), 0, Ready)];
            && s.past.accepted == [97] && Close(s, refused, NoError).ret == Returned(Char(0))
            && AtClose(s, refused).past.wire == []
  {
  }

  /** Moving a stream to another object keeps the law of the wire exactly when nothing was
      pending: the put area of the new object starts behind the pending characters. */
  lemma MoveKeepsOutputIff(s: Stream)
    requires WireLaw(s)
    ensures WireLaw(MovedTo(s)) <==> s.pending == []
  {
  }

  /** One character is written and the stream moved: the character is neither delivered nor
      pending any more. */
  lemma MoveCanLoseOutput()
    ensures var s := Run(INITIAL, [DoPut(97, [])]);
            && Lawful(s) && !WireLaw(MovedTo(s))
            && MovedTo(s).past.accepted == [97] && MovedTo(s).past.wire + MovedTo(s).pending == []
  {
  }

  // ------------------------------------------------------------ every character accounted for

  function Flat(ledger: seq<Entry>): seq<byte> {
    if ledger == [] then [] else Flat(ledger[..|ledger| - 1]) + ledger[|ledger| - 1].bytes
  }

  function DeliveredOf(ledger: seq<Entry>): seq<byte> {
    if ledger == [] then []
    else
      var e := ledger[|ledger| - 1];
      DeliveredOf(ledger[..|ledger| - 1]) + if e.fate == Delivered then e.bytes else []
  }

  /** The books balance: in order, the characters accepted are those delivered or lost, entry
      by entry, and then those pending; and what the books call delivered since the last
      reset is what successful flushes sent. */
  ghost predicate BooksBalance(s: Stream) {
    var b := s.past.books;
    && b.mark <= |b.ledger|
    && b.accepted == Flat(b.ledger) + s.pending
    && s.past.accepted == Flat(b.ledger[b.mark..]) + s.pending
    && DeliveredOf(b.ledger[b.mark..]) == DeliveredBytes(s.past.log)
  }

  ghost predicate Accounted(s: Stream) {
    && s.past.wire == SentBytes(s.past.log)
    && BooksBalance(s)
    && (!s.buffered ==> s.pending == [] && s.room == 0)
  }

  lemma LedgerGrows(ledger: seq<Entry>, e: Entry)
    ensures Flat(ledger + [e]) == Flat(ledger) + e.bytes
    ensures DeliveredOf(ledger + [e]) == DeliveredOf(ledger) + if e.fate == Delivered then e.bytes else []
  {
    assert (ledger + [e])[..|ledger|] == ledger;
  }

  lemma SettledBalance(b: Books, bytes: seq<byte>, fate: Fate)
    requires b.mark <= |b.ledger|
    ensures var b' := Settled(b, bytes, fate);
            && b'.mark == b.mark <= |b'.ledger|
            && Flat(b'.ledger) == Flat(b.ledger) + bytes
            && Flat(b'.ledger[b.mark..]) == Flat(b.ledger[b.mark..]) + bytes
            && DeliveredOf(b'.ledger[b.mark..]) ==
               DeliveredOf(b.ledger[b.mark..]) + if fate == Delivered then bytes else []
  {
    hide Flat, DeliveredOf;
    if bytes == [] {
      assert forall x: seq<byte> :: x + [] == x;
    } else {
      var e := Entry(bytes, fate);
      LedgerGrows(b.ledger, e);
      LedgerGrows(b.ledger[b.mark..], e);
      assert (b.ledger + [e])[b.mark..] == b.ledger[b.mark..] + [e];
    }
  }

  lemma ResetAccounted(s: Stream, fate: Fate)
    requires BooksBalance(s)
    ensures Accounted(Reset(s, fate))
  {
    SettledBalance(s.past.books, s.pending, fate);
    var b := Reset(s, fate).past.books;
    assert b.ledger[b.mark..] == [];
  }

  /** Giving up what is pending, in a move or at the end. */
  lemma DroppedAccounted(s: Stream, fate: Fate)
    requires Accounted(s) && fate != Delivered
    ensures Accounted(s.(pending := [], past := s.past.(books := Settled(s.past.books, s.pending, fate))))
  {
    hide Flat, DeliveredOf, SentBytes, DeliveredBytes;
    SettledBalance(s.past.books, s.pending, fate);
  }

  lemma NotedAccounted(s: Stream, c: byte)
    requires Accounted(s) && s.buffered
    ensures Accounted(s.(pending := s.pending + [c], room := if s.room > 0 then s.room - 1 else 0,
                         past := Noted(s.past, c)))
  {
    hide Flat, DeliveredOf, SentBytes, DeliveredBytes;
    var b := s.past.books;
    assert Flat(b.ledger) + (s.pending + [c]) == (Flat(b.ledger) + s.pending) + [c];
    assert Flat(b.ledger[b.mark..]) + (s.pending + [c]) == (Flat(b.ledger[b.mark..]) + s.pending) + [c];
  }

  /** The end of a successful flush. */
  lemma RefilledAccounted(s: Stream, c: IntType, t: Stream)
    requires Accounted(s) && (s.buffered || c.Char?)
    requires t == s.(ec := t.ec, past := t.past)
    requires t.past.wire == SentBytes(t.past.log) && t.past.accepted == s.past.accepted
    requires t.past.books == Settled(s.past.books, Offered(s, c), Delivered)
    requires DeliveredBytes(t.past.log) == DeliveredBytes(s.past.log) + Offered(s, c)
    ensures Accounted(Refilled(t, c))
  {
    hide Flat, DeliveredOf, SentBytes, DeliveredBytes;
    SettledBalance(s.past.books, Offered(s, c), Delivered);
  }

  lemma OverflowAccounted(s: Stream, c: IntType, rounds: seq<SendRound>)
    requires Accounted(s)
    ensures Accounted(Overflow(s, c, rounds).stream)
  {
    hide FlushRun, Flat, DeliveredOf, SentBytes, DeliveredBytes;
    if s.buffered || c.Char? {
      var offered := Offered(s, c);
      AttemptSends(s, offered, rounds);
      var f := FlushRun(offered, s.expiry, rounds, s.ec);
      if f.end.Completed? {
        RefilledAccounted(s, c, Attempted(s, offered, f));
      }
    }
  }

  lemma PutAccounted(s: Stream, c: byte, rounds: seq<SendRound>)
    requires Accounted(s)
    ensures Accounted(Put(s, c, rounds).stream)
  {
    assert s.room > 0 ==> s.buffered;
    hide Accounted, Overflow;
    if s.room > 0 {
      NotedAccounted(s, c);
    } else {
      OverflowAccounted(s, Char(c), rounds);
    }
  }

  lemma ReadAccounted(s: Stream, t: Stream)
    requires Accounted(s) && t.pending == s.pending && t.room == s.room && t.buffered == s.buffered
    requires t.past == s.past.(received := t.past.received, taken := t.past.taken)
    ensures Accounted(t)
  {
  }

  lemma CloseAccounted(s: Stream, sends: seq<SendRound>, answer: Error)
    requires Accounted(s)
    ensures Accounted(Close(s, sends, answer).stream)
  {
    hide Overflow, Reset;
    OverflowAccounted(s, Eof, sends);
    ResetAccounted(Overflow(s, Eof, sends).stream.(ec := NoError), LostAtClose);
  }

  lemma ReadsAccounted(s: Stream, recvs: seq<RecvRound>)
    requires Accounted(s)
    ensures Accounted(Get(s, recvs).stream) && Accounted(Underflow(s, recvs).stream)
  {
    hide Accounted, Get, Underflow;
    GetFrame(s, recvs);
    ReadAccounted(s, Get(s, recvs).stream);
    UnderflowFrame(s, recvs);
    ReadAccounted(s, Underflow(s, recvs).stream);
  }

  lemma ConnectAccounted(s: Stream, resolved: Error, tries: seq<Try>)
    requires Accounted(s)
    ensures Accounted(Connect(s, resolved, tries).stream)
  {
    hide Reset, ConnectError, Flat, DeliveredOf, SentBytes, DeliveredBytes;
    ResetAccounted(s, LostAtConnect);
  }

  lemma SettingsAccounted(s: Stream, expiry: int)
    requires Accounted(s)
    ensures Accounted(SetUnbuffered(s).stream) && Accounted(s.(expiry := expiry))
  {
    hide Flat, DeliveredOf, SentBytes, DeliveredBytes;
  }

  lemma StepAccounted(s: Stream, op: Op)
    requires Accounted(s) && Allowed(op)
    ensures Accounted(Step(s, op).stream)
  {
    hide Accounted, Put, Overflow, Get, Underflow, SetUnbuffered, Close, Connect, Possible;
    match op
    case DoPut(c, sends) => PutAccounted(s, c, sends);
    case DoSync(sends) => OverflowAccounted(s, Eof, sends);
    case DoGet(recvs) => ReadsAccounted(s, recvs);
    case DoUnderflow(recvs) => ReadsAccounted(s, recvs);
    case DoSetUnbuffered => SettingsAccounted(s, 0);
    case DoClose(sends, answer) => CloseAccounted(s, sends, answer);
    case DoConnect(resolved, tries) => ConnectAccounted(s, resolved, tries);
    case DoExpireAt(at) => SettingsAccounted(s, at);
    case DoExpireAfter(now, d) => SettingsAccounted(s, Clock.Add(now, d));
  }

  predicate Lossless(ledger: seq<Entry>) {
    forall i :: 0 <= i < |ledger| ==> ledger[i].fate == Delivered
  }

  lemma {:induction false} LosslessDelivers(ledger: seq<Entry>)
    requires Lossless(ledger)
    ensures DeliveredOf(ledger) == Flat(ledger)
    decreases |ledger|
  {
    if ledger != [] { LosslessDelivers(ledger[..|ledger| - 1]); }
  }

  /** `connect` drops what is pending, on success and on failure, and enters the loss exactly
      when there is something to lose. */
  lemma ConnectKeepsOutputIff(s: Stream, resolved: Error, tries: seq<Try>)
    ensures Connect(s, resolved, tries).stream.past.books.ledger ==
            s.past.books.ledger + if s.pending == [] then [] else [Entry(s.pending, LostAtConnect)]
  {
  }

  /** One character is written, and the stream connected again. */
  lemma ConnectCanLoseOutput(resolved: Error, tries: seq<Try>)
    ensures var s := Run(INITIAL, [DoPut(97, []), DoConnect(resolved, tries)]);
            s.past.books == Books([97], [Entry([97], LostAtConnect)], 1) && s.pending == []
  {
    var ops := [DoPut(97, []), DoConnect(resolved, tries)];
    var s := Step(INITIAL, ops[0]).stream;
    assert s.pending == [97] && s.past.books == Books([97], [], 0);
    hide ConnectError;
    assert ops[1..][0] == DoConnect(resolved, tries) && ops[1..][1..] == [];
    assert Run(INITIAL, ops) == Run(s, ops[1..]) == Connect(s, resolved, tries).stream;
  }

  // ------------------------------------------------------------ any number of objects

  /** What every object keeps, however connections are moved about. */
  ghost predicate Sound(s: Stream) {
    Accounted(s) && ReadLaw(s) && |s.unread| <= BUFFER_SIZE - PUTBACK_MAX
  }

  datatype PoolOp =
    | Construct(at: nat)
    | MoveConstruct(at: nat, from: nat)
    | MoveAssign(to: nat, from: nat, sends: seq<SendRound>, answer: Error)
    | Use(at: nat, op: Op)
    | Destroy(at: nat, sends: seq<SendRound>)

  /** The streams of the objects there are, and those given up when their object was assigned
      to or destroyed. */
  datatype Objects = Objects(live: map<nat, Stream>, gone: seq<Stream>)

  const NO_OBJECTS := Objects(map[], [])

  predicate PoolAllowed(p: Objects, op: PoolOp) {
    match op
    case Construct(at) => at !in p.live
    case MoveConstruct(at, from) => at !in p.live && from in p.live
    case MoveAssign(to, from, _, _) => to in p.live && from in p.live
    case Use(at, use) => at in p.live && Allowed(use)
    case Destroy(at, _) => at in p.live
  }

  datatype PoolResult = PoolResult(objects: Objects, ret: Ret)

  /** Move assignment closes the target first; if that does not come back, nothing has been
      moved. */
  function PoolStep(p: Objects, op: PoolOp): PoolResult
    requires PoolAllowed(p, op)
  {
    match op
    case Construct(at) => PoolResult(p.(live := p.live[at := INITIAL]), Returned(Char(0)))
    case MoveConstruct(at, from) =>
      PoolResult(p.(live := p.live[at := MovedTo(p.live[from])][from := INITIAL]), Returned(Char(0)))
    case MoveAssign(to, from, sends, answer) =>
      var r := Close(p.live[to], sends, answer);
      if r.ret.Blocked? then PoolResult(p.(live := p.live[to := r.stream]), r.ret)
      else
        PoolResult(Objects(p.live[to := MovedTo(p.live[from])][from := INITIAL], p.gone + [Ended(r.stream)]), r.ret)
    case Use(at, use) =>
      var r := Step(p.live[at], use);
      PoolResult(p.(live := p.live[at := r.stream]), r.ret)
    case Destroy(at, sends) =>
      var r := Destroyed(p.live[at], sends);
      if r.ret.Blocked? then PoolResult(p.(live := p.live[at := r.stream]), r.ret)
      else PoolResult(Objects(p.live - {at}, p.gone + [Ended(r.stream)]), r.ret)
  }

  predicate PoolAllowedRun(p: Objects, ops: seq<PoolOp>)
    decreases |ops|
  {
    ops == [] ||
    (PoolAllowed(p, ops[0]) &&
     (PoolStep(p, ops[0]).ret.Blocked? || PoolAllowedRun(PoolStep(p, ops[0]).objects, ops[1..])))
  }

  function PoolRun(p: Objects, ops: seq<PoolOp>): Objects
    requires PoolAllowedRun(p, ops)
    decreases |ops|
  {
    if ops == [] then p
    else
      var r := PoolStep(p, ops[0]);
      if r.ret.Blocked? then r.objects else PoolRun(r.objects, ops[1..])
  }

  lemma StepSound(s: Stream, op: Op)
    requires Sound(s) && Allowed(op)
    ensures Sound(Step(s, op).stream)
  {
    hide Accounted;
    StepAccounted(s, op);
    match op
    case DoPut(c, sends) =>
      hide Overflow;
      OverflowReads(s, Char(c), sends);
    case DoSync(sends) =>
      hide Overflow;
      OverflowReads(s, Eof, sends);
    case DoGet(recvs) =>
      hide Get;
      GetLawful(s, recvs);
    case DoUnderflow(recvs) =>
      hide Underflow;
      UnderflowLawful(s, recvs);
    case DoSetUnbuffered =>
    case DoClose(sends, answer) =>
      hide Overflow;
      OverflowReads(s, Eof, sends);
    case DoConnect(resolved, tries) =>
    case DoExpireAt(at) =>
    case DoExpireAfter(now, d) =>
  }

  lemma OverflowReads(s: Stream, c: IntType, rounds: seq<SendRound>)
    ensures var t := Overflow(s, c, rounds).stream;
            t.past.received == s.past.received && t.past.taken == s.past.taken && t.unread == s.unread
  {
    hide FlushRun;
  }

  /** Over every run of one stream, through any number of connections: what was accepted is
      what was delivered, lost at a `connect` or a `close`, or is pending; and without a loss
      it is what was delivered and then what is pending. */
  lemma {:induction false} RunSound(s: Stream, ops: seq<Op>)
    requires Sound(s) && AllowedRun(ops)
    ensures Sound(Run(s, ops))
    ensures var t := Run(s, ops);
            Lossless(t.past.books.ledger) ==> t.past.books.accepted == DeliveredOf(t.past.books.ledger) + t.pending
    decreases |ops|
  {
    if ops != [] {
      hide Sound, Step;
      StepSound(s, ops[0]);
      if !Step(s, ops[0]).ret.Blocked? {
        RunSound(Step(s, ops[0]).stream, ops[1..]);
      } else {
        LosslessBalance(Step(s, ops[0]).stream);
      }
    } else {
      LosslessBalance(s);
    }
  }

  lemma LosslessBalance(s: Stream)
    requires Sound(s)
    ensures Lossless(s.past.books.ledger) ==> s.past.books.accepted == DeliveredOf(s.past.books.ledger) + s.pending
  {
    if Lossless(s.past.books.ledger) {
      LosslessDelivers(s.past.books.ledger);
    }
  }

  lemma MoveSound(s: Stream)
    requires Sound(s)
    ensures Sound(MovedTo(s)) && Sound(Ended(s))
  {
    hide Accounted;
    DroppedAccounted(s, LostAtMove);
    DroppedAccounted(s, LostAtEnd);
  }

  lemma InitialSound()
    ensures Sound(INITIAL)
  {
  }

  lemma CloseSound(s: Stream, sends: seq<SendRound>, answer: Error)
    requires Sound(s)
    ensures Sound(Close(s, sends, answer).stream) && Sound(Destroyed(s, sends).stream)
  {
    hide Sound, Close, Overflow, Step;
    StepIsClose(s, sends, answer);
    StepSound(s, DoClose(sends, answer));
    StepSound(s, DoSync(sends));
  }

  /** Every stream balances, and one that was given up has nothing pending. */
  ghost predicate PoolSound(p: Objects) {
    && (forall a :: a in p.live ==> Sound(p.live[a]))
    && (forall i :: 0 <= i < |p.gone| ==> Sound(p.gone[i]) && p.gone[i].pending == [])
  }

  lemma PoolStepSound(p: Objects, op: PoolOp)
    requires PoolSound(p) && PoolAllowed(p, op)
    ensures PoolSound(PoolStep(p, op).objects)
  {
    hide Sound, MovedTo, Step, Close, Destroyed;
    InitialSound();
    match op
    case Construct(at) =>
    case MoveConstruct(at, from) => MoveSound(p.live[from]);
    case MoveAssign(to, from, sends, answer) =>
      CloseSound(p.live[to], sends, answer);
      MoveSound(p.live[from]);
      MoveSound(Close(p.live[to], sends, answer).stream);
    case Use(at, use) => StepSound(p.live[at], use);
    case Destroy(at, sends) =>
      CloseSound(p.live[at], sends, NoError);
      MoveSound(Destroyed(p.live[at], sends).stream);
  }

  /** Over every run of constructing, connecting, using, moving, closing and destroying any
      number of objects, whatever the system answers: every character any of them accepted
      was delivered, is pending, or is in an entry that says where it was lost; and no reader
      misses anything. */
  lemma {:induction false} PoolRunSound(p: Objects, ops: seq<PoolOp>)
    requires PoolSound(p) && PoolAllowedRun(p, ops)
    ensures PoolSound(PoolRun(p, ops))
    decreases |ops|
  {
    if ops != [] {
      hide PoolSound, PoolStep, PoolAllowed;
      PoolStepSound(p, ops[0]);
      if !PoolStep(p, ops[0]).ret.Blocked? {
        PoolRunSound(PoolStep(p, ops[0]).objects, ops[1..]);
      }
    }
  }

  /** A stream with output pending is moved to another object. */
  predicate LosesOutput(p: Objects, op: PoolOp)
    requires PoolAllowed(p, op)
  {
    match op
    case MoveConstruct(_, from) => p.live[from].pending != []
    case MoveAssign(to, from, sends, answer) =>
      to != from && p.live[from].pending != [] && Close(p.live[to], sends, answer).ret.Returned?
    case _ => false
  }

  ghost predicate AllLawful(live: map<nat, Stream>) {
    forall a :: a in live ==> Lawful(live[a])
  }

  lemma QuietMoveLawful(s: Stream)
    requires Lawful(s)
    ensures Lawful(MovedTo(s)) <==> s.pending == []
  {
    hide SentBytes, DeliveredBytes, Resends;
    if s.pending != [] {
      MoveKeepsOutputIff(s);
    }
  }

  lemma MoveLawfulIff(live: map<nat, Stream>, to: nat, from: nat)
    requires AllLawful(live) && from in live && to != from
    ensures AllLawful(live[to := MovedTo(live[from])][from := INITIAL]) <==> live[from].pending == []
  {
    hide Lawful, MovedTo;
    InitialLawful();
    QuietMoveLawful(live[from]);
    var q := live[to := MovedTo(live[from])][from := INITIAL];
    assert q[to] == MovedTo(live[from]);
  }

  /** Among lawful objects, a step leaves every object lawful exactly when it does not move a
      stream that has output pending. */
  lemma PoolStepLawfulIff(p: Objects, op: PoolOp)
    requires AllLawful(p.live) && PoolAllowed(p, op)
    ensures AllLawful(PoolStep(p, op).objects.live) <==> !LosesOutput(p, op)
  {
    hide Lawful, Close, Step, Overflow, MovedTo;
    InitialLawful();
    match op
    case Construct(at) =>
    case MoveConstruct(at, from) => MoveLawfulIff(p.live, at, from);
    case MoveAssign(to, from, sends, answer) =>
      StepIsClose(p.live[to], sends, answer);
      StepLawful(p.live[to], DoClose(sends, answer));
      if to != from { MoveLawfulIff(p.live, to, from); }
    case Use(at, use) => StepLawful(p.live[at], use);
    case Destroy(at, sends) =>
      StepIsClose(p.live[at], sends, NoError);
      StepLawful(p.live[at], DoSync(sends));
  }

  lemma StepIsClose(s: Stream, sends: seq<SendRound>, answer: Error)
    ensures Step(s, DoClose(sends, answer)) == Close(s, sends, answer)
    ensures Step(s, DoSync(sends)) == Overflow(s, Eof, sends)
  {
    hide Close, Overflow;
  }

  predicate KeepsOutput(p: Objects, ops: seq<PoolOp>)
    requires PoolAllowedRun(p, ops)
    decreases |ops|
  {
    ops == [] ||
    (!LosesOutput(p, ops[0]) &&
     (PoolStep(p, ops[0]).ret.Blocked? || KeepsOutput(PoolStep(p, ops[0]).objects, ops[1..])))
  }

  /** If that is never done, every object keeps both laws in full. */
  lemma {:induction false} PoolRunLawful(p: Objects, ops: seq<PoolOp>)
    requires AllLawful(p.live) && PoolAllowedRun(p, ops) && KeepsOutput(p, ops)
    ensures AllLawful(PoolRun(p, ops).live)
    decreases |ops|
  {
    if ops != [] {
      hide AllLawful, PoolStep, PoolAllowed, LosesOutput;
      PoolStepLawfulIff(p, ops[0]);
      if !PoolStep(p, ops[0]).ret.Blocked? {
        PoolRunLawful(PoolStep(p, ops[0]).objects, ops[1..]);
      }
    }
  }
}
