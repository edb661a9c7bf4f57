/** What a stream over a non-blocking socket does, for every way the system can answer. */
module SocketSpec {
  import opened Machine
  import Clock

  datatype Error = NoError | TimedOut | EndOfFile | NotFound | WouldBlock | TryAgain | InProgress | Other(code: nat)

  /** What `poll_read`, `poll_write` and `poll_connect` answer: the socket is ready, the time
      ran out, which is zero without an error, or a failure. */
  datatype Poll = Ready | Elapsed | PollFailed(e: Error)

  predicate Retry(e: Error) {
    e == WouldBlock || e == TryAgain
  }

  // ------------------------------------------------------------ sending

  datatype Send = Sent(n: nat) | SendFailed(e: Error)

  /** The answers to one round of the sending loop: the clock, `send`, and, if it comes to
      that, the clock again for `timeout` and `poll_write`.  A sequence of rounds is a prefix of
      what the system answers. */
  datatype SendRound = SendRound(now: int, send: Send, again: int, poll: Poll)

  datatype End = Completed | Failed | Unfinished

  /** How far a sending loop came: bytes sent, rounds used, and the error left behind. */
  datatype Flush = Flush(sent: nat, end: End, ec: Error, used: nat)

  function FlushRun(left: seq<byte>, expiry: int, rounds: seq<SendRound>, ec: Error): (f: Flush)
    ensures f.sent <= |left| && f.used <= |rounds|
    decreases |rounds|
  {
    if left == [] then Flush(0, Completed, ec, 0)
    else if rounds == [] then Flush(0, Unfinished, ec, 0)
    else
      var r, rest := rounds[0], rounds[1..];
      if expiry < r.now then Flush(0, Failed, TimedOut, 1)
      else
        match r.send
        case Sent(n) =>
          if n == 0 then Flush(0, Failed, NoError, 1)
          else
            var k := MinInt(n, |left|);
            var f := FlushRun(left[k..], expiry, rest, NoError);
            f.(sent := k + f.sent, used := 1 + f.used)
        case SendFailed(e) =>
          if !Retry(e) then Flush(0, Failed, e, 1)
          else if r.poll.PollFailed? then Flush(0, Failed, r.poll.e, 1)
          else
            var f := FlushRun(left, expiry, rest, NoError);
            f.(used := 1 + f.used)
  }

  /** One round of the loop, by its index. */
  lemma FlushStep(left: seq<byte>, expiry: int, rounds: seq<SendRound>, k: nat, ec: Error)
    requires left != [] && k <= |rounds|
    ensures k == |rounds| ==> FlushRun(left, expiry, rounds[k..], ec) == Flush(0, Unfinished, ec, 0)
    ensures k < |rounds| ==>
              var r, f := rounds[k], FlushRun(left, expiry, rounds[k..], ec);
              if expiry < r.now then f == Flush(0, Failed, TimedOut, 1)
              else if r.send == Sent(0) then f == Flush(0, Failed, NoError, 1)
              else if r.send.Sent? then
                var n := MinInt(r.send.n, |left|);
                var g := FlushRun(left[n..], expiry, rounds[k + 1..], NoError);
                f == g.(sent := n + g.sent, used := 1 + g.used)
              else if !Retry(r.send.e) then f == Flush(0, Failed, r.send.e, 1)
              else if r.poll.PollFailed? then f == Flush(0, Failed, r.poll.e, 1)
              else
                var g := FlushRun(left, expiry, rounds[k + 1..], NoError);
                f == g.(used := 1 + g.used)
  {
  }

  lemma FlushDone(expiry: int, rounds: seq<SendRound>, ec: Error)
    ensures FlushRun([], expiry, rounds, ec) == Flush(0, Completed, ec, 0)
  {
  }

  /** The run that has sent `done` bytes in `k` rounds, and goes on from there. */
  function FlushFrom(output: seq<byte>, done: nat, expiry: int, rounds: seq<SendRound>, k: nat, ec: Error): Flush
    requires done <= |output| && k <= |rounds|
  {
    var g := FlushRun(output[done..], expiry, rounds[k..], ec);
    g.(sent := done + g.sent, used := k + g.used)
  }

  lemma FlushFromEnds(output: seq<byte>, expiry: int, rounds: seq<SendRound>, k: nat, ec: Error)
    requires k <= |rounds|
    ensures FlushFrom(output, 0, expiry, rounds, 0, ec) == FlushRun(output, expiry, rounds, ec)
    ensures FlushFrom(output, |output|, expiry, rounds, k, ec) == Flush(|output|, Completed, ec, k)
  {
    hide FlushRun;
    assert output[0..] == output && rounds[0..] == rounds && output[|output|..] == [];
    FlushDone(expiry, rounds[k..], ec);
  }

  lemma {:induction false} FlushFromStep(
    output: seq<byte>, done: nat, expiry: int, rounds: seq<SendRound>, k: nat, ec: Error)
    requires done < |output| && k <= |rounds|
    ensures var f := FlushFrom(output, done, expiry, rounds, k, ec);
            if k == |rounds| then f == Flush(done, Unfinished, ec, k)
            else
              var r := rounds[k];
              if expiry < r.now then f == Flush(done, Failed, TimedOut, k + 1)
              else if r.send == Sent(0) then f == Flush(done, Failed, NoError, k + 1)
              else if r.send.Sent? then
                f == FlushFrom(output, done + MinInt(r.send.n, |output| - done), expiry, rounds, k + 1, NoError)
              else if !Retry(r.send.e) then f == Flush(done, Failed, r.send.e, k + 1)
              else if r.poll.PollFailed? then f == Flush(done, Failed, r.poll.e, k + 1)
              else f == FlushFrom(output, done, expiry, rounds, k + 1, NoError)
  {
    hide FlushRun;
    var left := output[done..];
    FlushStep(left, expiry, rounds, k, ec);
    if k < |rounds| && rounds[k].send.Sent? {
      var n := MinInt(rounds[k].send.n, |left|);
      assert left[n..] == output[done + n..];
    }
  }

  /** A flush that succeeds sends everything; one that fails sends a strict prefix. */
  lemma {:induction false} FlushSends(left: seq<byte>, expiry: int, rounds: seq<SendRound>, ec: Error)
    ensures var f := FlushRun(left, expiry, rounds, ec);
            && (f.end.Completed? <==> f.sent == |left|)
            && (f.end.Unfinished? ==> f.used == |rounds|)
    decreases |rounds|
  {
    if left != [] && rounds != [] {
      var r, rest := rounds[0], rounds[1..];
      match r.send
      case Sent(n) => FlushSends(left[MinInt(n, |left|)..], expiry, rest, NoError);
      case SendFailed(e) => FlushSends(left, expiry, rest, NoError);
    }
  }

  /** The round moves the loop on: something was sent, or the socket was busy and polling it
      did not fail. */
  predicate SendGoesOn(r: SendRound, expiry: int) {
    && r.now <= expiry
    && if r.send.Sent? then r.send.n > 0
       else (r.send.e == WouldBlock || r.send.e == TryAgain) && !r.poll.PollFailed?
  }

  /** The round ends the loop with the error `e`: too late, nothing sent, an error that is not
      a busy socket, or a poll that failed. */
  predicate SendFails(r: SendRound, expiry: int, e: Error) {
    || (expiry < r.now && e == TimedOut)
    || (r.now <= expiry && r.send == Sent(0) && e == NoError)
    || (r.now <= expiry && r.send == SendFailed(e) && e != WouldBlock && e != TryAgain)
    || (r.now <= expiry && r.send in [SendFailed(WouldBlock), SendFailed(TryAgain)] && r.poll == PollFailed(e))
  }

  /** How many bytes the first `k` rounds say were sent. */
  function Total(rounds: seq<SendRound>, k: nat): nat
    requires k <= |rounds|
  {
    if k == 0 then 0 else (if rounds[0].send.Sent? then rounds[0].send.n else 0) + Total(rounds[1..], k - 1)
  }

  /** The rounds a failed run went through, without the one it failed in. */
  function Passed(f: Flush): int {
    if f.end.Failed? then f.used - 1 else f.used
  }

  /** What a run of the sending loop is, round by round. */
  ghost predicate FlushEnds(left: seq<byte>, expiry: int, rounds: seq<SendRound>, ec: Error, f: Flush) {
    var n := Passed(f);
    && 0 <= n && f.used <= |rounds|
    && (forall i :: 0 <= i < n ==> SendGoesOn(rounds[i], expiry))
    && (forall i :: 0 <= i < f.used ==> Total(rounds, i) < |left|)
    && f.sent == MinInt(|left|, Total(rounds, n))
    && match f.end
       case Failed => SendFails(rounds[n], expiry, f.ec)
       case Completed => |left| <= Total(rounds, n) && f.ec == if n == 0 then ec else NoError
       case Unfinished => f.used == |rounds| && Total(rounds, n) < |left| && f.ec == if n == 0 then ec else NoError
  }

  /** What is left to send after a round that moves the loop on. */
  function LeftAfter(left: seq<byte>, r: SendRound): seq<byte> {
    if r.send.Sent? then left[MinInt(r.send.n, |left|)..] else left
  }

  lemma {:induction false} FlushGoesOn(left: seq<byte>, expiry: int, rounds: seq<SendRound>, ec: Error)
    requires left != [] && rounds != [] && SendGoesOn(rounds[0], expiry)
    ensures var left' := LeftAfter(left, rounds[0]);
            var g := FlushRun(left', expiry, rounds[1..], NoError);
            FlushRun(left, expiry, rounds, ec) == g.(sent := |left| - |left'| + g.sent, used := 1 + g.used)
  {
  }

  lemma {:induction false} FlushStops(left: seq<byte>, expiry: int, rounds: seq<SendRound>, ec: Error)
    requires left == [] || rounds == [] || !SendGoesOn(rounds[0], expiry)
    ensures FlushEnds(left, expiry, rounds, ec, FlushRun(left, expiry, rounds, ec))
  {
  }

  lemma {:induction false} FlushRunEnds(left: seq<byte>, expiry: int, rounds: seq<SendRound>, ec: Error)
    ensures FlushEnds(left, expiry, rounds, ec, FlushRun(left, expiry, rounds, ec))
    decreases |rounds|
  {
    hide FlushEnds, FlushRun, SendGoesOn, LeftAfter;
    if left == [] || rounds == [] || !SendGoesOn(rounds[0], expiry) {
      FlushStops(left, expiry, rounds, ec);
    } else {
      var left' := LeftAfter(left, rounds[0]);
      FlushRunEnds(left', expiry, rounds[1..], NoError);
      FlushGoesOn(left, expiry, rounds, ec);
      FlushEndsLater(left, expiry, rounds, ec, FlushRun(left', expiry, rounds[1..], NoError));
    }
  }

  /** A round that moves the loop on, in front of a run. */
  lemma {:induction false} FlushEndsLater(
    left: seq<byte>, expiry: int, rounds: seq<SendRound>, ec: Error, g: Flush)
    requires left != [] && rounds != [] && SendGoesOn(rounds[0], expiry)
    requires FlushEnds(LeftAfter(left, rounds[0]), expiry, rounds[1..], NoError, g)
    ensures var left' := LeftAfter(left, rounds[0]);
            FlushEnds(left, expiry, rounds, ec, g.(sent := |left| - |left'| + g.sent, used := 1 + g.used))
  {
    hide SendGoesOn, SendFails;
    var left', rest := LeftAfter(left, rounds[0]), rounds[1..];
    var f := g.(sent := |left| - |left'| + g.sent, used := 1 + g.used);
    forall i | 0 <= i < f.used
      ensures Total(rounds, i) < |left|
    {
      if i > 0 {
        assert Total(rest, i - 1) < |left'|;
      }
    }
    forall i | 0 <= i < Passed(f)
      ensures SendGoesOn(rounds[i], expiry)
    {
      if i > 0 {
        assert SendGoesOn(rest[i - 1], expiry);
      }
    }
  }

  /** After `n` rounds the loop cannot go on. */
  predicate SendOver(left: seq<byte>, expiry: int, rounds: seq<SendRound>, n: nat) {
    n >= |rounds| || |left| <= Total(rounds, n) || (n > 0 && !SendGoesOn(rounds[n - 1], expiry))
  }

  lemma FlushUsesLeast(left: seq<byte>, expiry: int, rounds: seq<SendRound>, ec: Error, f: Flush, n: nat)
    requires FlushEnds(left, expiry, rounds, ec, f)
    ensures SendOver(left, expiry, rounds, f.used)
    ensures n < f.used ==> !SendOver(left, expiry, rounds, n)
  {
    hide Total;
  }

  /** Only one run fits the rounds. */
  lemma {:induction false} FlushEndsOnce(
    left: seq<byte>, expiry: int, rounds: seq<SendRound>, ec: Error, f: Flush, g: Flush)
    requires FlushEnds(left, expiry, rounds, ec, f) && FlushEnds(left, expiry, rounds, ec, g)
    ensures f == g
  {
    hide Total;
    FlushUsesLeast(left, expiry, rounds, ec, f, g.used);
    FlushUsesLeast(left, expiry, rounds, ec, g, f.used);
    assert f.used == g.used;
    hide SendOver;
  }

  /** The sending loop, round by round: every round in front of the last was in time and sent
      something or found the socket busy and polled it; the loop ends in the first round that
      is late, sends nothing, meets another error or cannot poll, with that error, or when the
      rounds together sent everything. */
  lemma FlushIff(left: seq<byte>, expiry: int, rounds: seq<SendRound>, ec: Error, f: Flush)
    ensures f == FlushRun(left, expiry, rounds, ec) <==> FlushEnds(left, expiry, rounds, ec, f)
  {
    hide FlushRun, FlushEnds;
    var g := FlushRun(left, expiry, rounds, ec);
    FlushRunEnds(left, expiry, rounds, ec);
    if FlushEnds(left, expiry, rounds, ec, f) {
      FlushEndsOnce(left, expiry, rounds, ec, f, g);
    }
  }

  /** No round after one that read a time past the expiry, and that one sends nothing. */
  lemma {:induction false} NothingSentLate(left: seq<byte>, expiry: int, rounds: seq<SendRound>, ec: Error, i: nat)
    requires i < FlushRun(left, expiry, rounds, ec).used && expiry < rounds[i].now
    ensures var f := FlushRun(left, expiry, rounds, ec);
            && i == f.used - 1 && f.end == Failed && f.ec == TimedOut
            && f.sent == FlushRun(left, expiry, rounds[..i], ec).sent
    decreases |rounds|
  {
    if i > 0 {
      var r, rest := rounds[0], rounds[1..];
      assert rounds[..i][1..] == rest[..i - 1];
      match r.send
      case Sent(n) => NothingSentLate(left[MinInt(n, |left|)..], expiry, rest, NoError, i - 1);
      case SendFailed(e) => NothingSentLate(left, expiry, rest, NoError, i - 1);
    }
  }

  /** A clock that does not go back, and goes on while the socket is not ready. */
  ghost predicate Ticking(rounds: seq<SendRound>) {
    forall i, j :: 0 <= i < j < |rounds| && j == i + 1 ==>
      rounds[i].now + (if rounds[i].send.SendFailed? then 1 else 0) <= rounds[j].now
  }

  /** With such a clock the sending loop ends within as many rounds as there are bytes to
      send and ticks left. */
  lemma {:induction false} FlushTerminates(left: seq<byte>, expiry: int, rounds: seq<SendRound>, ec: Error)
    requires Ticking(rounds)
    requires rounds != [] && |left| + MaxInt(0, expiry + 1 - rounds[0].now) < |rounds|
    ensures !FlushRun(left, expiry, rounds, ec).end.Unfinished?
    decreases |rounds|
  {
    if left != [] && rounds[0].now <= expiry {
      var r, rest := rounds[0], rounds[1..];
      assert rest[0] == rounds[1];
      match r.send
      case Sent(n) =>
        if n > 0 { FlushTerminates(left[MinInt(n, |left|)..], expiry, rest, NoError); }
      case SendFailed(e) => FlushTerminates(left, expiry, rest, NoError);
    }
  }

  /** A clock that does not go back, and polls that wait as long as `timeout` says when the
      socket does not become ready. */
  ghost predicate Waiting(expiry: int, rounds: seq<SendRound>) {
    && (forall i :: 0 <= i < |rounds| ==> Clock.Ticks(rounds[i].again) && rounds[i].now <= rounds[i].again)
    && (forall i, j :: 0 <= i < j < |rounds| ==> rounds[i].again <= rounds[j].now)
    && (forall i, j :: 0 <= i < j < |rounds| && j == i + 1 && rounds[i].poll.Elapsed? && Clock.Ticks(expiry) ==>
          rounds[i].again + Clock.Timeout(expiry, rounds[i].again) * Clock.TICKS_PER_MS <= rounds[j].now)
  }

  /** Once such a poll has run out of time, every later round of the loop falls in the last
      millisecond before the expiry or behind it, unless the wait was cut to an `int`. */
  lemma LastMillisecond(expiry: int, rounds: seq<SendRound>, i: nat, j: nat)
    requires Clock.Ticks(expiry) && Waiting(expiry, rounds)
    requires i < j < |rounds| && rounds[i].poll.Elapsed?
    requires Clock.Timeout(expiry, rounds[i].again) < Clock.INT_MAX
    ensures expiry < rounds[j].now + Clock.TICKS_PER_MS
  {
    assert rounds[i + 1].now <= rounds[i + 1].again;
    assert i + 1 < j ==> rounds[i + 1].again <= rounds[j].now;
  }

  // ------------------------------------------------------------ receiving

  datatype Recv = Data(bytes: seq<byte>) | RecvFailed(e: Error)

  datatype RecvRound = RecvRound(now: int, recv: Recv, again: int, poll: Poll)

  const BUFFER_SIZE: nat := 512
  const PUTBACK_MAX: nat := 8

  /** `recv` returns no more than it was offered room for; no data at all is end of file. */
  predicate Possible(rounds: seq<RecvRound>) {
    forall i :: 0 <= i < |rounds| && rounds[i].recv.Data? ==> |rounds[i].recv.bytes| <= BUFFER_SIZE - PUTBACK_MAX
  }

  datatype Refill = Refill(data: seq<byte>, end: End, ec: Error, used: nat)

  function RefillRun(expiry: int, rounds: seq<RecvRound>, ec: Error): (f: Refill)
    ensures f.end.Completed? <==> f.data != []
    ensures f.used <= |rounds|
    ensures f.end.Completed? ==> f.used > 0 && rounds[f.used - 1].recv == Data(f.data)
    decreases |rounds|
  {
    if rounds == [] then Refill([], Unfinished, ec, 0)
    else
      var r, rest := rounds[0], rounds[1..];
      if expiry < r.now then Refill([], Failed, TimedOut, 1)
      else
        match r.recv
        case Data(bytes) =>
          if bytes == [] then Refill([], Failed, EndOfFile, 1) else Refill(bytes, Completed, NoError, 1)
        case RecvFailed(e) =>
          if !Retry(e) then Refill([], Failed, e, 1)
          else if r.poll.PollFailed? then Refill([], Failed, r.poll.e, 1)
          else
            var f := RefillRun(expiry, rest, NoError);
            f.(used := 1 + f.used)
  }

  /** The socket was busy and polling it did not fail. */
  predicate RecvGoesOn(r: RecvRound, expiry: int) {
    && r.now <= expiry && !r.poll.PollFailed?
    && (r.recv == RecvFailed(WouldBlock) || r.recv == RecvFailed(TryAgain))
  }

  /** The round ends the loop with the error `e`: too late, end of file, an error that is not
      a busy socket, or a poll that failed. */
  predicate RecvFails(r: RecvRound, expiry: int, e: Error) {
    || (expiry < r.now && e == TimedOut)
    || (r.now <= expiry && r.recv == Data([]) && e == EndOfFile)
    || (r.now <= expiry && r.recv == RecvFailed(e) && e != WouldBlock && e != TryAgain)
    || (r.now <= expiry && r.recv in [RecvFailed(WouldBlock), RecvFailed(TryAgain)] && r.poll == PollFailed(e))
  }

  /** What a run of the receiving loop is, round by round. */
  ghost predicate RefillEnds(expiry: int, rounds: seq<RecvRound>, ec: Error, f: Refill) {
    && f.used <= |rounds| && (!f.end.Unfinished? ==> f.used > 0)
    && (forall i :: 0 <= i < f.used - (if f.end.Unfinished? then 0 else 1) ==> RecvGoesOn(rounds[i], expiry))
    && match f.end
       case Failed => f.data == [] && RecvFails(rounds[f.used - 1], expiry, f.ec)
       case Completed =>
         var r := rounds[f.used - 1];
         r.now <= expiry && r.recv == Data(f.data) && f.data != [] && f.ec == NoError
       case Unfinished => f.used == |rounds| && f.data == [] && f.ec == if f.used == 0 then ec else NoError
  }

  lemma {:induction false} RefillRunEnds(expiry: int, rounds: seq<RecvRound>, ec: Error)
    ensures RefillEnds(expiry, rounds, ec, RefillRun(expiry, rounds, ec))
    decreases |rounds|
  {
    if rounds != [] && RecvGoesOn(rounds[0], expiry) {
      var rest := rounds[1..];
      RefillRunEnds(expiry, rest, NoError);
      var f := RefillRun(expiry, rounds, ec);
      forall i | 0 <= i < f.used - (if f.end.Unfinished? then 0 else 1)
        ensures RecvGoesOn(rounds[i], expiry)
      {
        if i > 0 {
          assert RecvGoesOn(rest[i - 1], expiry);
        }
      }
    }
  }

  predicate RecvOver(expiry: int, rounds: seq<RecvRound>, n: nat) {
    n >= |rounds| || (n > 0 && !RecvGoesOn(rounds[n - 1], expiry))
  }

  lemma RefillUsesLeast(expiry: int, rounds: seq<RecvRound>, ec: Error, f: Refill, n: nat)
    requires RefillEnds(expiry, rounds, ec, f)
    ensures RecvOver(expiry, rounds, f.used)
    ensures n < f.used ==> !RecvOver(expiry, rounds, n)
  {
  }

  lemma {:induction false} RefillEndsOnce(expiry: int, rounds: seq<RecvRound>, ec: Error, f: Refill, g: Refill)
    requires RefillEnds(expiry, rounds, ec, f) && RefillEnds(expiry, rounds, ec, g)
    ensures f == g
  {
    RefillUsesLeast(expiry, rounds, ec, f, g.used);
    RefillUsesLeast(expiry, rounds, ec, g, f.used);
    assert f.used == g.used;
    hide RecvOver;
  }

  /** The receiving loop, round by round: every round in front of the last was in time, found
      the socket busy and polled it; the loop ends in the first round that is late, brings data
      or none, meets another error or cannot poll. */
  lemma RefillIff(expiry: int, rounds: seq<RecvRound>, ec: Error, f: Refill)
    ensures f == RefillRun(expiry, rounds, ec) <==> RefillEnds(expiry, rounds, ec, f)
  {
    hide RefillRun, RefillEnds;
    var g := RefillRun(expiry, rounds, ec);
    RefillRunEnds(expiry, rounds, ec);
    if RefillEnds(expiry, rounds, ec, f) {
      RefillEndsOnce(expiry, rounds, ec, f, g);
    }
  }

  /** Nothing is received after a time past the expiry was read. */
  lemma {:induction false} NothingReceivedLate(expiry: int, rounds: seq<RecvRound>, ec: Error, i: nat)
    requires i < RefillRun(expiry, rounds, ec).used && expiry < rounds[i].now
    ensures var f := RefillRun(expiry, rounds, ec);
            i == f.used - 1 && f.end == Failed && f.ec == TimedOut
    decreases |rounds|
  {
    if i > 0 { NothingReceivedLate(expiry, rounds[1..], NoError, i - 1); }
  }

  ghost predicate RecvTicking(rounds: seq<RecvRound>) {
    forall i, j :: 0 <= i < j < |rounds| && j == i + 1 ==>
      rounds[i].now + (if rounds[i].recv.RecvFailed? then 1 else 0) <= rounds[j].now
  }

  /** With such a clock the receiving loop ends within as many rounds as there are ticks. */
  lemma {:induction false} RefillTerminates(expiry: int, rounds: seq<RecvRound>, ec: Error)
    requires RecvTicking(rounds) && rounds != [] && MaxInt(0, expiry + 1 - rounds[0].now) < |rounds|
    ensures !RefillRun(expiry, rounds, ec).end.Unfinished?
    decreases |rounds|
  {
    if rounds[0].now <= expiry && rounds[0].recv.RecvFailed? {
      var rest := rounds[1..];
      assert rest[0] == rounds[1];
      RefillTerminates(expiry, rest, NoError);
    }
  }
}
