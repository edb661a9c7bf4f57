/** What each operation of the stream over a socket does, in terms of the rounds the system
    answered and of the endpoints it tried. */
module SocketEffects {
  import opened Machine
  import opened SocketSpec
  import opened SocketConnect
  import opened SocketStream

  /** Flushing the put area: what the rounds say was sent is on the wire; the area is left as it
      was unless all of it was sent, and is then whole again, with the character that did not fit
      at its start. */
  lemma BufferedOverflow(s: Stream, c: IntType, rounds: seq<SendRound>, f: Flush)
    requires s.buffered && FlushEnds(s.pending, s.expiry, rounds, s.ec, f)
    ensures var r := Overflow(s, c, rounds);
            && r.stream.ec == f.ec && r.stream.past.wire == s.past.wire + s.pending[..f.sent]
            && r.stream.unread == s.unread && r.stream.buffered && r.stream.expiry == s.expiry
            && (r.ret == match f.end
                         case Unfinished => Blocked
                         case Failed => Returned(Eof)
                         case Completed => Returned(if c.Eof? then Char(0) else c))
            && (!f.end.Completed? ==>
                  r.stream.pending == s.pending && r.stream.room == s.room && r.stream.past.accepted == s.past.accepted)
            && (f.end.Completed? && c.Eof? ==>
                  r.stream.pending == [] && r.stream.room == 512 && r.stream.past.accepted == s.past.accepted)
            && (f.end.Completed? && c.Char? ==>
                  && r.stream.pending == [c.c] && r.stream.room == 511
                  && r.stream.past.accepted == s.past.accepted + [c.c])
  {
    FlushIff(s.pending, s.expiry, rounds, s.ec, f);
    hide FlushRun, FlushEnds;
  }

  /** Without a buffer the character itself is sent, and accepted when it was; there is nothing
      to flush. */
  lemma UnbufferedOverflow(s: Stream, c: byte, rounds: seq<SendRound>, f: Flush)
    requires !s.buffered && FlushEnds([c], s.expiry, rounds, s.ec, f)
    ensures var r := Overflow(s, Char(c), rounds);
            && r.stream.ec == f.ec && r.stream.past.wire == s.past.wire + [c][..f.sent]
            && r.stream.unread == s.unread && !r.stream.buffered && r.stream.expiry == s.expiry
            && r.stream.pending == s.pending && r.stream.room == s.room
            && (r.ret == match f.end
                         case Unfinished => Blocked
                         case Failed => Returned(Eof)
                         case Completed => Returned(Char(c)))
            && r.stream.past.accepted == s.past.accepted + if f.end.Completed? then [c] else []
    ensures Overflow(s, Eof, rounds) == Result(s, Returned(Char(0)))
  {
    FlushIff([c], s.expiry, rounds, s.ec, f);
    hide FlushRun, FlushEnds;
  }

  /** While there is room a character is taken in and nothing is sent; otherwise `sputc` is
      `overflow`. */
  lemma PutSendsOnlyWhenFull(s: Stream, c: byte, rounds: seq<SendRound>)
    ensures var r := Put(s, c, rounds);
            if s.room == 0 then r == Overflow(s, Char(c), rounds)
            else
              && r.ret == Returned(Char(c)) && r.stream.pending == s.pending + [c] && r.stream.room == s.room - 1
              && r.stream.past.wire == s.past.wire && r.stream.past.accepted == s.past.accepted + [c]
              && r.stream.unread == s.unread && r.stream.ec == s.ec && r.stream.expiry == s.expiry
              && r.stream.buffered == s.buffered
  {
  }

  /** A get area that is not empty is left alone, and nothing is received; an empty one holds
      what the last round received. */
  lemma UnderflowEffect(s: Stream, rounds: seq<RecvRound>, f: Refill)
    requires RefillEnds(s.expiry, rounds, s.ec, f)
    ensures s.unread != [] ==> Underflow(s, rounds) == Result(s, Returned(Eof))
    ensures s.unread == [] ==>
              var r := Underflow(s, rounds);
              && r.stream.ec == f.ec && r.stream.unread == f.data
              && r.stream.past.received == s.past.received + f.data && r.stream.past.taken == s.past.taken
              && r.stream.pending == s.pending && r.stream.room == s.room && r.stream.past.wire == s.past.wire
              && (r.ret == match f.end
                           case Unfinished => Blocked
                           case Failed => Returned(Eof)
                           case Completed => Returned(Char(f.data[0])))
  {
    RefillIff(s.expiry, rounds, s.ec, f);
    hide RefillRun, RefillEnds;
  }

  /** `sbumpc` returns the character it hands out, and none exactly when none is taken. */
  lemma GetReturnsTaken(s: Stream, rounds: seq<RecvRound>)
    ensures var r := Get(s, rounds);
            && (forall c :: r.ret == Returned(Char(c)) <==> r.stream.past.taken == s.past.taken + [c])
            && (r.ret.Blocked? || r.ret.v.Eof? ==> r.stream.past.taken == s.past.taken && s.unread == [])
  {
    hide RefillRun;
    forall c | Get(s, rounds).stream.past.taken == s.past.taken + [c]
      ensures Get(s, rounds).ret == Returned(Char(c))
    {
      assert Get(s, rounds).stream.past.taken[|s.past.taken|] == c;
    }
  }

  /** That character is the first of the get area, or of what was received if that was empty. */
  lemma GetTakesFirst(s: Stream, rounds: seq<RecvRound>, f: Refill)
    requires RefillEnds(s.expiry, rounds, s.ec, f)
    ensures var r := Get(s, rounds);
            if s.unread != [] then
              r.ret == Returned(Char(s.unread[0])) && r.stream.unread == s.unread[1..] && r.stream.ec == s.ec
            else if f.end.Completed? then
              r.ret == Returned(Char(f.data[0])) && r.stream.unread == f.data[1..] && r.stream.ec == NoError
            else
              && r.ret == (if f.end.Failed? then Returned(Eof) else Blocked)
              && r.stream.unread == [] && r.stream.ec == f.ec
  {
    RefillIff(s.expiry, rounds, s.ec, f);
    hide RefillRun;
  }

  /** `setbuf(0, 0)` is refused exactly while characters are pending. */
  lemma SetUnbufferedIff(s: Stream)
    ensures var r := SetUnbuffered(s);
            && (r.ret == Returned(Eof) <==> s.pending != [])
            && (s.pending != [] ==> r.stream == s)
            && (s.pending == [] ==> r == Result(s.(buffered := false, room := 0), Returned(Char(0))))
  {
  }

  /** `close` sends what is pending as far as the rounds go.  When the socket closes, both
      buffers are empty, whatever was not sent is on record as lost, and the error is clear; when
      it does not, nothing is reset: the unread characters stay, and so do the pending ones unless
      all of them were sent. */
  lemma CloseEffect(s: Stream, rounds: seq<SendRound>, answer: Error, f: Flush)
    requires s.buffered && FlushEnds(s.pending, s.expiry, rounds, s.ec, f)
    ensures var r := Close(s, rounds, answer);
            && (r.ret == if f.end.Unfinished? then Blocked else Returned(if answer == NoError then Char(0) else Eof))
            && r.stream.buffered && r.stream.expiry == s.expiry
            && (!f.end.Unfinished? ==> r.stream.ec == answer)
            && (answer != NoError || f.end.Unfinished? ==>
                  && r.stream.past.wire == s.past.wire + s.pending[..f.sent] && r.stream.unread == s.unread
                  && r.stream.pending == if f.end.Completed? then [] else s.pending)
            && (answer == NoError && !f.end.Unfinished? ==>
                  && r.stream.unread == [] && r.stream.pending == [] && r.stream.room == 512
                  && r.stream.past.books.ledger == s.past.books.ledger +
                       if s.pending == [] then []
                       else [Entry(s.pending, if f.end.Completed? then Delivered else LostAtClose)])
  {
    BufferedOverflow(s, Eof, rounds, f);
    FlushIff(s.pending, s.expiry, rounds, s.ec, f);
    hide FlushRun, FlushEnds;
  }

  /** A stream without a buffer has nothing to send when it is closed. */
  lemma CloseUnbuffered(s: Stream, rounds: seq<SendRound>, answer: Error)
    requires !s.buffered && s.pending == []
    ensures var r := Close(s, rounds, answer);
            && r.stream.ec == answer && r.ret == Returned(if answer == NoError then Char(0) else Eof)
            && (answer != NoError ==> r.stream.past == s.past && r.stream.unread == s.unread)
            && (answer == NoError ==> r.stream.unread == [] && r.stream.past.books.ledger == s.past.books.ledger)
            && r.stream.pending == [] && !r.stream.buffered
  {
  }

  /** `connect` empties both buffers without sending, and the error is the one the first
      endpoint that is not turned away stops with, or the last one's. */
  lemma ConnectEffect(s: Stream, resolved: Error, tries: seq<Try>)
    ensures var r := Connect(s, resolved, tries);
            && r.stream.unread == [] && r.stream.pending == [] && r.stream.buffered == s.buffered
            && r.stream.room == (if s.buffered then 512 else 0) && r.stream.expiry == s.expiry
            && r.stream.past.books.ledger == s.past.books.ledger +
                 (if s.pending == [] then [] else [Entry(s.pending, LostAtConnect)])
            && (r.ret == Returned(Char(0)) <==> r.stream.ec == NoError)
            && (r.ret == Returned(Eof) <==> r.stream.ec != NoError)
            && (resolved != NoError ==> r.stream.ec == resolved)
            && (resolved == NoError && tries == [] ==> r.stream.ec == NotFound)
            && (resolved == NoError && tries != [] ==> exists k: nat :: EndsAt(tries, s.expiry, k, r.stream.ec))
  {
    hide EndsAt;
    if resolved == NoError {
      ConnectErrorIff(tries, s.expiry, ConnectError(NoError, tries, s.expiry));
    }
  }

  /** The destructor sends what is pending as far as the rounds go. */
  lemma DestroyedSends(s: Stream, rounds: seq<SendRound>, f: Flush)
    requires s.buffered && FlushEnds(s.pending, s.expiry, rounds, s.ec, f)
    ensures Destroyed(s, rounds).stream.past.wire == s.past.wire + s.pending[..f.sent]
  {
    hide FlushRun;
    if s.pending != [] {
      BufferedOverflow(s, Eof, rounds, f);
    }
  }

  /** A move takes the error, the expiry and both areas along, all but the pending characters. */
  lemma MoveCarries(other: Stream)
    ensures var t := MovedTo(other);
            && t.ec == other.ec && t.expiry == other.expiry && t.unread == other.unread
            && t.room == other.room && t.buffered == other.buffered && t.pending == []
            && t.past.wire == other.past.wire && t.past.received == other.past.received
            && t.past.taken == other.past.taken
            && t.past.books.ledger == other.past.books.ledger +
                 if other.pending == [] then [] else [Entry(other.pending, LostAtMove)]
  {
  }

  // ------------------------------------------------------------ no stream is forgotten

  /** `t` is what became of `s`: its books go on. */
  ghost predicate Continues(s: Stream, t: Stream) {
    s.past.books.accepted <= t.past.books.accepted && s.past.books.ledger <= t.past.books.ledger
  }

  lemma OverflowContinues(s: Stream, c: IntType, rounds: seq<SendRound>)
    ensures Continues(s, Overflow(s, c, rounds).stream)
  {
    hide FlushRun;
  }

  lemma StepContinues(s: Stream, op: Op)
    requires Allowed(op)
    ensures Continues(s, Step(s, op).stream)
  {
    hide Overflow, FlushRun, RefillRun, ConnectError;
    match op
    case DoPut(c, sends) => OverflowContinues(s, Char(c), sends);
    case DoSync(sends) => OverflowContinues(s, Eof, sends);
    case DoClose(sends, answer) => OverflowContinues(s, Eof, sends);
    case _ =>
  }

  lemma GivenUpContinues(s: Stream, sends: seq<SendRound>, answer: Error)
    ensures Continues(s, Close(s, sends, answer).stream) && Continues(s, Ended(Close(s, sends, answer).stream))
    ensures Continues(s, Destroyed(s, sends).stream) && Continues(s, Ended(Destroyed(s, sends).stream))
    ensures Continues(s, MovedTo(s)) && Continues(s, s)
  {
    hide Overflow;
    OverflowContinues(s, Eof, sends);
  }

  /** Some object has what became of `s`, or it was given up behind the first `n` of those. */
  ghost predicate Kept(s: Stream, q: Objects, n: nat) {
    || (exists j :: j in q.live && Continues(s, q.live[j]))
    || (exists i :: n <= i < |q.gone| && Continues(s, q.gone[i]))
  }

  predicate Creates(op: PoolOp) {
    op.Construct? || op.MoveConstruct?
  }

  /** No step forgets a stream: each goes on in an object or is given up, those given up stay,
      and moving gives up one exactly for the fresh one it leaves behind. */
  lemma {:induction false} NoneForgotten(p: Objects, op: PoolOp)
    requires PoolAllowed(p, op)
    ensures var r := PoolStep(p, op);
            && p.gone <= r.objects.gone
            && (forall k :: k in p.live ==> Kept(p.live[k], r.objects, |p.gone|))
            && |r.objects.gone| ==
                 |p.gone| + if (op.MoveAssign? || op.Destroy?) && !r.ret.Blocked? then 1 else 0
  {
    hide Step, Close, Destroyed, Ended, MovedTo, Continues;
    var q := PoolStep(p, op).objects;
    forall k | k in p.live
      ensures Kept(p.live[k], q, |p.gone|)
    {
      match op
      case Construct(at) =>
        GivenUpContinues(p.live[k], [], NoError);
        assert q.live[k] == p.live[k];
      case MoveConstruct(at, from) =>
        GivenUpContinues(p.live[k], [], NoError);
        assert q.live[if k == from then at else k] == if k == from then MovedTo(p.live[k]) else p.live[k];
      case MoveAssign(to, from, sends, answer) =>
        AssignKeeps(p, to, from, sends, answer, k);
      case Use(at, use) =>
        GivenUpContinues(p.live[k], [], NoError);
        StepContinues(p.live[at], use);
        assert k in q.live;
      case Destroy(at, sends) =>
        DestroyKeeps(p, at, sends, k);
    }
  }

  lemma {:induction false} AssignKeeps(
    p: Objects, to: nat, from: nat, sends: seq<SendRound>, answer: Error, k: nat)
    requires to in p.live && from in p.live && k in p.live
    ensures Kept(p.live[k], PoolStep(p, MoveAssign(to, from, sends, answer)).objects, |p.gone|)
  {
    hide Close, Ended, MovedTo, Continues;
    var r := PoolStep(p, MoveAssign(to, from, sends, answer));
    var q := r.objects;
    GivenUpContinues(p.live[k], sends, answer);
    if r.ret.Blocked? {
      assert k in q.live;
    } else if k == to {
      assert q.gone[|p.gone|] == Ended(Close(p.live[to], sends, answer).stream);
    } else if k == from {
      assert q.live[to] == MovedTo(p.live[k]);
    } else {
      assert q.live[k] == p.live[k];
    }
  }

  lemma {:induction false} DestroyKeeps(p: Objects, at: nat, sends: seq<SendRound>, k: nat)
    requires at in p.live && k in p.live
    ensures Kept(p.live[k], PoolStep(p, Destroy(at, sends)).objects, |p.gone|)
  {
    hide Destroyed, Ended, Continues;
    var r := PoolStep(p, Destroy(at, sends));
    var q := r.objects;
    GivenUpContinues(p.live[k], sends, NoError);
    if k == at && !r.ret.Blocked? {
      assert q.gone[|p.gone|] == Ended(Destroyed(p.live[at], sends).stream);
    } else {
      assert k in q.live;
    }
  }

  lemma ContinuesOn(s: Stream, t: Stream, u: Stream)
    requires Continues(s, t) && Continues(t, u)
    ensures Continues(s, u)
  {
  }

  lemma {:induction false} KeptOn(s: Stream, q: Objects, r: Objects, n: nat)
    requires n <= |q.gone| && q.gone <= r.gone && Kept(s, q, n)
    requires forall k :: k in q.live ==> Kept(q.live[k], r, |q.gone|)
    ensures Kept(s, r, n)
  {
    hide Continues;
    if j :| j in q.live && Continues(s, q.live[j]) {
      var t := q.live[j];
      assert Kept(t, r, |q.gone|);
      if i :| i in r.live && Continues(t, r.live[i]) {
        ContinuesOn(s, t, r.live[i]);
      } else {
        var i :| |q.gone| <= i < |r.gone| && Continues(t, r.gone[i]);
        ContinuesOn(s, t, r.gone[i]);
      }
    } else {
      var i :| n <= i < |q.gone| && Continues(s, q.gone[i]);
      assert r.gone[i] == q.gone[i];
    }
  }

  /** The same of every run. */
  lemma {:induction false} NoneForgottenInRun(p: Objects, ops: seq<PoolOp>)
    requires PoolAllowedRun(p, ops)
    ensures var r := PoolRun(p, ops);
            p.gone <= r.gone && forall k :: k in p.live ==> Kept(p.live[k], r, |p.gone|)
    decreases |ops|
  {
    hide PoolStep, Kept;
    if ops == [] {
      StillThere(p);
    } else {
      NoneForgotten(p, ops[0]);
      var r := PoolStep(p, ops[0]);
      var q := r.objects;
      if !r.ret.Blocked? {
        NoneForgottenInRun(q, ops[1..]);
        var end := PoolRun(q, ops[1..]);
        forall k | k in p.live
          ensures Kept(p.live[k], end, |p.gone|)
        {
          KeptOn(p.live[k], q, end, |p.gone|);
        }
      }
    }
  }

  lemma {:induction false} StillThere(p: Objects)
    ensures forall k :: k in p.live ==> Kept(p.live[k], p, |p.gone|)
  {
    forall k | k in p.live
      ensures Kept(p.live[k], p, |p.gone|)
    {
      assert Continues(p.live[k], p.live[k]);
    }
  }

  /** Which objects a step leaves, and with what: a destructor that has come back removes its
      object; a move leaves the initial state behind and happens only once the target is closed;
      all other objects are untouched. */
  lemma {:induction false} PoolStepEffect(p: Objects, op: PoolOp, k: nat)
    requires PoolAllowed(p, op)
    ensures var r := PoolStep(p, op);
            var q := r.objects;
            && (k in q.live <==> (k in p.live || (Creates(op) && k == op.at)) &&
                                 !(op.Destroy? && k == op.at && !r.ret.Blocked?))
            && (k in p.live && k in q.live && !op.MoveConstruct? && !op.MoveAssign? && k != op.at ==>
                  q.live[k] == p.live[k])
            && (op.Construct? ==> q.live[op.at] == INITIAL)
            && (op.MoveConstruct? ==>
                  && q.live[op.at] == MovedTo(p.live[op.from]) && q.live[op.from] == INITIAL
                  && (k in p.live && k != op.from ==> q.live[k] == p.live[k]))
            && (op.MoveAssign? && r.ret.Blocked? ==> k in p.live && k != op.to ==> q.live[k] == p.live[k])
            && (op.MoveAssign? && !r.ret.Blocked? ==>
                  && q.live[op.from] == INITIAL
                  && (op.to != op.from ==> q.live[op.to] == MovedTo(p.live[op.from]))
                  && (k in p.live && k != op.to && k != op.from ==> q.live[k] == p.live[k]))
  {
    hide Step, Close, Destroyed, Ended, MovedTo;
  }

  // ------------------------------------------------------------ the sizes

  /** One receive asks for at most 504 bytes: eight of 512 are kept for putting back. */
  lemma ReceivesAtMost(r: RecvRound)
    ensures Possible([r]) <==> (r.recv.Data? ==> |r.recv.bytes| <= 504)
  {
    assert [r][0] == r;
  }
}
