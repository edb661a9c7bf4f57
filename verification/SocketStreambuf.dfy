/** `basic_socket_streambuf` as it is written: two vectors per object, and positions that
    point into them. */
module SocketStreambuf {
  import opened Machine
  import opened SocketSpec
  import opened SocketConnect
  import Clock
  import Spec = SocketStream

  /** A position of the stream: null, or a place in a vector's storage. */
  datatype Ptr = Null | At(vec: array<byte>, off: nat)

  /** Positions of a get area in a vector, behind the bytes kept for putback. */
  ghost predicate GetArea(v: array<byte>, back: Ptr, next: Ptr, end: Ptr) {
    && back == At(v, 0) && next.At? && end.At? && next.vec == end.vec == v
    && PUTBACK_MAX <= next.off <= end.off <= v.Length
  }

  /** Positions of a put area in a vector; all null if it is empty. */
  ghost predicate PutArea(v: array<byte>, base: Ptr, next: Ptr, end: Ptr) {
    if v.Length == 0 then base == next == end == Null
    else
      && base.At? && next.At? && end.At? && base.vec == next.vec == end.vec == v
      && base.off <= next.off <= end.off <= v.Length
  }

  /** After `done` bytes, `n` more. */
  lemma SentMore(wire: seq<byte>, output: seq<byte>, done: nat, n: nat)
    requires done + n <= |output|
    ensures wire + output[..done] + output[done..][..n] == wire + output[..done + n]
    ensures output[done..][n..] == output[done + n..]
  {
    assert output[..done] + output[done..][..n] == output[..done + n];
  }

  lemma PutAreaBehind(v: array<byte>, base: Ptr, next: Ptr, end: Ptr)
    requires PutArea(v, base, next, end)
    ensures PutArea(v, next, next, end)
  {
  }

  class Streambuf {
    var getBuffer: array<byte>
    var putBuffer: array<byte>
    var eback: Ptr
    var gptr: Ptr
    var egptr: Ptr
    var pbase: Ptr
    var pptr: Ptr
    var epptr: Ptr
    var ec: Error
    var expiry: int
    ghost var past: Spec.History

    /** The vectors: one of 512 bytes to read into, and one of 512 or none to write from. */
    ghost predicate Vectors()
      reads this
    {
      && getBuffer.Length == BUFFER_SIZE && getBuffer != putBuffer
      && (putBuffer.Length == BUFFER_SIZE || putBuffer.Length == 0)
    }

    /** Every position lies in the object's own vectors. */
    ghost predicate Valid()
      reads this
    {
      Vectors() && GetArea(getBuffer, eback, gptr, egptr) && PutArea(putBuffer, pbase, pptr, epptr)
    }

    ghost function Unread(): seq<byte>
      requires Valid()
      reads this, getBuffer
    {
      getBuffer[gptr.off..egptr.off]
    }

    ghost function Pending(): seq<byte>
      requires Valid()
      reads this, putBuffer
    {
      if putBuffer.Length == 0 then [] else putBuffer[pbase.off..pptr.off]
    }

    ghost function Room(): nat
      requires Valid()
      reads this
    {
      if putBuffer.Length == 0 then 0 else epptr.off - pptr.off
    }

    ghost function View(): Spec.Stream
      requires Valid()
      reads this, getBuffer, putBuffer
    {
      Spec.Stream(Unread(), Pending(), Room(), putBuffer.Length != 0, ec, expiry, past)
    }

    constructor ()
      ensures Valid() && View() == Spec.INITIAL && fresh(getBuffer) && fresh(putBuffer)
    {
      var g, p := new byte[BUFFER_SIZE](_ => 0), new byte[BUFFER_SIZE](_ => 0);
      getBuffer, putBuffer := g, p;
      eback, gptr, egptr := At(g, 0), At(g, PUTBACK_MAX), At(g, PUTBACK_MAX);
      pbase, pptr, epptr := At(p, 0), At(p, 0), At(p, BUFFER_SIZE);
      ec, expiry := NoError, Spec.MAX_EXPIRY;
      past := Spec.NO_HISTORY;
    }

    /** `init_buffers`, with the history that is told from then on. */
    method InitBuffers(ghost history: Spec.History)
      requires Vectors()
      modifies this
      ensures Valid() && getBuffer == old(getBuffer) && putBuffer == old(putBuffer)
      ensures View() == Spec.Stream([], [], putBuffer.Length, putBuffer.Length != 0, old(ec), old(expiry), history)
    {
      SetG(At(getBuffer, 0), At(getBuffer, PUTBACK_MAX), At(getBuffer, PUTBACK_MAX));
      if putBuffer.Length == 0 {
        SetP(Null, Null);
      } else {
        SetP(At(putBuffer, 0), At(putBuffer, putBuffer.Length));
      }
      past := history;
      assert Unread() == [] && Pending() == [];
    }

    method SetG(back: Ptr, next: Ptr, end: Ptr)
      modifies this`eback, this`gptr, this`egptr
      ensures eback == back && gptr == next && egptr == end
    {
      eback, gptr, egptr := back, next, end;
    }

    method SetP(base: Ptr, end: Ptr)
      modifies this`pbase, this`pptr, this`epptr
      ensures pbase == pptr == base && epptr == end
    {
      pbase, pptr, epptr := base, base, end;
    }

    // ------------------------------------------------- output

    /** The sending loop of `overflow`. */
    method SendLoop(output: seq<byte>, rounds: seq<SendRound>) returns (f: Flush)
      modifies this`ec, this`past
      ensures f == FlushRun(output, expiry, rounds, old(ec)) && ec == f.ec
      ensures FlushEnds(output, expiry, rounds, old(ec), f)
      ensures past == old(past).(wire := old(past).wire + output[..f.sent])
    {
      hide FlushRun, FlushEnds, FlushFrom;
      FlushRunEnds(output, expiry, rounds, ec);
      FlushFromEnds(output, expiry, rounds, 0, ec);
      var left, k := output, 0;
      while |left| > 0
        invariant k <= |rounds| && |left| <= |output| && left == output[|output| - |left|..]
        invariant past == old(past).(wire := old(past).wire + output[..|output| - |left|])
        invariant FlushRun(output, expiry, rounds, old(ec)) ==
                  FlushFrom(output, |output| - |left|, expiry, rounds, k, ec)
        decreases |rounds| - k
      {
        FlushFromStep(output, |output| - |left|, expiry, rounds, k, ec);
        if k == |rounds| {
          return Flush(|output| - |left|, Unfinished, ec, k);
        }
        var r := rounds[k];
        k := k + 1;
        if expiry < r.now {
          ec := TimedOut;
          return Flush(|output| - |left|, Failed, ec, k);
        }
        ec := if r.send.SendFailed? then r.send.e else NoError;
        if r.send.Sent? && r.send.n > 0 {
          var n := MinInt(r.send.n, |left|);
          SentMore(old(past).wire, output, |output| - |left|, n);
          past := past.(wire := past.wire + left[..n]);
          left := left[n..];
          continue;
        }
        if !Retry(ec) {
          return Flush(|output| - |left|, Failed, ec, k);
        }
        ec := if r.poll.PollFailed? then r.poll.e else NoError;
        if r.poll.PollFailed? {
          return Flush(|output| - |left|, Failed, ec, k);
        }
      }
      FlushFromEnds(output, expiry, rounds, k, ec);
      f := Flush(|output|, Completed, ec, k);
    }

    method Overflow(c: IntType, rounds: seq<SendRound>) returns (r: Spec.Ret)
      requires Valid()
      modifies this, putBuffer
      ensures Valid() && getBuffer == old(getBuffer) && putBuffer == old(putBuffer)
      ensures Spec.Result(View(), r) == Spec.Overflow(old(View()), c, rounds)
    {
      hide FlushRun;
      ghost var s := View();
      if putBuffer.Length == 0 && c.Eof? {
        return Spec.Returned(Char(0));
      }
      var output := if putBuffer.Length == 0 then [c.c] else putBuffer[pbase.off..pptr.off];
      var f := SendLoop(output, rounds);
      past := past.(log := past.log + [Spec.Attempt(output, f.sent, putBuffer.Length == 0)],
                    books := if f.end.Completed? then Spec.Settled(past.books, output, Spec.Delivered) else past.books);
      ghost var t := Spec.Attempted(s, output, f);
      assert View() == t;
      if f.end.Unfinished? {
        return Spec.Blocked;
      }
      if f.end.Failed? {
        return Spec.Returned(Eof);
      }
      Accept(c);
      r := Spec.Returned(if c.Eof? then Char(0) else c);
    }

    /** The end of `overflow`, with everything sent. */
    method Accept(c: IntType)
      requires Valid() && (putBuffer.Length == 0 ==> c.Char?)
      modifies this, putBuffer
      ensures Valid() && getBuffer == old(getBuffer) && putBuffer == old(putBuffer)
      ensures View() == Spec.Refilled(old(View()), c)
    {
      if putBuffer.Length != 0 {
        SetP(At(putBuffer, 0), At(putBuffer, putBuffer.Length));
        if c.Eof? {
          return;
        }
        StoreNext(c.c);
      }
      past := Spec.Noted(past, c.c);
    }

    /** `*pptr() = ch; pbump(1)`. */
    method StoreNext(ch: byte)
      requires Valid() && putBuffer.Length != 0 && pptr.off < epptr.off
      modifies this`pptr, putBuffer
      ensures Valid()
      ensures View() == old(View()).(pending := old(View()).pending + [ch], room := old(View()).room - 1)
    {
      putBuffer[pptr.off] := ch;
      pptr := At(pptr.vec, pptr.off + 1);
      assert putBuffer[pbase.off..pptr.off] == old(putBuffer[pbase.off..pptr.off]) + [ch];
    }

    method Sync(rounds: seq<SendRound>) returns (r: Spec.Ret)
      requires Valid()
      modifies this, putBuffer
      ensures Valid() && getBuffer == old(getBuffer) && putBuffer == old(putBuffer)
      ensures Spec.Result(View(), r) == Spec.Overflow(old(View()), Eof, rounds)
    {
      r := Overflow(Eof, rounds);
    }

    /** `sputc` of `std::streambuf`. */
    method Sputc(c: byte, rounds: seq<SendRound>) returns (r: Spec.Ret)
      requires Valid()
      modifies this, putBuffer
      ensures Valid() && getBuffer == old(getBuffer) && putBuffer == old(putBuffer)
      ensures Spec.Result(View(), r) == Spec.Put(old(View()), c, rounds)
    {
      hide Spec.Overflow;
      if pptr != epptr {
        StoreNext(c);
        past := Spec.Noted(past, c);
        r := Spec.Returned(Char(c));
      } else {
        r := Overflow(Char(c), rounds);
      }
    }

    method SetBuf(noStorage: bool, n: int, rounds: seq<SendRound>) returns (r: Spec.Ret)
      requires Valid()
      modifies this, putBuffer
      ensures Valid() && getBuffer == old(getBuffer) && (putBuffer == old(putBuffer) || fresh(putBuffer))
      ensures !(noStorage && n == 0) ==> Spec.Result(View(), r) == Spec.Result(old(View()), Spec.Returned(Eof))
      ensures noStorage && n == 0 ==> Spec.Result(View(), r) == Spec.SetUnbuffered(old(View()))
    {
      if pptr == pbase && noStorage && n == 0 {
        putBuffer := new byte[0];
        SetP(Null, Null);
        r := Sync(rounds);
      } else {
        r := Spec.Returned(Eof);
      }
    }

    // ------------------------------------------------- input

    /** The receiving loop of `underflow`. */
    method RecvLoop(rounds: seq<RecvRound>) returns (f: Refill)
      requires Vectors() && Possible(rounds)
      modifies this`ec, getBuffer
      ensures f == RefillRun(expiry, rounds, old(ec)) && ec == f.ec
      ensures RefillEnds(expiry, rounds, old(ec), f)
      ensures f.end.Completed? ==>
                PUTBACK_MAX + |f.data| <= BUFFER_SIZE && getBuffer[PUTBACK_MAX..PUTBACK_MAX + |f.data|] == f.data
      ensures !f.end.Completed? ==> getBuffer[..] == old(getBuffer[..])
    {
      hide RefillEnds;
      RefillRunEnds(expiry, rounds, ec);
      var k := 0;
      while k < |rounds|
        invariant k <= |rounds| && getBuffer[..] == old(getBuffer[..])
        invariant var g := RefillRun(expiry, rounds[k..], ec);
                  RefillRun(expiry, rounds, old(ec)) == g.(used := k + g.used)
      {
        var r := rounds[k];
        assert rounds[k..][1..] == rounds[k + 1..];
        k := k + 1;
        if expiry < r.now {
          ec := TimedOut;
          return Refill([], Failed, ec, k);
        }
        ec := if r.recv.RecvFailed? then r.recv.e else NoError;
        if r.recv.Data? {
          if r.recv.bytes != [] {
            CopyIn(r.recv.bytes);
            return Refill(r.recv.bytes, Completed, ec, k);
          }
          ec := EndOfFile;
          return Refill([], Failed, ec, k);
        }
        if !Retry(ec) {
          return Refill([], Failed, ec, k);
        }
        ec := if r.poll.PollFailed? then r.poll.e else NoError;
        if r.poll.PollFailed? {
          return Refill([], Failed, ec, k);
        }
      }
      f := Refill([], Unfinished, ec, k);
    }

    /** What `recv` does to the vector. */
    method CopyIn(bytes: seq<byte>)
      requires PUTBACK_MAX + |bytes| <= getBuffer.Length
      modifies getBuffer
      ensures getBuffer[PUTBACK_MAX..PUTBACK_MAX + |bytes|] == bytes
    {
      forall i | 0 <= i < |bytes| {
        getBuffer[PUTBACK_MAX + i] := bytes[i];
      }
    }

    method Underflow(rounds: seq<RecvRound>) returns (r: Spec.Ret)
      requires Valid() && Possible(rounds)
      modifies this, getBuffer
      ensures Valid() && getBuffer == old(getBuffer) && putBuffer == old(putBuffer)
      ensures Spec.Result(View(), r) == Spec.Underflow(old(View()), rounds)
    {
      hide RefillRun;
      ghost var s := View();
      if gptr != egptr {
        return Spec.Returned(Eof);
      }
      var f := RecvLoop(rounds);
      if f.end.Unfinished? {
        return Spec.Blocked;
      }
      if f.end.Failed? {
        return Spec.Returned(Eof);
      }
      SetG(At(getBuffer, 0), At(getBuffer, PUTBACK_MAX), At(getBuffer, PUTBACK_MAX + |f.data|));
      past := past.(received := past.received + f.data);
      r := Spec.Returned(Char(getBuffer[gptr.off]));
    }

    /** `sbumpc` of `std::streambuf`. */
    method Sbumpc(rounds: seq<RecvRound>) returns (r: Spec.Ret)
      requires Valid() && Possible(rounds)
      modifies this, getBuffer
      ensures Valid() && getBuffer == old(getBuffer) && putBuffer == old(putBuffer)
      ensures Spec.Result(View(), r) == Spec.Get(old(View()), rounds)
    {
      hide Spec.Underflow;
      if gptr != egptr {
        r := Spec.Returned(Char(getBuffer[gptr.off]));
        Bump();
      } else {
        r := Underflow(rounds);
        if r.Returned? && r.v.Char? && gptr != egptr {
          Bump();
        }
      }
    }

    method Bump()
      requires Valid() && gptr != egptr
      modifies this`gptr, this`past
      ensures Valid() && old(View()).unread != [] && View() == Spec.TakeOne(old(View()))
    {
      past := past.(taken := past.taken + [getBuffer[gptr.off]]);
      gptr := At(gptr.vec, gptr.off + 1);
    }

    // ------------------------------------------------- closing and moving

    /** `close`, given what closing the socket answers. */
    method Close(rounds: seq<SendRound>, answer: Error) returns (r: Spec.Ret)
      requires Valid()
      modifies this, putBuffer
      ensures Valid() && getBuffer == old(getBuffer) && putBuffer == old(putBuffer)
      ensures Spec.Result(View(), r) == Spec.Close(old(View()), rounds, answer)
    {
      hide Spec.Overflow;
      r := Sync(rounds);
      if r.Blocked? {
        return;
      }
      ec := answer;
      if ec == NoError {
        InitBuffers(Spec.Cleared(past, Pending(), Spec.LostAtClose));
      }
      r := Spec.Returned(if ec == NoError then Char(0) else Eof);
    }

    /** `connect`, with what resolving a name answers, if there is a name to resolve.  Which
        endpoint the socket was open for before does not matter to the stream. */
    method Connect(resolved: Error, tries: seq<Try>, socket: Option<nat>) returns (r: Spec.Ret, o: Outcome)
      requires Valid()
      modifies this
      ensures Valid() && getBuffer == old(getBuffer) && putBuffer == old(putBuffer)
      ensures Spec.Result(View(), r) == Spec.Connect(old(View()), resolved, tries)
      ensures o.ec == ec && (o.socket.Some? ==> o.socket == if o.touched == 0 then socket else Some(o.touched - 1))
    {
      hide GetArea, PutArea, Judge, Decides, Honest, ConnectError;
      InitBuffers(Spec.Cleared(past, Pending(), Spec.LostAtConnect));
      ec := resolved;
      o := ConnectToEndpoints(tries, expiry, ec, socket);
      ec := o.ec;
      r := Spec.Returned(if ec == NoError then Char(0) else Eof);
    }

    /** The destructor. */
    method Destroy(rounds: seq<SendRound>) returns (r: Spec.Ret)
      requires Valid()
      modifies this, putBuffer
      ensures Valid() && getBuffer == old(getBuffer) && putBuffer == old(putBuffer)
      ensures Spec.Result(View(), r) == Spec.Destroyed(old(View()), rounds)
    {
      hide Spec.Overflow;
      if pptr != pbase {
        r := Overflow(Eof, rounds);
      } else {
        r := Spec.Returned(Char(0));
      }
    }

    /** `expires_at`. */
    method ExpiresAt(at: int)
      requires Valid()
      modifies this`expiry
      ensures Valid() && View() == old(View()).(expiry := at)
    {
      expiry := at;
    }

    /** `expires_after`. */
    method ExpiresAfter(now: int, d: int)
      requires Valid() && Clock.Ticks(now) && Clock.Ticks(d)
      modifies this`expiry
      ensures Valid() && View() == old(View()).(expiry := Clock.Clamp(now + d))
    {
      expiry := Clock.Add(now, d);
    }

    /** Any operation of the stream does what `Spec.Step` says, so `Spec.RunLawful` is about
        this class. */
    method Perform(op: Spec.Op) returns (r: Spec.Ret)
      requires Valid() && Spec.Allowed(op)
      modifies this, getBuffer, putBuffer
      ensures Valid() && getBuffer == old(getBuffer) && (putBuffer == old(putBuffer) || fresh(putBuffer))
      ensures Spec.Result(View(), r) == Spec.Step(old(View()), op)
    {
      hide GetArea, PutArea, Spec.Close, Spec.Overflow, Spec.Underflow, Spec.Put, Spec.Get, Spec.SetUnbuffered;
      hide Spec.Connect;
      match op
      case DoPut(c, sends) => r := Sputc(c, sends);
      case DoSync(sends) => r := Sync(sends);
      case DoGet(recvs) => r := Sbumpc(recvs);
      case DoUnderflow(recvs) => r := Underflow(recvs);
      case DoSetUnbuffered => r := SetBuf(true, 0, []);
      case DoClose(sends, answer) => r := Close(sends, answer);
      case DoConnect(resolved, tries) =>
        var o;
        r, o := Connect(resolved, tries, None);
      case DoExpireAt(at) =>
        ExpiresAt(at);
        r := Spec.Returned(Char(0));
      case DoExpireAfter(now, d) =>
        ExpiresAfter(now, d);
        r := Spec.Returned(Char(0));
    }

    ghost predicate Apart(other: Streambuf)
      reads this, other
    {
      && getBuffer != other.getBuffer && getBuffer != other.putBuffer
      && putBuffer != other.getBuffer && putBuffer != other.putBuffer
    }

    /** Move construction: fresh vectors are swapped with the other's, and the positions taken
        over.  The put area starts at the other's `pptr`. */
    constructor Moved(other: Streambuf)
      requires other.Valid()
      modifies other
      ensures Valid() && other.Valid() && Apart(other)
      ensures View() == Spec.MovedTo(old(other.View())) && other.View() == Spec.INITIAL
      ensures getBuffer == old(other.getBuffer) && putBuffer == old(other.putBuffer)
      ensures fresh(other.getBuffer) && fresh(other.putBuffer)
    {
      hide GetArea, PutArea, Spec.MovedTo;
      var g, p := new byte[BUFFER_SIZE](_ => 0), new byte[BUFFER_SIZE](_ => 0);
      getBuffer, putBuffer := g, p;
      eback, gptr, egptr, pbase, pptr, epptr := Null, Null, Null, Null, Null, Null;
      ec, expiry, past := NoError, Spec.MAX_EXPIRY, Spec.NO_HISTORY;
      new;
      Adopt(other);
      other.ec := NoError;
      other.expiry := Spec.MAX_EXPIRY;
      other.InitBuffers(Spec.NO_HISTORY);
    }

    /** Move assignment; the other may be this object itself.  If closing this object's
        connection does not come back, nothing has been moved yet. */
    method MoveAssign(other: Streambuf, rounds: seq<SendRound>, answer: Error) returns (r: Spec.Ret)
      requires Valid() && other.Valid() && (this != other ==> Apart(other))
      modifies this, other, putBuffer
      ensures Valid() && other.Valid() && (this != other ==> Apart(other))
      ensures this != other ==>
                if r.Blocked? then
                  && getBuffer == old(getBuffer) && putBuffer == old(putBuffer)
                  && other.getBuffer == old(other.getBuffer) && other.putBuffer == old(other.putBuffer)
                else
                  && getBuffer == old(other.getBuffer) && putBuffer == old(other.putBuffer)
                  && other.getBuffer == old(getBuffer) && (other.putBuffer == old(putBuffer) || fresh(other.putBuffer))
      ensures this == other ==> getBuffer == old(getBuffer) && (putBuffer == old(putBuffer) || fresh(putBuffer))
      ensures r == Spec.Close(old(View()), rounds, answer).ret
      ensures r.Blocked? ==> View() == Spec.Close(old(View()), rounds, answer).stream
      ensures r.Blocked? && this != other ==> other.View() == old(other.View())
      ensures r.Returned? ==> other.View() == Spec.INITIAL
      ensures r.Returned? && this != other ==> View() == Spec.MovedTo(old(other.View()))
    {
      hide Spec.Close;
      r := Close(rounds, answer);
      if r.Returned? {
        TakeOver(other);
      }
    }

    /** Move assignment, after the connection was closed. */
    method TakeOver(other: Streambuf)
      requires Valid() && other.Valid() && (this != other ==> Apart(other))
      modifies this, other
      ensures Valid() && other.Valid() && (this != other ==> Apart(other))
      ensures this != other ==> getBuffer == old(other.getBuffer) && putBuffer == old(other.putBuffer)
      ensures other.getBuffer == old(getBuffer) && (other.putBuffer == old(putBuffer) || fresh(other.putBuffer))
      ensures other.View() == Spec.INITIAL
      ensures this != other ==> View() == Spec.MovedTo(old(other.View()))
    {
      Adopt(other);
      other.Restart();
    }

    /** The vectors are swapped, and the positions copied. */
    method Adopt(other: Streambuf)
      requires Vectors() && other.Valid() && (this != other ==> Apart(other))
      modifies this, other
      ensures other.Vectors() && other.getBuffer == old(getBuffer) && other.putBuffer == old(putBuffer)
      ensures this != other ==>
                && Valid() && getBuffer == old(other.getBuffer) && putBuffer == old(other.putBuffer)
                && View() == Spec.MovedTo(old(other.View()))
    {
      hide GetArea, PutArea, Spec.Settled;
      ghost var v := other.View();
      PutAreaBehind(other.putBuffer, other.pbase, other.pptr, other.epptr);
      ec, expiry, past := other.ec, other.expiry, Spec.MovedTo(v).past;
      var g, p := getBuffer, putBuffer;
      getBuffer, putBuffer := other.getBuffer, other.putBuffer;
      other.getBuffer, other.putBuffer := g, p;
      SetG(other.eback, other.gptr, other.egptr);
      SetP(other.pptr, other.epptr);
      assert this != other ==> View().unread == v.unread;
    }

    /** The moved-from object is put back into its initial state. */
    method Restart()
      requires Vectors()
      modifies this
      ensures Valid() && View() == Spec.INITIAL
      ensures getBuffer == old(getBuffer) && (putBuffer == old(putBuffer) || fresh(putBuffer))
    {
      ec := NoError;
      expiry := Spec.MAX_EXPIRY;
      if putBuffer.Length == 0 {
        putBuffer := new byte[BUFFER_SIZE](_ => 0);
      }
      InitBuffers(Spec.NO_HISTORY);
    }
  }

  // ------------------------------------------------- any number of objects

  class Pool {
    var slots: map<nat, Streambuf>

    static ghost predicate Separate(o: Streambuf, p: Streambuf)
      reads o, p
    {
      o != p && o.Apart(p) && p.Apart(o)
    }

    /** Every object's positions lie in its own vectors, and no two objects share one. */
    ghost predicate Valid()
      reads this, slots.Values
    {
      && (forall a :: a in slots ==> slots[a].Valid())
      && (forall a, b :: a in slots && b in slots && a != b ==> Separate(slots[a], slots[b]))
    }

    static twostate predicate Kept(o: Streambuf)
      reads o
    {
      o.getBuffer == old(o.getBuffer) && o.putBuffer == old(o.putBuffer)
    }

    /** Neither the stream nor where it is kept has changed. */
    static twostate predicate Same(o: Streambuf)
      requires old(o.Valid()) && o.Valid()
      reads o, o.getBuffer, o.putBuffer
    {
      o.View() == old(o.View()) && Kept(o)
    }

    /** All objects and vectors are in `all`. */
    ghost predicate Inside(all: set<object>)
      reads this, slots.Values
    {
      && this !in all
      && forall a :: a in slots ==> slots[a] in all && slots[a].getBuffer in all && slots[a].putBuffer in all
    }

    constructor ()
      ensures Valid() && slots == map[]
    {
      slots := map[];
    }

    /** An object that shares nothing with the others is put into a slot. */
    method Add(at: nat, o: Streambuf, ghost all: set<object>)
      requires Valid() && at !in slots && o.Valid() && Inside(all)
      requires forall a :: a in slots ==> Separate(slots[a], o) && Separate(o, slots[a])
      requires o in all && o.getBuffer in all && o.putBuffer in all
      modifies this`slots
      ensures Valid() && Inside(all) && slots == old(slots)[at := o]
    {
      hide Streambuf.Valid, Separate;
      slots := slots[at := o];
    }

    method Construct(at: nat, ghost all: set<object>) returns (ghost all': set<object>)
      requires Valid() && at !in slots && Inside(all)
      modifies this
      ensures Valid() && at in slots && slots == old(slots)[at := slots[at]]
      ensures Inside(all') && fresh(all' - all)
      ensures slots[at].View() == Spec.INITIAL
      ensures forall a :: a in old(slots) ==> Same(slots[a])
    {
      hide Streambuf.Valid, Streambuf.View, Valid;
      var o := new Streambuf();
      all' := all + {o, o.getBuffer, o.putBuffer};
      Add(at, o, all');
    }

    method MoveConstruct(at: nat, from: nat, ghost all: set<object>) returns (ghost all': set<object>)
      requires Valid() && at !in slots && from in slots && Inside(all)
      modifies this, slots[from]
      ensures Valid() && at in slots && slots == old(slots)[at := slots[at]]
      ensures Inside(all') && fresh(all' - all)
      ensures slots[at].View() == Spec.MovedTo(old(slots[from].View())) && slots[from].View() == Spec.INITIAL
      ensures forall a :: a in old(slots) && a != from ==> Same(slots[a])
    {
      hide Streambuf.Valid, Streambuf.View, Separate, Inside, Spec.MovedTo;
      var o;
      o, all' := MakeMoved(from, all);
      Add(at, o, all');
    }

    method MakeMoved(from: nat, ghost all: set<object>) returns (o: Streambuf, ghost all': set<object>)
      requires Valid() && from in slots && Inside(all)
      modifies slots[from]
      ensures Valid() && o.Valid()
      ensures Inside(all') && fresh(all' - all) && o in all' && o.getBuffer in all' && o.putBuffer in all'
      ensures forall a :: a in slots ==> Separate(slots[a], o) && Separate(o, slots[a])
      ensures o.View() == Spec.MovedTo(old(slots[from].View())) && slots[from].View() == Spec.INITIAL
      ensures forall a :: a in slots && a != from ==> Same(slots[a])
    {
      hide Streambuf.Valid, Streambuf.View;
      o := new Streambuf.Moved(slots[from]);
      all' := all + {o, slots[from].getBuffer, slots[from].putBuffer};
      forall a | a in slots && a != from
        ensures slots[a].View() == old(slots[a].View()) && Separate(slots[a], o) && Separate(slots[a], slots[from])
      {
        assert old(Separate(slots[a], slots[from]));
      }
    }

    /** The vectors of the two objects have changed hands, or were made since. */
    twostate predicate Exchanged(to: nat, from: nat)
      requires to in slots && from in slots && slots == old(slots)
      reads this, slots[to], slots[from]
    {
      var gets := {old(slots[to].getBuffer), old(slots[from].getBuffer)};
      var puts := {old(slots[to].putBuffer), old(slots[from].putBuffer)};
      && {slots[to].getBuffer, slots[from].getBuffer} == gets
      && (slots[to].putBuffer in puts || fresh(slots[to].putBuffer))
      && (slots[from].putBuffer in puts || fresh(slots[from].putBuffer))
    }

    method AssignSlot(to: nat, from: nat, sends: seq<SendRound>, answer: Error) returns (r: Spec.Ret)
      requires Valid() && to in slots && from in slots
      modifies slots[to], slots[from], slots[to].putBuffer
      ensures Valid() && Exchanged(to, from)
      ensures r == Spec.Close(old(slots[to].View()), sends, answer).ret
      ensures r.Blocked? ==> slots[to].View() == Spec.Close(old(slots[to].View()), sends, answer).stream
      ensures r.Returned? ==> slots[from].View() == Spec.INITIAL
      ensures r.Returned? && to != from ==> slots[to].View() == Spec.MovedTo(old(slots[from].View()))
      ensures forall a :: a in slots && a != to && (a != from || r.Blocked?) ==> Same(slots[a])
    {
      hide Streambuf.Valid, Streambuf.View, Spec.Close;
      assert to != from ==> Separate(slots[to], slots[from]);
      r := slots[to].MoveAssign(slots[from], sends, answer);
      forall a | a in slots && a != to && a != from
        ensures slots[a].View() == old(slots[a].View())
        ensures Separate(slots[a], slots[to]) && Separate(slots[a], slots[from])
      {
        assert old(Separate(slots[a], slots[from])) && old(Separate(slots[a], slots[to]));
      }
    }

    method MoveAssign(to: nat, from: nat, sends: seq<SendRound>, answer: Error, ghost all: set<object>)
      returns (r: Spec.Ret, ghost all': set<object>)
      requires Valid() && to in slots && from in slots && Inside(all)
      modifies slots[to], slots[from], slots[to].putBuffer
      ensures Valid() && Inside(all') && fresh(all' - all)
      ensures r == Spec.Close(old(slots[to].View()), sends, answer).ret
      ensures r.Blocked? ==> slots[to].View() == Spec.Close(old(slots[to].View()), sends, answer).stream
      ensures r.Returned? ==> slots[from].View() == Spec.INITIAL
      ensures r.Returned? && to != from ==> slots[to].View() == Spec.MovedTo(old(slots[from].View()))
      ensures forall a :: a in slots && a != to && (a != from || r.Blocked?) ==> Same(slots[a])
    {
      hide Streambuf.Valid, Streambuf.View, Separate, Spec.Close, Spec.MovedTo;
      r := AssignSlot(to, from, sends, answer);
      all' := all + {slots[to].putBuffer, slots[from].putBuffer};
    }

    /** Any operation of one stream, connecting included, leaves the others alone. */
    method Use(at: nat, op: Spec.Op) returns (r: Spec.Ret)
      requires Valid() && at in slots && Spec.Allowed(op)
      modifies slots[at], slots[at].getBuffer, slots[at].putBuffer
      ensures Valid() && slots[at].getBuffer == old(slots[at].getBuffer)
      ensures slots[at].putBuffer == old(slots[at].putBuffer) || fresh(slots[at].putBuffer)
      ensures Spec.Result(slots[at].View(), r) == Spec.Step(old(slots[at].View()), op)
      ensures forall a :: a in slots && a != at ==> Same(slots[a])
    {
      hide Streambuf.Valid, Streambuf.View, Spec.Step;
      r := slots[at].Perform(op);
    }

    method Destroy(at: nat, sends: seq<SendRound>, ghost all: set<object>) returns (r: Spec.Ret)
      requires Valid() && at in slots && Inside(all)
      modifies this, slots[at], slots[at].putBuffer
      ensures Valid() && Inside(all) && slots == if r.Blocked? then old(slots) else old(slots) - {at}
      ensures r == Spec.Destroyed(old(slots[at].View()), sends).ret
      ensures r.Blocked? ==> slots[at].View() == Spec.Destroyed(old(slots[at].View()), sends).stream
      ensures forall a :: a in slots && a != at ==> Same(slots[a])
    {
      hide Streambuf.Valid, Streambuf.View, Spec.Destroyed;
      r := slots[at].Destroy(sends);
      if r.Returned? {
        Remove(at, all);
      }
    }

    method Remove(at: nat, ghost all: set<object>)
      requires Valid() && Inside(all)
      modifies this`slots
      ensures Valid() && Inside(all) && slots == old(slots) - {at}
    {
      hide Streambuf.Valid, Separate;
      slots := slots - {at};
    }

    // ------------------------------------------------- every run

    /** What the objects stand for. */
    ghost predicate Shows(p: Spec.Objects)
      reads *
    {
      && Valid()
      && (forall a :: a in p.live <==> a in slots)
      && (forall a :: a in slots ==> slots[a].View() == p.live[a])
    }

    // What is done to one object or two is one step of the whole pool.

    method ApplyConstruct(at: nat, ghost p: Spec.Objects, ghost all: set<object>)
      returns (r: Spec.Ret, ghost all': set<object>)
      requires Shows(p) && Spec.PoolAllowed(p, Spec.Construct(at)) && Inside(all)
      modifies this
      ensures Inside(all') && fresh(all' - all)
      ensures Shows(Spec.PoolStep(p, Spec.Construct(at)).objects)
      ensures r == Spec.PoolStep(p, Spec.Construct(at)).ret
    {
      hide Streambuf.Valid, Streambuf.View, Separate, Inside, Spec.Step;
      all' := Construct(at, all);
      r := Spec.Returned(Char(0));
    }

    method ApplyMoveConstruct(at: nat, from: nat, ghost p: Spec.Objects, ghost all: set<object>)
      returns (r: Spec.Ret, ghost all': set<object>)
      requires Shows(p) && Spec.PoolAllowed(p, Spec.MoveConstruct(at, from)) && Inside(all)
      modifies this, slots[from]
      ensures Inside(all') && fresh(all' - all)
      ensures Shows(Spec.PoolStep(p, Spec.MoveConstruct(at, from)).objects)
      ensures r == Spec.PoolStep(p, Spec.MoveConstruct(at, from)).ret
    {
      hide Streambuf.Valid, Streambuf.View, Separate, Inside, Kept, Spec.MovedTo;
      all' := MoveConstruct(at, from, all);
      r := Spec.Returned(Char(0));
    }

    method ApplyMoveAssign(to: nat, from: nat, sends: seq<SendRound>, answer: Error,
                           ghost p: Spec.Objects, ghost all: set<object>)
      returns (r: Spec.Ret, ghost all': set<object>)
      requires Shows(p) && Spec.PoolAllowed(p, Spec.MoveAssign(to, from, sends, answer)) && Inside(all)
      modifies slots[to], slots[from], slots[to].putBuffer
      ensures Inside(all') && fresh(all' - all)
      ensures Shows(Spec.PoolStep(p, Spec.MoveAssign(to, from, sends, answer)).objects)
      ensures r == Spec.PoolStep(p, Spec.MoveAssign(to, from, sends, answer)).ret
    {
      hide Streambuf.Valid, Streambuf.View, Separate, Inside, Kept, Spec.MovedTo, Spec.Close, Spec.Ended;
      assert slots[to].View() == p.live[to] && slots[from].View() == p.live[from];
      r, all' := MoveAssign(to, from, sends, answer, all);
      ghost var q := Spec.PoolStep(p, Spec.MoveAssign(to, from, sends, answer)).objects.live;
      assert slots[to].View() == q[to] && slots[from].View() == q[from];
    }

    method ApplyUse(at: nat, op: Spec.Op, ghost p: Spec.Objects, ghost all: set<object>)
      returns (r: Spec.Ret, ghost all': set<object>)
      requires Shows(p) && Spec.PoolAllowed(p, Spec.Use(at, op)) && Inside(all)
      modifies slots[at], slots[at].getBuffer, slots[at].putBuffer
      ensures Inside(all') && fresh(all' - all)
      ensures Shows(Spec.PoolStep(p, Spec.Use(at, op)).objects)
      ensures r == Spec.PoolStep(p, Spec.Use(at, op)).ret
    {
      hide Streambuf.Valid, Streambuf.View, Separate, Spec.Step;
      r := Use(at, op);
      all' := all + {slots[at].putBuffer};
    }

    method ApplyDestroy(at: nat, sends: seq<SendRound>, ghost p: Spec.Objects, ghost all: set<object>)
      returns (r: Spec.Ret, ghost all': set<object>)
      requires Shows(p) && Spec.PoolAllowed(p, Spec.Destroy(at, sends)) && Inside(all)
      modifies this, slots[at], slots[at].putBuffer
      ensures Inside(all') && fresh(all' - all)
      ensures Shows(Spec.PoolStep(p, Spec.Destroy(at, sends)).objects)
      ensures r == Spec.PoolStep(p, Spec.Destroy(at, sends)).ret
    {
      hide Streambuf.Valid, Streambuf.View, Separate, Inside, Spec.Destroyed;
      assert slots[at].View() == p.live[at];
      r := Destroy(at, sends, all);
      all' := all;
    }

    method Apply(op: Spec.PoolOp, ghost p: Spec.Objects, ghost all: set<object>)
      returns (r: Spec.Ret, ghost all': set<object>)
      requires Shows(p) && Spec.PoolAllowed(p, op) && Inside(all)
      modifies this, all
      ensures Shows(Spec.PoolStep(p, op).objects) && r == Spec.PoolStep(p, op).ret
      ensures Inside(all') && fresh(all' - all)
    {
      hide Streambuf.Valid, Streambuf.View, Separate, Spec.PoolStep;
      match op
      case Construct(at) => r, all' := ApplyConstruct(at, p, all);
      case MoveConstruct(at, from) => r, all' := ApplyMoveConstruct(at, from, p, all);
      case MoveAssign(to, from, sends, answer) => r, all' := ApplyMoveAssign(to, from, sends, answer, p, all);
      case Use(at, use) => r, all' := ApplyUse(at, use, p, all);
      case Destroy(at, sends) => r, all' := ApplyDestroy(at, sends, p, all);
    }

    /** Any number of objects, used in any way: positions stay in each object's own vectors, no
        vector is shared, the objects do what the run of the model does, and so every object
        keeps its output in order and its reader misses nothing. */
    static method Replay(ops: seq<Spec.PoolOp>) returns (pool: Pool)
      requires Spec.PoolAllowedRun(Spec.NO_OBJECTS, ops)
      ensures pool.Shows(Spec.PoolRun(Spec.NO_OBJECTS, ops)) && pool.Valid()
      ensures forall a :: a in pool.slots ==>
                Spec.Accounted(pool.slots[a].View()) && Spec.ReadLaw(pool.slots[a].View())
    {
      pool := new Pool();
      ghost var p, all: set<object> := Spec.NO_OBJECTS, {};
      hide Spec.PoolStep, Spec.PoolAllowed;
      assert ops[0..] == ops;
      for k := 0 to |ops|
        invariant pool.Shows(p) && pool.Inside(all) && fresh(pool) && fresh(all)
        invariant Spec.PoolAllowedRun(p, ops[k..]) && Spec.PoolRun(p, ops[k..]) == Spec.PoolRun(Spec.NO_OBJECTS, ops)
      {
        hide Pool.Shows, Pool.Inside;
        assert ops[k..][0] == ops[k] && ops[k..][1..] == ops[k + 1..];
        var r;
        r, all := pool.Apply(ops[k], p, all);
        p := Spec.PoolStep(p, ops[k]).objects;
        if r.Blocked? {
          break;
        }
      }
      Spec.PoolRunSound(Spec.NO_OBJECTS, ops);
      assert ops[|ops|..] == [];
      assert Spec.PoolSound(p);
    }
  }
}
