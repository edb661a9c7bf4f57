/** `basic_streambuf`: a byte queue in one growable array, addressed by the positions of
    `std::streambuf`. */
module Streambuf {
  import opened Machine
  import Spec = StreambufSpec

  class BasicStreambuf {
    const maxSize: size_t
    var buffer: array<byte>
    var capacity: size_t
    // Positions, as offsets from the start of the array.
    var eback: size_t
    var gptr: size_t
    var egptr: size_t
    var pbase: size_t
    var pptr: size_t
    var epptr: size_t

    ghost predicate Valid()
      reads this
    {
      && eback == 0 <= gptr <= egptr <= pptr <= epptr <= maxSize
      && pbase <= pptr
      && MinInt(maxSize as int, Spec.BUFFER_DELTA) <= epptr as int
      && buffer.Length == MaxInt(epptr as int, 1) <= capacity as int
    }

    ghost function Areas(): (a: Spec.Areas)
      requires Valid()
      reads this, buffer
      ensures a.Within(maxSize as int)
    {
      Spec.Cut(buffer[..epptr], gptr as int, pptr as int)
    }

    lemma AreaSizes()
      requires Valid()
      ensures |Areas().dead| == gptr as int && |Areas().unread| == pptr as int - gptr as int
      ensures |Areas().room| == epptr as int - pptr as int && |Areas().All()| == epptr as int
    {
    }

    constructor (maximumSize: size_t)
      ensures Valid() && fresh(buffer) && maxSize == maximumSize
      ensures Areas() == Spec.Initial(maximumSize as int)
    {
      maxSize := maximumSize;
      var pend: size_t := MinInt(maximumSize as int, Spec.BUFFER_DELTA) as size_t;
      buffer := new byte[MaxInt(pend as int, 1)](_ => 0);
      var c: size_t :| MaxInt(pend as int, 1) <= c as int;
      capacity := c;
      eback, gptr, egptr := 0, 0, 0;
      pbase, pptr, epptr := 0, 0, pend;
    }

    function Size(): (n: size_t)
      requires Valid()
      reads this, buffer
      ensures n as int == |Areas().unread|
    {
      pptr - gptr
    }

    function Data(): (s: seq<byte>)
      requires Valid()
      reads this, buffer
      ensures s == Areas().unread
    {
      assert buffer[..epptr][gptr..pptr] == buffer[gptr..pptr];
      buffer[gptr..pptr]
    }

    /** `prepare`: the caller may then store into the `n` bytes at `pptr`. */
    method Prepare(n: size_t) returns (threw: bool)
      requires Valid()
      modifies this, buffer
      ensures Valid() && (buffer == old(buffer) || fresh(buffer))
      ensures threw <==> old(Size()) as int + n as int > maxSize as int
      ensures !threw ==> n <= epptr - pptr && Data() == old(Data())
      ensures Areas() == Spec.AfterReserve(old(Areas()), n as int, maxSize as int).areas
    {
      hide Areas, Spec.AfterReserve;
      ghost var a := Areas();
      AreaSizes();
      Spec.ReserveThrowsIff(a, n as int, maxSize as int);
      Spec.PrepareRoom(a, n as int, maxSize as int);
      threw := Reserve(n);
      AreaSizes();
    }

    /** The caller of `prepare` storing into the memory it was given. */
    method StorePrepared(i: size_t, b: byte)
      requires Valid() && i < epptr - pptr
      modifies buffer
      ensures Valid() && Areas() == old(Areas()).(room := old(Areas().room)[i as int := b])
    {
      Spec.CutStore(buffer[..epptr], gptr as int, pptr as int, i as int, b);
      buffer[pptr + i] := b;
      assert buffer[..epptr] == old(buffer[..epptr])[(pptr + i) as int := b];
    }

    method Commit(n: size_t)
      requires Valid()
      modifies this
      ensures Valid() && buffer == old(buffer)
      ensures Areas() == Spec.AfterCommit(old(Areas()), n as int)
    {
      hide Spec.Cut, Spec.AfterCommit;
      Spec.CutCommit(buffer[..epptr], gptr as int, pptr as int, n as int);
      var k := if n < epptr - pptr then n else epptr - pptr;
      SetP(pptr + k, epptr);
      SetG(eback, gptr, pptr);
    }

    method Consume(n: size_t)
      requires Valid()
      modifies this
      ensures Valid() && buffer == old(buffer)
      ensures Areas() == Spec.AfterConsume(old(Areas()), n as int)
    {
      hide Spec.Cut, Spec.AfterConsume;
      Spec.CutConsume(buffer[..epptr], gptr as int, pptr as int, n as int);
      if egptr < pptr {
        SetG(0, gptr, pptr);
      }
      var k := n;
      if gptr as int + n as int > pptr as int {
        k := pptr - gptr;
      }
      SetG(eback, gptr + k, egptr);
    }

    /** Makes every unread byte readable through the get area; `Eof` exactly when there is
        none. */
    method Underflow() returns (r: IntType)
      requires Valid()
      modifies this
      ensures Valid() && buffer == old(buffer) && Areas() == old(Areas())
      ensures r == if Data() == [] then Eof else Char(Data()[0])
      ensures r.Char? ==> egptr == pptr
    {
      if gptr < pptr {
        SetG(0, gptr, pptr);
        r := Char(buffer[gptr]);
      } else {
        r := Eof;
      }
    }

    /** Returns `None` when `std::length_error` is thrown. */
    method Overflow(c: IntType) returns (r: Option<IntType>)
      requires Valid()
      modifies this, buffer
      ensures Valid() && (buffer == old(buffer) || fresh(buffer))
      ensures c.Eof? ==> r.Some? && r.value.Char? && Areas() == old(Areas())
      ensures c.Char? ==> (r.None? <==> old(Size()) == maxSize)
      ensures c.Char? && r.None? ==> Areas() == old(Areas())
      ensures c.Char? && r.Some? ==> r.value == c && Data() == old(Data()) + [c.c]
      ensures c.Char? ==> Areas() == Spec.AfterPut(old(Areas()), c.c, maxSize as int).areas
    {
      hide Areas, Spec.AfterReserve;
      if c.Eof? {
        return Some(Char(0));
      }
      AreaSizes();
      Spec.PutThrowsIffFull(Areas(), c.c, maxSize as int);
      if pptr == epptr {
        var threw := ReserveForOne();
        if threw {
          return None;
        }
        AreaSizes();
      }
      Append(c.c);
      r := Some(c);
    }

    method ReserveForOne() returns (threw: bool)
      requires Valid()
      modifies this, buffer
      ensures Valid() && (buffer == old(buffer) || fresh(buffer))
      ensures var a, max := old(Areas()), maxSize as int;
              var o := Spec.AfterReserve(a, Spec.OverflowReserveSize(a, max), max);
              (threw <==> o.Threw?) && Areas() == o.areas
      ensures !threw ==> pptr < epptr
    {
      hide Areas, Spec.AfterReserve;
      AreaSizes();
      Spec.PrepareRoom(Areas(), Spec.OverflowReserveSize(Areas(), maxSize as int), maxSize as int);
      var size := pptr - gptr;
      if size < maxSize && maxSize - size < Spec.BUFFER_DELTA as size_t {
        threw := Reserve(maxSize - size);
      } else {
        threw := Reserve(Spec.BUFFER_DELTA as size_t);
      }
      AreaSizes();
    }

    /** `*pptr() = c; pbump(1)`. */
    method Append(c: byte)
      requires Valid() && pptr < epptr
      modifies this`pptr, buffer
      ensures Valid()
      ensures Areas() == Spec.Areas(old(Areas()).dead, old(Areas()).unread + [c], old(Areas()).room[1..])
    {
      Spec.CutAppend(buffer[..epptr], gptr as int, pptr as int, c);
      buffer[pptr] := c;
      pptr := pptr + 1;
      assert buffer[..epptr] == old(buffer[..epptr])[old(pptr) as int := c];
    }

    method Reserve(n: size_t) returns (threw: bool)
      requires Valid()
      modifies this, buffer
      ensures Valid() && (buffer == old(buffer) || fresh(buffer))
      ensures threw <==> Spec.AfterReserve(old(Areas()), n as int, maxSize as int).Threw?
      ensures Areas() == Spec.AfterReserve(old(Areas()), n as int, maxSize as int).areas
      ensures threw ==> buffer == old(buffer) && capacity == old(capacity)
      ensures threw ==> eback == old(eback) && gptr == old(gptr) && egptr == old(egptr)
      ensures threw ==> pbase == old(pbase) && pptr == old(pptr) && epptr == old(epptr)
    {
      hide Spec.AfterReserve, Spec.Shifted, Spec.Cut, Spec.ShiftedInPlace;
      ghost var a := Areas();
      ghost var o := Spec.AfterReserve(a, n as int, maxSize as int);
      AreaSizes();
      Spec.ReserveCases(a, n as int, maxSize as int);
      if n <= epptr - pptr {
        assert o == Spec.Done(a);
        return false;
      }
      var pnext := Shift();
      var pend := epptr;
      if n > pend - pnext {
        if n <= maxSize && pnext <= maxSize - n {
          pend := pnext + n;
          Grow(pend);
        } else {
          assert o == Spec.Threw(Spec.ShiftedInPlace(a));
          return true;
        }
      }
      assert o == Spec.Done(Spec.MovedToFront(a, pend as int));
      SetG(0, 0, pnext);
      SetP(pnext, pend);
      assert buffer[..pend] == Spec.Shifted(a) + Spec.Zeros(pend as int - |a.All()|);
      threw := false;
    }

    /** Moves the unread bytes to the front of the array and returns where they end. */
    method Shift() returns (pnext: size_t)
      requires Valid()
      modifies buffer
      ensures Valid() && pnext as int == |old(Areas()).unread|
      ensures buffer[..epptr] == Spec.Shifted(old(Areas()))
      ensures Areas() == Spec.ShiftedInPlace(old(Areas()))
    {
      hide Spec.Shifted;
      ghost var a := Areas();
      AreaSizes();
      Spec.CutCovers(buffer[..epptr], gptr as int, pptr as int);
      pnext := pptr;
      if gptr > 0 {
        pnext := pnext - gptr;
        MoveDown(gptr, pnext);
      }
      Spec.NothingToShift(a);
    }

    /** `memmove` of the unread bytes to the front of the array. */
    method MoveDown(from: size_t, count: size_t)
      requires Valid() && from == gptr && count == pptr - gptr
      modifies buffer
      ensures buffer[..epptr] == Spec.Shifted(old(Areas()))
      ensures epptr == old(epptr)
    {
      hide Spec.Shifted, Spec.Cut;
      ghost var was := buffer[..epptr];
      ghost var want := Spec.Shifted(Areas());
      forall i | 0 <= i < count as int {
        buffer[i] := buffer[from as int + i];
      }
      forall i | 0 <= i < epptr as int
        ensures buffer[..epptr][i] == want[i]
      {
        Spec.ShiftedCut(was, gptr as int, pptr as int, i);
      }
    }

    /** `std::vector::resize` to a greater length: the new elements are zero. */
    method Grow(n: size_t)
      requires Valid() && epptr < n <= maxSize
      modifies this`buffer, this`capacity
      ensures fresh(buffer) && buffer.Length == n as int <= capacity as int
      ensures buffer[..n] == old(buffer[..epptr]) + Spec.Zeros(n as int - epptr as int)
    {
      var was := buffer;
      var grown := new byte[n](_ => 0);
      forall i | 0 <= i < was.Length {
        grown[i] := was[i];
      }
      buffer := grown;
      if capacity < n {
        var c: size_t :| n <= c;
        capacity := c;
      }
    }

    method SetG(back: size_t, next: size_t, end: size_t)
      modifies this`eback, this`gptr, this`egptr
      ensures eback == back && gptr == next && egptr == end
    {
      eback, gptr, egptr := back, next, end;
    }

    method SetP(base: size_t, end: size_t)
      modifies this`pbase, this`pptr, this`epptr
      ensures pbase == pptr == base && epptr == end
    {
      pbase, pptr, epptr := base, base, end;
    }

    /** `read_size_helper`: how much to read next. */
    function ReadSize(limit: size_t): (n: size_t)
      requires Valid()
      reads this, buffer
      ensures n <= limit && Size() as int + n as int <= maxSize as int
      ensures n == 0 <==> limit == 0 || Size() == maxSize
      ensures n as int <= MaxInt(512, capacity as int - Size() as int)
      ensures n == limit || n == maxSize - Size() ||
              (n >= 512 && n as int >= capacity as int - Size() as int)
    {
      var spare := capacity - Size();
      var want := if 512 < spare then spare else 512;
      var left := maxSize - Size();
      var bound := if limit < left then limit else left;
      if want < bound then want else bound
    }

    // ------------------------------------------------- std::streambuf's own operations

    method Sputc(c: byte) returns (ok: bool)
      requires Valid()
      modifies this, buffer
      ensures Valid() && (buffer == old(buffer) || fresh(buffer))
      ensures ok <==> old(Size()) < maxSize
      ensures Areas() == Spec.AfterPut(old(Areas()), c, maxSize as int).areas
    {
      hide Areas, Spec.AfterReserve;
      AreaSizes();
      Spec.PutThrowsIffFull(Areas(), c, maxSize as int);
      if pptr < epptr {
        Append(c);
        ok := true;
      } else {
        var r := Overflow(Char(c));
        ok := r.Some?;
      }
    }

    /** Reads one character; the lag of `egptr` behind `pptr` is not visible. */
    method Sbumpc() returns (r: IntType)
      requires Valid()
      modifies this
      ensures Valid() && buffer == old(buffer)
      ensures r == if old(Data()) == [] then Eof else Char(old(Data())[0])
      ensures Areas() == Spec.AfterConsume(old(Areas()), 1)
    {
      hide Areas, Spec.AfterConsume;
      AreaSizes();
      if gptr < egptr {
        FirstUnread();
        r := Char(buffer[gptr]);
        Bump();
      } else {
        r := Underflow();
        if r.Char? {
          AreaSizes();
          Bump();
        } else {
          Spec.ConsumeNothing(Areas());
        }
      }
    }

    lemma FirstUnread()
      requires Valid() && gptr < pptr
      ensures Data() != [] && Data()[0] == buffer[gptr]
    {
    }

    /** `gbump(1)`. */
    method Bump()
      requires Valid() && gptr < egptr
      modifies this`gptr
      ensures Valid() && Areas() == Spec.AfterConsume(old(Areas()), 1)
    {
      hide Spec.Cut, Spec.AfterConsume;
      Spec.CutConsume(buffer[..epptr], gptr as int, pptr as int, 1);
      gptr := gptr + 1;
    }

    /** Any sequence of uses does to the array what `Spec.Run` says, so `Spec.RunIsFifo`
        and `Spec.RunWithin` are about this class. */
    method Replay(ops: seq<Spec.Op>)
      requires Valid()
      requires forall i :: 0 <= i < |ops| && (ops[i].Prepare? || ops[i].Commit? || ops[i].Consume?) ==>
                 ops[i].n <= SIZE_MAX
      modifies this, buffer
      ensures Valid() && (buffer == old(buffer) || fresh(buffer))
      ensures Areas() == Spec.Run(old(Areas()), ops, maxSize as int)
    {
      hide Areas, Spec.Step;
      var k := 0;
      assert ops[0..] == ops;
      while k < |ops|
        invariant 0 <= k <= |ops|
        invariant Valid() && (buffer == old(buffer) || fresh(buffer))
        invariant Spec.Run(Areas(), ops[k..], maxSize as int) == Spec.Run(old(Areas()), ops, maxSize as int)
      {
        assert ops[k..][1..] == ops[k + 1..];
        Use(ops[k]);
        k := k + 1;
      }
      assert ops[|ops|..] == [];
    }

    method Use(op: Spec.Op)
      requires Valid()
      requires op.Prepare? || op.Commit? || op.Consume? ==> op.n <= SIZE_MAX
      modifies this, buffer
      ensures Valid() && (buffer == old(buffer) || fresh(buffer))
      ensures Areas() == Spec.Step(old(Areas()), op, maxSize as int).areas
    {
      hide Areas, Spec.AfterReserve, Spec.AfterPut, Spec.AfterCommit, Spec.AfterConsume;
      AreaSizes();
      match op
      case Prepare(n) => var _ := Prepare(n as size_t);
      case Write(i, b) => if i < (epptr - pptr) as int { StorePrepared(i as size_t, b); }
      case Commit(n) => Commit(n as size_t);
      case Consume(n) => Consume(n as size_t);
      case Put(c) => var _ := Sputc(c);
      case Get => var _ := Sbumpc();
    }
  }
}
