/** `connect_to_endpoints`: trying endpoints one after the other. */
module SocketConnect {
  import opened Machine
  import opened SocketSpec

  /** What the system answers while one endpoint is tried, as far as it is asked.
      `optionRead` is `None` when `getsockopt` itself fails, with the error it leaves. */
  datatype Try = Try(
    now: int, open: Error, connect: Error, poll: Poll, optionRead: Option<Error>, optionError: Error)

  /** How the trying of one endpoint ends. */
  datatype Verdict =
    | Connected              // a clean `connect`, or a poll that did not fail and a clear socket
    | Rejected(e: Error)     // go on with the next endpoint
    | Late                   // the time was past the expiry before the endpoint was touched
    | Abandoned(e: Error)    // the socket error could not be read

  function Judge(t: Try, expiry: int): Verdict {
    if expiry < t.now then Late
    else if t.open != NoError then Rejected(t.open)
    else if t.connect == NoError then Connected
    else if t.connect != InProgress && t.connect != WouldBlock then Rejected(t.connect)
    else if t.poll.PollFailed? then Rejected(t.poll.e)
    else if t.optionRead.None? then Abandoned(t.optionError)
    else if t.optionRead.value != NoError then Rejected(t.optionRead.value)
    else Connected
  }

  function ErrorOf(v: Verdict): Error {
    match v
    case Connected => NoError
    case Rejected(e) => e
    case Late => TimedOut
    case Abandoned(e) => e
  }

  // ------------------------------------------------------------ in terms of the answers

  predicate UnderWay(t: Try) {
    t.connect == InProgress || t.connect == WouldBlock
  }

  /** The endpoint was tried in time and ended with the error `e`, and the next one is tried:
      the socket did not open, `connect` failed at once, the poll failed, or the socket has an
      error to show. */
  predicate TurnedAway(t: Try, expiry: int, e: Error) {
    && t.now <= expiry
    && ((t.open != NoError && e == t.open) ||
        (t.open == NoError && t.connect != NoError && !UnderWay(t) && e == t.connect) ||
        (t.open == NoError && UnderWay(t) && t.poll == PollFailed(e)) ||
        (t.open == NoError && UnderWay(t) && !t.poll.PollFailed? && t.optionRead == Some(e) && e != NoError))
  }

  /** No further endpoint is tried, and `e` is the error: none when `connect` was clean, or the
      poll did not fail and the socket shows no error. */
  predicate Stops(t: Try, expiry: int, e: Error) {
    || (expiry < t.now && e == TimedOut)
    || (t.now <= expiry && t.open == NoError && t.connect == NoError && e == NoError)
    || (t.now <= expiry && t.open == NoError && UnderWay(t) && !t.poll.PollFailed? &&
        ((t.optionRead == None && e == t.optionError) || (t.optionRead == Some(NoError) && e == NoError)))
  }

  ghost predicate SomeError(t: Try, expiry: int) {
    exists e :: TurnedAway(t, expiry, e)
  }

  lemma JudgeIs(t: Try, expiry: int)
    ensures var v := Judge(t, expiry);
            && (v.Rejected? <==> SomeError(t, expiry))
            && (forall e :: TurnedAway(t, expiry, e) <==> v == Rejected(e))
            && (forall e :: Stops(t, expiry, e) <==> !v.Rejected? && e == ErrorOf(v))
            && (v.Late? <==> expiry < t.now)
  {
    if Judge(t, expiry).Rejected? {
      assert TurnedAway(t, expiry, Judge(t, expiry).e);
    }
  }

  /** The error left behind, how many endpoints were touched, and which one the socket was
      last opened for. */
  datatype Outcome = Outcome(ec: Error, touched: nat, socket: Option<nat>)

  /** The first endpoint that is not turned away decides. */
  ghost predicate Decides(tries: seq<Try>, expiry: int, k: nat) {
    && k < |tries| && !SomeError(tries[k], expiry)
    && forall i :: 0 <= i < k ==> SomeError(tries[i], expiry)
  }

  ghost predicate AllRejected(tries: seq<Try>, expiry: int) {
    forall i :: 0 <= i < |tries| ==> SomeError(tries[i], expiry)
  }

  /** A system call that fails leaves an error. */
  predicate Honest(tries: seq<Try>) {
    forall i :: 0 <= i < |tries| ==>
      (tries[i].poll.PollFailed? ==> tries[i].poll.e != NoError) && tries[i].optionError != NoError
  }

  /** The error with which trying these endpoints ends, when `ec` is there at the start. */
  function ConnectError(ec: Error, tries: seq<Try>, expiry: int): Error
    decreases |tries|
  {
    if ec != NoError then ec
    else if tries == [] then NotFound
    else if Judge(tries[0], expiry).Rejected? && |tries| > 1 then ConnectError(ec, tries[1..], expiry)
    else ErrorOf(Judge(tries[0], expiry))
  }

  lemma ErrorAtStart(ec: Error, tries: seq<Try>, expiry: int)
    ensures ec != NoError ==> ConnectError(ec, tries, expiry) == ec
  {
  }

  lemma {:induction false} ErrorOfDecider(tries: seq<Try>, expiry: int, k: nat)
    requires Decides(tries, expiry, k)
    ensures Stops(tries[k], expiry, ConnectError(NoError, tries, expiry))
    decreases k
  {
    hide Judge, Stops, SomeError;
    JudgeIs(tries[0], expiry);
    if k > 0 {
      ErrorOfDecider(tries[1..], expiry, k - 1);
    }
  }

  lemma {:induction false} ErrorOfLast(tries: seq<Try>, expiry: int)
    requires AllRejected(tries, expiry) && tries != []
    ensures TurnedAway(tries[|tries| - 1], expiry, ConnectError(NoError, tries, expiry))
    decreases |tries|
  {
    hide Judge, TurnedAway, SomeError;
    JudgeIs(tries[0], expiry);
    if |tries| > 1 {
      ErrorOfLast(tries[1..], expiry);
    }
  }

  lemma {:induction false} DeciderOrNone(tries: seq<Try>, expiry: int) returns (k: nat)
    ensures k < |tries| ==> Decides(tries, expiry, k)
    ensures k >= |tries| ==> AllRejected(tries, expiry)
    decreases |tries|
  {
    hide SomeError;
    if tries == [] || !SomeError(tries[0], expiry) {
      k := 0;
    } else {
      var rest := tries[1..];
      var j := DeciderOrNone(rest, expiry);
      assert forall i :: 0 < i < |tries| ==> tries[i] == rest[i - 1];
      k := j + 1;
    }
  }

  lemma OneDecider(tries: seq<Try>, expiry: int, j: nat, k: nat)
    requires Decides(tries, expiry, j) && Decides(tries, expiry, k)
    ensures j == k
  {
  }

  lemma StopsOnce(t: Try, expiry: int, e: Error, e': Error)
    requires Stops(t, expiry, e) && Stops(t, expiry, e')
    ensures e == e'
  {
  }

  lemma TurnedAwayOnce(t: Try, expiry: int, e: Error, e': Error)
    requires TurnedAway(t, expiry, e) && TurnedAway(t, expiry, e')
    ensures e == e'
  {
  }

  /** Endpoints in front of `k` were turned away, and `k` leaves the error `e`. */
  ghost predicate EndsAt(tries: seq<Try>, expiry: int, k: nat, e: Error) {
    && k < |tries| && (forall i :: 0 <= i < k ==> SomeError(tries[i], expiry))
    && (Stops(tries[k], expiry, e) || (k == |tries| - 1 && TurnedAway(tries[k], expiry, e)))
  }

  lemma StopsDecides(tries: seq<Try>, expiry: int, k: nat, e: Error)
    requires EndsAt(tries, expiry, k, e) && Stops(tries[k], expiry, e)
    ensures Decides(tries, expiry, k)
  {
    JudgeIs(tries[k], expiry);
    hide Judge, Stops, TurnedAway;
  }

  /** Trying endpoints ends with the error `e` exactly when the first endpoint that is not
      turned away stops with it, or all are turned away and the last one with it, or there are
      none and it is `NotFound`. */
  lemma ConnectErrorIff(tries: seq<Try>, expiry: int, e: Error)
    ensures ConnectError(NoError, tries, expiry) == e <==>
            if tries == [] then e == NotFound else exists k: nat :: EndsAt(tries, expiry, k, e)
  {
    hide Judge, Stops, TurnedAway, SomeError;
    if tries != [] {
      var d := DeciderOrNone(tries, expiry);
      var actual := ConnectError(NoError, tries, expiry);
      if d < |tries| {
        ErrorOfDecider(tries, expiry, d);
        assert EndsAt(tries, expiry, d, actual);
      } else {
        ErrorOfLast(tries, expiry);
        assert EndsAt(tries, expiry, |tries| - 1, actual);
      }
      forall k: nat | EndsAt(tries, expiry, k, e)
        ensures e == actual
      {
        EndsOnce(tries, expiry, k, e);
      }
    }
  }

  lemma EndsOnce(tries: seq<Try>, expiry: int, k: nat, e: Error)
    requires EndsAt(tries, expiry, k, e)
    ensures ConnectError(NoError, tries, expiry) == e
  {
    hide Judge, Stops, TurnedAway, SomeError;
    var actual := ConnectError(NoError, tries, expiry);
    if Stops(tries[k], expiry, e) {
      StopsDecides(tries, expiry, k, e);
      ErrorOfDecider(tries, expiry, k);
      StopsOnce(tries[k], expiry, e, actual);
    } else {
      AwayIsError(tries[k], expiry, e);
      ErrorOfLast(tries, expiry);
      TurnedAwayOnce(tries[k], expiry, e, actual);
    }
  }

  lemma AwayIsError(t: Try, expiry: int, e: Error)
    requires TurnedAway(t, expiry, e)
    ensures SomeError(t, expiry)
  {
  }

  /** The endpoint accepted at once, or the poll did not fail and the socket has no error. */
  predicate Accepts(t: Try, expiry: int) {
    && t.now <= expiry && t.open == NoError
    && (t.connect == NoError || (UnderWay(t) && !t.poll.PollFailed? && t.optionRead == Some(NoError)))
  }

  /** The endpoint with which trying stopped had its connection reported by the system. */
  ghost predicate ReallyConnected(tries: seq<Try>, expiry: int) {
    exists k: nat :: Decides(tries, expiry, k) && Accepts(tries[k], expiry) &&
                     (tries[k].connect == NoError || tries[k].poll == Ready)
  }

  /** Trying endpoints ends without an error exactly when the deciding one accepts: at once, or
      without an error after a poll that did not fail.  So the end of the time that
      `poll_connect` was given is reported as success, and a success is a connection exactly
      when the deciding endpoint accepted at once or its poll did not run out of time. */
  lemma SuccessIff(tries: seq<Try>, expiry: int)
    requires Honest(tries)
    ensures ConnectError(NoError, tries, expiry) == NoError <==>
            exists k: nat :: Decides(tries, expiry, k) && Accepts(tries[k], expiry)
    ensures ConnectError(NoError, tries, expiry) == NoError ==>
            (ReallyConnected(tries, expiry) <==>
             forall k: nat :: Decides(tries, expiry, k) ==> tries[k].connect == NoError || !tries[k].poll.Elapsed?)
  {
    hide Judge, SomeError;
    var k := DeciderOrNone(tries, expiry);
    if k < |tries| {
      ErrorOfDecider(tries, expiry, k);
      assert Decides(tries, expiry, k);
      forall j: nat | Decides(tries, expiry, j)
        ensures j == k
      {
        OneDecider(tries, expiry, j, k);
      }
    } else if tries != [] {
      ErrorOfLast(tries, expiry);
    }
  }

  /** An endpoint that never answers: the error is clear and there is no connection. */
  lemma SuccessCanMislead(expiry: int)
    ensures var silent := Try(expiry, NoError, InProgress, Elapsed, Some(NoError), Other(0));
            && Honest([silent]) && ConnectError(NoError, [silent], expiry) == NoError
            && !ReallyConnected([silent], expiry)
  {
  }

  /** `connect_to_endpoints`, on a stream whose error is `ec` and whose socket is `socket`.
      Endpoints are touched in order, each once, and the socket is never open for more than
      one of them. */
  method ConnectToEndpoints(tries: seq<Try>, expiry: int, ec: Error, socket: Option<nat>) returns (r: Outcome)
    ensures r.ec == ConnectError(ec, tries, expiry)
    ensures ec == NoError && tries != [] ==> exists k: nat :: EndsAt(tries, expiry, k, r.ec)
    ensures ec != NoError || tries == [] ==> r.touched == 0 && r.socket == socket
    ensures ec == NoError && AllRejected(tries, expiry) ==> r.touched == |tries|
    ensures forall k: nat :: ec == NoError && Decides(tries, expiry, k) ==>
              r.touched == (if expiry < tries[k].now then k else k + 1)
    ensures ec == NoError && Honest(tries) && r.ec == NoError ==> r.socket == Some(r.touched - 1)
    ensures r.touched <= |tries|
    ensures r.socket.Some? ==> if r.touched == 0 then r.socket == socket else r.socket == Some(r.touched - 1)
  {
    hide Judge, SomeError, ConnectError, EndsAt;
    ErrorAtStart(ec, tries, expiry);
    ConnectErrorIff(tries, expiry, ConnectError(NoError, tries, expiry));
    var error, current := ec, socket;
    if error != NoError {
      return Outcome(error, 0, current);
    }
    error := NotFound;
    for i := 0 to |tries|
      invariant ec == NoError
      invariant forall j :: 0 <= j < i ==> SomeError(tries[j], expiry)
      invariant if i == 0 then error == NotFound else TurnedAway(tries[i - 1], expiry, error)
      invariant i == 0 ==> current == socket
      invariant i > 0 && current.Some? ==> current == Some(i - 1)
    {
      var t := tries[i];
      StopOrGo(tries, expiry, i);
      if expiry < t.now {
        assert Stops(t, expiry, TimedOut);
        return Outcome(TimedOut, i, current);
      }
      current := None;
      error := t.open;
      if error != NoError {
        assert TurnedAway(t, expiry, error);
        continue;
      }
      current := Some(i);
      error := t.connect;
      if error == NoError {
        assert Stops(t, expiry, error);
        return Outcome(error, i + 1, current);
      }
      if error != InProgress && error != WouldBlock {
        assert TurnedAway(t, expiry, error);
        continue;
      }
      if t.poll.PollFailed? {
        error := t.poll.e;
        assert TurnedAway(t, expiry, error);
        continue;
      }
      if t.optionRead.None? {
        assert Stops(t, expiry, t.optionError);
        return Outcome(t.optionError, i + 1, current);
      }
      error := t.optionRead.value;
      if error == NoError {
        assert Stops(t, expiry, error);
        return Outcome(error, i + 1, current);
      }
      assert TurnedAway(t, expiry, error);
    }
    if tries != [] {
      ErrorOfLast(tries, expiry);
      TurnedAwayOnce(tries[|tries| - 1], expiry, error, ConnectError(NoError, tries, expiry));
    }
    r := Outcome(error, |tries|, current);
  }

  /** What endpoint `i` means for the loop, when those before it were turned away. */
  lemma StopOrGo(tries: seq<Try>, expiry: int, i: nat)
    requires i < |tries| && forall j :: 0 <= j < i ==> SomeError(tries[j], expiry)
    ensures forall e :: TurnedAway(tries[i], expiry, e) ==> SomeError(tries[i], expiry)
    ensures forall e :: Stops(tries[i], expiry, e) ==>
              Decides(tries, expiry, i) && ConnectError(NoError, tries, expiry) == e
    ensures forall k: nat :: Decides(tries, expiry, i) && Decides(tries, expiry, k) ==> k == i
  {
    hide Stops, TurnedAway, Judge;
    forall e | Stops(tries[i], expiry, e)
      ensures Decides(tries, expiry, i) && ConnectError(NoError, tries, expiry) == e
    {
      StopsDecides(tries, expiry, i, e);
      EndsOnce(tries, expiry, i, e);
    }
  }
}
