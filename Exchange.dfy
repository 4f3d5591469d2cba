/** One exchange with the simulator, as seen from outside: the control packet
    is sent, then the socket is polled until a valid telemetry message arrives,
    the transport fails, or the deadline passes.

    The transport and the clock are given as a `Transport` value: whether the
    send succeeds, and for each pass of the polling loop that starts before the
    deadline what the non-blocking receive returns and whether the following
    sleep succeeds. The deadline is therefore the length of `attempts`. */
module Exchange {
  import opened Wrappers
  import opened Json
  import opened ControlPacket
  import opened Physics
  import opened TelemetryDecoder

  /** Size of the receive buffer; one byte is kept for the terminating NUL. */
  const BUFFER_SIZE: nat := 1024

  datatype Reception =
    | NotReady                      // the receive failed with EAGAIN or EWOULDBLOCK
    | RecvError                     // the receive failed with any other error
    | Datagram(payload: seq<Byte>)  // a datagram, possibly empty, was dequeued

  datatype Attempt = Attempt(reception: Reception, sleepOk: bool)

  datatype Transport = Transport(
    sendOk: bool,
    attempts: seq<Attempt>,
    parse: seq<Byte> -> Option<Json>)

  /** The bytes a receive of at most BUFFER_SIZE - 1 bytes keeps of a datagram. */
  function Received(payload: seq<Byte>): (r: seq<Byte>)
    ensures |r| < BUFFER_SIZE && |r| <= |payload|
    ensures r == payload[..|r|]
    ensures |payload| < BUFFER_SIZE ==> r == payload
    ensures |payload| >= BUFFER_SIZE ==> |r| == BUFFER_SIZE - 1
  {
    if |payload| < BUFFER_SIZE then payload else payload[..BUFFER_SIZE - 1]
  }

  /** The receive outcomes the transport has in store, pass by pass. */
  function Schedule(t: Transport): (rs: seq<Reception>)
    ensures |rs| == |t.attempts|
    ensures forall i :: 0 <= i < |rs| ==> rs[i] == t.attempts[i].reception
  {
    seq(|t.attempts|, i requires 0 <= i < |t.attempts| => t.attempts[i].reception)
  }

  /** The first i + 1 outcomes extend the first i by pass i's. */
  lemma ScheduleStep(t: Transport, i: nat)
    requires i < |t.attempts|
    ensures Schedule(t)[..i + 1] == Schedule(t)[..i] + [t.attempts[i].reception]
  {
    assert Schedule(t)[..i + 1] == Schedule(t)[..i] + [Schedule(t)[i]];
  }

  /** A received message yields a record when it parses and passes every check. */
  function Accept(parse: seq<Byte> -> Option<Json>, bytes: seq<Byte>): Option<Telemetry>
  {
    match parse(bytes)
    case None => None
    case Some(msg) => DecodeTelemetry(msg)
  }

  /** What one pass of the polling loop does. */
  datatype Step =
    | Wait              // nothing to read; slept, poll again
    | Skip              // a message that failed to parse or validate; poll again
    | Abort             // a receive or sleep error; give up
    | Deliver(telemetry: Telemetry)

  function StepAt(t: Transport, i: nat): (s: Step)
    requires i < |t.attempts|
    ensures s.Deliver? ==> Complete(s.telemetry)
    ensures s.Deliver? || s.Skip? ==>
              t.attempts[i].reception.Datagram? && 0 < |Received(t.attempts[i].reception.payload)|
    ensures s.Wait? ==> t.attempts[i].sleepOk && !t.attempts[i].reception.RecvError?
    ensures t.attempts[i].reception.RecvError? ==> s == Abort
  {
    var a := t.attempts[i];
    match a.reception
    case RecvError => Abort
    case NotReady => if a.sleepOk then Wait else Abort
    case Datagram(p) =>
      if |Received(p)| == 0 then (if a.sleepOk then Wait else Abort)
      else match Accept(t.parse, Received(p))
        case None => Skip
        case Some(tel) => Deliver(tel)
  }

  predicate Continues(t: Transport, i: nat)
    requires i < |t.attempts|
  {
    StepAt(t, i).Wait? || StepAt(t, i).Skip?
  }

  /** The polling loop from pass `i` on. */
  function Await(t: Transport, i: nat): (r: Option<Telemetry>)
    requires i <= |t.attempts|
    ensures r.Some? ==> Complete(r.value)
    ensures r.Some? ==> exists k :: i <= k < |t.attempts| && StepAt(t, k) == Deliver(r.value)
    decreases |t.attempts| - i
  {
    if i == |t.attempts| then None
    else if Continues(t, i) then Await(t, i + 1)
    else if StepAt(t, i).Deliver? then Some(StepAt(t, i).telemetry)
    else None
  }

  /** How many passes, hence receives, the loop makes from pass `i` on: every
      pass that waits or skips is followed by another, and the first pass that
      delivers or aborts is the last. */
  function Passes(t: Transport, i: nat): (n: nat)
    requires i <= |t.attempts|
    ensures i + n <= |t.attempts|
    ensures n == 0 <==> i == |t.attempts|
    decreases |t.attempts| - i
  {
    if i == |t.attempts| then 0
    else if Continues(t, i) then 1 + Passes(t, i + 1)
    else 1
  }

  /** Pass `i` is counted, and the passes after it only when it polls on. */
  lemma PassesStep(t: Transport, i: nat)
    requires i < |t.attempts|
    ensures Passes(t, i) == if Continues(t, i) then 1 + Passes(t, i + 1) else 1
  {
  }

  /** The whole exchange: a failed send ends it before any receive. */
  function Run(t: Transport): (r: Option<Telemetry>)
    ensures !t.sendOk ==> r == None
    ensures r.Some? ==> Complete(r.value)
  {
    if !t.sendOk then None else Await(t, 0)
  }

  /** Pass `k` delivers `tel` and every pass from `i` up to it polled on. */
  predicate FirstDeliveryAt(t: Transport, i: nat, k: nat, tel: Telemetry)
    requires k < |t.attempts|
  {
    StepAt(t, k) == Deliver(tel) && forall j :: i <= j < k ==> Continues(t, j)
  }

  /** Some pass from `i` on is the first to deliver `tel`. */
  predicate DeliversFrom(t: Transport, i: nat, tel: Telemetry)
  {
    exists k :: i <= k < |t.attempts| && FirstDeliveryAt(t, i, k, tel)
  }

  /** The loop returns a record exactly when some pass delivers it and every
      earlier pass only waited or skipped a bad message: the first valid
      message before the deadline wins. */
  lemma {:induction false} AwaitReturnsFirstValid(t: Transport, i: nat, tel: Telemetry)
    requires i <= |t.attempts|
    ensures Await(t, i) == Some(tel) <==> DeliversFrom(t, i, tel)
    decreases |t.attempts| - i
  {
    if i < |t.attempts| {
      AwaitReturnsFirstValid(t, i + 1, tel);
      match StepAt(t, i)
      case Deliver(x) =>
        if x == tel {
          assert FirstDeliveryAt(t, i, i, tel);
        } else {
          forall k | i <= k < |t.attempts| ensures !FirstDeliveryAt(t, i, k, tel) {
            if k > i {
              assert !Continues(t, i);
            }
          }
        }
      case Abort =>
        forall k | i <= k < |t.attempts| ensures !FirstDeliveryAt(t, i, k, tel) {
          if k > i {
            assert !Continues(t, i);
          }
        }
      case Wait =>
        ContinuingPass(t, i, tel);
      case Skip =>
        ContinuingPass(t, i, tel);
    }
  }

  /** Helper: a pass that polls on neither delivers nor hides a later first delivery. */
  lemma ContinuingPass(t: Transport, i: nat, tel: Telemetry)
    requires i < |t.attempts| && Continues(t, i)
    ensures DeliversFrom(t, i, tel) <==> DeliversFrom(t, i + 1, tel)
  {
    if DeliversFrom(t, i, tel) {
      var k :| i <= k < |t.attempts| && FirstDeliveryAt(t, i, k, tel);
      assert k != i;
      assert FirstDeliveryAt(t, i + 1, k, tel);
    }
    if DeliversFrom(t, i + 1, tel) {
      var k :| i + 1 <= k < |t.attempts| && FirstDeliveryAt(t, i + 1, k, tel);
      assert FirstDeliveryAt(t, i, k, tel);
    }
  }

  /** When every pass before the deadline only waits or skips, the exchange
      times out without a record. */
  lemma {:induction false} AwaitTimesOut(t: Transport, i: nat)
    requires i <= |t.attempts|
    requires forall j :: i <= j < |t.attempts| ==> Continues(t, j)
    ensures Await(t, i) == None
    decreases |t.attempts| - i
  {
    if i < |t.attempts| {
      AwaitTimesOut(t, i + 1);
    }
  }

  /** A receive error, or a failed sleep after an empty poll, ends the exchange
      without a record, whatever arrives later. */
  lemma {:induction false} AwaitStopsAtAbort(t: Transport, i: nat, k: nat)
    requires i <= k < |t.attempts|
    requires StepAt(t, k) == Abort
    requires forall j :: i <= j < k ==> Continues(t, j)
    ensures Await(t, i) == None
    decreases k - i
  {
    if i < k {
      assert Continues(t, i);
      AwaitStopsAtAbort(t, i + 1, k);
      assert Await(t, i) == Await(t, i + 1);
    } else {
      assert !Continues(t, i) && !StepAt(t, i).Deliver?;
    }
  }

  /** A message that fails to parse or validate is skipped, and a valid one
      that follows it within the deadline is returned. */
  lemma MalformedThenValid(t: Transport, bad: seq<Byte>, good: seq<Byte>, tel: Telemetry)
    requires t.sendOk && |t.attempts| >= 2
    requires t.attempts[0].reception == Datagram(bad) && 0 < |bad| < BUFFER_SIZE
    requires t.attempts[1].reception == Datagram(good) && 0 < |good| < BUFFER_SIZE
    requires t.parse(bad) == None
    requires t.parse(good).Some? && DecodeTelemetry(t.parse(good).value) == Some(tel)
    ensures Run(t) == Some(tel)
  {
    assert Received(bad) == bad && Received(good) == good;
    assert StepAt(t, 0) == Skip;
    assert StepAt(t, 1) == Deliver(tel);
    assert Await(t, 1) == Some(tel);
  }
}
