/**
 * The worker of client2.py, `start_client`: a loop over the coordinator's
 * messages. Messages that unpickle to anything but the availability check
 * are skipped. At the check, the worker answers with the operator's
 * stripped, lower-cased answer. After "no" it stops. After anything else it
 * reads the assignment frame, then the image frame, filters the detections
 * and sends them back once, unframed, and stops. Every exception ends the
 * session.
 */
module Worker {
  import opened Wrappers
  import opened Bytes
  import opened Channel
  import opened Framing
  import opened Values
  import opened Availability
  import opened Detection

  /** The largest control message the worker reads at once. */
  const MESSAGE_LIMIT: nat := 1024

  /** What the worker does on its socket, in order. */
  datatype Event =
    | Received(message: seq<byte>)    // a non-empty `recv(1024)` that unpickled
    | Replied(response: seq<byte>)    // the `sendall` of the answer to the poll
    | FrameRead(payload: seq<byte>)   // a `receive_data` that got a whole frame
    | ResultSent(data: seq<byte>)     // the `sendall` of the pickled detections

  /** How a session ends. */
  datatype SessionEnd =
    | ServerClosed   // an empty read: the coordinator closed the connection
    | BadMessage     // a message that does not unpickle
    | Declined       // the worker answered "no"
    | Reported       // the detections went back to the coordinator
    | Crashed        // an exception after the answer: a frame, its unpickling, or the filter failed

  /** The outcome of a session: how it ends, what the worker did, and the deliveries it left unread. */
  datatype Session = Session(end: SessionEnd, events: seq<Event>, rest: seq<seq<byte>>)

  /** The bytes one event writes to the socket. */
  function Emitted(e: Event): seq<byte> {
    match e
    case Replied(response) => response
    case ResultSent(data) => data
    case _ => []
  }

  /** The bytes the worker writes to its socket over a trace: its answer and its result. */
  function Output(events: seq<Event>): seq<byte> {
    if events == [] then [] else Emitted(events[0]) + Output(events[1..])
  }

  lemma OutputCons(e: Event, events: seq<Event>)
    ensures Output([e] + events) == Emitted(e) + Output(events)
  {
    assert ([e] + events)[1..] == events;
  }

  lemma {:induction false} OutputAppend(a: seq<Event>, b: seq<Event>)
    ensures Output(a + b) == Output(a) + Output(b)
  {
    if a == [] {
      assert a + b == b;
    } else {
      assert a + b == [a[0]] + (a[1..] + b);
      OutputCons(a[0], a[1..] + b);
      OutputAppend(a[1..], b);
      OutputCons(a[0], a[1..]);
      assert [a[0]] + a[1..] == a;
    }
  }

  /** `events` happen first, then the session `s`. */
  function Extend(events: seq<Event>, s: Session): (r: Session)
    ensures r.end == s.end && r.rest == s.rest && r.events == events + s.events
  {
    Session(s.end, events + s.events, s.rest)
  }

  lemma ExtendTwice(a: seq<Event>, b: seq<Event>, s: Session)
    ensures Extend(a, Extend(b, s)) == Extend(a + b, s)
  {
    assert a + (b + s.events) == (a + b) + s.events;
  }

  /** What `detect_object` returns, as the value that is pickled. */
  function Detections(d: Option<map<int, seq<Box>>>): Value {
    match d
    case Some(table) => Table(table)
    case None => NoneValue
  }

  /** Where the message loop stops: at the first availability check, or at the end of the session. */
  datatype Await =
    | Polled(skipped: seq<Event>, rest: seq<seq<byte>>)   // the check arrived; `skipped` ends with it
    | Stopped(session: Session)                           // the coordinator closed, or sent garbage

  /** `events` happen first, then the wait `w`. */
  function ExtendAwait(events: seq<Event>, w: Await): Await {
    match w
    case Polled(skipped, rest) => Polled(events + skipped, rest)
    case Stopped(s) => Stopped(Extend(events, s))
  }

  lemma ExtendAwaitTwice(a: seq<Event>, b: seq<Event>, w: Await)
    ensures ExtendAwait(a, ExtendAwait(b, w)) == ExtendAwait(a + b, w)
  {
    match w
    case Polled(skipped, rest) =>
      assert a + (b + skipped) == (a + b) + skipped;
    case Stopped(s) =>
      ExtendTwice(a, b, s);
  }

  /**
   * The `while True` loop up to the availability check: `recv(1024)`,
   * unpickle, and skip every message that is not the check. Every step
   * consumes at least one byte, so the loop ends.
   */
  function AwaitPoll(incoming: seq<seq<byte>>, codec: Codec): (w: Await)
    requires Deliverable(incoming)
    ensures w.Polled? ==> Deliverable(w.rest)
    ensures w.Stopped? ==> Deliverable(w.session.rest)
    decreases |Stream(incoming)|
  {
    var step := Take(incoming, MESSAGE_LIMIT);
    var message, rest := step.0, step.1;
    if message == [] then Stopped(Session(ServerClosed, [], rest))
    else
      match codec.loads(message)
      case None => Stopped(Session(BadMessage, [], rest))
      case Some(v) =>
        if v == AVAILABILITY_CHECK then Polled([Received(message)], rest)
        else ExtendAwait([Received(message)], AwaitPoll(rest, codec))
  }

  /** The whole session from the first `recv(1024)` on, given what the coordinator will deliver. */
  function RunSession(incoming: seq<seq<byte>>, answer: seq<byte>, codec: Codec, detector: Detector): (s: Session)
    requires Deliverable(incoming)
  {
    match AwaitPoll(incoming, codec)
    case Stopped(s) => s
    case Polled(skipped, rest) => Extend(skipped, Respond(rest, answer, codec, detector))
  }

  /** The session once the poll has arrived: the answer, then "no" or the work. */
  function Respond(incoming: seq<seq<byte>>, answer: seq<byte>, codec: Codec, detector: Detector): (s: Session)
    requires Deliverable(incoming)
    ensures Deliverable(s.rest)
  {
    var response := Normalise(answer);
    if response == NO then Session(Declined, [Replied(response)], incoming)
    else Extend([Replied(response)], Work(incoming, codec, detector))
  }

  /** `receive_data` of the assignment, then the image. */
  function Work(incoming: seq<seq<byte>>, codec: Codec, detector: Detector): (s: Session)
    requires Deliverable(incoming)
    ensures Deliverable(s.rest)
  {
    var first := ReceiveFrame(incoming);
    match first.0
    case Failure(_) => Session(Crashed, [], first.1)
    case Success(a) =>
      match codec.loads(a)
      case None => Session(Crashed, [FrameRead(a)], first.1)
      case Some(classIds) => Extend([FrameRead(a)], ImageStep(first.1, classIds, codec, detector))
  }

  /** `receive_data` of the image, the filter, and the one send of the result. */
  function ImageStep(incoming: seq<seq<byte>>, classIds: Value, codec: Codec, detector: Detector): (s: Session)
    requires Deliverable(incoming)
    ensures Deliverable(s.rest)
  {
    var second := ReceiveFrame(incoming);
    match second.0
    case Failure(_) => Session(Crashed, [], second.1)
    case Success(i) =>
      match codec.loads(i)
      case None => Session(Crashed, [FrameRead(i)], second.1)
      case Some(image) =>
        match Detect(image, classIds, detector)
        case Failure(_) => Session(Crashed, [FrameRead(i)], second.1)
        case Success(d) => Session(Reported, [FrameRead(i), ResultSent(codec.dumps(Detections(d)))], second.1)
  }

  /**
   * `start_client` after the connection is made. `events` is the trace of
   * what the worker did. Both outcomes of the availability branch leave the
   * `while True` loop, so the loop is `AwaitCheck` and the branch follows it.
   */
  method StartClient(conn: Connection, answer: seq<byte>, codec: Codec, detector: Detector)
    returns (end: SessionEnd, ghost events: seq<Event>)
    requires conn.Valid()
    modifies conn
    ensures conn.Valid()
    ensures var s := RunSession(old(conn.incoming), answer, codec, detector);
      end == s.end && events == s.events && conn.incoming == s.rest
    ensures conn.sent == old(conn.sent) + Output(events)
  {
    var stopped;
    stopped, events := AwaitCheck(conn, codec);
    if stopped.Some? {
      return stopped.value, events;
    }
    ghost var answered;
    end, answered := Answer(conn, answer, codec, detector);
    OutputAppend(events, answered);
    events := events + answered;
  }

  /**
   * The `while True` loop until the availability check arrives (`stopped`
   * is None) or the session ends first (how, in `stopped`).
   */
  method AwaitCheck(conn: Connection, codec: Codec) returns (stopped: Option<SessionEnd>, ghost events: seq<Event>)
    requires conn.Valid()
    modifies conn`incoming
    ensures conn.Valid()
    ensures Output(events) == []
    ensures match AwaitPoll(old(conn.incoming), codec)
      case Polled(skipped, rest) => stopped == None && events == skipped && conn.incoming == rest
      case Stopped(s) => stopped == Some(s.end) && events == s.events && conn.incoming == s.rest
  {
    events := [];
    ghost var start := old(conn.incoming);
    while true
      invariant conn.Valid()
      invariant AwaitPoll(start, codec) == ExtendAwait(events, AwaitPoll(conn.incoming, codec))
      invariant Output(events) == []
      decreases |Stream(conn.incoming)|
    {
      var message := conn.Recv(MESSAGE_LIMIT);
      if message == [] {
        assert events + [] == events;
        return Some(ServerClosed), events;
      }
      var decoded := codec.loads(message);
      if decoded.None? {
        assert events + [] == events;
        return Some(BadMessage), events;
      }
      ghost var received := [Received(message)];
      OutputCons(Received(message), []);
      OutputAppend(events, received);
      if decoded.value == AVAILABILITY_CHECK {
        return None, events + received;
      }
      ExtendAwaitTwice(events, received, AwaitPoll(conn.incoming, codec));
      events := events + received;
    }
  }

  /** The availability branch of `start_client`: answer, and after anything but "no" do the work. */
  method Answer(conn: Connection, answer: seq<byte>, codec: Codec, detector: Detector)
    returns (end: SessionEnd, ghost events: seq<Event>)
    requires conn.Valid()
    modifies conn
    ensures conn.Valid()
    ensures var s := Respond(old(conn.incoming), answer, codec, detector);
      end == s.end && events == s.events && conn.incoming == s.rest
    ensures conn.sent == old(conn.sent) + Output(events)
  {
    var response := Normalise(answer);
    conn.SendAll(response);
    OutputCons(Replied(response), []);
    if response == NO {
      return Declined, [Replied(response)];
    }
    ghost var replied := conn.sent;
    ghost var worked;
    end, worked := DoWork(conn, codec, detector);
    events := [Replied(response)] + worked;
    OutputCons(Replied(response), worked);
    Associative(old(conn.sent), response, Output(worked));
  }

  /** The `else` branch: the assignment frame, then the image step. */
  method DoWork(conn: Connection, codec: Codec, detector: Detector) returns (end: SessionEnd, ghost events: seq<Event>)
    requires conn.Valid()
    modifies conn
    ensures conn.Valid()
    ensures var s := Work(old(conn.incoming), codec, detector);
      end == s.end && events == s.events && conn.incoming == s.rest
    ensures conn.sent == old(conn.sent) + Output(events)
  {
    var first := ReceiveData(conn);
    if first.Failure? {
      return Crashed, [];
    }
    var assignment := codec.loads(first.value);
    OutputCons(FrameRead(first.value), []);
    if assignment.None? {
      return Crashed, [FrameRead(first.value)];
    }
    ghost var rest;
    end, rest := HandleImage(conn, assignment.value, codec, detector);
    events := [FrameRead(first.value)] + rest;
    OutputCons(FrameRead(first.value), rest);
  }

  /** The image frame, `detect_object`, and the `sendall` of the pickled detections. */
  method HandleImage(conn: Connection, classIds: Value, codec: Codec, detector: Detector)
    returns (end: SessionEnd, ghost events: seq<Event>)
    requires conn.Valid()
    modifies conn
    ensures conn.Valid()
    ensures var s := ImageStep(old(conn.incoming), classIds, codec, detector);
      end == s.end && events == s.events && conn.incoming == s.rest
    ensures conn.sent == old(conn.sent) + Output(events)
  {
    var second := ReceiveData(conn);
    if second.Failure? {
      return Crashed, [];
    }
    var image := codec.loads(second.value);
    OutputCons(FrameRead(second.value), []);
    if image.None? {
      return Crashed, [FrameRead(second.value)];
    }
    var detections := DetectObject(image.value, classIds, detector);
    if detections.Failure? {
      return Crashed, [FrameRead(second.value)];
    }
    var data := codec.dumps(Detections(detections.value));
    conn.SendAll(data);
    events := [FrameRead(second.value), ResultSent(data)];
    OutputCons(ResultSent(data), []);
    OutputCons(FrameRead(second.value), [ResultSent(data)]);
    end := Reported;
  }

  /** Only messages were read: nothing was sent and no frame was read. */
  predicate AllReceived(events: seq<Event>) {
    forall i :: 0 <= i < |events| ==> events[i].Received?
  }

  /** How many times the trace sends a result. */
  function ResultsSent(events: seq<Event>): nat {
    if events == [] then 0 else (if events[0].ResultSent? then 1 else 0) + ResultsSent(events[1..])
  }

  lemma {:induction false} ResultsSentAppend(a: seq<Event>, b: seq<Event>)
    ensures ResultsSent(a + b) == ResultsSent(a) + ResultsSent(b)
  {
    if a != [] {
      assert (a + b)[1..] == a[1..] + b;
      ResultsSentAppend(a[1..], b);
    } else {
      assert a + b == b;
    }
  }

  /** A trace of received messages writes nothing and sends no result. */
  lemma {:induction false} QuietTrace(events: seq<Event>)
    requires AllReceived(events)
    ensures Output(events) == [] && ResultsSent(events) == 0
  {
    if events != [] {
      QuietTrace(events[1..]);
    }
  }

  /**
   * Before the availability check the worker only reads: it waits at least
   * for the check itself, and otherwise stops because the coordinator
   * closed or sent bytes that do not unpickle.
   */
  lemma {:induction false} AwaitPollOnlyReads(incoming: seq<seq<byte>>, codec: Codec)
    requires Deliverable(incoming)
    ensures match AwaitPoll(incoming, codec)
      case Polled(skipped, _) => skipped != [] && AllReceived(skipped)
      case Stopped(s) => (s.end == ServerClosed || s.end == BadMessage) && AllReceived(s.events)
    decreases |Stream(incoming)|
  {
    var step := Take(incoming, MESSAGE_LIMIT);
    if step.0 != [] && codec.loads(step.0).Some? && codec.loads(step.0).value != AVAILABILITY_CHECK {
      AwaitPollOnlyReads(step.1, codec);
      assert AwaitPoll(incoming, codec) == ExtendAwait([Received(step.0)], AwaitPoll(step.1, codec));
    }
  }

  /**
   * A session that ends before the check (the coordinator closed, or a
   * message did not unpickle) has written nothing to the coordinator.
   */
  lemma SilentStop(incoming: seq<seq<byte>>, answer: seq<byte>, codec: Codec, detector: Detector)
    requires Deliverable(incoming)
    ensures var s := RunSession(incoming, answer, codec, detector);
      && (s.end == ServerClosed || s.end == BadMessage <==> AwaitPoll(incoming, codec).Stopped?)
      && (s.end == ServerClosed || s.end == BadMessage ==> AllReceived(s.events) && Output(s.events) == [])
  {
    AwaitPollOnlyReads(incoming, codec);
    match AwaitPoll(incoming, codec)
    case Stopped(s) =>
      QuietTrace(s.events);
    case Polled(_, rest) =>
      WorkShape(rest, codec, detector);
  }

  /**
   * Answering "no" ends the session right after the answer: the worker
   * declines exactly when the check arrives and its answer is "no", and then
   * it writes "no", reads nothing more, and never reads a frame.
   */
  lemma DeclinedSession(incoming: seq<seq<byte>>, answer: seq<byte>, codec: Codec, detector: Detector)
    requires Deliverable(incoming)
    ensures var s, w := RunSession(incoming, answer, codec, detector), AwaitPoll(incoming, codec);
      && (s.end == Declined <==> w.Polled? && Normalise(answer) == NO)
      && (s.end == Declined ==>
            && s.events == w.skipped + [Replied(NO)]
            && s.rest == w.rest
            && Output(s.events) == NO)
  {
    AwaitPollOnlyReads(incoming, codec);
    match AwaitPoll(incoming, codec)
    case Stopped(_) =>
    case Polled(skipped, rest) =>
      if Normalise(answer) == NO {
        QuietTrace(skipped);
        OutputAppend(skipped, [Replied(NO)]);
        OutputCons(Replied(NO), []);
      }
  }

  /**
   * After the image frame: either nothing more is done, or the one send of
   * the result; in both cases after at most one frame read.
   */
  lemma ImageStepShape(incoming: seq<seq<byte>>, classIds: Value, codec: Codec, detector: Detector)
    requires Deliverable(incoming)
    ensures var s, second := ImageStep(incoming, classIds, codec, detector), ReceiveFrame(incoming);
      && (s.end == Reported || s.end == Crashed)
      && (s.end == Reported ==>
            && second.0.Success? && s.rest == second.1
            && |s.events| == 2 && s.events[0] == FrameRead(second.0.value) && s.events[1].ResultSent?
            && Output(s.events) == s.events[1].data && ResultsSent(s.events) == 1)
      && (s.end == Crashed ==> Output(s.events) == [] && ResultsSent(s.events) == 0)
  {
    var s := ImageStep(incoming, classIds, codec, detector);
    if s.end == Reported {
      OutputCons(s.events[1], []);
      OutputCons(s.events[0], [s.events[1]]);
      assert s.events == [s.events[0]] + [s.events[1]];
      ResultsSentAppend([s.events[0]], [s.events[1]]);
      assert [s.events[0]][1..] == [] && [s.events[1]][1..] == [];
    } else if s.events != [] {
      OutputCons(s.events[0], []);
      assert s.events == [s.events[0]];
    }
  }

  /**
   * The work after an answer other than "no": the assignment frame is read
   * first, then the image frame from what follows it, then the result is
   * sent once; or the session crashes on the way without sending anything.
   */
  lemma WorkShape(incoming: seq<seq<byte>>, codec: Codec, detector: Detector)
    requires Deliverable(incoming)
    ensures var s, first := Work(incoming, codec, detector), ReceiveFrame(incoming);
      && (s.end == Reported || s.end == Crashed)
      && (s.end == Reported ==>
            && first.0.Success? && ReceiveFrame(first.1).0.Success? && s.rest == ReceiveFrame(first.1).1
            && |s.events| == 3
            && s.events[0] == FrameRead(first.0.value)
            && s.events[1] == FrameRead(ReceiveFrame(first.1).0.value)
            && s.events[2].ResultSent?
            && Output(s.events) == s.events[2].data && ResultsSent(s.events) == 1)
      && (s.end == Crashed ==> Output(s.events) == [] && ResultsSent(s.events) == 0)
  {
    var first := ReceiveFrame(incoming);
    if first.0.Success? && codec.loads(first.0.value).Some? {
      var next := ImageStep(first.1, codec.loads(first.0.value).value, codec, detector);
      ImageStepShape(first.1, codec.loads(first.0.value).value, codec, detector);
      OutputCons(FrameRead(first.0.value), next.events);
      ResultsSentAppend([FrameRead(first.0.value)], next.events);
    } else if first.0.Success? {
      OutputCons(FrameRead(first.0.value), []);
    }
  }

  /**
   * A session that reports has this shape: the messages up to the check,
   * the answer (not "no"), the assignment frame read from what follows the
   * check, the image frame read from what follows the assignment frame, and
   * one send of the result, which is the last thing the worker does. The
   * worker writes its answer and its result, and nothing else.
   */
  lemma ReportedSession(incoming: seq<seq<byte>>, answer: seq<byte>, codec: Codec, detector: Detector)
    requires Deliverable(incoming)
    ensures var s, w := RunSession(incoming, answer, codec, detector), AwaitPoll(incoming, codec);
      s.end == Reported ==>
        && w.Polled? && Normalise(answer) != NO
        && var first := ReceiveFrame(w.rest);
           var n := |w.skipped|;
           && first.0.Success? && ReceiveFrame(first.1).0.Success?
           && |s.events| == n + 4 && s.events[..n] == w.skipped
           && s.events[n] == Replied(Normalise(answer))
           && s.events[n + 1] == FrameRead(first.0.value)
           && s.events[n + 2] == FrameRead(ReceiveFrame(first.1).0.value)
           && s.events[n + 3].ResultSent?
           && s.rest == ReceiveFrame(first.1).1
           && Output(s.events) == Normalise(answer) + s.events[n + 3].data
  {
    AwaitPollOnlyReads(incoming, codec);
    match AwaitPoll(incoming, codec)
    case Stopped(_) =>
    case Polled(skipped, rest) =>
      var r := Normalise(answer);
      if r != NO {
        var work := Work(rest, codec, detector);
        WorkShape(rest, codec, detector);
        if work.end == Reported {
          QuietTrace(skipped);
          OutputCons(Replied(r), work.events);
          OutputAppend(skipped, [Replied(r)] + work.events);
          assert skipped + ([Replied(r)] + work.events) == Extend(skipped, Respond(rest, answer, codec, detector)).events;
        }
      }
  }

  /** Every session sends its result at most once, and exactly once when it reports. */
  lemma ResultSentOnce(incoming: seq<seq<byte>>, answer: seq<byte>, codec: Codec, detector: Detector)
    requires Deliverable(incoming)
    ensures var s := RunSession(incoming, answer, codec, detector);
      ResultsSent(s.events) == if s.end == Reported then 1 else 0
  {
    AwaitPollOnlyReads(incoming, codec);
    match AwaitPoll(incoming, codec)
    case Stopped(t) =>
      QuietTrace(t.events);
    case Polled(skipped, rest) =>
      QuietTrace(skipped);
      var answered := Respond(rest, answer, codec, detector);
      RespondSendsOnce(rest, answer, codec, detector);
      ResultsSentAppend(skipped, answered.events);
  }

  /** From the answer on, the result is sent at most once, and exactly once when the session reports. */
  lemma RespondSendsOnce(incoming: seq<seq<byte>>, answer: seq<byte>, codec: Codec, detector: Detector)
    requires Deliverable(incoming)
    ensures var s := Respond(incoming, answer, codec, detector);
      ResultsSent(s.events) == if s.end == Reported then 1 else 0
  {
    var r := Normalise(answer);
    if r == NO {
      ResultsSentAppend([Replied(r)], []);
    } else {
      var work := Work(incoming, codec, detector);
      WorkShape(incoming, codec, detector);
      ResultsSentAppend([Replied(r)], work.events);
    }
  }

  /**
   * The two ends disagree on what "available" means: the worker goes on to
   * wait for an assignment after any answer but "no", while the coordinator
   * counts the worker in only when the answer is "yes". After "maybe" the
   * worker reads for an assignment frame, and the coordinator, having left
   * it out of the round, never sends one.
   */
  lemma UnrecognisedAnswerWaits(incoming: seq<seq<byte>>, codec: Codec, detector: Detector)
    requires Deliverable(incoming)
    ensures var answer: seq<byte> := [109, 97, 121, 98, 101];
      var w := AwaitPoll(incoming, codec);
      && Normalise(answer) == answer
      && !IsYes(Normalise(answer))
      && (w.Polled? ==>
            RunSession(incoming, answer, codec, detector)
              == Extend(w.skipped + [Replied(answer)], Work(w.rest, codec, detector)))
  {
    var answer: seq<byte> := [109, 97, 121, 98, 101];
    assert Strip(answer) == answer by {
      assert TrimStart(answer) == answer;
      assert TrimEnd(answer) == answer;
    }
    assert Lower(answer) == answer;
    match AwaitPoll(incoming, codec)
    case Stopped(_) =>
    case Polled(skipped, rest) =>
      ExtendTwice(skipped, [Replied(answer)], Work(rest, codec, detector));
  }

  /**
   * An answer that strips to nothing (the operator just presses Enter) is
   * not "no", so the worker goes on to read an assignment frame; yet its
   * reply writes no bytes, so the coordinator's poll read gets nothing from
   * this worker.
   */
  lemma BlankAnswerSendsNothing(incoming: seq<seq<byte>>, answer: seq<byte>, codec: Codec, detector: Detector)
    requires Deliverable(incoming) && AllSpace(answer)
    ensures Normalise(answer) == [] && Normalise(answer) != NO
    ensures var w := AwaitPoll(incoming, codec);
      w.Polled? ==>
        var s, work := RunSession(incoming, answer, codec, detector), Work(w.rest, codec, detector);
        && s == Extend(w.skipped + [Replied([])], work)
        && Output(s.events) == Output(work.events)
  {
    AwaitPollOnlyReads(incoming, codec);
    match AwaitPoll(incoming, codec)
    case Stopped(_) =>
    case Polled(skipped, rest) =>
      var work := Work(rest, codec, detector);
      ExtendTwice(skipped, [Replied([])], work);
      QuietTrace(skipped);
      OutputCons(Replied([]), []);
      OutputAppend(skipped, [Replied([])]);
      OutputAppend(skipped + [Replied([])], work.events);
  }

  /**
   * What the coordinator assigns is what the worker works on: with a codec
   * whose `loads` inverts `dumps`, the assignment frame built for `hand`
   * (its header whole in the first read) is read as exactly `hand`, and the
   * image step starts on the bytes that follow the frame.
   */
  lemma AssignmentArrives(chunks: seq<seq<byte>>, hand: seq<int>, tail: seq<byte>, codec: Codec, detector: Detector)
    requires RoundTrips(codec)
    requires EncodeFrame(codec.dumps(IntList(hand))).Success?
    requires Deliverable(chunks) && chunks != [] && |chunks[0]| >= HEADER_SIZE
    requires Stream(chunks) == EncodeFrame(codec.dumps(IntList(hand))).value + tail
    ensures var first := ReceiveFrame(chunks);
      && first.0 == Success(codec.dumps(IntList(hand)))
      && Stream(first.1) == tail
      && Work(chunks, codec, detector)
           == Extend([FrameRead(codec.dumps(IntList(hand)))], ImageStep(first.1, IntList(hand), codec, detector))
  {
    FrameRoundTrip(codec.dumps(IntList(hand)), chunks, tail);
  }
}
