/**
 * The coordinator of server.py: one detection round over the connected
 * workers. It polls every worker, splits the shuffled class ids round-robin
 * over the workers that said "yes", sends each its assignment and the image
 * as length-prefixed frames, and merges what each sends back.
 */
module Coordinator {
  import opened Wrappers
  import opened Bytes
  import opened Channel
  import opened Framing
  import opened Values
  import opened Partition
  import opened Availability
  import opened Merge

  /** The class ids of `CLASS_NAMES`, in key order: Person, Bicycle, Car, Motorcycle. */
  const CLASS_IDS: seq<int> := [0, 1, 2, 3]

  /** The largest reply to the availability poll the coordinator reads. */
  const POLL_LIMIT: nat := 1024

  /** How a round ends. */
  datatype Round =
    | NoAvailableWorkers              // nobody answered "yes": nothing is dispatched
    | Aborted                         // an assignment frame could not be encoded: the exception ends the server
    | Aggregated(results: Results)    // every available worker's session has run

  /** A shuffle of the class ids is distinct and holds exactly those ids. */
  lemma {:induction false} ShuffledClassIds(shuffled: seq<int>)
    requires multiset(shuffled) == multiset(CLASS_IDS)
    ensures Distinct(shuffled)
    ensures forall k :: k in shuffled <==> k in CLASS_IDS
  {
    forall k
      ensures k in shuffled <==> k in CLASS_IDS
    {
      assert k in shuffled <==> k in multiset(shuffled);
      assert k in CLASS_IDS <==> k in multiset(CLASS_IDS);
    }
    forall i, j | 0 <= i < j < |shuffled|
      ensures shuffled[i] != shuffled[j]
    {
    }
  }

  /** The pickled assignment of each worker. */
  function Pickled(codec: Codec, hands: seq<seq<int>>): seq<seq<byte>> {
    seq(|hands|, i requires 0 <= i < |hands| => codec.dumps(IntList(hands[i])))
  }

  /**
   * Where the assignment frames stop: the first payload too long to be
   * framed, or the number of payloads when every one can be.
   */
  function FirstOverflow(payloads: seq<seq<byte>>): (f: nat)
    ensures f <= |payloads|
    ensures forall i :: 0 <= i < f ==> Fits(payloads[i])
    ensures f < |payloads| ==> !Fits(payloads[f])
  {
    if payloads == [] then 0
    else if !Fits(payloads[0]) then 0
    else 1 + FirstOverflow(payloads[1..])
  }

  /** The frames stop at `m` when every payload before `m` fits and the one at `m`, if any, does not. */
  lemma {:induction false} FirstOverflowAt(payloads: seq<seq<byte>>, m: nat)
    requires m <= |payloads|
    requires forall i :: 0 <= i < m ==> Fits(payloads[i])
    requires m < |payloads| ==> !Fits(payloads[m])
    ensures FirstOverflow(payloads) == m
  {
    if m > 0 {
      FirstOverflowAt(payloads[1..], m - 1);
    }
  }

  /**
   * `broadcast_message_to_clients`: send the pickled poll to every client in
   * turn, read one reply of at most 1024 bytes, and keep the clients whose
   * reply is "yes", in order. `replies` are those replies and `rest` what
   * each client has still to deliver after its reply. The keeping is done by
   * `SelectAvailable` once every reply is in; server.py decides each client
   * right after its reply, which gives the same list because the decision
   * reads nothing but that reply.
   */
  method Broadcast(clients: seq<Connection>, codec: Codec)
    returns (available: seq<Connection>, replies: seq<seq<byte>>, ghost rest: seq<seq<seq<byte>>>)
    requires Distinct(clients)
    requires forall i :: 0 <= i < |clients| ==> clients[i].Valid()
    modifies clients
    ensures |replies| == |clients| && |rest| == |clients|
    ensures available == Available(clients, replies)
    ensures forall i :: 0 <= i < |clients| ==>
      && old(clients[i].Valid()) && clients[i].Valid()
      && clients[i].sent == old(clients[i].sent) + codec.dumps(AVAILABILITY_CHECK)
      && (replies[i], rest[i]) == Take(old(clients[i].incoming), POLL_LIMIT)
      && clients[i].incoming == rest[i]
  {
    replies, rest := Poll(clients, codec.dumps(AVAILABILITY_CHECK));
    available := SelectAvailable(clients, replies);
  }

  /** The sends and reads of the poll: `message` to each client, then one read of at most 1024 bytes. */
  method Poll(clients: seq<Connection>, message: seq<byte>)
    returns (replies: seq<seq<byte>>, ghost rest: seq<seq<seq<byte>>>)
    requires Distinct(clients)
    requires forall i :: 0 <= i < |clients| ==> clients[i].Valid()
    modifies clients
    ensures |replies| == |clients| && |rest| == |clients|
    ensures forall i :: 0 <= i < |clients| ==>
      && old(clients[i].Valid()) && clients[i].Valid()
      && clients[i].sent == old(clients[i].sent) + message
      && (replies[i], rest[i]) == Take(old(clients[i].incoming), POLL_LIMIT)
      && clients[i].incoming == rest[i]
  {
    replies, rest := [], [];
    for i := 0 to |clients|
      invariant |replies| == i && |rest| == i
      invariant forall j :: 0 <= j < i ==>
        && clients[j].Valid()
        && clients[j].sent == old(clients[j].sent) + message
        && (replies[j], rest[j]) == Take(old(clients[j].incoming), POLL_LIMIT)
        && clients[j].incoming == rest[j]
      invariant forall j :: i <= j < |clients| ==>
        clients[j].sent == old(clients[j].sent) && clients[j].incoming == old(clients[j].incoming)
    {
      var client := clients[i];
      client.SendAll(message);
      var response := client.Recv(POLL_LIMIT);
      replies, rest := replies + [response], rest + [client.incoming];
    }
  }

  /** The `available_clients.append(client)` of the poll loop: the clients whose reply is "yes", in order. */
  method SelectAvailable(clients: seq<Connection>, replies: seq<seq<byte>>) returns (available: seq<Connection>)
    requires |clients| == |replies|
    ensures available == Available(clients, replies)
  {
    available := [];
    for i := 0 to |clients|
      invariant available == Available(clients[..i], replies[..i])
    {
      assert clients[..i + 1][..i] == clients[..i];
      assert replies[..i + 1][..i] == replies[..i];
      if IsYes(replies[i]) {
        available := available + [clients[i]];
      }
    }
    assert clients[..|clients|] == clients;
    assert replies[..|replies|] == replies;
  }

  /**
   * `assign_objects_to_clients` after the shuffle: worker `idx` is given
   * `shuffled[idx::n]`, and is sent it as a frame. A frame whose length
   * overflows the header raises, which ends the round with the workers
   * before it served and the rest untouched.
   */
  method Assign(available: seq<Connection>, shuffled: seq<int>, codec: Codec)
    returns (assignment: Option<map<Connection, seq<int>>>)
    requires Distinct(available) && available != []
    modifies available
    ensures var hands := RoundRobin(shuffled, |available|);
      var payloads := Pickled(codec, hands);
      var f := FirstOverflow(payloads);
      && (assignment.Some? <==> f == |available|)
      && (assignment.Some? ==>
            && (forall c :: c in assignment.value <==> c in available)
            && forall i :: 0 <= i < |available| ==>
                 available[i] in assignment.value && assignment.value[available[i]] == hands[i])
      && forall i :: 0 <= i < |available| ==>
           && available[i].incoming == old(available[i].incoming)
           && available[i].sent == old(available[i].sent) + (if i < f then FrameBytes(payloads[i]) else [])
  {
    var hands := RoundRobin(shuffled, |available|);
    var payloads := Pickled(codec, hands);
    var served := SendAssignments(available, payloads);
    FirstOverflowAt(payloads, served);
    if served < |available| {
      return None;
    }
    var table := Tabulate(available, hands);
    assignment := Some(table);
  }

  /**
   * The sends of `assign_objects_to_clients`: worker `i`'s pickled list as
   * a frame, in order, until a frame cannot be encoded. `served` is the
   * number of workers whose frame went out.
   */
  method SendAssignments(available: seq<Connection>, payloads: seq<seq<byte>>) returns (served: nat)
    requires Distinct(available) && |payloads| == |available|
    modifies available
    ensures served <= |available|
    ensures forall i :: 0 <= i < served ==> Fits(payloads[i])
    ensures served < |available| ==> !Fits(payloads[served])
    ensures forall i :: 0 <= i < |available| ==>
      && available[i].incoming == old(available[i].incoming)
      && available[i].sent == old(available[i].sent) + (if i < served then FrameBytes(payloads[i]) else [])
  {
    for i := 0 to |available|
      invariant forall j :: 0 <= j < i ==> Fits(payloads[j])
      invariant forall j :: 0 <= j < |available| ==> available[j].incoming == old(available[j].incoming)
      invariant forall j :: 0 <= j < i ==> available[j].sent == old(available[j].sent) + FrameBytes(payloads[j])
      invariant forall j :: i <= j < |available| ==> available[j].sent == old(available[j].sent)
    {
      // `to_bytes` raises before either `sendall` of `send_data`.
      if !Fits(payloads[i]) {
        return i;
      }
      var _ := SendFrame(available[i], payloads[i]);
    }
    served := |available|;
  }

  /**
   * The dict `object_assignment` of `assign_objects_to_clients`: each
   * available worker mapped to its list. server.py fills it as it sends;
   * here it is built once every frame is out, which no caller can tell
   * apart because a failed send discards the dict with the exception.
   */
  method Tabulate(available: seq<Connection>, hands: seq<seq<int>>) returns (table: map<Connection, seq<int>>)
    requires Distinct(available) && |hands| == |available|
    ensures forall c :: c in table <==> c in available
    ensures forall i :: 0 <= i < |available| ==> available[i] in table && table[available[i]] == hands[i]
  {
    table := map[];
    for i := 0 to |available|
      invariant forall c :: c in table <==> c in available[..i]
      invariant forall j :: 0 <= j < i ==> table[available[j]] == hands[j]
    {
      table := table[available[i] := hands[i]];
      assert available[..i + 1] == available[..i] + [available[i]];
    }
    assert available[..|available|] == available;
  }

  /** `send_image_to_client`: a frame of the pickled image; a failure is reported and swallowed. */
  method SendImage(conn: Connection, image: seq<byte>, codec: Codec)
    modifies conn`sent
    ensures conn.sent == old(conn.sent) + FrameBytes(codec.dumps(Blob(image)))
  {
    var _ := SendFrame(conn, codec.dumps(Blob(image)));
  }

  /**
   * `handle_client`: send the image to an assigned worker, read its reply
   * until it closes, unpickle it and merge the assigned classes into the
   * shared results. A worker with no assignment raises at the lookup before
   * anything is sent; a reply that does not unpickle to a dict raises before
   * anything is written.
   */
  method HandleClient(conn: Connection, image: seq<byte>, results: ResultTable,
                      assignment: map<Connection, seq<int>>, codec: Codec)
    requires conn.Valid()
    modifies conn, results
    ensures conn.Valid()
    ensures conn !in assignment ==>
      conn.sent == old(conn.sent) && conn.incoming == old(conn.incoming) && results.table == old(results.table)
    ensures conn in assignment ==>
      && conn.sent == old(conn.sent) + FrameBytes(codec.dumps(Blob(image)))
      && conn.incoming == []
      && results.table == Collect(old(results.table), assignment[conn], codec.loads(Stream(old(conn.incoming))))
  {
    if conn !in assignment {
      return;
    }
    var classes := assignment[conn];
    SendImage(conn, image, codec);
    var data := ReceiveUntilClose(conn);
    var reply := codec.loads(data);
    if IsDictReply(reply) {
      results.Store(classes, reply.value.table);
    }
  }

  /**
   * The dispatch loop of `start_server`: a fresh results dict, then one
   * `handle_client` session per available worker. The sessions run here one
   * after the other; in server.py each runs in its own thread, and
   * `SessionsCommute` shows that the order of their writes does not matter.
   * (The join loop there joins only the last thread started, once per
   * worker.) `reports` are the unpickled replies of the workers, in order.
   */
  method Dispatch(available: seq<Connection>, hands: seq<seq<int>>, assignment: map<Connection, seq<int>>,
                  image: seq<byte>, codec: Codec)
    returns (results: ResultTable, ghost reports: seq<Option<Value>>)
    requires Distinct(available) && |hands| == |available|
    requires forall j :: 0 <= j < |available| ==>
      available[j].Valid() && available[j] in assignment && assignment[available[j]] == hands[j]
    modifies available
    ensures fresh(results)
    ensures |reports| == |available|
    ensures forall j :: 0 <= j < |available| ==>
      && available[j].Valid()
      && available[j].incoming == []
      && available[j].sent == old(available[j].sent) + FrameBytes(codec.dumps(Blob(image)))
      && reports[j] == codec.loads(Stream(old(available[j].incoming)))
    ensures results.table == Aggregate(hands, reports)
  {
    var n := |available|;
    results := new ResultTable();
    reports := [];
    for i := 0 to n
      invariant |reports| == i
      invariant forall j :: 0 <= j < n ==> available[j].Valid()
      invariant forall j :: 0 <= j < i ==>
        && available[j].incoming == []
        && available[j].sent == old(available[j].sent) + FrameBytes(codec.dumps(Blob(image)))
        && reports[j] == codec.loads(Stream(old(available[j].incoming)))
      invariant forall j :: i <= j < n ==>
        available[j].incoming == old(available[j].incoming) && available[j].sent == old(available[j].sent)
      invariant results.table == Aggregate(hands[..i], reports)
    {
      ghost var report := codec.loads(Stream(available[i].incoming));
      HandleClient(available[i], image, results, assignment, codec);
      assert hands[..i + 1][..i] == hands[..i];
      ghost var before := reports;
      reports := reports + [report];
      assert reports[..i] == before;
    }
    assert hands[..n] == hands;
  }

  /**
   * The operator prompt of `start_server`: ask again until an answer strips
   * and lower-cases to "yes". `inputs` are the operator's answers in order;
   * `k` is the index of the first "yes", or None when the answers run out.
   */
  method AwaitOperator(inputs: seq<seq<byte>>) returns (k: Option<nat>)
    ensures k.Some? ==> k.value < |inputs| && Normalise(inputs[k.value]) == YES
    ensures k.Some? ==> forall i :: 0 <= i < k.value ==> Normalise(inputs[i]) != YES
    ensures k.None? ==> forall i :: 0 <= i < |inputs| ==> Normalise(inputs[i]) != YES
  {
    for i := 0 to |inputs|
      invariant forall j :: 0 <= j < i ==> Normalise(inputs[j]) != YES
    {
      if Normalise(inputs[i]) == YES {
        return Some(i);
      }
    }
    return None;
  }

  /**
   * What a round writes to the `j`-th available worker after the poll: its
   * assignment frame, then the image frame, when the round runs its
   * sessions; only its assignment frame when it comes before the frame that
   * aborts the round; nothing otherwise.
   */
  function RoundFrames(round: Round, payloads: seq<seq<byte>>, j: nat, image: seq<byte>, codec: Codec): seq<byte>
    requires j < |payloads|
  {
    if round.Aggregated? then FrameBytes(payloads[j]) + FrameBytes(codec.dumps(Blob(image)))
    else if round.Aborted? && j < FirstOverflow(payloads) then FrameBytes(payloads[j])
    else []
  }

  /**
   * The body of a round once the operator has typed "yes": poll, give up
   * when nobody is available, then assign and run the sessions (`Serve`).
   * `reports` are the unpickled replies of the available workers, in order:
   * each is what that worker delivers after its answer to the poll.
   */
  method RunRound(clients: seq<Connection>, shuffled: seq<int>, image: seq<byte>, codec: Codec)
    returns (round: Round, replies: seq<seq<byte>>, ghost rest: seq<seq<seq<byte>>>, ghost reports: seq<Option<Value>>)
    requires Distinct(clients)
    requires forall i :: 0 <= i < |clients| ==> clients[i].Valid()
    modifies clients
    ensures |replies| == |clients| && |rest| == |clients|
    ensures forall i :: 0 <= i < |clients| ==>
      old(clients[i].Valid()) && (replies[i], rest[i]) == Take(old(clients[i].incoming), POLL_LIMIT)
    ensures var available := Available(clients, replies);
      && (round.NoAvailableWorkers? <==> available == [])
      && (round.NoAvailableWorkers? ==> forall i :: 0 <= i < |clients| ==>
            clients[i].sent == old(clients[i].sent) + codec.dumps(AVAILABILITY_CHECK) && clients[i].incoming == rest[i])
      && (available != [] ==>
            (round.Aborted? <==> FirstOverflow(Pickled(codec, RoundRobin(shuffled, |available|))) < |available|))
      && (round.Aggregated? ==>
            && |reports| == |available|
            && (forall j :: 0 <= j < |available| ==> reports[j] == codec.loads(Stream(Available(rest, replies)[j])))
            && round.results == Aggregate(RoundRobin(shuffled, |available|), reports))
    ensures forall i :: 0 <= i < |clients| && !IsYes(replies[i]) ==>
      clients[i].sent == old(clients[i].sent) + codec.dumps(AVAILABILITY_CHECK) && clients[i].incoming == rest[i]
    ensures var available, idx := Available(clients, replies), YesPositions(replies);
      available != [] ==>
        var payloads := Pickled(codec, RoundRobin(shuffled, |available|));
        forall j :: 0 <= j < |idx| ==>
          && clients[idx[j]].incoming == (if round.Aggregated? then [] else rest[idx[j]])
          && clients[idx[j]].sent == old(clients[idx[j]].sent) + codec.dumps(AVAILABILITY_CHECK)
               + RoundFrames(round, payloads, j, image, codec)
  {
    var available;
    available, replies, rest := Broadcast(clients, codec);
    if available == [] {
      return NoAvailableWorkers, replies, rest, [];
    }
    AvailableDistinct(clients, replies);
    AvailableSelects(clients, replies);
    AvailableSelects(rest, replies);
    forall i | 0 <= i < |clients|
      ensures clients[i] in available <==> IsYes(replies[i])
    {
      AvailableMember(clients, replies, i);
    }
    ghost var polled := Available(rest, replies);
    round, reports := Serve(available, shuffled, image, codec, polled);
  }

  /**
   * `assign_objects_to_clients`, then the dispatch loop: the round once at
   * least one worker is available. `polled` is what each available worker
   * still has to deliver.
   */
  method Serve(available: seq<Connection>, shuffled: seq<int>, image: seq<byte>, codec: Codec,
               ghost polled: seq<seq<seq<byte>>>)
    returns (round: Round, ghost reports: seq<Option<Value>>)
    requires Distinct(available) && available != [] && |polled| == |available|
    requires forall j :: 0 <= j < |available| ==> available[j].Valid() && available[j].incoming == polled[j]
    modifies available
    ensures !round.NoAvailableWorkers?
    ensures round.Aborted? <==> FirstOverflow(Pickled(codec, RoundRobin(shuffled, |available|))) < |available|
    ensures round.Aggregated? ==>
      && |reports| == |available|
      && (forall j :: 0 <= j < |available| ==> reports[j] == codec.loads(Stream(polled[j])))
      && round.results == Aggregate(RoundRobin(shuffled, |available|), reports)
    ensures var payloads := Pickled(codec, RoundRobin(shuffled, |available|));
      forall j :: 0 <= j < |available| ==>
        && available[j].incoming == (if round.Aggregated? then [] else polled[j])
        && available[j].sent == old(available[j].sent) + RoundFrames(round, payloads, j, image, codec)
  {
    var hands := RoundRobin(shuffled, |available|);
    ghost var payloads := Pickled(codec, hands);
    var assignment := Assign(available, shuffled, codec);
    if assignment.None? {
      round, reports := Aborted, [];
      forall j | 0 <= j < |available|
        ensures available[j].sent == old(available[j].sent) + RoundFrames(round, payloads, j, image, codec)
      {
      }
      return;
    }
    label Assigned:
    var results;
    results, reports := Dispatch(available, hands, assignment.value, image, codec);
    round := Aggregated(results.table);
    forall j | 0 <= j < |available|
      ensures available[j].sent == old(available[j].sent) + RoundFrames(round, payloads, j, image, codec)
    {
      assert old@Assigned(available[j].sent) == old(available[j].sent) + FrameBytes(payloads[j]);
      Associative(old(available[j].sent), FrameBytes(payloads[j]), FrameBytes(codec.dumps(Blob(image))));
    }
  }

  /**
   * When the shuffle is a permutation of the class ids and every available
   * worker sends back a dict, the merged results have a key for each of the
   * four classes and for nothing else.
   */
  lemma FullRoundCoversClasses(shuffled: seq<int>, n: nat, reports: seq<Option<Value>>)
    requires multiset(shuffled) == multiset(CLASS_IDS)
    requires n >= 1 && |reports| == n
    requires forall j :: 0 <= j < n ==> IsDictReply(reports[j])
    ensures Aggregate(RoundRobin(shuffled, n), reports).Keys == {0, 1, 2, 3}
  {
    ShuffledClassIds(shuffled);
    RoundCoversClasses(shuffled, n, reports);
  }
}
