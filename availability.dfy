/**
 * The availability poll of `broadcast_message_to_clients` (server.py):
 * keep, in their original order, the clients whose reply lower-cases to
 * exactly "yes".
 */
module Availability {
  import opened Bytes
  import opened Partition

  /** "yes" and "no" as bytes. */
  const YES: seq<byte> := [121, 101, 115]
  const NO: seq<byte> := [110, 111]

  /** `response.lower() == "yes"`; there is no stripping. */
  predicate IsYes(reply: seq<byte>) {
    Lower(reply) == YES
  }

  /** Exactly the eight spellings of "yes" in upper and lower case are accepted. */
  lemma IsYesSpellings(reply: seq<byte>)
    ensures IsYes(reply) <==>
      |reply| == 3 && reply[0] in {89, 121} && reply[1] in {69, 101} && reply[2] in {83, 115}
  {
    var l := Lower(reply);
    if IsYes(reply) {
      assert |reply| == |l| == 3;
      assert l[0] == LowerByte(reply[0]) == 121;
      assert l[1] == LowerByte(reply[1]) == 101;
      assert l[2] == LowerByte(reply[2]) == 115;
    }
    if |reply| == 3 && reply[0] in {89, 121} && reply[1] in {69, 101} && reply[2] in {83, 115} {
      assert l == [l[0], l[1], l[2]];
    }
  }

  /** Surrounding whitespace makes a reply a refusal: " yes" and "yes\n" are not "yes". */
  lemma WhitespaceRejected(reply: seq<byte>)
    requires reply != [] && (IsSpace(reply[0]) || IsSpace(reply[|reply| - 1]))
    ensures !IsYes(reply)
  {
    if IsYes(reply) {
      IsYesSpellings(reply);
    }
  }

  /**
   * The coordinator lower-cases a reply that the worker has already stripped
   * and lower-cased, which changes nothing: a normalised answer counts as
   * "yes" exactly when it is "yes" itself.
   */
  lemma NormalisedAnswerIsYes(answer: seq<byte>)
    ensures IsYes(Normalise(answer)) <==> Normalise(answer) == YES
  {
    LowerIdempotent(Strip(answer));
  }

  /** The positions of the "yes" replies, in increasing order. */
  function YesPositions(replies: seq<seq<byte>>): (idx: seq<nat>)
    ensures forall j :: 0 <= j < |idx| ==> idx[j] < |replies| && IsYes(replies[idx[j]])
    ensures forall j, k :: 0 <= j < k < |idx| ==> idx[j] < idx[k]
    ensures forall i :: 0 <= i < |replies| && IsYes(replies[i]) ==> i in idx
  {
    if replies == [] then []
    else
      var n := |replies| - 1;
      var init := YesPositions(replies[..n]);
      init + (if IsYes(replies[n]) then [n] else [])
  }

  /** The available clients: `clients` filtered by their replies, order kept. */
  function Available<T>(clients: seq<T>, replies: seq<seq<byte>>): (avail: seq<T>)
    requires |clients| == |replies|
    ensures |avail| == |YesPositions(replies)|
  {
    if clients == [] then []
    else
      var n := |clients| - 1;
      Available(clients[..n], replies[..n]) + (if IsYes(replies[n]) then [clients[n]] else [])
  }

  /**
   * The available list is the order-preserving subsequence of the clients at
   * the positions whose reply is "yes": its j-th entry is the client at the
   * j-th such position.
   */
  lemma {:induction false} AvailableSelects<T>(clients: seq<T>, replies: seq<seq<byte>>)
    requires |clients| == |replies|
    ensures var avail, idx := Available(clients, replies), YesPositions(replies);
      |avail| == |idx| && forall j :: 0 <= j < |idx| ==> avail[j] == clients[idx[j]]
  {
    if clients != [] {
      var n := |clients| - 1;
      AvailableSelects(clients[..n], replies[..n]);
    }
  }

  /** Nobody is available exactly when no reply is "yes". */
  lemma AvailableEmpty<T>(clients: seq<T>, replies: seq<seq<byte>>)
    requires |clients| == |replies|
    ensures Available(clients, replies) == [] <==> forall i :: 0 <= i < |replies| ==> !IsYes(replies[i])
  {
    AvailableSelects(clients, replies);
    var idx := YesPositions(replies);
    if idx != [] {
      assert IsYes(replies[idx[0]]);
    }
  }

  /** A client is available exactly when its reply is "yes". */
  lemma AvailableMember<T>(clients: seq<T>, replies: seq<seq<byte>>, i: nat)
    requires |clients| == |replies| && i < |clients| && Distinct(clients)
    ensures clients[i] in Available(clients, replies) <==> IsYes(replies[i])
  {
    AvailableSelects(clients, replies);
    var avail, idx := Available(clients, replies), YesPositions(replies);
    if IsYes(replies[i]) {
      assert i in idx;
      var j :| 0 <= j < |idx| && idx[j] == i;
      assert avail[j] == clients[i];
    }
    if clients[i] in avail {
      var j :| 0 <= j < |avail| && avail[j] == clients[i];
      var p := idx[j];
      assert p < |clients| && IsYes(replies[p]) && clients[p] == clients[i];
      SamePosition(clients, p, i);
    }
  }

  /** In a list without repetitions, equal entries sit at the same position. */
  lemma SamePosition<T>(s: seq<T>, p: nat, q: nat)
    requires Distinct(s) && p < |s| && q < |s| && s[p] == s[q]
    ensures p == q
  {
  }

  /** Selecting from distinct clients gives distinct clients. */
  lemma AvailableDistinct<T>(clients: seq<T>, replies: seq<seq<byte>>)
    requires |clients| == |replies| && Distinct(clients)
    ensures Distinct(Available(clients, replies))
  {
    AvailableSelects(clients, replies);
    var avail, idx := Available(clients, replies), YesPositions(replies);
    forall j, k | 0 <= j < k < |avail|
      ensures avail[j] != avail[k]
    {
      assert idx[j] < idx[k];
    }
  }
}
