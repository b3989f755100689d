/**
 * A stream socket seen from one end. What the peer will ever send is a
 * sequence of non-empty deliveries; after the last one the peer has closed,
 * so a read returns no bytes. A read `recv(max)` returns at most `max` bytes
 * of the current delivery. Any sequence of results of `recv` calls is
 * produced by some choice of deliveries (take the results themselves), so
 * quantifying over deliveries quantifies over every possible chunking.
 */
module Channel {
  import opened Bytes

  /** The bytes a sequence of deliveries carries, in order. */
  function Stream(chunks: seq<seq<byte>>): seq<byte>
  {
    if chunks == [] then [] else chunks[0] + Stream(chunks[1..])
  }

  /** No delivery is empty: an empty read means the peer has closed. */
  predicate Deliverable(chunks: seq<seq<byte>>) {
    forall i :: 0 <= i < |chunks| ==> chunks[i] != []
  }

  lemma StreamCons(c: seq<byte>, chunks: seq<seq<byte>>)
    ensures Stream([c] + chunks) == c + Stream(chunks)
  {
    assert ([c] + chunks)[1..] == chunks;
  }

  /**
   * One `recv(max)`: the packet returned and the deliveries left. Nothing is
   * lost or duplicated, at most `max` bytes are consumed, and the packet is
   * empty exactly when the peer has closed (or `max` is 0).
   */
  function Take(chunks: seq<seq<byte>>, max: nat): (res: (seq<byte>, seq<seq<byte>>))
    requires Deliverable(chunks)
    ensures Deliverable(res.1)
    ensures |res.0| <= max
    ensures res.0 + Stream(res.1) == Stream(chunks)
    ensures res.0 == [] <==> chunks == [] || max == 0
  {
    if chunks == [] || max == 0 then ([], chunks)
    else if |chunks[0]| <= max then (chunks[0], chunks[1..])
    else
      var rest := [chunks[0][max..]] + chunks[1..];
      StreamCons(chunks[0][max..], chunks[1..]);
      assert chunks[0] == chunks[0][..max] + chunks[0][max..];
      (chunks[0][..max], rest)
  }

  /** A read of at least as many bytes as the current delivery holds consumes that delivery whole. */
  lemma TakeWhole(chunks: seq<seq<byte>>, max: nat)
    requires Deliverable(chunks) && chunks != [] && |chunks[0]| <= max
    ensures Take(chunks, max) == (chunks[0], chunks[1..])
  {
  }

  /** The socket: deliveries still to be read, and every byte written to the peer so far. */
  class Connection {
    var incoming: seq<seq<byte>>
    var sent: seq<byte>

    ghost predicate Valid()
      reads this
    {
      Deliverable(incoming)
    }

    constructor (deliveries: seq<seq<byte>>)
      requires Deliverable(deliveries)
      ensures Valid() && incoming == deliveries && sent == []
    {
      incoming := deliveries;
      sent := [];
    }

    /** `recv(max)`. */
    method Recv(max: nat) returns (packet: seq<byte>)
      requires Valid()
      modifies this`incoming
      ensures Valid()
      ensures (packet, incoming) == Take(old(incoming), max)
    {
      var res := Take(incoming, max);
      packet, incoming := res.0, res.1;
    }

    /** `sendall(data)`: the whole of `data` is written, after everything written before. */
    method SendAll(data: seq<byte>)
      modifies this`sent
      ensures sent == old(sent) + data
    {
      sent := sent + data;
    }
  }
}
