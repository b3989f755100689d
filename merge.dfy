/**
 * How the coordinator folds the workers' reports into the shared results
 * dict (`handle_client` in server.py), with the sessions taken one after
 * the other.
 */
module Merge {
  import opened Wrappers
  import opened Values
  import opened Partition

  type Results = map<int, seq<Box>>

  /** `table.get(k, [])`. */
  function Get(table: Results, k: int): seq<Box> {
    if k in table then table[k] else []
  }

  /**
   * `for obj_type in assigned_objects: results[obj_type] = reported.get(obj_type, [])`.
   * Every assigned class is written, with the worker's list or `[]`;
   * every other key keeps its value.
   */
  function MergeSession(results: Results, classes: seq<int>, reported: Results): (r: Results)
    ensures forall k :: k in r <==> k in results || k in classes
    ensures forall k :: k in classes ==> r[k] == Get(reported, k)
    ensures forall k :: k in results && k !in classes ==> r[k] == results[k]
    decreases |classes|
  {
    if classes == [] then results
    else MergeSession(results[classes[0] := Get(reported, classes[0])], classes[1..], reported)
  }

  /** The coordinator's shared `results` dict, which every session writes into. */
  class ResultTable {
    var table: Results

    /** `results = {}`. */
    constructor ()
      ensures table == map[]
    {
      table := map[];
    }

    /**
     * The merge loop of `handle_client`: for each assigned class in turn,
     * store the worker's list for it, or `[]` when the worker left it out.
     */
    method Store(classes: seq<int>, reported: Results)
      modifies this
      ensures table == MergeSession(old(table), classes, reported)
    {
      for i := 0 to |classes|
        invariant MergeSession(old(table), classes, reported) == MergeSession(table, classes[i..], reported)
      {
        assert classes[i..][1..] == classes[i + 1..];
        table := table[classes[i] := Get(reported, classes[i])];
      }
    }
  }

  /** A decoded reply the merge can use: only a dict has `.get`. */
  predicate IsDictReply(reply: Option<Value>) {
    reply.Some? && reply.value.Table?
  }

  /**
   * One session's effect on the results: a dict reply is merged, and any
   * other outcome (unpicklable bytes, None, a non-dict) raises before the
   * first write and leaves the results as they were.
   */
  function Collect(results: Results, classes: seq<int>, reply: Option<Value>): Results {
    if IsDictReply(reply) then MergeSession(results, classes, reply.value.table) else results
  }

  /** The results after the sessions of workers 0 .. |hands|-1, in that order, from an empty dict. */
  function Aggregate(hands: seq<seq<int>>, replies: seq<Option<Value>>): Results
    requires |hands| == |replies|
  {
    if hands == [] then map[]
    else
      var n := |hands| - 1;
      Collect(Aggregate(hands[..n], replies[..n]), hands[n], replies[n])
  }

  /** No class is handed to two workers. */
  predicate PairwiseDisjoint(hands: seq<seq<int>>) {
    forall i, j, k :: 0 <= i < |hands| && 0 <= j < |hands| && i != j && k in hands[i] ==> k !in hands[j]
  }

  /**
   * Sessions over disjoint assignments commute, so the order in which the
   * worker threads write does not change the merged results.
   */
  lemma SessionsCommute(results: Results, a1: seq<int>, t1: Results, a2: seq<int>, t2: Results)
    requires forall k :: k in a1 ==> k !in a2
    ensures MergeSession(MergeSession(results, a1, t1), a2, t2) == MergeSession(MergeSession(results, a2, t2), a1, t1)
  {
    var m1, m2 := MergeSession(results, a1, t1), MergeSession(results, a2, t2);
    var left, right := MergeSession(m1, a2, t2), MergeSession(m2, a1, t1);
    forall k
      ensures (k in left <==> k in right) && (k in left ==> left[k] == right[k])
    {
      assert k in left <==> k in results || k in a1 || k in a2;
      assert k in right <==> k in results || k in a1 || k in a2;
      if k in a2 {
        assert left[k] == Get(t2, k) == m2[k] == right[k];
      } else if k in a1 {
        assert left[k] == m1[k] == Get(t1, k) == right[k];
      } else if k in results {
        assert left[k] == m1[k] == results[k] == m2[k] == right[k];
      }
    }
    assert left == right;
  }

  /** A class has a result exactly when some worker that reported a dict was assigned it. */
  lemma {:induction false} AggregateKeys(hands: seq<seq<int>>, replies: seq<Option<Value>>, k: int)
    requires |hands| == |replies|
    ensures k in Aggregate(hands, replies) <==>
      exists i :: 0 <= i < |hands| && IsDictReply(replies[i]) && k in hands[i]
  {
    if hands != [] {
      var n := |hands| - 1;
      AggregateKeys(hands[..n], replies[..n], k);
      if k in Aggregate(hands, replies) && k !in Aggregate(hands[..n], replies[..n]) {
        assert IsDictReply(replies[n]) && k in hands[n];
      }
      if exists i :: 0 <= i < |hands| && IsDictReply(replies[i]) && k in hands[i] {
        var i :| 0 <= i < |hands| && IsDictReply(replies[i]) && k in hands[i];
        if i < n {
          assert hands[..n][i] == hands[i] && replies[..n][i] == replies[i];
        }
      }
    }
  }

  /**
   * With disjoint assignments, a class assigned to a worker that reported a
   * dict maps to that worker's list for it, or `[]` if the worker left it out.
   */
  lemma {:induction false} AggregateValue(hands: seq<seq<int>>, replies: seq<Option<Value>>, i: nat, k: int)
    requires |hands| == |replies| && PairwiseDisjoint(hands)
    requires i < |hands| && IsDictReply(replies[i]) && k in hands[i]
    ensures k in Aggregate(hands, replies)
    ensures Aggregate(hands, replies)[k] == Get(replies[i].value.table, k)
  {
    var n := |hands| - 1;
    if i < n {
      assert PairwiseDisjoint(hands[..n]) by {
        forall a, b, x | 0 <= a < n && 0 <= b < n && a != b && x in hands[..n][a]
          ensures x !in hands[..n][b]
        {
          assert hands[..n][a] == hands[a] && hands[..n][b] == hands[b];
        }
      }
      assert hands[..n][i] == hands[i] && replies[..n][i] == replies[i];
      AggregateValue(hands[..n], replies[..n], i, k);
      assert k !in hands[n];
    }
  }

  /**
   * When every available worker reports a dict, the merged results have a
   * key for every class id of the shuffled list and for nothing else.
   */
  lemma RoundCoversClasses(shuffled: seq<int>, n: nat, replies: seq<Option<Value>>)
    requires n >= 1 && |replies| == n && Distinct(shuffled)
    requires forall i :: 0 <= i < n ==> IsDictReply(replies[i])
    ensures Aggregate(RoundRobin(shuffled, n), replies).Keys == set k | k in shuffled
  {
    var hands := RoundRobin(shuffled, n);
    forall k
      ensures k in Aggregate(hands, replies) <==> k in shuffled
    {
      AggregateKeys(hands, replies, k);
      ExactlyOneOwner(shuffled, n, k);
    }
  }

  /** The round-robin split is a disjoint one when the shuffled ids are distinct. */
  lemma RoundRobinDisjoint(shuffled: seq<int>, n: nat)
    requires n >= 1 && Distinct(shuffled)
    ensures PairwiseDisjoint(RoundRobin(shuffled, n))
  {
    var hands := RoundRobin(shuffled, n);
    forall i, j, k | 0 <= i < n && 0 <= j < n && i != j && k in hands[i]
      ensures k !in hands[j]
    {
      ExactlyOneOwner(shuffled, n, k);
    }
  }
}
