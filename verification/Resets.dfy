/** Which node resets draining a queue of bus frames announces, and that each is announced once. */
module Resets {
  import opened Client

  const NODE_COUNT := 125

  /** A frame announcing that a known node was reset. */
  predicate Announces(f: Frame, node: nat) {
    0x700 < f.id < 0x800 && NodeOf(f) == node && node < NODE_COUNT
  }

  /** Frame `k` is the first one announcing its node; node 0 is never remembered. */
  predicate IsFirst(queue: seq<Frame>, k: nat)
    requires k < |queue|
  {
    var node := NodeOf(queue[k]);
    && Announces(queue[k], node)
    && (node == 0 || forall j | 0 <= j < k :: !Announces(queue[j], node))
  }

  /** The positions below `n` of the frames that are reported, in order. */
  function Reported(queue: seq<Frame>, n: nat): (ps: seq<nat>)
    requires n <= |queue|
    ensures forall i :: 0 <= i < |ps| ==> ps[i] < n
  {
    if n == 0 then []
    else Reported(queue, n - 1) + (if IsFirst(queue, n - 1) then [n - 1] else [])
  }

  function NodesAt(queue: seq<Frame>, ps: seq<nat>): (ns: seq<nat>)
    requires forall i :: 0 <= i < |ps| ==> ps[i] < |queue|
    ensures |ns| == |ps|
  {
    seq(|ps|, i requires 0 <= i < |ps| => NodeOf(queue[ps[i]]))
  }

  /** The nodes reported when a queue is drained. */
  function Reports(queue: seq<Frame>): (ns: seq<nat>) {
    NodesAt(queue, Reported(queue, |queue|))
  }

  /** The reported positions are in queue order and are exactly the first announcements. */
  lemma {:induction false} ReportedPositions(queue: seq<Frame>, n: nat)
    requires n <= |queue|
    ensures var ps := Reported(queue, n);
            && (forall i, j :: 0 <= i < j < |ps| ==> ps[i] < ps[j])
            && (forall k: nat :: k in ps <==> k < n && IsFirst(queue, k))
  {
    if n > 0 {
      ReportedPositions(queue, n - 1);
    }
  }

  lemma {:induction false} FirstAnnouncement(queue: seq<Frame>, node: nat, k: nat) returns (j: nat)
    requires k < |queue| && Announces(queue[k], node)
    ensures j <= k && Announces(queue[j], node)
    ensures forall i | 0 <= i < j :: !Announces(queue[i], node)
    ensures IsFirst(queue, j)
  {
    if i: nat :| i < k && Announces(queue[i], node) {
      j := FirstAnnouncement(queue, node, i);
    } else {
      j := k;
    }
  }

  /** A node from 1 to 124 is reported when some frame announces it, and then only once. */
  lemma ReportedOnce(queue: seq<Frame>, node: nat)
    requires 1 <= node < NODE_COUNT
    ensures node in Reports(queue) <==> exists k :: 0 <= k < |queue| && Announces(queue[k], node)
    ensures forall i, j :: 0 <= i < j < |Reports(queue)| && Reports(queue)[i] == node
                           ==> Reports(queue)[j] != node
  {
    ReportedPositions(queue, |queue|);
    var ps := Reported(queue, |queue|);
    if k: nat :| k < |queue| && Announces(queue[k], node) {
      var j := FirstAnnouncement(queue, node, k);
      var i :| 0 <= i < |ps| && ps[i] == j;
      assert Reports(queue)[i] == node;
    }
    if node in Reports(queue) {
      var i :| 0 <= i < |ps| && Reports(queue)[i] == node;
      assert ps[i] in ps && Announces(queue[ps[i]], node);
    }
    forall i, j | 0 <= i < j < |ps| && Reports(queue)[i] == node
      ensures Reports(queue)[j] != node
    {
      assert ps[i] in ps && ps[j] in ps;
    }
  }

  /** Reports come in the order of first announcement. */
  lemma ReportedInOrder(queue: seq<Frame>, i: nat, j: nat)
    requires i < j < |Reports(queue)|
    ensures exists p, q :: && 0 <= p < q < |queue| && IsFirst(queue, p) && IsFirst(queue, q)
                           && NodeOf(queue[p]) == Reports(queue)[i] && NodeOf(queue[q]) == Reports(queue)[j]
  {
    ReportedPositions(queue, |queue|);
    var ps := Reported(queue, |queue|);
    assert ps[i] in ps && ps[j] in ps;
  }

  /** How often a queue prefix announces a node. */
  function Announcements(queue: seq<Frame>, n: nat, node: nat): nat
    requires n <= |queue|
  {
    if n == 0 then 0
    else Announcements(queue, n - 1, node) + (if Announces(queue[n - 1], node) then 1 else 0)
  }

  /** Node 0 is reported once per announcement: its mark in the table is 0. */
  lemma {:induction false} NodeZeroEachTime(queue: seq<Frame>, n: nat)
    requires n <= |queue|
    ensures multiset(NodesAt(queue, Reported(queue, n)))[0] == Announcements(queue, n, 0)
  {
    if n > 0 {
      NodeZeroEachTime(queue, n - 1);
      var before := Reported(queue, n - 1);
      if IsFirst(queue, n - 1) {
        assert NodesAt(queue, before + [n - 1]) == NodesAt(queue, before) + [NodeOf(queue[n - 1])];
      } else {
        assert before + [] == before;
      }
    }
  }

  /** No report without a frame, and none for a node outside the table. */
  lemma OnlyAnnounced(queue: seq<Frame>, i: nat)
    requires i < |Reports(queue)|
    ensures Reports(queue)[i] < NODE_COUNT
    ensures exists k :: 0 <= k < |queue| && Announces(queue[k], Reports(queue)[i])
  {
    ReportedPositions(queue, |queue|);
    var k := Reported(queue, |queue|)[i];
    assert k in Reported(queue, |queue|);
    assert Announces(queue[k], Reports(queue)[i]);
  }
}
