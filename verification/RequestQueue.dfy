/** The linked queue of accepted requests in common/rate-limit.go: head, tail and length updated in place. */
module RequestQueues {
  import opened OrderedSets
  import opened RateLimitSpec

  class RequestNode {
    var next: RequestNode?
    const timestamp: int
    ghost const owner: RequestQueue

    constructor (timestamp: int, ghost owner: RequestQueue)
      ensures this.timestamp == timestamp && next == null && this.owner == owner
    {
      this.timestamp := timestamp;
      this.owner := owner;
      next := null;
    }
  }

  class RequestQueue {
    var head: RequestNode?
    var tail: RequestNode?
    var length: int
    ghost var nodes: seq<RequestNode>  // the chain from head to tail
    ghost const owner: string          // the key whose bucket the queue is part of

    /** No node is in two chains: each knows the queue it was made for. */
    ghost predicate Valid()
      reads this, nodes
    {
      && length == |nodes|
      && (nodes == [] ==> head == null && tail == null)
      && (nodes != [] ==> head == nodes[0] && tail == nodes[|nodes| - 1] && tail.next == null)
      && (forall i :: 0 <= i < |nodes| - 1 ==> nodes[i].next == nodes[i + 1])
      && Distinct(nodes)
      && (forall n :: n in nodes ==> n.owner == this)
    }

    /** The recorded timestamps, oldest first. */
    ghost function Contents(): (s: seq<int>)
      reads this
      ensures |s| == |nodes|
    {
      seq(|nodes|, i requires 0 <= i < |nodes| reads this => nodes[i].timestamp)
    }

    constructor (ghost owner: string)
      ensures Valid() && Contents() == [] && nodes == [] && this.owner == owner
    {
      this.owner := owner;
      head, tail, length := null, null, 0;
      nodes := [];
    }

    method Append(timestamp: int)
      requires Valid()
      modifies this, nodes`next
      ensures Valid() && Contents() == old(Contents()) + [timestamp]
      ensures forall n :: n in nodes ==> n in old(nodes) || fresh(n)
    {
      var request := new RequestNode(timestamp, this);
      if tail == null {
        head := request;
        tail := request;
      } else {
        tail.next := request;
        tail := request;
      }
      length := length + 1;
      nodes := nodes + [request];
    }

    /** Removes exactly the expired prefix; on a time-ordered queue that is every expired request. */
    method RemoveExpired(now: int, duration: int)
      requires Valid()
      modifies this, nodes`next
      ensures Valid() && Contents() == RateLimitSpec.RemoveExpired(old(Contents()), now, duration)
      ensures forall n :: n in nodes ==> n in old(nodes)
    {
      if head == null || now - head.timestamp < duration {
        return;
      }
      if now - tail.timestamp >= duration {
        Clear();
        return;
      }
      while now - head.timestamp >= duration
        invariant Valid() && nodes != [] && tail == old(tail)
        invariant forall n :: n in nodes ==> n in old(nodes)
        invariant PopExpired(Contents(), now, duration) == PopExpired(old(Contents()), now, duration)
        decreases |nodes|
      {
        assert Contents()[0] == head.timestamp;
        var expired := head;
        assert expired == nodes[0] && expired in nodes && nodes[|nodes| - 1] == tail;
        ghost var before := Contents();
        head := expired.next;
        expired.next := null;
        length := length - 1;
        nodes := nodes[1..];
        assert Contents() == before[1..];
      }
    }

    method Clear()
      requires Valid()
      modifies this
      ensures Valid() && Contents() == [] && nodes == []
    {
      head := null;
      tail := null;
      length := 0;
      nodes := [];
    }

    ghost predicate Apart(other: RequestQueue)
      reads this, other
    {
      this != other && forall n :: n in nodes ==> n !in other.nodes
    }

    /** Neither the queue nor the links of its nodes changed. */
    twostate predicate Kept()
      reads this, nodes
    {
      && head == old(head) && tail == old(tail) && length == old(length) && nodes == old(nodes)
      && forall n :: n in nodes ==> n.next == old(n.next)
    }

    twostate lemma Untouched()
      requires old(Valid()) && Kept()
      ensures Valid() && Contents() == old(Contents())
    {
      assert forall i :: 0 <= i < |nodes| ==> nodes[i] in nodes;
    }
  }
}
