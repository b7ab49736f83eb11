/**
 The hand-linked queue of accepted requests behind each rate-limit key.

 A queue and its nodes carry the key they belong to, so queues of two keys never share a node.
 */
module RateLimitQueue {
  import opened RateLimitSpec

  class Node {
    var next: Node?
    const timestamp: int
    ghost const key: Key

    constructor (timestamp: int, ghost key: Key)
      ensures this.timestamp == timestamp && this.key == key && next == null
    {
      this.timestamp := timestamp;
      this.key := key;
      next := null;
    }
  }

  class Queue {
    ghost const key: Key
    var head: Node?
    var tail: Node?
    var length: int
    ghost var chain: seq<Node>
    ghost var times: seq<int>
    ghost var nodes: set<Node>

    /** head, tail and length describe an acyclic chain ending in null, oldest first. */
    ghost predicate Valid()
      reads this, nodes
    {
      && length == |chain| == |times|
      && (forall n :: n in nodes ==> n.key == key)
      && (forall i :: 0 <= i < |chain| ==> chain[i] in nodes && chain[i].timestamp == times[i])
      && (forall i {:trigger chain[i].next} :: 0 <= i < |chain| - 1 ==> chain[i].next == chain[i + 1])
      && (forall i, j :: 0 <= i < j < |chain| ==> chain[i] != chain[j])
      && (if chain == [] then head == null && tail == null
          else head == chain[0] && tail == chain[|chain| - 1] && tail.next == null)
    }

    constructor (ghost key: Key)
      ensures Valid() && times == [] && nodes == {} && this.key == key
    {
      this.key := key;
      head, tail, length := null, null, 0;
      chain, times, nodes := [], [], {};
    }

    method Append(timestamp: int)
      requires Valid()
      modifies this, nodes
      ensures Valid() && times == old(times) + [timestamp]
      ensures fresh(nodes - old(nodes))
    {
      var request := new Node(timestamp, key);
      if tail == null {
        head := request;
        tail := request;
      } else {
        tail.next := request;
        tail := request;
      }
      length := length + 1;
      chain, times, nodes := chain + [request], times + [timestamp], nodes + {request};
    }

    /** Never follows a null link: an unexpired tail stops the loop before the end of the chain. */
    method RemoveExpired(now: int, duration: int)
      requires Valid()
      modifies this, nodes
      ensures Valid() && times == Prune(old(times), now, duration)
      ensures nodes <= old(nodes)
    {
      if head == null || now - head.timestamp < duration {
        return;
      }
      if now - tail.timestamp >= duration {
        Clear();
        return;
      }
      while now - head.timestamp >= duration
        invariant Valid() && chain != []
        invariant Live(now, times[|times| - 1], duration)
        invariant nodes == old(nodes)
        invariant DropExpired(times, now, duration) == DropExpired(old(times), now, duration)
        decreases |chain|
      {
        assert chain[0] in nodes;
        DropHead();
      }
    }

    /** The body of the pruning loop: unlinks the oldest request of a queue that holds another. */
    method DropHead()
      requires Valid() && |chain| > 1
      modifies this, chain[0]
      ensures Valid() && chain == old(chain)[1..] && times == old(times)[1..] && nodes == old(nodes)
    {
      var expired := head;
      head := expired.next;
      expired.next := null;
      length := length - 1;
      chain, times := chain[1..], times[1..];
    }

    method Clear()
      modifies this
      ensures Valid() && times == [] && nodes == {}
    {
      head, tail, length := null, null, 0;
      chain, times, nodes := [], [], {};
    }
  }
}
