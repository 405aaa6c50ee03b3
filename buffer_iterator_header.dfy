/** The earlier `BufferIterator` of db/buffer_iterator.h: the same index over
    buffer nodes, with a `Seek` meant to binary-search for the first node
    whose largest key is at least the target. */
module BufferIteratorHeader {
  import opened Common
  import opened BufferIterators

  /** Nodes ordered by their largest key, the order a binary search needs. */
  ghost predicate SortedByLargest(nodes: seq<BufferNode>) {
    forall i, j :: 0 <= i < j < |nodes| ==> nodes[i].largest <= nodes[j].largest
  }

  /** The lower bound on `largest`: the first node whose largest key is at
      least `key`, or `|nodes|`. */
  function FirstLargestAtLeast(nodes: seq<BufferNode>, key: Key): (r: nat)
    ensures r <= |nodes|
    ensures forall i :: 0 <= i < r ==> nodes[i].largest < key
    ensures r < |nodes| ==> nodes[r].largest >= key
  {
    if nodes == [] then 0
    else if nodes[0].largest >= key then 0
    else 1 + FirstLargestAtLeast(nodes[1..], key)
  }

  /** On sorted nodes the lower bound is pinned down by the two sides of the
      search: everything before it below `key`, everything from it on not. */
  lemma FirstLargestAtLeastUnique(nodes: seq<BufferNode>, key: Key, o: nat)
    requires o <= |nodes|
    requires forall i :: 0 <= i < o ==> nodes[i].largest < key
    requires forall i :: o <= i < |nodes| ==> nodes[i].largest >= key
    ensures FirstLargestAtLeast(nodes, key) == o
  {
    var r := FirstLargestAtLeast(nodes, key);
    assert r < |nodes| ==> nodes[r].largest >= key;
    assert o < |nodes| ==> nodes[o].largest >= key;
  }

  /** In a buffer whose ranges are ordered and disjoint, a key that some node
      contains is found at that node both by the intended search of this
      header (the lower bound on `largest`, which `SeekIntended` uses) and by
      the newest-containing-node scan of the later `Seek`. The search as
      written does not find it (`FindNodeMissesLaterNode`). */
  lemma {:induction false} HeaderSeekAgreesOnDisjointBuffer(nodes: seq<BufferNode>, t: Key, k: nat)
    requires Disjoint(nodes)
    requires k < |nodes| && Contains(nodes[k], t)
    ensures FirstLargestAtLeast(nodes, t) == k
    ensures NewestContaining(nodes, t) == k
  {
    assert forall i :: 0 <= i < k ==> nodes[i].largest < nodes[k].smallest;
    FirstLargestAtLeastUnique(nodes[..k + 1], t, k);
    assert nodes == nodes[..k + 1] + nodes[k + 1..];
    FirstLargestAtLeastPrefix(nodes, t, k + 1);
    SeekFindsTheOnlyContainingNode(nodes, t, k);
  }

  /** The lower bound is decided within any prefix that already reaches it. */
  lemma {:induction false} FirstLargestAtLeastPrefix(nodes: seq<BufferNode>, key: Key, n: nat)
    requires n <= |nodes| && FirstLargestAtLeast(nodes[..n], key) < n
    ensures FirstLargestAtLeast(nodes, key) == FirstLargestAtLeast(nodes[..n], key)
  {
    if nodes[0].largest < key {
      assert nodes[..n][1..] == nodes[1..][..n - 1];
      FirstLargestAtLeastPrefix(nodes[1..], key, n - 1);
    }
  }

  class BufferIterator {
    const nodes: seq<BufferNode>
    /** `buffer_->largest`: the largest key the buffer records for itself. */
    const bufferLargest: Key
    var index: nat

    ghost predicate Inv()
      reads this
    {
      index <= |nodes|
    }

    /** A new iterator sits on the invalid position `|nodes|`. */
    constructor (nodes: seq<BufferNode>, bufferLargest: Key)
      ensures this.nodes == nodes && this.bufferLargest == bufferLargest
      ensures index == |nodes| && Inv() && !Valid()
    {
      this.nodes, this.bufferLargest := nodes, bufferLargest;
      index := |nodes|;
    }

    /** Of the positions an iterator can take, `|nodes|` is the one invalid one. */
    predicate Valid()
      reads this
      ensures Inv() ==> (Valid() <==> index != |nodes|)
    {
      index < |nodes|
    }

    /** The index key of a node is its largest key, an upper bound of every
        key the node contains. */
    function Key(): (k: Key)
      reads this
      requires Valid()
      ensures k == nodes[index].largest
      ensures forall t :: Contains(nodes[index], t) ==> t <= k
    {
      nodes[index].largest
    }

    method Next()
      requires Valid()
      modifies this
      ensures Inv() && index == old(index) + 1
    {
      index := index + 1;
    }

    /** Stepping back from position 0 lands on the invalid position. */
    method Prev()
      requires Valid()
      modifies this
      ensures Inv() && index == if old(index) == 0 then |nodes| else old(index) - 1
    {
      index := if index == 0 then |nodes| else index - 1;
    }

    /** `Seek` as written, through the search as written: the first node when
        the buffer's own largest key reaches `t`, and the invalid position
        otherwise, whatever the nodes' ranges are. */
    method Seek(t: Key)
      modifies this
      ensures Inv()
      ensures index == if bufferLargest < t then |nodes| else 0
      ensures Valid() <==> |nodes| > 0 && t <= bufferLargest
    {
      index := FindNodeAsWritten(t);
    }

    /** `Seek` through the search as evidently intended: positions on the
        first node whose largest key is at least `t`; on a buffer sorted by
        largest key it is valid exactly when such a node exists. */
    method SeekIntended(t: Key)
      modifies this
      ensures Inv()
      ensures SortedByLargest(nodes) ==> index == FirstLargestAtLeast(nodes, t)
      ensures SortedByLargest(nodes) ==> (Valid() <==> exists i :: 0 <= i < |nodes| && nodes[i].largest >= t)
    {
      index := FindNode(t);
    }

    method SeekToFirst()
      modifies this
      ensures Inv() && index == 0
      ensures Valid() <==> |nodes| > 0
    {
      index := 0;
    }

    /** On an empty buffer the position 0 is also the invalid one. */
    method SeekToLast()
      modifies this
      ensures Inv() && index == if |nodes| == 0 then 0 else |nodes| - 1
      ensures Valid() <==> |nodes| > 0
    {
      index := if |nodes| == 0 then 0 else |nodes| - 1;
    }

    /** The binary search as written: its test reads `buffer_->largest`
        rather than the probed node, so every step moves the same side and
        the result is one of the two ends. */
    method FindNodeAsWritten(key: Key) returns (r: nat)
      ensures r == if bufferLargest < key then |nodes| else 0
    {
      var left, right := 0, |nodes|;
      while left < right
        invariant 0 <= left <= right <= |nodes|
        invariant bufferLargest < key ==> right == |nodes|
        invariant !(bufferLargest < key) ==> left == 0
        decreases right - left
      {
        var mid := (left + right) / 2;
        if bufferLargest < key {
          left := mid + 1;
        } else {
          right := mid;
        }
      }
      return right;
    }

    /** The binary search as evidently intended, testing the probed node's
        largest key: on sorted nodes it finds the lower bound on `largest`. */
    method FindNode(key: Key) returns (r: nat)
      ensures r <= |nodes|
      ensures SortedByLargest(nodes) ==> r == FirstLargestAtLeast(nodes, key)
    {
      var left, right := 0, |nodes|;
      while left < right
        invariant 0 <= left <= right <= |nodes|
        invariant SortedByLargest(nodes) ==> forall i :: 0 <= i < left ==> nodes[i].largest < key
        invariant SortedByLargest(nodes) ==> forall i :: right <= i < |nodes| ==> nodes[i].largest >= key
        decreases right - left
      {
        var mid := (left + right) / 2;
        if nodes[mid].largest < key {
          left := mid + 1;
        } else {
          right := mid;
        }
      }
      if SortedByLargest(nodes) {
        FirstLargestAtLeastUnique(nodes, key, right);
      }
      return right;
    }
  }

  /** Nodes `[1, 3]` and `[5, 9]` of a buffer whose largest key is 9: a search
      for 6 as written returns 0, whose node does not reach 6; the intended
      search returns 1, whose node contains 6. */
  method FindNodeMissesLaterNode() returns (asWritten: nat, intended: nat)
    ensures asWritten == 0 && intended == 1
  {
    var it := new BufferIterator([BufferNode(1, 3, 1), BufferNode(5, 9, 2)], 9);
    asWritten := it.FindNodeAsWritten(6);
    intended := it.FindNode(6);
    assert SortedByLargest(it.nodes);
    assert FirstLargestAtLeast(it.nodes, 6) == 1 by {
      assert it.nodes[1..][0].largest >= 6;
    }
  }
}
