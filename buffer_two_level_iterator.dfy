/** `BufferTwoLevelIterator` of db/buffer_iterator.cc: the buffer's index level
    composed with clamped data iterators opened on demand. A point lookup tries
    the newest node whose range contains the key and falls back to older
    containing nodes until the data holds the key exactly. */
module BufferTwoLevelIterators {
  import opened Common
  import opened Coding
  import opened DataIterators
  import opened BufferIterators
  import opened BufferNodeIterators

  /** `block_function_`: opens the data of the file that a handle names. */
  type Opener = seq<Byte> -> Block

  /** Node `j` contains `t`, and the file behind its handle lands on `t` exactly. */
  ghost predicate Hit(nodes: seq<BufferNode>, flist: seq<FileMeta>, open: Opener, t: Key, j: nat)
    requires j < |nodes|
  {
    Contains(nodes[j], t) && Found(open(NodeHandle(flist, nodes[j])).entries, t)
  }

  /** The one way a containing node with the key can be passed over: the data
      iterator `d0` left by an earlier operation has the same handle, so it is
      reused, and the range test of the node seek (as written, or as intended)
      rejects `t` for the node `d0` is bound to. As written, that needs `d0`'s
      range to be inverted around `t`; as intended, it needs `t` outside it. */
  ghost predicate StaleBinding(asWritten: bool, nodes: seq<BufferNode>, flist: seq<FileMeta>,
                               d0: BufferNodeIterator?, h0: seq<Byte>, t: Key, j: nat)
    requires j < |nodes|
  {
    d0 != null && NodeHandle(flist, nodes[j]) == h0 && Rejects(asWritten, d0.node, t)
  }

  /** Every node from `from` on that holds `t` was passed over only through a
      stale binding of `d0`. */
  ghost predicate PassedOver(asWritten: bool, nodes: seq<BufferNode>, flist: seq<FileMeta>, open: Opener,
                             d0: BufferNodeIterator?, h0: seq<Byte>, t: Key, from: nat)
  {
    forall j :: from <= j < |nodes| && Hit(nodes, flist, open, t, j) ==>
      StaleBinding(asWritten, nodes, flist, d0, h0, t, j)
  }

  /** The backward scan from `from` skips only nodes that do not contain `t`. */
  lemma ScanKeepsPassedOver(asWritten: bool, nodes: seq<BufferNode>, flist: seq<FileMeta>, open: Opener,
                            d0: BufferNodeIterator?, h0: seq<Byte>, t: Key, from: nat)
    requires from < |nodes|
    requires PassedOver(asWritten, nodes, flist, open, d0, h0, t, from + 1)
    ensures var k := LatestContaining(nodes, t, from);
      PassedOver(asWritten, nodes, flist, open, d0, h0, t, if k < |nodes| then k + 1 else 0)
  {
  }

  /** A node that was probed and missed, other than through a stale binding,
      does not hold `t`. */
  lemma MissKeepsPassedOver(asWritten: bool, nodes: seq<BufferNode>, flist: seq<FileMeta>, open: Opener,
                            d0: BufferNodeIterator?, h0: seq<Byte>, t: Key, k: nat)
    requires k < |nodes|
    requires PassedOver(asWritten, nodes, flist, open, d0, h0, t, k + 1)
    requires Hit(nodes, flist, open, t, k) ==> StaleBinding(asWritten, nodes, flist, d0, h0, t, k)
    ensures PassedOver(asWritten, nodes, flist, open, d0, h0, t, k)
  {
  }

  /** What a seek carries from one probe to the next: the node the open data
      iterator is bound to and the handle it was opened with. */
  type Binding = Option<(BufferNode, seq<Byte>)>

  /** `InitDataBlock` on node `n` with handle `h`: an open iterator opened
      with the same handle keeps its binding, otherwise `n` is bound. */
  function Rebind(b: Binding, n: BufferNode, h: seq<Byte>): (c: (BufferNode, seq<Byte>))
    ensures c.1 == h
    ensures c.0 == n || (b.Some? && b.value == c)
  {
    if b.Some? && b.value.1 == h then b.value else (n, h)
  }

  /** The exact node seek through binding `c` hits: its range test lets `t`
      through and the file behind `c`'s handle lands on `t`. */
  ghost predicate ProbeHits(asWritten: bool, open: Opener, t: Key, c: (BufferNode, seq<Byte>)) {
    !Rejects(asWritten, c.0, t) && Found(open(c.1).entries, t)
  }

  /** The index after `SeekToLast`. */
  function LastIndex(nodes: seq<BufferNode>): nat {
    if |nodes| == 0 then 0 else |nodes| - 1
  }

  /** The index after `Prev` from a valid position. */
  function StepBack(nodes: seq<BufferNode>, i: nat): nat {
    if i == 0 then |nodes| else i - 1
  }

  /** The whole seek loop as a function: the node it stops on, or `|nodes|`,
      when the scan resumes at `from` with binding `b`. Each round moves to
      the latest node at or below `from` that contains `t`, rebinds as
      `InitDataBlock` does, and stops when the exact probe through that
      binding hits. */
  ghost function ScanFrom(asWritten: bool, nodes: seq<BufferNode>, flist: seq<FileMeta>, open: Opener, t: Key,
                          b: Binding, from: nat): (r: nat)
    requires from <= |nodes|
    ensures r <= |nodes|
    decreases from
  {
    var k := LatestContaining(nodes, t, from);
    if k == |nodes| then |nodes|
    else
      var c := Rebind(b, nodes[k], NodeHandle(flist, nodes[k]));
      if ProbeHits(asWritten, open, t, c) then k
      else if k == 0 then |nodes|
      else ScanFrom(asWritten, nodes, flist, open, t, Some(c), k - 1)
  }

  /** The binding the seek loop ends with: the one its last probe hit
      through, or none when it finds nothing. */
  ghost function ScanBinding(asWritten: bool, nodes: seq<BufferNode>, flist: seq<FileMeta>, open: Opener, t: Key,
                             b: Binding, from: nat): Binding
    requires from <= |nodes|
    decreases from
  {
    var k := LatestContaining(nodes, t, from);
    if k == |nodes| then None
    else
      var c := Rebind(b, nodes[k], NodeHandle(flist, nodes[k]));
      if ProbeHits(asWritten, open, t, c) then Some(c)
      else if k == 0 then None
      else ScanBinding(asWritten, nodes, flist, open, t, Some(c), k - 1)
  }

  /** One round of `ScanFrom`, unfolded for the loop that computes it. */
  lemma ScanFromRound(asWritten: bool, nodes: seq<BufferNode>, flist: seq<FileMeta>, open: Opener, t: Key,
                      b: Binding, from: nat)
    requires from <= |nodes|
    ensures var k := LatestContaining(nodes, t, from);
      var r := ScanFrom(asWritten, nodes, flist, open, t, b, from);
      if k == |nodes| then r == |nodes|
      else
        var c := Rebind(b, nodes[k], NodeHandle(flist, nodes[k]));
        if ProbeHits(asWritten, open, t, c) then r == k
        else r == ScanFrom(asWritten, nodes, flist, open, t, Some(c), StepBack(nodes, k))
  {
    var k := LatestContaining(nodes, t, from);
    if k < |nodes| {
      var c := Rebind(b, nodes[k], NodeHandle(flist, nodes[k]));
      var r := ScanFrom(asWritten, nodes, flist, open, t, b, from);
      if ProbeHits(asWritten, open, t, c) {
        assert r == k;
      } else if k > 0 {
        assert r == ScanFrom(asWritten, nodes, flist, open, t, Some(c), k - 1);
      }
    }
  }

  /** One round of `ScanBinding`, unfolded for the loop that computes it. */
  lemma ScanBindingRound(asWritten: bool, nodes: seq<BufferNode>, flist: seq<FileMeta>, open: Opener, t: Key,
                         b: Binding, from: nat)
    requires from <= |nodes|
    ensures var k := LatestContaining(nodes, t, from);
      var e := ScanBinding(asWritten, nodes, flist, open, t, b, from);
      if k == |nodes| then e == None
      else
        var c := Rebind(b, nodes[k], NodeHandle(flist, nodes[k]));
        if ProbeHits(asWritten, open, t, c) then e == Some(c)
        else e == ScanBinding(asWritten, nodes, flist, open, t, Some(c), StepBack(nodes, k))
  {
    var k := LatestContaining(nodes, t, from);
    if k < |nodes| {
      var c := Rebind(b, nodes[k], NodeHandle(flist, nodes[k]));
      var e := ScanBinding(asWritten, nodes, flist, open, t, b, from);
      if ProbeHits(asWritten, open, t, c) {
        assert e == Some(c);
      } else if k > 0 {
        assert e == ScanBinding(asWritten, nodes, flist, open, t, Some(c), k - 1);
      }
    }
  }

  /** A binding is harmless for `t` when the range test lets `t` through or
      its file lacks `t`: a probe through it answers as a probe of the node
      would. */
  ghost predicate Harmless(asWritten: bool, open: Opener, t: Key, b: Binding) {
    b.Some? ==> !Rejects(asWritten, b.value.0, t) || !Found(open(b.value.1).entries, t)
  }

  /** As written, the range test never rejects for a well-formed node, so a
      binding to one is always harmless. */
  lemma WellFormedBindingHarmless(open: Opener, t: Key, b: Binding)
    requires b.Some? ==> b.value.0.smallest <= b.value.0.largest
    ensures Harmless(true, open, t, b)
  {
  }

  /** No node in `[lo, hi]` holds `t`. */
  ghost predicate NoHitIn(nodes: seq<BufferNode>, flist: seq<FileMeta>, open: Opener, t: Key, lo: int, hi: int)
    requires hi < |nodes|
  {
    forall j :: 0 <= lo <= j <= hi ==> !Hit(nodes, flist, open, t, j)
  }

  /** Probing a containing node through a harmless binding answers as the
      node itself would, and the new binding is harmless again. */
  lemma ProbeAgreesWithHit(asWritten: bool, nodes: seq<BufferNode>, flist: seq<FileMeta>, open: Opener,
                           t: Key, b: Binding, k: nat, c: (BufferNode, seq<Byte>))
    requires k < |nodes| && Contains(nodes[k], t) && Harmless(asWritten, open, t, b)
    requires c == Rebind(b, nodes[k], NodeHandle(flist, nodes[k]))
    ensures ProbeHits(asWritten, open, t, c) == Hit(nodes, flist, open, t, k)
    ensures Harmless(asWritten, open, t, Some(c))
  {
  }

  /** What a scan of `[0, from]` that answers `r` should answer: either the
      newest node there holding `t`, or `|nodes|` when none holds it. */
  ghost predicate NewestHitAnswer(nodes: seq<BufferNode>, flist: seq<FileMeta>, open: Opener,
                                  t: Key, from: nat, r: nat)
    requires from < |nodes|
  {
    (r < |nodes| ==> r <= from && Hit(nodes, flist, open, t, r) && NoHitIn(nodes, flist, open, t, r + 1, from)) &&
    (r >= |nodes| ==> NoHitIn(nodes, flist, open, t, 0, from))
  }

  /** Started from a harmless binding (in particular from none), the scan
      stops on the newest node at or below `from` that holds `t`, and finds
      nothing only when no such node holds it. */
  lemma {:induction false} ScanFindsNewestHit(asWritten: bool, nodes: seq<BufferNode>, flist: seq<FileMeta>,
                                              open: Opener, t: Key, b: Binding, from: nat)
    requires from < |nodes| && Harmless(asWritten, open, t, b)
    ensures NewestHitAnswer(nodes, flist, open, t, from, ScanFrom(asWritten, nodes, flist, open, t, b, from))
    decreases from
  {
    var k := LatestContaining(nodes, t, from);
    var r := ScanFrom(asWritten, nodes, flist, open, t, b, from);
    if k == |nodes| {
      assert r == |nodes| by { ScanFromRound(asWritten, nodes, flist, open, t, b, from); }
      OutsideRangesNoHit(nodes, flist, open, t, 0, from);
    } else {
      var c := Rebind(b, nodes[k], NodeHandle(flist, nodes[k]));
      var probe := ProbeHits(asWritten, open, t, c);
      ProbeAgreesWithHit(asWritten, nodes, flist, open, t, b, k, c);
      assert (probe ==> r == k) && (!probe && k == 0 ==> r == |nodes|) &&
        (!probe && k > 0 ==> r == ScanFrom(asWritten, nodes, flist, open, t, Some(c), k - 1)) by {
        ScanFromRound(asWritten, nodes, flist, open, t, b, from);
      }
      OutsideRangesNoHit(nodes, flist, open, t, k + 1, from);
      if probe {
      } else if k == 0 {
        NoHitInJoin(nodes, flist, open, t, 0, 0, from);
      } else {
        assert !Hit(nodes, flist, open, t, k);
        ScanFindsNewestHit(asWritten, nodes, flist, open, t, Some(c), k - 1);
        NewestHitExtends(nodes, flist, open, t, k, from, r);
      }
    }
  }

  /** The answer of a scan is unique: two scans from harmless bindings stop
      on the same node. In particular, as written, the node a lookup stops on
      does not depend on a binding to a well-formed node. */
  lemma HarmlessScansAgree(asWritten: bool, nodes: seq<BufferNode>, flist: seq<FileMeta>, open: Opener,
                           t: Key, b1: Binding, b2: Binding, from: nat)
    requires from < |nodes| && Harmless(asWritten, open, t, b1) && Harmless(asWritten, open, t, b2)
    ensures ScanFrom(asWritten, nodes, flist, open, t, b1, from) == ScanFrom(asWritten, nodes, flist, open, t, b2, from)
  {
    var r1 := ScanFrom(asWritten, nodes, flist, open, t, b1, from);
    var r2 := ScanFrom(asWritten, nodes, flist, open, t, b2, from);
    ScanFindsNewestHit(asWritten, nodes, flist, open, t, b1, from);
    ScanFindsNewestHit(asWritten, nodes, flist, open, t, b2, from);
  }

  /** An answer for `[0, k - 1]` is one for `[0, hi]` when node `k` misses
      and nothing above it holds `t`. */
  lemma NewestHitExtends(nodes: seq<BufferNode>, flist: seq<FileMeta>, open: Opener,
                         t: Key, k: nat, hi: nat, r: nat)
    requires 0 < k <= hi < |nodes|
    requires NewestHitAnswer(nodes, flist, open, t, k - 1, r) && !Hit(nodes, flist, open, t, k)
    requires NoHitIn(nodes, flist, open, t, k + 1, hi)
    ensures NewestHitAnswer(nodes, flist, open, t, hi, r)
  {
    if r < |nodes| {
      NoHitInJoin(nodes, flist, open, t, r + 1, k, hi);
    } else {
      NoHitInJoin(nodes, flist, open, t, 0, k, hi);
    }
  }

  /** Nodes that do not contain `t` do not hold it. */
  lemma OutsideRangesNoHit(nodes: seq<BufferNode>, flist: seq<FileMeta>, open: Opener, t: Key, lo: int, hi: int)
    requires hi < |nodes|
    requires forall j :: 0 <= lo <= j <= hi ==> !Contains(nodes[j], t)
    ensures NoHitIn(nodes, flist, open, t, lo, hi)
  {
  }

  /** `[lo, k - 1]`, the missed node `k` and `[k + 1, hi]` make up `[lo, hi]`. */
  lemma NoHitInJoin(nodes: seq<BufferNode>, flist: seq<FileMeta>, open: Opener, t: Key, lo: nat, k: nat, hi: int)
    requires lo <= k <= hi < |nodes|
    requires NoHitIn(nodes, flist, open, t, lo, k - 1) && !Hit(nodes, flist, open, t, k)
    requires NoHitIn(nodes, flist, open, t, k + 1, hi)
    ensures NoHitIn(nodes, flist, open, t, lo, hi)
  {
  }

  class BufferTwoLevelIterator {
    const indexIter: BufferIterator
    const open: Opener
    var dataIter: BufferNodeIterator?
    var dataBlockHandle: seq<Byte>
    ghost var Repr: set<object>

    /** The objects and what is known of the open data iterator: it reads the
        file named by `dataBlockHandle`, which is the handle of its own node. */
    ghost predicate Frame()
      reads this, Repr
    {
      this in Repr && indexIter in Repr && indexIter.Inv() &&
      (dataIter != null ==>
         dataIter in Repr && dataIter.iter in Repr && dataIter.iter.Inv() &&
         dataIter.iter.entries == open(dataBlockHandle).entries &&
         dataBlockHandle == NodeHandle(indexIter.flist, dataIter.node)) &&
      Repr == {this, indexIter} + (if dataIter != null then {dataIter, dataIter.iter} else {})
    }

    /** Between operations a data iterator is open exactly when the index is
        positioned, and it was opened with the current node's handle. */
    ghost predicate Linked()
      reads this, indexIter
    {
      (dataIter != null <==> indexIter.Valid()) &&
      (indexIter.Valid() ==> dataBlockHandle == NodeHandle(indexIter.flist, indexIter.BNode()))
    }

    ghost predicate Inv()
      reads this, Repr
    {
      Frame() && Linked()
    }

    ghost function CurrentBinding(): Binding
      reads this
    {
      if dataIter == null then None else Some((dataIter.node, dataBlockHandle))
    }

    /** Where `InitDataBlock` leaves the data iterator on a positioned index,
        given the iterator `d0` and handle `h0` it started from: `d0` itself,
        still bound to its own node, when it was opened with the current
        node's handle, and otherwise an iterator bound to the current node. */
    ghost predicate KeptOrOpened(d0: BufferNodeIterator?, h0: seq<Byte>)
      reads this, indexIter
      requires indexIter.Valid()
    {
      if d0 != null && NodeHandle(indexIter.flist, indexIter.BNode()) == h0 then dataIter == d0
      else dataIter != null && dataIter != d0 && dataIter.node == indexIter.BNode()
    }

    /** The iterator owns a fresh, unpositioned index iterator over the buffer. */
    constructor (nodes: seq<BufferNode>, flist: seq<FileMeta>, open: Opener)
      ensures Inv() && fresh(Repr)
      ensures indexIter.nodes == nodes && indexIter.flist == flist && this.open == open
      ensures dataIter == null && !indexIter.Valid()
    {
      indexIter := new BufferIterator(nodes, flist);
      this.open := open;
      dataIter := null;
      dataBlockHandle := [];
      new;
      Repr := {this, indexIter};
    }

    /** Valid when a data iterator is open and inside its node's range. */
    predicate Valid()
      reads this, Repr
      requires Frame()
      ensures Valid() <==> dataIter != null && InClamp(dataIter.node, dataIter.iter.entries, dataIter.iter.pos)
    {
      dataIter != null && dataIter.Valid()
    }

    /** The current entry's key, which lies in the range of the node the data
        iterator is bound to. */
    function Key(): (k: Key)
      reads this, Repr
      requires Frame() && Valid()
      ensures k == dataIter.iter.entries[dataIter.iter.pos].key
      ensures dataIter.node.smallest <= k <= dataIter.node.largest
    {
      dataIter.Key()
    }

    function Value(): (v: seq<Byte>)
      reads this, Repr
      requires Frame() && Valid()
      ensures v == dataIter.iter.entries[dataIter.iter.pos].value
    {
      dataIter.Value()
    }

    /** The lookup succeeded: the index found a containing node and the data
        probe hit. The index being positioned guarantees an open data iterator. */
    predicate SeekResult()
      reads this, Repr
      requires Inv()
      ensures SeekResult() <==> indexIter.Valid() && dataIter.seekResult
    {
      if !indexIter.SeekResult() then false else dataIter.SeekResult()
    }

    /** Drops the data iterator when the index is not positioned, keeps it when
        the current handle equals the one it was opened with (node binding
        included), and otherwise opens the current node's file afresh. */
    method InitDataBlock()
      requires Frame()
      modifies this
      ensures Inv() && fresh(Repr - old(Repr))
      ensures !indexIter.Valid() ==> dataIter == null
      ensures indexIter.Valid() ==>
        var h := NodeHandle(indexIter.flist, indexIter.BNode());
        if old(dataIter) != null && h == old(dataBlockHandle) then
          dataIter == old(dataIter) && dataBlockHandle == old(dataBlockHandle)
        else
          dataIter != null && fresh(dataIter) && fresh(dataIter.iter) &&
          dataIter.node == indexIter.BNode() && dataBlockHandle == h &&
          !dataIter.iter.Valid() && !dataIter.seekResult
    {
      if !indexIter.Valid() {
        dataIter := null;
      } else {
        var handle := indexIter.Value();
        // an open iterator for the same handle bytes is kept as it is
        if !(dataIter != null && handle == dataBlockHandle) {
          var iter := new DataIter(open(handle));
          dataBlockHandle := handle;
          var node := indexIter.BNode();
          dataIter := new BufferNodeIterator(node, iter);
        }
      }
      Repr := {this, indexIter} + (if dataIter != null then {dataIter, dataIter.iter} else {});
    }

    /** The cache as evidently intended: the file opened for the same handle
        is reused, but it is wrapped for the current node, so the open data
        iterator is always bound to the node the index is on. */
    method InitDataBlockPerNode()
      requires Frame()
      modifies this
      ensures Inv() && fresh(Repr - old(Repr))
      ensures !indexIter.Valid() ==> dataIter == null
      ensures indexIter.Valid() ==>
        dataIter != null && dataIter.node == indexIter.BNode() &&
        dataBlockHandle == NodeHandle(indexIter.flist, indexIter.BNode()) &&
        (old(dataIter) != null && dataBlockHandle == old(dataBlockHandle) ==> dataIter.iter == old(dataIter.iter))
    {
      if !indexIter.Valid() {
        dataIter := null;
      } else {
        var handle := indexIter.Value();
        var node := indexIter.BNode();
        if dataIter != null && handle == dataBlockHandle {
          dataIter := new BufferNodeIterator(node, dataIter.iter);
        } else {
          var iter := new DataIter(open(handle));
          dataBlockHandle := handle;
          dataIter := new BufferNodeIterator(node, iter);
        }
      }
      Repr := {this, indexIter} + (if dataIter != null then {dataIter, dataIter.iter} else {});
    }

    /** The point lookup as the source writes it. The scan and the probe are
        those of `Lookup`; the node seek is the one as written, so a hit only
        needs the file to hold `t`: the data iterator lands on `t`, and it is
        valid exactly when the node it is bound to contains `t`, which fails
        when an iterator of an older node of the same file was kept. When the
        iterator it starts from is bound to a well-formed node, no newer node
        holds `t`, so the lookup finds `t` exactly when some node holds it. */
    method Seek(t: Key)
      requires Inv()
      modifies Repr
      ensures Inv() && fresh(Repr - old(Repr))
      ensures SeekResult() <==> indexIter.Valid()
      ensures indexIter.Valid() ==>
        Hit(indexIter.nodes, indexIter.flist, open, t, indexIter.index) &&
        dataIter.iter.Valid() && dataIter.iter.Key() == t &&
        (Valid() <==> Contains(dataIter.node, t))
      ensures dataIter != null ==> Contains(dataIter.node, t) || dataIter == old(dataIter)
      ensures PassedOver(true, indexIter.nodes, indexIter.flist, open, old(dataIter), old(dataBlockHandle), t,
                         if indexIter.Valid() then indexIter.index + 1 else 0)
      ensures (old(dataIter) != null ==> old(dataIter).node.smallest <= old(dataIter).node.largest) ==>
        NoHitIn(indexIter.nodes, indexIter.flist, open, t,
                if indexIter.Valid() then indexIter.index + 1 else 0, |indexIter.nodes| - 1)
      ensures indexIter.index ==
        ScanFrom(true, indexIter.nodes, indexIter.flist, open, t, old(CurrentBinding()), LastIndex(indexIter.nodes))
      ensures CurrentBinding() ==
        ScanBinding(true, indexIter.nodes, indexIter.flist, open, t, old(CurrentBinding()), LastIndex(indexIter.nodes))
    {
      Lookup(t, true);
    }

    /** The point lookup with the node seek's range test as evidently
        intended: a hit leaves the iterator valid on `t`. Together with the
        handle cache, a newer node holding `t` is passed over when the kept
        iterator's range misses `t`. */
    method SeekIntended(t: Key)
      requires Inv()
      modifies Repr
      ensures Inv() && fresh(Repr - old(Repr))
      ensures SeekResult() <==> indexIter.Valid()
      ensures indexIter.Valid() ==>
        Hit(indexIter.nodes, indexIter.flist, open, t, indexIter.index) && Valid() && Key() == t
      ensures dataIter != null ==> Contains(dataIter.node, t) || dataIter == old(dataIter)
      ensures PassedOver(false, indexIter.nodes, indexIter.flist, open, old(dataIter), old(dataBlockHandle), t,
                         if indexIter.Valid() then indexIter.index + 1 else 0)
      ensures indexIter.index ==
        ScanFrom(false, indexIter.nodes, indexIter.flist, open, t, old(CurrentBinding()), LastIndex(indexIter.nodes))
      ensures CurrentBinding() ==
        ScanBinding(false, indexIter.nodes, indexIter.flist, open, t, old(CurrentBinding()), LastIndex(indexIter.nodes))
    {
      Lookup(t, false);
    }

    /** The do-while loop of `Seek`: scan back from the last node for a node
        containing `t`, probe its data exactly, and on a miss step back and
        scan again. On exit either nothing was found and no data iterator is
        open, or the data is on `t` in the file of a node that holds it, and
        every newer node holding `t` could only have been passed over through
        a reused iterator whose range test rejects `t`. */
    method Lookup(t: Key, asWritten: bool)
      requires Inv()
      modifies Repr
      ensures Inv() && fresh(Repr - old(Repr))
      ensures SeekOutcome(asWritten, old(dataIter), old(dataBlockHandle), t)
      ensures Bound(old(dataIter), old(dataBlockHandle), t)
      ensures indexIter.index ==
        ScanFrom(asWritten, indexIter.nodes, indexIter.flist, open, t, old(CurrentBinding()), LastIndex(indexIter.nodes))
      ensures CurrentBinding() ==
        ScanBinding(asWritten, indexIter.nodes, indexIter.flist, open, t, old(CurrentBinding()), LastIndex(indexIter.nodes))
    {
      ghost var d0, h0 := dataIter, dataBlockHandle;
      ghost var b0 := CurrentBinding();
      ghost var target :=
        ScanFrom(asWritten, indexIter.nodes, indexIter.flist, open, t, b0, LastIndex(indexIter.nodes));
      ghost var targetBinding :=
        ScanBinding(asWritten, indexIter.nodes, indexIter.flist, open, t, b0, LastIndex(indexIter.nodes));
      var first := true;
      var done := false;
      while !done
        invariant Frame() && fresh(Repr - old(Repr)) && Bound(d0, h0, t)
        invariant first ==> !done && Linked() && dataIter == d0 && dataBlockHandle == h0
        invariant !first && !done ==> (Linked() && indexIter.Valid() &&
          PassedOver(asWritten, indexIter.nodes, indexIter.flist, open, d0, h0, t, indexIter.index))
        invariant done ==> SeekOutcome(asWritten, d0, h0, t)
        invariant !done ==> target == ScanFrom(asWritten, indexIter.nodes, indexIter.flist, open, t, CurrentBinding(),
          if first then LastIndex(indexIter.nodes) else StepBack(indexIter.nodes, indexIter.index))
        invariant !done ==> targetBinding == ScanBinding(asWritten, indexIter.nodes, indexIter.flist, open, t,
          CurrentBinding(), if first then LastIndex(indexIter.nodes) else StepBack(indexIter.nodes, indexIter.index))
        invariant done ==> indexIter.index == target && CurrentBinding() == targetBinding
        decreases !done, if first then |indexIter.nodes| + 1 else indexIter.index
      {
        done := SeekStep(t, asWritten, first, d0, h0);
        first := false;
      }
    }

    /** What a finished seek guarantees; see `Lookup`. */
    ghost predicate SeekOutcome(asWritten: bool, d0: BufferNodeIterator?, h0: seq<Byte>, t: Key)
      reads this, Repr
      requires Frame()
    {
      Linked() &&
      (indexIter.Valid() ==> (dataIter.SeekResult() &&
         Hit(indexIter.nodes, indexIter.flist, open, t, indexIter.index) &&
         dataIter.iter.Valid() && dataIter.iter.Key() == t && !Rejects(asWritten, dataIter.node, t))) &&
      PassedOver(asWritten, indexIter.nodes, indexIter.flist, open, d0, h0, t,
                 if indexIter.Valid() then indexIter.index + 1 else 0)
    }

    /** One round of the do-while loop: move the index (to the last node the
        first time, back one node after that), scan back for a node containing
        `t`, and probe it. */
    method SeekStep(t: Key, asWritten: bool, first: bool, ghost d0: BufferNodeIterator?, ghost h0: seq<Byte>)
      returns (done: bool)
      requires Frame() && Bound(d0, h0, t)
      requires !first ==> (indexIter.Valid() &&
        PassedOver(asWritten, indexIter.nodes, indexIter.flist, open, d0, h0, t, indexIter.index))
      modifies Repr
      ensures Frame() && fresh(Repr - old(Repr)) && Bound(d0, h0, t)
      ensures done ==> SeekOutcome(asWritten, d0, h0, t)
      ensures !done ==> (Linked() && indexIter.Valid() &&
        PassedOver(asWritten, indexIter.nodes, indexIter.flist, open, d0, h0, t, indexIter.index) &&
        (!first ==> indexIter.index < old(indexIter.index)))
      ensures var from := if first then LastIndex(indexIter.nodes) else StepBack(indexIter.nodes, old(indexIter.index));
        var r := ScanFrom(asWritten, indexIter.nodes, indexIter.flist, open, t, old(CurrentBinding()), from);
        var e := ScanBinding(asWritten, indexIter.nodes, indexIter.flist, open, t, old(CurrentBinding()), from);
        if done then indexIter.index == r && CurrentBinding() == e
        else (r == ScanFrom(asWritten, indexIter.nodes, indexIter.flist, open, t, CurrentBinding(),
                            StepBack(indexIter.nodes, indexIter.index)) &&
              e == ScanBinding(asWritten, indexIter.nodes, indexIter.flist, open, t, CurrentBinding(),
                               StepBack(indexIter.nodes, indexIter.index)))
    {
      ghost var nodes, flist := indexIter.nodes, indexIter.flist;
      ghost var b0 := CurrentBinding();
      ghost var from := Advance(t, asWritten, first, d0, h0);
      ScanFromRound(asWritten, nodes, flist, open, t, b0, from);
      ScanBindingRound(asWritten, nodes, flist, open, t, b0, from);
      if !indexIter.SeekResult() {
        dataIter := null;
        Repr := {this, indexIter};
        return true;
      }
      ghost var c := Rebind(b0, indexIter.BNode(), NodeHandle(flist, indexIter.BNode()));
      var hit := Probe(t, asWritten, d0, h0);
      assert CurrentBinding() == Some(c);
      if hit {
        return true;
      }
      MissKeepsPassedOver(asWritten, nodes, flist, open, d0, h0, t, indexIter.index);
      return false;
    }

    /** The index moves of one round: to the last node the first time, back
        one node after that, then the backward scan for a node containing `t`. */
    method Advance(t: Key, ghost asWritten: bool, first: bool, ghost d0: BufferNodeIterator?, ghost h0: seq<Byte>)
      returns (ghost from: nat)
      requires indexIter.Inv()
      requires !first ==> (indexIter.Valid() &&
        PassedOver(asWritten, indexIter.nodes, indexIter.flist, open, d0, h0, t, indexIter.index))
      modifies indexIter
      ensures from == if first then LastIndex(indexIter.nodes) else StepBack(indexIter.nodes, old(indexIter.index))
      ensures from <= |indexIter.nodes| && indexIter.Inv()
      ensures indexIter.index == LatestContaining(indexIter.nodes, t, from)
      ensures PassedOver(asWritten, indexIter.nodes, indexIter.flist, open, d0, h0, t,
                         if indexIter.Valid() then indexIter.index + 1 else 0)
      ensures !first && indexIter.Valid() ==> indexIter.index < old(indexIter.index)
    {
      if first {
        indexIter.SeekToLast();
      } else {
        indexIter.Prev();
      }
      from := indexIter.index;
      if indexIter.Valid() {
        ScanKeepsPassedOver(asWritten, indexIter.nodes, indexIter.flist, open, d0, h0, t, indexIter.index);
      }
      indexIter.SeekFromHere(t);
    }

    /** The open data iterator, if any, is bound to a node containing `t`, or
        it is the iterator `d0` the seek started with. */
    ghost predicate Bound(d0: BufferNodeIterator?, h0: seq<Byte>, t: Key)
      reads this
    {
      dataIter != null ==> Contains(dataIter.node, t) || (dataIter == d0 && dataBlockHandle == h0)
    }

    /** One round of the seek loop on a containing node: `InitDataBlock`
        followed by the exact seek of the data. */
    method Probe(t: Key, asWritten: bool, ghost d0: BufferNodeIterator?, ghost h0: seq<Byte>) returns (hit: bool)
      requires Frame() && indexIter.Valid() && Contains(indexIter.BNode(), t)
      requires Bound(d0, h0, t)
      modifies Repr
      ensures Frame() && Linked() && fresh(Repr - old(Repr)) && Bound(d0, h0, t)
      ensures indexIter.index == old(indexIter.index) && dataIter != null
      ensures hit == dataIter.SeekResult()
      ensures hit ==> (Hit(indexIter.nodes, indexIter.flist, open, t, indexIter.index) &&
        dataIter.iter.Valid() && dataIter.iter.Key() == t && !Rejects(asWritten, dataIter.node, t))
      ensures !hit && Hit(indexIter.nodes, indexIter.flist, open, t, indexIter.index) ==>
        StaleBinding(asWritten, indexIter.nodes, indexIter.flist, d0, h0, t, indexIter.index)
      ensures (dataIter.node, dataBlockHandle) ==
        Rebind(old(CurrentBinding()), indexIter.BNode(), NodeHandle(indexIter.flist, indexIter.BNode()))
      ensures hit == ProbeHits(asWritten, open, t, (dataIter.node, dataBlockHandle))
    {
      InitDataBlock();
      if asWritten {
        dataIter.Seek(t);
      } else {
        dataIter.SeekIntended(t);
      }
      hit := dataIter.SeekResult();
    }

    /** Steps the data iterator and rolls over to the next node when it leaves
        its node's range; see `MaybeGotoNextNode`. */
    method Next()
      requires Inv() && Valid()
      modifies Repr
      ensures Inv() && fresh(Repr - old(Repr))
      ensures var p := old(dataIter.iter.pos) + 1;
        if InClamp(old(dataIter.node), old(dataIter.iter.entries), p) then
          dataIter == old(dataIter) && indexIter.index == old(indexIter.index) && dataIter.iter.pos == p
        else
          indexIter.index == old(indexIter.index) + 1 &&
          (indexIter.Valid() ==>
             KeptOrOpened(old(dataIter), old(dataBlockHandle)) &&
             dataIter.iter.pos == LowerBound(dataIter.iter.entries, dataIter.node.smallest))
    {
      dataIter.Next();
      MaybeGotoNextNode();
    }

    /** Steps the data iterator back and rolls over to the previous node when
        it leaves its node's range; see `MaybeGotoPrevNode`. */
    method Prev()
      requires Inv() && Valid()
      modifies Repr
      ensures Inv() && fresh(Repr - old(Repr))
      ensures var p := if old(dataIter.iter.pos) == 0 then |old(dataIter.iter.entries)| else old(dataIter.iter.pos) - 1;
        if InClamp(old(dataIter.node), old(dataIter.iter.entries), p) then
          dataIter == old(dataIter) && indexIter.index == old(indexIter.index) && dataIter.iter.pos == p
        else
          indexIter.index == (if old(indexIter.index) == 0 then |indexIter.nodes| else old(indexIter.index) - 1) &&
          (indexIter.Valid() ==>
             KeptOrOpened(old(dataIter), old(dataBlockHandle)) &&
             dataIter.iter.pos == LowerBound(dataIter.iter.entries, dataIter.node.largest))
    {
      dataIter.Prev();
      MaybeGotoPrevNode();
    }

    /** Positions the index on the first node and the data iterator at the
        smallest key of the node it is bound to. */
    method SeekToFirst()
      requires Inv()
      modifies Repr
      ensures Inv() && fresh(Repr - old(Repr))
      ensures indexIter.index == 0
      ensures dataIter != null <==> |indexIter.nodes| > 0
      ensures indexIter.Valid() ==>
        KeptOrOpened(old(dataIter), old(dataBlockHandle)) &&
        dataIter.iter.pos == LowerBound(dataIter.iter.entries, dataIter.node.smallest)
    {
      indexIter.SeekToFirst();
      InitDataBlock();
      if dataIter != null {
        dataIter.SeekToFirst();
      }
    }

    /** Positions the index on the last node and the data iterator at the
        largest key of the node it is bound to. */
    method SeekToLast()
      requires Inv()
      modifies Repr
      ensures Inv() && fresh(Repr - old(Repr))
      ensures indexIter.index == if |indexIter.nodes| == 0 then 0 else |indexIter.nodes| - 1
      ensures dataIter != null <==> |indexIter.nodes| > 0
      ensures indexIter.Valid() ==>
        KeptOrOpened(old(dataIter), old(dataBlockHandle)) &&
        dataIter.iter.pos == LowerBound(dataIter.iter.entries, dataIter.node.largest)
    {
      indexIter.SeekToLast();
      InitDataBlock();
      if dataIter != null {
        dataIter.SeekToLast();
      }
    }

    /** Rolls over to the next node, once, when the data iterator has left its
        node's range: the data iterator then seeks the smallest key of the node
        it is bound to, which is an older node when the one of the same file
        was kept. */
    method MaybeGotoNextNode()
      requires Frame() && Linked() && dataIter != null
      modifies Repr
      ensures Inv() && fresh(Repr - old(Repr))
      ensures old(dataIter.Valid()) ==>
        dataIter == old(dataIter) && indexIter.index == old(indexIter.index) &&
        dataIter.iter.pos == old(dataIter.iter.pos)
      ensures !old(dataIter.Valid()) ==>
        indexIter.index == old(indexIter.index) + 1 &&
        (indexIter.Valid() ==>
           KeptOrOpened(old(dataIter), old(dataBlockHandle)) &&
           dataIter.iter.pos == LowerBound(dataIter.iter.entries, dataIter.node.smallest))
    {
      if !dataIter.Valid() {
        indexIter.Next();
        InitDataBlock();
        if dataIter != null {
          dataIter.SeekToFirst();
        }
      }
    }

    /** Rolls over to the previous node, once, when the data iterator has left
        its node's range: the data iterator then seeks the largest key of the
        node it is bound to. */
    method MaybeGotoPrevNode()
      requires Frame() && Linked() && dataIter != null
      modifies Repr
      ensures Inv() && fresh(Repr - old(Repr))
      ensures old(dataIter.Valid()) ==>
        dataIter == old(dataIter) && indexIter.index == old(indexIter.index) &&
        dataIter.iter.pos == old(dataIter.iter.pos)
      ensures !old(dataIter.Valid()) ==>
        indexIter.index == (if old(indexIter.index) == 0 then |indexIter.nodes| else old(indexIter.index) - 1) &&
        (indexIter.Valid() ==>
           KeptOrOpened(old(dataIter), old(dataBlockHandle)) &&
           dataIter.iter.pos == LowerBound(dataIter.iter.entries, dataIter.node.largest))
    {
      if !dataIter.Valid() {
        indexIter.Prev();
        InitDataBlock();
        if dataIter != null {
          dataIter.SeekToLast();
        }
      }
    }
  }

  /** Two overlapping nodes, `[2, 4]` in file 1 and the newer `[3, 6]` in
      file 2; file 2 holds only key 5, file 1 holds key 3. */
  function ScenarioOpener(): Opener {
    h => if h == EncodeHandle(1, 100) then Block([Entry(3, [7])], OK) else Block([Entry(5, [])], OK)
  }

  /** A seek on a fresh iterator, which has no binding to reuse, finds the key
      exactly when some node holds it, and then stops on the newest such node
      with the iterator valid on that key. */
  method FreshLookup(nodes: seq<BufferNode>, flist: seq<FileMeta>, open: Opener, t: Key)
    returns (found: bool, valid: bool, index: nat)
    ensures found <==> exists j :: 0 <= j < |nodes| && Hit(nodes, flist, open, t, j)
    ensures found ==> index < |nodes| && Hit(nodes, flist, open, t, index)
    ensures found ==> forall j :: index < j < |nodes| ==> !Hit(nodes, flist, open, t, j)
    ensures valid == found
  {
    var it := new BufferTwoLevelIterator(nodes, flist, open);
    it.Seek(t);
    found := it.SeekResult();
    valid := it.Valid();
    index := it.indexIter.index;
    if |nodes| > 0 {
      ScanFindsNewestHit(true, nodes, flist, open, t, None, |nodes| - 1);
    }
  }

  /** A lookup as written, repeated from where the previous one left the
      iterator, stops on the same node with the same outcome, provided the
      data iterator it starts from is bound to a well-formed node. */
  method RepeatedSeekAgrees(it: BufferTwoLevelIterator, t: Key)
    returns (first: nat, second: nat, firstResult: bool, secondResult: bool)
    requires it.Inv()
    requires it.dataIter != null ==> it.dataIter.node.smallest <= it.dataIter.node.largest
    modifies it.Repr
    ensures first == second && firstResult == secondResult
  {
    ghost var b0 := it.CurrentBinding();
    it.Seek(t);
    first, firstResult := it.indexIter.index, it.SeekResult();
    ghost var b1 := it.CurrentBinding();
    it.Seek(t);
    second, secondResult := it.indexIter.index, it.SeekResult();
    ghost var nodes := it.indexIter.nodes;
    if |nodes| > 0 {
      WellFormedBindingHarmless(it.open, t, b0);
      WellFormedBindingHarmless(it.open, t, b1);
      HarmlessScansAgree(true, nodes, it.indexIter.flist, it.open, t, b0, b1, |nodes| - 1);
    }
  }

  /** A lookup of 3 tries the newer node first, misses in its file, and falls
      back to the older node, whose file holds 3. */
  method LookupFallsBackToOlderNode() returns (found: bool, valid: bool, key: Key, index: nat)
    ensures found && valid && key == 3 && index == 0
  {
    var nodes := [BufferNode(2, 4, 1), BufferNode(3, 6, 2)];
    var flist := [FileMeta(1, 100), FileMeta(2, 200)];
    var it := new BufferTwoLevelIterator(nodes, flist, ScenarioOpener());
    it.Seek(3);
    HandleInjective(2, 200, 1, 100);
    assert NodeHandle(flist, nodes[1]) == EncodeHandle(2, 200);
    assert !Hit(nodes, flist, ScenarioOpener(), 3, 1);
    assert NodeHandle(flist, nodes[0]) == EncodeHandle(1, 100);
    assert Hit(nodes, flist, ScenarioOpener(), 3, 0);
    found := it.SeekResult();
    valid := it.Valid();
    index := it.indexIter.index;
    key := it.Key();
  }

  /** A key outside every node's range is not found and leaves no position. */
  method LookupOutsideAllRanges() returns (found: bool, valid: bool)
    ensures !found && !valid
  {
    var nodes := [BufferNode(2, 4, 1), BufferNode(3, 6, 2)];
    var flist := [FileMeta(1, 100), FileMeta(2, 200)];
    var it := new BufferTwoLevelIterator(nodes, flist, ScenarioOpener());
    it.Seek(26);
    found := it.SeekResult();
    valid := it.Valid();
  }

  /** Two nodes of the same file 1, `[1, 3]` and `[5, 9]`; the file holds keys
      2 and 7. */
  function SharedFileNodes(): seq<BufferNode> {
    [BufferNode(1, 3, 1), BufferNode(5, 9, 1)]
  }

  function SharedFileOpener(): Opener {
    h => Block([Entry(2, []), Entry(7, [])], OK)
  }

  /** After `SeekToFirst` the open data iterator is bound to `[1, 3]`. A
      lookup of 7 as written reaches `[5, 9]`, finds the same handle and keeps
      that iterator, whose seek lands on 7: the lookup succeeds on node 1 but
      the iterator is not valid, since 7 is outside `[1, 3]`. Repeating it
      does the same. */
  method RepeatedLookupAgrees() returns (first: bool, second: bool, firstValid: bool, secondValid: bool, index: nat)
    ensures first && second && !firstValid && !secondValid && index == 1
  {
    var nodes := SharedFileNodes();
    var flist := [FileMeta(1, 100)];
    var it := new BufferTwoLevelIterator(nodes, flist, SharedFileOpener());
    it.SeekToFirst();
    assert it.dataIter.node == nodes[0];
    assert Hit(nodes, flist, SharedFileOpener(), 7, 1) by {
      assert LowerBound(SharedFileOpener()(NodeHandle(flist, nodes[1])).entries, 7) == 1;
    }
    it.Seek(7);
    first, firstValid := it.SeekResult(), it.Valid();
    it.Seek(7);
    second, secondValid := it.SeekResult(), it.Valid();
    index := it.indexIter.index;
  }

  /** The same state with the range test as intended: the kept iterator's
      range rejects 7, so the lookup fails and drops the iterator; the same
      lookup repeated opens the file bound to `[5, 9]` and succeeds. */
  method RepeatedLookupDisagrees() returns (first: bool, second: bool)
    ensures !first && second
  {
    var nodes := SharedFileNodes();
    var flist := [FileMeta(1, 100)];
    var open := SharedFileOpener();
    var it := new BufferTwoLevelIterator(nodes, flist, open);
    it.SeekToFirst();
    assert it.CurrentBinding() == Some((nodes[0], NodeHandle(flist, nodes[0])));
    assert LowerBound(open([]).entries, 7) == 1;
    it.SeekIntended(7);
    first := it.SeekResult();
    assert it.CurrentBinding() == None;
    it.SeekIntended(7);
    second := it.SeekResult();
  }

  /** A forward scan as written: from key 2 in `[1, 3]`, `Next` leaves the
      range and rolls over to `[5, 9]`, keeps the iterator of the same file,
      which stays bound to `[1, 3]`, and seeks 1: key 2 is shown again, on
      node 1, and the next step ends the scan, so key 7 is never shown. */
  method ScanRepeatsKeyOfSharedFile() returns (k1: Key, k2: Key, index: nat, validAfter: bool)
    ensures k1 == 2 && k2 == 2 && index == 1 && !validAfter
  {
    var nodes := SharedFileNodes();
    var flist := [FileMeta(1, 100)];
    var it := new BufferTwoLevelIterator(nodes, flist, SharedFileOpener());
    it.SeekToFirst();
    assert LowerBound(it.dataIter.iter.entries, 1) == 0;
    k1 := it.Key();
    assert NodeHandle(flist, nodes[1]) == NodeHandle(flist, nodes[0]);
    it.Next();
    index := it.indexIter.index;
    k2 := it.Key();
    it.Next();
    validAfter := it.Valid();
  }

  /** The same roll-over with the per-node cache: the file is reused but the
      iterator is bound to `[5, 9]`, so the seek of its smallest key shows 7. */
  method PerNodeRollOverShowsLaterKey() returns (k1: Key, k2: Key, index: nat)
    ensures k1 == 2 && k2 == 7 && index == 1
  {
    var nodes := SharedFileNodes();
    var flist := [FileMeta(1, 100)];
    var it := new BufferTwoLevelIterator(nodes, flist, SharedFileOpener());
    it.SeekToFirst();
    assert LowerBound(it.dataIter.iter.entries, 1) == 0;
    k1 := it.Key();
    // the steps of `Next` and `MaybeGotoNextNode`, with the per-node cache
    it.dataIter.Next();
    it.indexIter.Next();
    it.InitDataBlockPerNode();
    it.dataIter.SeekToFirst();
    assert LowerBound(it.dataIter.iter.entries, 5) == 1;
    index := it.indexIter.index;
    k2 := it.Key();
  }
}
