/** `BufferNodeIterator` of db/buffer_iterator.cc: a data iterator opened for
    one buffer node, whose validity is clamped to the node's key range and
    whose `Seek` is an exact-match probe. */
module BufferNodeIterators {
  import opened Common
  import opened DataIterators
  import opened BufferIterators

  /** The clamp of `Valid()`: the wrapped iterator is positioned and its key
      lies in `[smallest, largest]`. */
  predicate InClamp(n: BufferNode, es: seq<Entry>, pos: nat) {
    pos < |es| && es[pos].key >= n.smallest && es[pos].key <= n.largest
  }

  /** The early-return test of `Seek` as the source writes it:
      `target < smallest && target > largest`. */
  predicate SeekGuardAsWritten(n: BufferNode, t: Key) {
    t < n.smallest && t > n.largest
  }

  /** The test evidently intended: the target lies outside the node's range. */
  predicate SeekGuard(n: BufferNode, t: Key) {
    t < n.smallest || t > n.largest
  }

  /** The outcome `(seek_result_, position)` of the exact seek under a given
      early-return test; a seek that runs off the end counts as a miss. */
  function ExactSeekUnder(guard: bool, es: seq<Entry>, t: Key, pos: nat): (bool, nat) {
    if guard then (false, pos) else (Found(es, t), LowerBound(es, t))
  }

  /** The exact seek as the source writes it: a hit needs only the data to
      land on the target, unless the range is inverted around it. */
  function ExactSeekAsWritten(n: BufferNode, es: seq<Entry>, t: Key, pos: nat): (r: (bool, nat))
    ensures r.0 <==> !SeekGuardAsWritten(n, t) && Found(es, t)
    ensures r.0 ==> r.1 < |es| && es[r.1].key == t
    ensures r.1 == if SeekGuardAsWritten(n, t) then pos else LowerBound(es, t)
  {
    ExactSeekUnder(SeekGuardAsWritten(n, t), es, t, pos)
  }

  /** The early-return test of one of the two versions of `Seek`. */
  predicate Rejects(asWritten: bool, n: BufferNode, t: Key) {
    if asWritten then SeekGuardAsWritten(n, t) else SeekGuard(n, t)
  }

  /** The exact seek as evidently intended: a hit needs the target inside the
      node's range and the data to land on it; the wrapped iterator is left
      alone when the target is out of range. */
  function ExactSeek(n: BufferNode, es: seq<Entry>, t: Key, pos: nat): (r: (bool, nat))
    ensures r.0 <==> Contains(n, t) && Found(es, t)
    ensures r.0 ==> InClamp(n, es, r.1) && es[r.1].key == t
    ensures r.1 == if Contains(n, t) then LowerBound(es, t) else pos
  {
    ExactSeekUnder(SeekGuard(n, t), es, t, pos)
  }

  /** As written, the range test can only fire on an inverted range, so on
      every well-formed node the exact seek ignores the node's bounds. */
  lemma AsWrittenGuardIgnoresRange(n: BufferNode, es: seq<Entry>, t: Key, pos: nat)
    requires n.smallest <= n.largest
    ensures !SeekGuardAsWritten(n, t)
    ensures ExactSeekAsWritten(n, es, t, pos) == (Found(es, t), LowerBound(es, t))
  {
  }

  /** A node `[2, 4]` over data holding key 9: the seek as written reports a
      hit on 9 while the iterator is not valid; the intended seek misses. */
  lemma AsWrittenReportsHitOutsideRange()
    ensures var n, es := BufferNode(2, 4, 7), [Entry(9, [])];
      var (found, pos) := ExactSeekAsWritten(n, es, 9, 1);
      found && !InClamp(n, es, pos) && !ExactSeek(n, es, 9, 1).0
  {
    var es := [Entry(9, [])];
    assert LowerBound(es, 9) == 0;
  }

  /** No entry before the landing position of a seek to `smallest` is in the
      node's range, and on sorted data every entry in range is at or after it. */
  lemma ClampStartsAtLowerBound(n: BufferNode, es: seq<Entry>, i: nat)
    requires Sorted(es)
    requires InClamp(n, es, i)
    ensures LowerBound(es, n.smallest) <= i && InClamp(n, es, LowerBound(es, n.smallest))
  {
    var lb := LowerBound(es, n.smallest);
    assert lb <= i;
    assert es[lb].key <= es[i].key;
  }

  /** After `SeekToFirst` (a seek to `smallest`) the iterator is valid iff some
      entry lies in the node's range, and then it is on the first such entry;
      when the data begins at `smallest` it is on that key. */
  lemma SeekToFirstLandsOnFirstInRange(n: BufferNode, es: seq<Entry>)
    requires Sorted(es)
    ensures InClamp(n, es, LowerBound(es, n.smallest)) <==> exists i :: 0 <= i < |es| && InClamp(n, es, i)
    ensures forall i :: 0 <= i < |es| && InClamp(n, es, i) ==> LowerBound(es, n.smallest) <= i
    ensures n.smallest <= n.largest && n.smallest in KeysOf(es) ==>
      InClamp(n, es, LowerBound(es, n.smallest)) && es[LowerBound(es, n.smallest)].key == n.smallest
  {
    var lb := LowerBound(es, n.smallest);
    forall i | 0 <= i < |es| && InClamp(n, es, i)
      ensures lb <= i && InClamp(n, es, lb)
    {
      ClampStartsAtLowerBound(n, es, i);
    }
    if InClamp(n, es, lb) {
      assert 0 <= lb < |es| && InClamp(n, es, lb);
    }
    if n.smallest <= n.largest && n.smallest in KeysOf(es) {
      FoundIffPresent(es, n.smallest);
    }
  }

  /** After `SeekToLast` (a seek to `largest`) the iterator is valid iff the
      data holds `largest` itself; a file whose last key is below `largest`
      leaves it invalid. */
  lemma SeekToLastValidIff(n: BufferNode, es: seq<Entry>)
    requires Sorted(es)
    ensures InClamp(n, es, LowerBound(es, n.largest)) <==> n.smallest <= n.largest && n.largest in KeysOf(es)
    ensures InClamp(n, es, LowerBound(es, n.largest)) ==> es[LowerBound(es, n.largest)].key == n.largest
  {
    FoundIffPresent(es, n.largest);
    var lb := LowerBound(es, n.largest);
    if InClamp(n, es, lb) {
      assert KeysOf(es)[lb] == n.largest;
    }
  }

  class BufferNodeIterator {
    const node: BufferNode
    const iter: DataIter
    var seekResult: bool

    /** `seek_result_` has no defined value before the first `Seek`; the model
        starts it as a miss. */
    constructor (node: BufferNode, iter: DataIter)
      ensures this.node == node && this.iter == iter && !seekResult
    {
      this.node, this.iter := node, iter;
      seekResult := false;
    }

    predicate Valid()
      reads this, iter
      ensures Valid() <==> InClamp(node, iter.entries, iter.pos)
    {
      if !iter.Valid() then false
      else iter.Key() >= node.smallest && iter.Key() <= node.largest
    }

    /** The key delegated from the wrapped iterator always lies in the node's range. */
    function Key(): (k: Key)
      reads this, iter
      requires Valid()
      ensures node.smallest <= k <= node.largest
    {
      iter.Key()
    }

    /** Delegated without a validity check in the source; only the wrapped
        iterator has to be positioned. */
    function Value(): (v: seq<Byte>)
      reads this, iter
      requires iter.Valid()
      ensures v == iter.entries[iter.pos].value
    {
      iter.Value()
    }

    /** The outcome recorded by the last `Seek`. */
    predicate SeekResult()
      reads this
      ensures SeekResult() == seekResult
    {
      seekResult
    }

    method Next()
      requires Valid()
      modifies iter
      ensures iter.Inv() && iter.pos == old(iter.pos) + 1
    {
      iter.Next();
    }

    method Prev()
      requires Valid()
      modifies iter
      ensures iter.Inv() && iter.pos == if old(iter.pos) == 0 then |iter.entries| else old(iter.pos) - 1
    {
      iter.Prev();
    }

    /** The exact-match seek as written: on a well-formed node the range test
        never fires, so a hit may leave the iterator outside the node's range. */
    method Seek(t: Key)
      requires iter.Inv()
      modifies this, iter
      ensures iter.Inv() && (seekResult, iter.pos) == ExactSeekAsWritten(node, iter.entries, t, old(iter.pos))
    {
      seekResult := true;
      if SeekGuardAsWritten(node, t) {
        seekResult := false;
        return;
      }
      iter.Seek(t);
      if !iter.Valid() || t != iter.Key() {
        seekResult := false;
      }
    }

    /** The exact-match seek, with the range test as evidently intended. */
    method SeekIntended(t: Key)
      requires iter.Inv()
      modifies this, iter
      ensures iter.Inv() && (seekResult, iter.pos) == ExactSeek(node, iter.entries, t, old(iter.pos))
    {
      seekResult := true;
      if SeekGuard(node, t) {
        seekResult := false;
        return;
      }
      iter.Seek(t);
      if !iter.Valid() || t != iter.Key() {
        seekResult := false;
      }
    }

    method SeekToFirst()
      modifies iter
      ensures iter.Inv() && iter.pos == LowerBound(iter.entries, node.smallest)
    {
      iter.Seek(node.smallest);
    }

    method SeekToLast()
      modifies iter
      ensures iter.Inv() && iter.pos == LowerBound(iter.entries, node.largest)
    {
      iter.Seek(node.largest);
    }
  }
}
