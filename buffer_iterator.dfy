/** The index level over a buffer of not-yet-committed files: `BufferIterator`
    of db/buffer_iterator.cc. Its only state is a position into the buffer's
    nodes; `|nodes|` is the single invalid position. */
module BufferIterators {
  import opened Common
  import opened Coding

  /** One buffer node: the key range of a file and the file's number. */
  datatype BufferNode = BufferNode(smallest: Key, largest: Key, number: U64)

  /** The two fields of a file's metadata that the index level reads. */
  datatype FileMeta = FileMeta(number: U64, fileSize: U64)

  /** The range test of `FindLatestNode`: `largest >= t` and `smallest <= t`. */
  predicate Contains(n: BufferNode, t: Key) {
    n.largest >= t && n.smallest <= t
  }

  const TWO32: nat := 0x1_0000_0000

  /** The node number as read into a `uint32_t` local before the file lookup. */
  function Truncate32(x: U64): (r: nat)
    ensures r < TWO32
    ensures x < TWO32 ==> r == x
  {
    x % TWO32
  }

  /** Position of the first file whose number is `num`, if any. */
  function FindFile(flist: seq<FileMeta>, num: nat): (r: Option<nat>)
    ensures r.Some? ==> r.value < |flist| && flist[r.value].number == num
    ensures r.Some? ==> forall j :: 0 <= j < r.value ==> flist[j].number != num
    ensures r.None? <==> forall j :: 0 <= j < |flist| ==> flist[j].number != num
  {
    if flist == [] then None
    else if flist[0].number == num then Some(0)
    else match FindFile(flist[1..], num)
      case None => None
      case Some(k) => Some(k + 1)
  }

  /** The file a node refers to: the first file list entry with its number. */
  function NodeFile(flist: seq<FileMeta>, n: BufferNode): Option<FileMeta> {
    match FindFile(flist, Truncate32(n.number))
    case None => None
    case Some(i) => Some(flist[i])
  }

  /** The handle the index level yields for a node: 16 bytes naming the file,
      or the empty slice when the node's file is not in the file list. */
  function NodeHandle(flist: seq<FileMeta>, n: BufferNode): seq<Byte> {
    match NodeFile(flist, n)
    case None => []
    case Some(f) => EncodeHandle(f.number, f.fileSize)
  }

  /** A handle is empty exactly for a stale node, and otherwise decodes back to
      the number and size of the first matching file. */
  lemma NodeHandleDecodes(flist: seq<FileMeta>, n: BufferNode)
    ensures NodeHandle(flist, n) == [] <==> NodeFile(flist, n).None?
    ensures NodeFile(flist, n).Some? ==>
      var f := NodeFile(flist, n).value;
      |NodeHandle(flist, n)| == 16 && DecodeHandle(NodeHandle(flist, n)) == (f.number, f.fileSize) &&
      f.number == Truncate32(n.number)
  {
    if NodeFile(flist, n).Some? {
      var f := NodeFile(flist, n).value;
      HandleRoundTrip(f.number, f.fileSize);
    }
  }

  /** The backward scan of `FindLatestNode` started at `from`: the highest
      position at or below `from` whose node contains `t`, or `|nodes|`. */
  function LatestContaining(nodes: seq<BufferNode>, t: Key, from: nat): (r: nat)
    requires from <= |nodes|
    ensures r <= |nodes|
    ensures r < |nodes| ==> r <= from && Contains(nodes[r], t)
    ensures from < |nodes| && r < |nodes| ==> forall j :: r < j <= from ==> !Contains(nodes[j], t)
    ensures from < |nodes| && r == |nodes| ==> forall j :: 0 <= j <= from ==> !Contains(nodes[j], t)
    decreases from
  {
    if from == |nodes| then |nodes|
    else if Contains(nodes[from], t) then from
    else if from == 0 then |nodes|
    else LatestContaining(nodes, t, from - 1)
  }

  /** The position `Seek` picks: the newest node containing `t`. */
  function NewestContaining(nodes: seq<BufferNode>, t: Key): (r: nat)
    ensures r == |nodes| <==> forall j :: 0 <= j < |nodes| ==> !Contains(nodes[j], t)
    ensures r < |nodes| ==> Contains(nodes[r], t) && forall j :: r < j < |nodes| ==> !Contains(nodes[j], t)
  {
    LatestContaining(nodes, t, if |nodes| == 0 then 0 else |nodes| - 1)
  }

  /** Ranges ordered and pairwise disjoint. */
  ghost predicate Disjoint(nodes: seq<BufferNode>) {
    forall i, j :: 0 <= i < j < |nodes| ==> nodes[i].largest < nodes[j].smallest
  }

  /** In a buffer without overlaps, seeking a key of some node lands on that node. */
  lemma SeekFindsTheOnlyContainingNode(nodes: seq<BufferNode>, t: Key, k: nat)
    requires Disjoint(nodes)
    requires k < |nodes| && Contains(nodes[k], t)
    ensures NewestContaining(nodes, t) == k
  {
  }

  class BufferIterator {
    const nodes: seq<BufferNode>
    const flist: seq<FileMeta>
    var index: nat

    ghost predicate Inv()
      reads this
    {
      index <= |nodes|
    }

    /** A new iterator sits on the invalid position `|nodes|`. */
    constructor (nodes: seq<BufferNode>, flist: seq<FileMeta>)
      ensures this.nodes == nodes && this.flist == flist
      ensures index == |nodes| && Inv() && !Valid()
    {
      this.nodes, this.flist := nodes, flist;
      index := |nodes|;
    }

    /** Of the positions an iterator can take, `|nodes|` is the one invalid one. */
    predicate Valid()
      reads this
      ensures Inv() ==> (Valid() <==> index != |nodes|)
    {
      index < |nodes|
    }

    /** The index key of a node is its largest key, an upper bound of every
        key the node contains. */
    function Key(): (k: Key)
      reads this
      requires Valid()
      ensures k == BNode().largest
      ensures forall t :: Contains(BNode(), t) ==> t <= k
    {
      nodes[index].largest
    }

    /** The node the iterator is on, one of the buffer's nodes. */
    function BNode(): (n: BufferNode)
      reads this
      requires Valid()
      ensures n in nodes && n == nodes[index]
    {
      nodes[index]
    }

    /** Finding a containing node is the same as being positioned. */
    predicate SeekResult()
      reads this
      ensures SeekResult() <==> Valid()
    {
      Valid()
    }

    /** `value()`: a linear search of the file list for the node's number. */
    method Value() returns (h: seq<Byte>)
      requires Valid()
      ensures h == NodeHandle(flist, nodes[index])
      ensures |h| == 0 || |h| == 16
    {
      var num := Truncate32(nodes[index].number);
      var i := 0;
      while i < |flist|
        invariant 0 <= i <= |flist|
        invariant forall j :: 0 <= j < i ==> flist[j].number != num
      {
        if num == flist[i].number {
          return EncodeFixed64(flist[i].number) + EncodeFixed64(flist[i].fileSize);
        }
        i := i + 1;
      }
      return [];
    }

    /** `File()`: the first file with the node's number, or none (`NULL`). */
    method File() returns (f: Option<FileMeta>)
      requires Valid()
      ensures f == NodeFile(flist, nodes[index])
      ensures f.Some? ==> f.value in flist && f.value.number == Truncate32(nodes[index].number)
      ensures f.None? <==> forall g :: g in flist ==> g.number != Truncate32(nodes[index].number)
    {
      var num := Truncate32(nodes[index].number);
      var i := 0;
      while i < |flist|
        invariant 0 <= i <= |flist|
        invariant forall j :: 0 <= j < i ==> flist[j].number != num
      {
        if num == flist[i].number {
          return Some(flist[i]);
        }
        i := i + 1;
      }
      return None;
    }

    method Next()
      requires Valid()
      modifies this
      ensures Inv() && index == old(index) + 1
    {
      index := index + 1;
    }

    /** Stepping back from position 0 lands on the invalid position. */
    method Prev()
      requires Valid()
      modifies this
      ensures Inv() && index == if old(index) == 0 then |nodes| else old(index) - 1
    {
      index := if index == 0 then |nodes| else index - 1;
    }

    /** Positions on the newest node whose range contains `t`, or invalid. */
    method Seek(t: Key)
      modifies this
      ensures Inv() && index == NewestContaining(nodes, t)
      ensures Valid() ==> Contains(nodes[index], t) && forall j :: index < j < |nodes| ==> !Contains(nodes[j], t)
      ensures !Valid() <==> forall j :: 0 <= j < |nodes| ==> !Contains(nodes[j], t)
    {
      SeekToLast();
      FindLatestNode(t);
    }

    /** Resumes the backward scan from the current position. */
    method SeekFromHere(t: Key)
      requires Inv()
      modifies this
      ensures Inv() && index == LatestContaining(nodes, t, old(index))
      ensures Valid() ==> index <= old(index)
    {
      FindLatestNode(t);
    }

    /** Does not promise a valid position: an empty buffer stays invalid. */
    method SeekToFirst()
      modifies this
      ensures Inv() && index == 0
      ensures Valid() <==> |nodes| > 0
    {
      index := 0;
    }

    /** On an empty buffer the position 0 is also the invalid one. */
    method SeekToLast()
      modifies this
      ensures Inv() && index == if |nodes| == 0 then 0 else |nodes| - 1
      ensures Valid() <==> |nodes| > 0
    {
      index := if |nodes| == 0 then 0 else |nodes| - 1;
    }

    /** The loop `for (; Valid(); Prev())` that stops at the first node, going
        backward, whose range contains `t`. */
    method FindLatestNode(t: Key)
      requires Inv()
      modifies this
      ensures Inv() && index == LatestContaining(nodes, t, old(index))
    {
      while Valid()
        invariant Inv()
        invariant LatestContaining(nodes, t, index) == LatestContaining(nodes, t, old(index))
        decreases if Valid() then index + 1 else 0
      {
        if Contains(nodes[index], t) {
          return;
        }
        Prev();
      }
    }
  }
}
