/** The data iterator an opener returns (a table or block iterator in the
    engine). Only the interface the two-level iterators drive is modelled: a
    sequence of entries, the status it reports, and a position in which
    `|entries|` is the single invalid value. */
module DataIterators {
  import opened Common

  class DataIter {
    const entries: seq<Entry>
    const status: Status
    var pos: nat

    ghost predicate Inv()
      reads this
    {
      pos <= |entries|
    }

    /** A freshly opened iterator is not positioned. */
    constructor (b: Block)
      ensures entries == b.entries && status == b.status
      ensures pos == |entries| && Inv() && !Valid()
    {
      entries, status := b.entries, b.status;
      pos := |b.entries|;
    }

    predicate Valid()
      reads this
    {
      pos < |entries|
    }

    function Key(): Key
      reads this
      requires Valid()
    {
      entries[pos].key
    }

    function Value(): seq<Byte>
      reads this
      requires Valid()
    {
      entries[pos].value
    }

    method Next()
      requires Valid()
      modifies this
      ensures Inv() && pos == old(pos) + 1
    {
      pos := pos + 1;
    }

    /** Stepping back from the first entry leaves the iterator invalid. */
    method Prev()
      requires Valid()
      modifies this
      ensures Inv() && pos == if old(pos) == 0 then |entries| else old(pos) - 1
    {
      pos := if pos == 0 then |entries| else pos - 1;
    }

    method Seek(t: Key)
      modifies this
      ensures Inv() && pos == LowerBound(entries, t)
    {
      pos := LowerBound(entries, t);
    }

    method SeekToFirst()
      modifies this
      ensures Inv() && pos == 0
    {
      pos := 0;
    }

    method SeekToLast()
      modifies this
      ensures Inv() && pos == if |entries| == 0 then 0 else |entries| - 1
    {
      pos := if |entries| == 0 then 0 else |entries| - 1;
    }
  }
}
