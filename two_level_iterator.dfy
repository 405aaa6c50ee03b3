/** The classic `TwoLevelIterator` of table/two_level_iterator.cc: an index
    iterator whose values are block handles, and a data iterator opened on
    demand for the current handle. Blocks that are empty are skipped, so the
    iterator walks the concatenation of all blocks in index order; the first
    non-ok status of a discarded data iterator is kept. */
module TwoLevelIterators {
  import opened Common
  import opened DataIterators

  /** `block_function_` together with `arg_` and the read options: opens the
      block a handle names. */
  type BlockFunction = seq<Byte> -> Block

  /** `SaveError` on a value: an ok status takes the new one, an error stays. */
  function SaveErrorTo(st: Status, s: Status): (r: Status)
    ensures st.Err? ==> r == st
    ensures st.OK? ==> r == s
  {
    if st.OK? && !s.OK? then s else st
  }

  /** The first non-ok status of a history, or ok when there is none. */
  function FirstError(ss: seq<Status>): (r: Status)
    ensures r.Err? <==> exists i :: 0 <= i < |ss| && ss[i].Err?
    ensures r.Err? ==> exists i :: 0 <= i < |ss| && ss[i] == r && forall k :: 0 <= k < i ==> ss[k].OK?
  {
    if ss == [] then OK
    else if ss[0].Err? then ss[0]
    else
      FirstError(ss[1..])
  }

  /** Saving each status in turn keeps exactly the first error of the history. */
  lemma {:induction false} SaveErrorKeepsFirst(ss: seq<Status>, s: Status)
    ensures SaveErrorTo(FirstError(ss), s) == FirstError(ss + [s])
  {
    if ss != [] {
      assert (ss + [s])[1..] == ss[1..] + [s];
      SaveErrorKeepsFirst(ss[1..], s);
    }
  }

  /** The entries of the block the `i`th index entry names. */
  function BlockAt(idx: seq<Entry>, bf: BlockFunction, i: nat): seq<Entry>
    requires i < |idx|
  {
    bf(idx[i].value).entries
  }

  /** The entries of the first `n` blocks, in index order. */
  function FlatUpTo(idx: seq<Entry>, bf: BlockFunction, n: nat): seq<Entry>
    requires n <= |idx|
  {
    if n == 0 then [] else FlatUpTo(idx, bf, n - 1) + BlockAt(idx, bf, n - 1)
  }

  /** Everything the two-level iterator can yield: all blocks, concatenated. */
  function Flat(idx: seq<Entry>, bf: BlockFunction): seq<Entry> {
    FlatUpTo(idx, bf, |idx|)
  }

  /** Where block `n` begins in `Flat`. */
  function Offset(idx: seq<Entry>, bf: BlockFunction, n: nat): nat
    requires n <= |idx|
  {
    |FlatUpTo(idx, bf, n)|
  }

  lemma {:induction false} FlatUpToPrefix(idx: seq<Entry>, bf: BlockFunction, m: nat, n: nat)
    requires m <= n <= |idx|
    ensures FlatUpTo(idx, bf, m) <= FlatUpTo(idx, bf, n)
    decreases n
  {
    if m < n {
      FlatUpToPrefix(idx, bf, m, n - 1);
    }
  }

  /** Entry `p` of block `i` is entry `Offset(i) + p` of the concatenation. */
  lemma FlatAt(idx: seq<Entry>, bf: BlockFunction, i: nat, p: nat)
    requires i < |idx| && p < |BlockAt(idx, bf, i)|
    ensures Offset(idx, bf, i) + p < Offset(idx, bf, i + 1) <= |Flat(idx, bf)|
    ensures Flat(idx, bf)[Offset(idx, bf, i) + p] == BlockAt(idx, bf, i)[p]
  {
    FlatUpToPrefix(idx, bf, i + 1, |idx|);
    assert FlatUpTo(idx, bf, i + 1)[Offset(idx, bf, i) + p] == BlockAt(idx, bf, i)[p];
  }

  /** The position in `Flat` a `Seek(t)` aims at: the lower bound of `t` in the
      block chosen by the index's lower bound. */
  function SeekTarget(idx: seq<Entry>, bf: BlockFunction, t: Key): nat {
    var i := LowerBound(idx, t);
    if i < |idx| then Offset(idx, bf, i) + LowerBound(BlockAt(idx, bf, i), t) else |Flat(idx, bf)|
  }

  /** Block starts never decrease. */
  lemma OffsetMonotone(idx: seq<Entry>, bf: BlockFunction, m: nat, n: nat)
    requires m <= n <= |idx|
    ensures Offset(idx, bf, m) <= Offset(idx, bf, n)
  {
    FlatUpToPrefix(idx, bf, m, n);
  }

  /** Every position of the first `n` blocks lies in one of them. */
  lemma {:induction false} Locate(idx: seq<Entry>, bf: BlockFunction, n: nat, q: nat) returns (i: nat, p: nat)
    requires n <= |idx| && q < Offset(idx, bf, n)
    ensures i < n && p < |BlockAt(idx, bf, i)| && q == Offset(idx, bf, i) + p
    decreases n
  {
    if q < Offset(idx, bf, n - 1) {
      i, p := Locate(idx, bf, n - 1, q);
    } else {
      i, p := n - 1, q - Offset(idx, bf, n - 1);
    }
  }

  /** The shape a table's index has: each index key is at least every key of
      its block and below every key of any later block. */
  ghost predicate IndexSeparates(idx: seq<Entry>, bf: BlockFunction) {
    (forall i, p :: 0 <= i < |idx| && 0 <= p < |BlockAt(idx, bf, i)| ==> BlockAt(idx, bf, i)[p].key <= idx[i].key) &&
    (forall i, j, p :: 0 <= i < j < |idx| && 0 <= p < |BlockAt(idx, bf, j)| ==> idx[i].key < BlockAt(idx, bf, j)[p].key)
  }

  /** Every entry before the seek target is below `t`. */
  lemma BeforeSeekTargetBelow(idx: seq<Entry>, bf: BlockFunction, t: Key, q: nat)
    requires IndexSeparates(idx, bf)
    requires q < SeekTarget(idx, bf, t) && q < |Flat(idx, bf)|
    ensures Flat(idx, bf)[q].key < t
  {
    var b := LowerBound(idx, t);
    var j, p := Locate(idx, bf, |idx|, q);
    FlatAt(idx, bf, j, p);
    var e := BlockAt(idx, bf, j)[p];
    assert Flat(idx, bf)[q] == e;
    if j < b {
      assert e.key <= idx[j].key < t;
    } else if j == b {
      assert p < LowerBound(BlockAt(idx, bf, b), t);
    } else {
      OffsetMonotone(idx, bf, b + 1, j);
      assert false;
    }
  }

  /** The entry at the seek target, if any, is at least `t`. */
  lemma AtSeekTargetAbove(idx: seq<Entry>, bf: BlockFunction, t: Key)
    requires IndexSeparates(idx, bf)
    requires SeekTarget(idx, bf, t) < |Flat(idx, bf)|
    ensures Flat(idx, bf)[SeekTarget(idx, bf, t)].key >= t
  {
    var b := LowerBound(idx, t);
    var o := SeekTarget(idx, bf, t);
    var j, p := Locate(idx, bf, |idx|, o);
    FlatAt(idx, bf, j, p);
    var e := BlockAt(idx, bf, j)[p];
    assert Flat(idx, bf)[o] == e;
    if j < b {
      OffsetMonotone(idx, bf, j + 1, b);
      assert false;
    } else if j == b {
      assert p == LowerBound(BlockAt(idx, bf, b), t);
    } else {
      assert idx[b].key < e.key;
    }
  }

  /** On a well-formed index, `Seek(t)` lands on the lower bound of `t` in
      the concatenation of all blocks. */
  lemma SeekLandsOnLowerBound(idx: seq<Entry>, bf: BlockFunction, t: Key)
    requires IndexSeparates(idx, bf)
    ensures SeekTarget(idx, bf, t) == LowerBound(Flat(idx, bf), t)
  {
    var o := SeekTarget(idx, bf, t);
    var b := LowerBound(idx, t);
    if b < |idx| {
      OffsetMonotone(idx, bf, b + 1, |idx|);
    }
    forall q | 0 <= q < o
      ensures Flat(idx, bf)[q].key < t
    {
      BeforeSeekTargetBelow(idx, bf, t, q);
    }
    if o < |Flat(idx, bf)| {
      AtSeekTargetAbove(idx, bf, t);
    }
    LowerBoundUnique(Flat(idx, bf), t, o);
  }

  /** What `InitDataBlock` saves when the index stands at `p`: the status of
      the open iterator `d`, opened for handle `h`, unless `p` is an entry
      naming that same handle, for which `d` is kept. */
  function InitSaved(idx: seq<Entry>, p: nat, d: DataIter?, h: seq<Byte>): seq<Status> {
    if d == null || (p < |idx| && idx[p].value == h) then [] else [d.status]
  }

  /** The position `SeekToLast` puts an iterator over `entries` at. */
  function LastEntry(entries: seq<Entry>): nat {
    if |entries| == 0 then 0 else |entries| - 1
  }

  /** The status the forward skip saves when it leaves index entry `i` for
      the next one: none when the next entry names the same handle, whose
      open iterator is kept; otherwise that of the block entry `i` names. */
  function ForwardDrop(idx: seq<Entry>, bf: BlockFunction, i: nat): seq<Status>
    requires i < |idx|
  {
    if i + 1 < |idx| && idx[i + 1].value == idx[i].value then [] else [bf(idx[i].value).status]
  }

  /** The statuses the forward skip saves moving from entry `lo` to `hi`,
      oldest first. */
  function ForwardSaved(idx: seq<Entry>, bf: BlockFunction, lo: nat, hi: nat): seq<Status>
    requires lo <= hi <= |idx|
    decreases hi
  {
    if hi == lo then [] else ForwardSaved(idx, bf, lo, hi - 1) + ForwardDrop(idx, bf, hi - 1)
  }

  /** The status the backward skip saves when it leaves entry `i` for the one
      before it, or for the invalid position when `i` is 0. */
  function BackwardDrop(idx: seq<Entry>, bf: BlockFunction, i: nat): seq<Status>
    requires i < |idx|
  {
    if 0 < i && idx[i - 1].value == idx[i].value then [] else [bf(idx[i].value).status]
  }

  /** The statuses the backward skip saves moving from entry `hi` down to
      `lo`, oldest first. */
  function BackwardSaved(idx: seq<Entry>, bf: BlockFunction, lo: nat, hi: nat): seq<Status>
    requires lo <= hi < |idx|
    decreases hi - lo
  {
    if hi == lo then [] else BackwardSaved(idx, bf, lo + 1, hi) + BackwardDrop(idx, bf, lo + 1)
  }

  /** The statuses the backward skip saves from entry `hi` to position `p`:
      an entry at or below `hi`, or the invalid position past the front. */
  function BackwardSavedTo(idx: seq<Entry>, bf: BlockFunction, p: nat, hi: nat): seq<Status>
    requires hi < |idx| && (p <= hi || p == |idx|)
  {
    if p < |idx| then BackwardSaved(idx, bf, p, hi) else BackwardSaved(idx, bf, 0, hi) + BackwardDrop(idx, bf, 0)
  }

  /** One more step forward from `p` extends the history by the status
      dropped at `p`. */
  lemma ForwardSavedStep(idx: seq<Entry>, bf: BlockFunction, lo: nat, p: nat,
                         base: seq<Status>, before: seq<Status>, after: seq<Status>)
    requires lo <= p < |idx|
    requires before == base + ForwardSaved(idx, bf, lo, p)
    requires after == before + ForwardDrop(idx, bf, p)
    ensures after == base + ForwardSaved(idx, bf, lo, p + 1)
  {
  }

  /** One more step backward from `p` extends the history by the status
      dropped at `p`. */
  lemma BackwardSavedToStep(idx: seq<Entry>, bf: BlockFunction, p: nat, hi: nat,
                            base: seq<Status>, before: seq<Status>, after: seq<Status>)
    requires p <= hi < |idx|
    requires before == base + BackwardSavedTo(idx, bf, p, hi)
    requires after == before + BackwardDrop(idx, bf, p)
    ensures after == base + BackwardSavedTo(idx, bf, if p == 0 then |idx| else p - 1, hi)
  {
  }

  /** What `InitDataBlock` saves after a step forward from entry `i`, with
      the iterator opened for that entry still open, is `ForwardDrop`. */
  lemma InitSavedForward(idx: seq<Entry>, bf: BlockFunction, i: nat, d: DataIter, h: seq<Byte>)
    requires i < |idx| && h == idx[i].value && d.status == bf(h).status
    ensures InitSaved(idx, i + 1, d, h) == ForwardDrop(idx, bf, i)
  {
  }

  /** The same after a step backward, which from entry 0 goes to `|idx|`. */
  lemma InitSavedBackward(idx: seq<Entry>, bf: BlockFunction, i: nat, d: DataIter, h: seq<Byte>)
    requires i < |idx| && h == idx[i].value && d.status == bf(h).status
    ensures InitSaved(idx, if i == 0 then |idx| else i - 1, d, h) == BackwardDrop(idx, bf, i)
  {
  }

  /** A block the forward skip leaves for a different handle, or for the end
      of the index, has its status saved. */
  lemma {:induction false} ForwardSavedHolds(idx: seq<Entry>, bf: BlockFunction, lo: nat, hi: nat, i: nat)
    returns (k: nat)
    requires lo <= i < hi <= |idx|
    requires i + 1 == |idx| || idx[i + 1].value != idx[i].value
    ensures k < |ForwardSaved(idx, bf, lo, hi)| && ForwardSaved(idx, bf, lo, hi)[k] == bf(idx[i].value).status
    decreases hi
  {
    if i == hi - 1 {
      k := |ForwardSaved(idx, bf, lo, hi - 1)|;
    } else {
      k := ForwardSavedHolds(idx, bf, lo, hi - 1, i);
    }
  }

  /** A block the backward skip leaves for a different handle, or for the
      invalid position, has its status saved. */
  lemma {:induction false} BackwardSavedHolds(idx: seq<Entry>, bf: BlockFunction, lo: nat, hi: nat, i: nat)
    returns (k: nat)
    requires lo < i <= hi < |idx|
    requires idx[i - 1].value != idx[i].value
    ensures k < |BackwardSaved(idx, bf, lo, hi)| && BackwardSaved(idx, bf, lo, hi)[k] == bf(idx[i].value).status
    decreases hi - lo
  {
    if i == lo + 1 {
      k := |BackwardSaved(idx, bf, lo + 1, hi)|;
    } else {
      k := BackwardSavedHolds(idx, bf, lo + 1, hi, i);
    }
  }

  /** The point of saving: the error of a corrupt block that the forward skip
      drops reaches the iterator's own status, whatever was saved before. */
  lemma SkippedErrorForward(before: seq<Status>, idx: seq<Entry>, bf: BlockFunction, lo: nat, hi: nat, i: nat)
    requires lo <= i < hi <= |idx| && bf(idx[i].value).status.Err?
    requires i + 1 == |idx| || idx[i + 1].value != idx[i].value
    ensures FirstError(before + ForwardSaved(idx, bf, lo, hi)).Err?
  {
    var k := ForwardSavedHolds(idx, bf, lo, hi, i);
    assert (before + ForwardSaved(idx, bf, lo, hi))[|before| + k].Err?;
  }

  /** The same for the backward skip, including the front block it drops
      when it runs off the start of the index. */
  lemma SkippedErrorBackward(before: seq<Status>, idx: seq<Entry>, bf: BlockFunction, p: nat, hi: nat, i: nat)
    requires hi < |idx| && (p <= hi || p == |idx|)
    requires (p < i <= hi && idx[i - 1].value != idx[i].value) || (p == |idx| && i == 0)
    requires bf(idx[i].value).status.Err?
    ensures FirstError(before + BackwardSavedTo(idx, bf, p, hi)).Err?
  {
    var all := before + BackwardSavedTo(idx, bf, p, hi);
    if i == 0 {
      assert all[|all| - 1].Err?;
    } else {
      var lo := if p < |idx| then p else 0;
      var k := BackwardSavedHolds(idx, bf, lo, hi, i);
      assert all[|before| + k].Err?;
    }
  }

  class TwoLevelIterator {
    const indexIter: DataIter
    const blockFunction: BlockFunction
    var dataIter: DataIter?
    var dataBlockHandle: seq<Byte>
    var status: Status
    /** Every status handed to `SaveError`, oldest first. */
    ghost var saved: seq<Status>
    ghost var Repr: set<object>

    /** The objects, and the saved status as the first error of the history. */
    ghost predicate Objects()
      reads this, Repr
    {
      this in Repr && indexIter in Repr && indexIter.Inv() &&
      (dataIter != null ==> dataIter in Repr && dataIter != indexIter && dataIter.Inv()) &&
      Repr == {this, indexIter} + (if dataIter != null then {dataIter} else {}) &&
      status == FirstError(saved)
    }

    /** `d` is what the block function returned for `data_block_handle_`. */
    ghost predicate Opened(d: DataIter)
      reads this
    {
      d.entries == blockFunction(dataBlockHandle).entries &&
      d.status == blockFunction(dataBlockHandle).status
    }

    ghost predicate Frame()
      reads this, Repr
    {
      Objects() && (dataIter != null ==> Opened(dataIter))
    }

    /** An open data iterator belongs to the current index entry. */
    ghost predicate Linked()
      reads this, indexIter
    {
      dataIter != null ==> indexIter.Valid() && dataBlockHandle == indexIter.Value()
    }

    ghost function Idx(): seq<Entry> {
      indexIter.entries
    }

    /** The position in `Flat` the iterator stands on, or is about to move
        forward to: the data position within the current block. */
    ghost function Position(): nat
      reads this, Repr
      requires Objects()
    {
      Offset(Idx(), blockFunction, indexIter.pos) + (if dataIter == null then 0 else dataIter.pos)
    }

    /** One past the position the iterator stands on, or is about to move
        backward from: an invalid data iterator has stepped before its block. */
    ghost function BackwardLimit(): nat
      reads this, Repr
      requires Objects()
    {
      if dataIter == null then 0
      else Offset(Idx(), blockFunction, indexIter.pos) + (if dataIter.Valid() then dataIter.pos + 1 else 0)
    }

    /** The iterator takes the index iterator as it is and opens no data yet. */
    constructor (indexIter: DataIter, blockFunction: BlockFunction)
      requires indexIter.Inv()
      ensures this.indexIter == indexIter && this.blockFunction == blockFunction
      ensures Frame() && Linked() && Repr == {this, indexIter}
      ensures dataIter == null && status == OK && saved == [] && !Valid()
    {
      this.indexIter := indexIter;
      this.blockFunction := blockFunction;
      dataIter := null;
      dataBlockHandle := [];
      status := OK;
      saved := [];
      new;
      Repr := {this, indexIter};
    }

    /** Valid when a data block is open and positioned on one of its entries. */
    predicate Valid()
      reads this, Repr
      requires Objects()
      ensures Valid() <==> dataIter != null && dataIter.pos < |dataIter.entries|
    {
      dataIter != null && dataIter.Valid()
    }

    /** The key and value are those of the data block's current entry. */
    function Key(): (k: Key)
      reads this, Repr
      requires Objects() && Valid()
      ensures k == dataIter.entries[dataIter.pos].key
    {
      dataIter.Key()
    }

    function Value(): (v: seq<Byte>)
      reads this, Repr
      requires Objects() && Valid()
      ensures v == dataIter.entries[dataIter.pos].value
    {
      dataIter.Value()
    }

    /** A valid iterator shows entry `Position()` of the concatenated blocks. */
    lemma KeyAtPosition()
      requires Frame() && Linked() && Valid()
      ensures Position() < |Flat(Idx(), blockFunction)|
      ensures Key() == Flat(Idx(), blockFunction)[Position()].key
      ensures Value() == Flat(Idx(), blockFunction)[Position()].value
    {
      FlatAt(Idx(), blockFunction, indexIter.pos, dataIter.pos);
    }

    /** `status()`: ok exactly when the index, the open data iterator and the
        saved status are all ok; otherwise the index error comes first, then
        the data error, then the saved one. */
    function CombinedStatus(): (r: Status)
      reads this, Repr
      requires Objects()
      ensures r.OK? <==> indexIter.status.OK? && (dataIter != null ==> dataIter.status.OK?) && status.OK?
      ensures indexIter.status.Err? ==> r == indexIter.status
      ensures indexIter.status.OK? && dataIter != null && dataIter.status.Err? ==> r == dataIter.status
      ensures r.Err? && r != indexIter.status && (dataIter == null || r != dataIter.status) ==> r == status
    {
      if !indexIter.status.OK? then indexIter.status
      else if dataIter != null && !dataIter.status.OK? then dataIter.status
      else status
    }

    /** The first error wins: `status_` changes only from ok to a non-ok `s`. */
    method SaveError(s: Status)
      requires Objects()
      modifies this
      ensures Objects() && saved == old(saved) + [s] && status == SaveErrorTo(old(status), s)
      ensures dataIter == old(dataIter) && dataBlockHandle == old(dataBlockHandle) && Repr == old(Repr)
    {
      if status.OK? && !s.OK? {
        status := s;
      }
      saved := saved + [s];
      SaveErrorKeepsFirst(old(saved), s);
    }

    /** Replaces the data iterator, first saving the status of the one it drops. */
    method SetDataIterator(iter: DataIter?)
      requires Objects()
      requires iter != null ==> iter !in Repr && iter.Inv() && Opened(iter)
      modifies this
      ensures Frame() && dataIter == iter && dataBlockHandle == old(dataBlockHandle)
      ensures Repr == {this, indexIter} + (if iter != null then {iter} else {})
      ensures saved == old(saved) + (if old(dataIter) != null then [old(dataIter).status] else [])
      ensures old(status).Err? ==> status == old(status)
    {
      if dataIter != null {
        SaveError(dataIter.status);
      }
      dataIter := iter;
      Repr := {this, indexIter} + (if iter != null then {iter} else {});
    }

    /** Clears the data iterator when the index is invalid; keeps it when the
        current handle equals the one it was opened with; otherwise opens the
        handle's block and records the handle. */
    method InitDataBlock()
      requires Frame()
      modifies this
      ensures Frame() && Linked() && fresh(Repr - old(Repr))
      ensures dataIter == null <==> !indexIter.Valid()
      ensures indexIter.Valid() && old(dataIter) != null && indexIter.Value() == old(dataBlockHandle) ==>
        dataIter == old(dataIter) && saved == old(saved)
      ensures indexIter.Valid() && !(old(dataIter) != null && indexIter.Value() == old(dataBlockHandle)) ==>
        dataIter != null && fresh(dataIter) && !dataIter.Valid()
      ensures saved == old(saved) + InitSaved(Idx(), indexIter.pos, old(dataIter), old(dataBlockHandle))
      ensures old(status).Err? ==> status == old(status)
    {
      if !indexIter.Valid() {
        SetDataIterator(null);
      } else {
        var handle := indexIter.Value();
        // an iterator already open on these handle bytes is kept
        if !(dataIter != null && handle == dataBlockHandle) {
          var iter := new DataIter(blockFunction(handle));
          dataBlockHandle := handle;
          SetDataIterator(iter);
        }
      }
    }

    /** Moves forward past exhausted and empty blocks. It stops on the entry
        at `Position()` when there is one, and otherwise leaves the index
        exhausted and no data iterator open. */
    method SkipEmptyDataBlocksForward()
      requires Frame() && Linked() && (dataIter == null ==> !indexIter.Valid())
      modifies Repr
      ensures Frame() && Linked() && fresh(Repr - old(Repr))
      ensures Valid() <==> old(Position()) < |Flat(Idx(), blockFunction)|
      ensures Valid() ==> Position() == old(Position())
      ensures !Valid() ==> dataIter == null && !indexIter.Valid()
      ensures old(indexIter.pos) <= indexIter.pos
      ensures saved == old(saved) + ForwardSaved(Idx(), blockFunction, old(indexIter.pos), indexIter.pos)
      ensures old(status).Err? ==> status == old(status)
    {
      ghost var lo, base := indexIter.pos, saved;
      while dataIter == null || !dataIter.Valid()
        invariant Frame() && Linked() && fresh(Repr - old(Repr))
        invariant dataIter == null ==> !indexIter.Valid()
        invariant Position() == old(Position())
        invariant lo <= indexIter.pos && saved == base + ForwardSaved(Idx(), blockFunction, lo, indexIter.pos)
        invariant old(status).Err? ==> status == old(status)
        decreases |Idx()| - indexIter.pos
      {
        if !indexIter.Valid() {
          SetDataIterator(null);
          return;
        }
        ghost var p, before := indexIter.pos, saved;
        ForwardStep();
        assert indexIter.pos == p + 1;
        ForwardSavedStep(Idx(), blockFunction, lo, p, base, before, saved);
      }
      KeyAtPosition();
    }

    /** One round of the forward skip: past the exhausted block to the start
        of the next one, which is the same position in the concatenation. */
    method ForwardStep()
      requires Frame() && Linked() && indexIter.Valid() && dataIter != null && !dataIter.Valid()
      modifies Repr
      ensures Frame() && Linked() && fresh(Repr - old(Repr))
      ensures dataIter == null ==> !indexIter.Valid()
      ensures Position() == old(Position()) && indexIter.pos == old(indexIter.pos) + 1
      ensures saved == old(saved) + ForwardDrop(Idx(), blockFunction, old(indexIter.pos))
      ensures old(status).Err? ==> status == old(status)
    {
      assert Offset(Idx(), blockFunction, indexIter.pos + 1) == Position();
      InitSavedForward(Idx(), blockFunction, indexIter.pos, dataIter, dataBlockHandle);
      indexIter.Next();
      InitDataBlock();
      if dataIter != null {
        dataIter.SeekToFirst();
      }
    }

    /** Mirror image of `SkipEmptyDataBlocksForward`: stops on the entry just
        before `BackwardLimit()` when there is one. */
    method SkipEmptyDataBlocksBackward()
      requires Frame() && Linked() && (dataIter == null ==> !indexIter.Valid())
      modifies Repr
      ensures Frame() && Linked() && fresh(Repr - old(Repr))
      ensures Valid() <==> old(BackwardLimit()) > 0
      ensures Valid() ==> Position() == old(BackwardLimit()) - 1
      ensures !Valid() ==> dataIter == null && !indexIter.Valid()
      ensures old(dataIter) == null ==> saved == old(saved)
      ensures old(dataIter) != null ==> (indexIter.pos <= old(indexIter.pos) || indexIter.pos == |Idx()|)
      ensures old(dataIter) != null ==>
        saved == old(saved) + BackwardSavedTo(Idx(), blockFunction, indexIter.pos, old(indexIter.pos))
      ensures old(status).Err? ==> status == old(status)
    {
      ghost var hi, base := indexIter.pos, saved;
      while dataIter == null || !dataIter.Valid()
        invariant Frame() && Linked() && fresh(Repr - old(Repr))
        invariant dataIter == null ==> !indexIter.Valid()
        invariant BackwardLimit() == old(BackwardLimit())
        invariant old(dataIter) == null ==> saved == base
        invariant old(dataIter) != null ==> hi < |Idx()| && (indexIter.pos <= hi || indexIter.pos == |Idx()|)
        invariant old(dataIter) != null ==> saved == base + BackwardSavedTo(Idx(), blockFunction, indexIter.pos, hi)
        invariant old(status).Err? ==> status == old(status)
        decreases if indexIter.Valid() then indexIter.pos + 1 else 0
      {
        if !indexIter.Valid() {
          SetDataIterator(null);
          return;
        }
        ghost var p, before := indexIter.pos, saved;
        BackwardStep();
        assert indexIter.pos == if p == 0 then |Idx()| else p - 1;
        BackwardSavedToStep(Idx(), blockFunction, p, hi, base, before, saved);
      }
    }

    /** One round of the backward skip: before the exhausted block to the
        last entry of the previous one, or off the front of the index. */
    method BackwardStep()
      requires Frame() && Linked() && indexIter.Valid() && dataIter != null && !dataIter.Valid()
      modifies Repr
      ensures Frame() && Linked() && fresh(Repr - old(Repr))
      ensures dataIter == null ==> !indexIter.Valid()
      ensures BackwardLimit() == old(BackwardLimit())
      ensures indexIter.pos == if old(indexIter.pos) == 0 then |Idx()| else old(indexIter.pos) - 1
      ensures saved == old(saved) + BackwardDrop(Idx(), blockFunction, old(indexIter.pos))
      ensures old(status).Err? ==> status == old(status)
    {
      InitSavedBackward(Idx(), blockFunction, indexIter.pos, dataIter, dataBlockHandle);
      indexIter.Prev();
      InitDataBlock();
      if dataIter != null {
        dataIter.SeekToLast();
      }
    }

    /** Positions on the first entry, in block order, at or after the lower
        bound of `t` in the block the index chooses. */
    method Seek(t: Key)
      requires Frame() && Linked()
      modifies Repr
      ensures Frame() && Linked() && fresh(Repr - old(Repr))
      ensures Valid() <==> SeekTarget(Idx(), blockFunction, t) < |Flat(Idx(), blockFunction)|
      ensures Valid() ==> Position() == SeekTarget(Idx(), blockFunction, t)
      ensures !Valid() ==> dataIter == null && !indexIter.Valid()
      ensures LowerBound(Idx(), t) <= indexIter.pos
      ensures saved == old(saved) + InitSaved(Idx(), LowerBound(Idx(), t), old(dataIter), old(dataBlockHandle)) +
        ForwardSaved(Idx(), blockFunction, LowerBound(Idx(), t), indexIter.pos)
      ensures old(status).Err? ==> status == old(status)
    {
      indexIter.Seek(t);
      InitDataBlock();
      if dataIter != null {
        dataIter.Seek(t);
      }
      SkipEmptyDataBlocksForward();
    }

    /** Lands on the first entry of the concatenation, if any. */
    method SeekToFirst()
      requires Frame() && Linked()
      modifies Repr
      ensures Frame() && Linked() && fresh(Repr - old(Repr))
      ensures Valid() <==> |Flat(Idx(), blockFunction)| > 0
      ensures Valid() ==> Position() == 0
      ensures !Valid() ==> dataIter == null && !indexIter.Valid()
      ensures saved == old(saved) + InitSaved(Idx(), 0, old(dataIter), old(dataBlockHandle)) +
        ForwardSaved(Idx(), blockFunction, 0, indexIter.pos)
      ensures old(status).Err? ==> status == old(status)
    {
      indexIter.SeekToFirst();
      InitDataBlock();
      if dataIter != null {
        dataIter.SeekToFirst();
      }
      SkipEmptyDataBlocksForward();
    }

    /** Lands on the last entry of the concatenation, if any. */
    method SeekToLast()
      requires Frame() && Linked()
      modifies Repr
      ensures Frame() && Linked() && fresh(Repr - old(Repr))
      ensures Valid() <==> |Flat(Idx(), blockFunction)| > 0
      ensures Valid() ==> Position() == |Flat(Idx(), blockFunction)| - 1
      ensures !Valid() ==> dataIter == null && !indexIter.Valid()
      ensures |Idx()| > 0 ==> indexIter.pos <= |Idx()| - 1 || indexIter.pos == |Idx()|
      ensures saved == old(saved) + InitSaved(Idx(), LastEntry(Idx()), old(dataIter), old(dataBlockHandle)) +
        (if |Idx()| == 0 then [] else BackwardSavedTo(Idx(), blockFunction, indexIter.pos, |Idx()| - 1))
      ensures old(status).Err? ==> status == old(status)
    {
      SeekToLastBlock();
      SkipEmptyDataBlocksBackward();
    }

    /** The steps of `SeekToLast` before the skip: the index on its last
        entry, that block opened (or kept) and its data iterator on its last
        entry, so that the entry before the backward limit is the last one
        of the concatenation. */
    method SeekToLastBlock()
      requires Frame() && Linked()
      modifies Repr
      ensures Frame() && Linked() && fresh(Repr - old(Repr))
      ensures indexIter.pos == LastEntry(Idx()) && (dataIter == null <==> !indexIter.Valid())
      ensures BackwardLimit() == |Flat(Idx(), blockFunction)|
      ensures saved == old(saved) + InitSaved(Idx(), LastEntry(Idx()), old(dataIter), old(dataBlockHandle))
      ensures old(status).Err? ==> status == old(status)
    {
      indexIter.SeekToLast();
      InitDataBlock();
      if dataIter != null {
        dataIter.SeekToLast();
      }
    }

    /** Steps to the next entry of the concatenation, or becomes invalid. */
    method Next()
      requires Frame() && Linked() && Valid()
      modifies Repr
      ensures Frame() && Linked() && fresh(Repr - old(Repr))
      ensures Valid() <==> old(Position()) + 1 < |Flat(Idx(), blockFunction)|
      ensures Valid() ==> Position() == old(Position()) + 1
      ensures !Valid() ==> dataIter == null && !indexIter.Valid()
      ensures old(indexIter.pos) <= indexIter.pos
      ensures saved == old(saved) + ForwardSaved(Idx(), blockFunction, old(indexIter.pos), indexIter.pos)
      ensures old(status).Err? ==> status == old(status)
    {
      dataIter.Next();
      SkipEmptyDataBlocksForward();
    }

    /** Steps to the previous entry of the concatenation, or becomes invalid. */
    method Prev()
      requires Frame() && Linked() && Valid()
      modifies Repr
      ensures Frame() && Linked() && fresh(Repr - old(Repr))
      ensures Valid() <==> old(Position()) > 0
      ensures Valid() ==> Position() == old(Position()) - 1
      ensures !Valid() ==> dataIter == null && !indexIter.Valid()
      ensures indexIter.pos <= old(indexIter.pos) || indexIter.pos == |Idx()|
      ensures saved == old(saved) + BackwardSavedTo(Idx(), blockFunction, indexIter.pos, old(indexIter.pos))
      ensures old(status).Err? ==> status == old(status)
    {
      dataIter.Prev();
      SkipEmptyDataBlocksBackward();
    }
  }

  /** Three blocks, the middle one empty and corrupt. */
  function CorruptGapIndex(): Block {
    Block([Entry(1, [1]), Entry(2, [2]), Entry(3, [3])], OK)
  }

  function CorruptGapBlocks(): BlockFunction {
    h => if h == [1] then Block([Entry(1, [])], OK)
         else if h == [2] then Block([], Err(Corruption, "bad block"))
         else Block([Entry(3, [])], OK)
  }

  /** Leaving the first two blocks saves an ok status and then the
      corruption, which is the first error. */
  lemma CorruptGapHistory()
    ensures ForwardSaved(CorruptGapIndex().entries, CorruptGapBlocks(), 0, 2) == [OK, Err(Corruption, "bad block")]
    ensures FirstError([OK, Err(Corruption, "bad block")]) == Err(Corruption, "bad block")
  {
    var idx, bf := CorruptGapIndex().entries, CorruptGapBlocks();
    assert ForwardDrop(idx, bf, 0) == [OK];
    assert ForwardDrop(idx, bf, 1) == [Err(Corruption, "bad block")];
    assert [OK, Err(Corruption, "bad block")][1..] == [Err(Corruption, "bad block")];
  }

  /** `Next` from the first block skips the empty corrupt one and lands on
      key 3, and the corruption it passed is now the iterator's status. */
  method SkippedCorruptionIsReported() returns (key: Key, st: Status)
    ensures key == 3 && st == Err(Corruption, "bad block")
  {
    var index := CorruptGapIndex();
    var bf := CorruptGapBlocks();
    var indexIter := new DataIter(index);
    var it := new TwoLevelIterator(indexIter, bf);
    it.SeekToFirst();
    assert Offset(index.entries, bf, 1) == 1;
    assert it.indexIter.pos == 0 && it.saved == [];
    it.Next();
    assert Offset(index.entries, bf, 2) == 1;
    assert Offset(index.entries, bf, 3) == 2;
    assert it.indexIter.pos == 2;
    CorruptGapHistory();
    assert it.saved == [] + ForwardSaved(index.entries, bf, 0, 2);
    assert it.saved == [OK, Err(Corruption, "bad block")];
    assert it.Objects();
    assert it.status == FirstError(it.saved);
    key := it.Key();
    st := it.status;
  }

  function Reversed(s: seq<Key>): (r: seq<Key>)
    ensures |r| == |s|
    ensures forall i :: 0 <= i < |s| ==> r[i] == s[|s| - 1 - i]
  {
    if s == [] then [] else Reversed(s[1..]) + [s[0]]
  }

  /** A prefix followed by the next element is a longer prefix. */
  lemma PrefixGrows(keys: seq<Key>, all: seq<Key>, key: Key)
    requires keys <= all && |keys| < |all| && key == all[|keys|]
    ensures keys + [key] <= all
  {
    assert keys + [key] == all[..|keys| + 1];
  }

  /** The key of the entry before the part already read backwards extends
      the reversed prefix. */
  lemma ReversedPrefixGrows(keys: seq<Key>, flat: seq<Entry>, p: nat, key: Key)
    requires keys <= Reversed(KeysOf(flat)) && p == |flat| - 1 - |keys|
    requires p < |flat| && key == flat[p].key
    ensures keys + [key] <= Reversed(KeysOf(flat))
  {
    PrefixGrows(keys, Reversed(KeysOf(flat)), key);
  }

  /** `SeekToFirst` and then `Next` until invalid yields the keys of all
      blocks in index order, empty blocks contributing nothing. */
  method ScanForward(index: Block, bf: BlockFunction) returns (keys: seq<Key>)
    ensures keys == KeysOf(Flat(index.entries, bf))
  {
    var indexIter := new DataIter(index);
    var it := new TwoLevelIterator(indexIter, bf);
    ghost var flat := Flat(index.entries, bf);
    it.SeekToFirst();
    keys := [];
    while it.Valid()
      invariant it.Frame() && it.Linked() && fresh(it.Repr)
      invariant it.Idx() == index.entries && it.blockFunction == bf
      invariant |keys| <= |flat|
      invariant it.Valid() ==> it.Position() == |keys|
      invariant !it.Valid() ==> |keys| == |flat|
      invariant keys <= KeysOf(flat)
      decreases |flat| - |keys|
    {
      it.KeyAtPosition();
      var key := it.Key();
      PrefixGrows(keys, KeysOf(flat), key);
      keys := keys + [key];
      it.Next();
    }
  }

  /** `SeekToLast` and then `Prev` until invalid yields the same keys in
      reverse. */
  method ScanBackward(index: Block, bf: BlockFunction) returns (keys: seq<Key>)
    ensures keys == Reversed(KeysOf(Flat(index.entries, bf)))
  {
    var indexIter := new DataIter(index);
    var it := new TwoLevelIterator(indexIter, bf);
    ghost var flat := Flat(index.entries, bf);
    it.SeekToLast();
    keys := [];
    while it.Valid()
      invariant it.Frame() && it.Linked() && fresh(it.Repr)
      invariant it.Idx() == index.entries && it.blockFunction == bf
      invariant |keys| <= |flat|
      invariant it.Valid() ==> it.Position() == |flat| - 1 - |keys|
      invariant !it.Valid() ==> |keys| == |flat|
      invariant keys <= Reversed(KeysOf(flat))
      decreases |flat| - |keys|
    {
      it.KeyAtPosition();
      var key := it.Key();
      ReversedPrefixGrows(keys, flat, it.Position(), key);
      keys := keys + [key];
      it.Prev();
    }
  }

  /** A seek on a fresh iterator over a well-formed index finds the first
      key of the concatenation that is at least `t`. */
  method SeekFirstAtLeast(index: Block, bf: BlockFunction, t: Key) returns (valid: bool, key: Key)
    requires IndexSeparates(index.entries, bf)
    ensures valid <==> LowerBound(Flat(index.entries, bf), t) < |Flat(index.entries, bf)|
    ensures valid ==> key == Flat(index.entries, bf)[LowerBound(Flat(index.entries, bf), t)].key && key >= t
  {
    var indexIter := new DataIter(index);
    var it := new TwoLevelIterator(indexIter, bf);
    it.Seek(t);
    SeekLandsOnLowerBound(index.entries, bf, t);
    valid := it.Valid();
    key := t;
    if valid {
      it.KeyAtPosition();
      key := it.Key();
    }
  }
}
