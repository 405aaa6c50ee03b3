/** Values shared by every iterator of the model: keys under one total order,
    bytes, key/value entries, the blocks an opener returns and their status. */
module Common {

  /** Keys are compared under a single total order; `int` stands for it. */
  type Key = int

  type Byte = b: int | 0 <= b < 256

  datatype Option<T> = None | Some(value: T)

  /** The kinds of non-ok status a LevelDB `Status` can carry. */
  datatype Code = NotFound | Corruption | NotSupported | InvalidArgument | IOError

  datatype Status = OK | Err(code: Code, msg: string)

  /** One key/value pair yielded by a data iterator. */
  datatype Entry = Entry(key: Key, value: seq<Byte>)

  /** What an opener hands back: the entries of one file or block, in order,
      and the status the iterator over them reports. */
  datatype Block = Block(entries: seq<Entry>, status: Status)

  function KeysOf(es: seq<Entry>): (ks: seq<Key>)
    ensures |ks| == |es|
    ensures forall i :: 0 <= i < |es| ==> ks[i] == es[i].key
  {
    seq(|es|, i requires 0 <= i < |es| => es[i].key)
  }

  /** Keys in non-decreasing order, as every table and block delivers them. */
  ghost predicate Sorted(es: seq<Entry>) {
    forall i, j :: 0 <= i < j < |es| ==> es[i].key <= es[j].key
  }

  /** The position an iterator's `Seek(t)` lands on: the first entry whose key
      is at least `t`, or `|es|` (past the end) when there is none. */
  function LowerBound(es: seq<Entry>, t: Key): (r: nat)
    ensures r <= |es|
    ensures forall i :: 0 <= i < r ==> es[i].key < t
    ensures r < |es| ==> es[r].key >= t
  {
    if es == [] then 0
    else if es[0].key >= t then 0
    else 1 + LowerBound(es[1..], t)
  }

  /** An exact-match probe: the seek lands on an entry whose key is `t`. */
  predicate Found(es: seq<Entry>, t: Key) {
    LowerBound(es, t) < |es| && es[LowerBound(es, t)].key == t
  }

  /** On sorted entries the probe succeeds exactly when `t` is one of the keys. */
  lemma FoundIffPresent(es: seq<Entry>, t: Key)
    requires Sorted(es)
    ensures Found(es, t) <==> t in KeysOf(es)
  {
    var lb := LowerBound(es, t);
    if t in KeysOf(es) {
      var i :| 0 <= i < |es| && KeysOf(es)[i] == t;
      assert es[i].key == t;
      assert lb <= i;
      assert es[lb].key <= es[i].key;
    }
    if Found(es, t) {
      assert KeysOf(es)[lb] == t;
    }
  }

  /** The lower bound is the only position with every key before it below
      `t` and a key of at least `t`, if any, at it. */
  lemma LowerBoundUnique(es: seq<Entry>, t: Key, o: nat)
    requires o <= |es|
    requires forall q :: 0 <= q < o ==> es[q].key < t
    requires o < |es| ==> es[o].key >= t
    ensures LowerBound(es, t) == o
  {
  }
}
