/** The in-memory storage and the change batches of `crdt/src/radixdb.rs`.
    `MemStorage` keeps named files as byte strings behind a lock; a `Batch`
    is a pair of consecutive versions of a radix tree, modelled as maps. */
module RadixDb {
  import opened Wrappers
  import opened Bytes

  /** `MemStorage`: a map from file names to their contents. The lock, and
      so concurrent use, is not modelled. */
  class MemStorage {
    var data: map<string, seq<byte>>

    /** No file is stored empty: `append` of nothing creates nothing, and
        `mv` of an empty file deletes the target. */
    ghost predicate Valid()
      reads this
    {
      forall f | f in data :: data[f] != []
    }

    /** What `load` passes to its callback: the file, or nothing. */
    function Contents(file: string): seq<byte>
      reads this
    {
      if file in data then data[file] else []
    }

    constructor()
      ensures data == map[] && Valid()
    {
      data := map[];
    }

    /** `append`: an empty chunk changes nothing; otherwise the chunk goes at
        the end of the file, which is created when missing. */
    method Append(file: string, chunk: seq<byte>)
      modifies this
      ensures chunk == [] ==> data == old(data)
      ensures chunk != [] ==> data == old(data)[file := old(Contents(file)) + chunk]
      ensures Contents(file) == old(Contents(file)) + chunk
      ensures forall g | g != file :: Contents(g) == old(Contents(g))
      ensures old(Valid()) ==> Valid()
    {
      if chunk != [] {
        var vec := if file in data then data[file] else [];
        data := data[file := vec + chunk];
      }
    }

    /** `load`: the bytes the callback sees. */
    method Load(file: string) returns (bytes: seq<byte>)
      ensures bytes == Contents(file)
      ensures file !in data ==> bytes == []
    {
      bytes := if file in data then data[file] else [];
    }

    /** `mv`: moves a non-empty source over the target; a missing or empty
        source deletes the target; moving a file onto itself changes
        nothing. */
    method Mv(from: string, to: string)
      modifies this
      ensures from == to ==> data == old(data)
      ensures from != to ==>
        data == (if from in old(data) && old(data)[from] != [] then (old(data) - {from})[to := old(data)[from]]
                 else old(data) - {from, to})
      ensures from != to ==> Contents(to) == old(Contents(from)) && from !in data
      ensures forall g | g != from && g != to :: Contents(g) == old(Contents(g))
      ensures old(Valid()) ==> Valid()
    {
      if from != to {
        if from in data {
          var vec := data[from];
          data := data - {from};
          if vec != [] {
            data := data[to := vec];
          } else {
            data := data - {to};
          }
        } else {
          data := data - {to};
        }
      }
    }
  }

  /** A `Batch`: the previous and the current version of a tree. */
  datatype Batch<K, V> = Batch(prev: map<K, V>, curr: map<K, V>)

  /** `difference_with`: the entries of `a` whose key `b` does not have. */
  function Difference<K, V>(a: map<K, V>, b: map<K, V>): (r: map<K, V>)
    ensures r.Keys == a.Keys - b.Keys
    ensures forall k | k in r :: r[k] == a[k]
  {
    map k | k in a && k !in b :: a[k]
  }

  /** `added`: what the current version has and the previous did not. */
  function Added<K, V>(b: Batch<K, V>): (r: map<K, V>)
    ensures r.Keys == b.curr.Keys - b.prev.Keys
    ensures forall k | k in r :: r[k] == b.curr[k]
  {
    Difference(b.curr, b.prev)
  }

  /** `removed`: what the previous version had and the current does not. */
  function Removed<K, V>(b: Batch<K, V>): map<K, V> {
    Difference(b.prev, b.curr)
  }

  /** `iter`: the added entries with their values, then the removed keys
      with none; as one map, since the two parts have no key in common. */
  function Changes<K, V>(b: Batch<K, V>): (m: map<K, Option<V>>)
  {
    map k | k in Added(b).Keys + Removed(b).Keys ::
      if k in Added(b) then Some(Added(b)[k]) else None
  }

  /** Applies the changes of a batch to a tree. */
  function Patch<K, V>(t: map<K, V>, changes: map<K, Option<V>>): (r: map<K, V>)
    ensures r.Keys <= t.Keys + changes.Keys
    ensures forall k | k in changes :: (k in r <==> changes[k].Some?) && (k in r ==> r[k] == changes[k].value)
    ensures forall k | k in t && k !in changes :: k in r && r[k] == t[k]
  {
    map k | k in t.Keys + changes.Keys && (k !in changes || changes[k].Some?) ::
      if k in changes && changes[k].Some? then changes[k].value else t[k]
  }

  /** Added and removed keys are apart, and a batch of two equal versions
      changes nothing. */
  lemma AddedRemovedApart<K, V>(b: Batch<K, V>)
    ensures Added(b).Keys !! Removed(b).Keys
    ensures b.prev == b.curr ==> Added(b) == map[] && Removed(b) == map[]
  {
  }

  /** Replaying a batch's changes on its previous version gives its current
      version, when the versions agree on the keys they share (the
      differences compare keys, not values). */
  lemma PatchReplays<K, V>(b: Batch<K, V>)
    requires forall k | k in b.prev && k in b.curr :: b.prev[k] == b.curr[k]
    ensures Patch(b.prev, Changes(b)) == b.curr
  {
    var p := Patch(b.prev, Changes(b));
    forall k ensures k in p <==> k in b.curr {
    }
    forall k | k in p ensures p[k] == b.curr[k] {
    }
  }

  /** Without the agreement the replay misses a changed value: the
      differences see no change where only a value changed. */
  lemma ValueChangeUnseen<V>(x: V, y: V)
    requires x != y
    ensures Changes(Batch(map[0 := x], map[0 := y])) == map[]
    ensures Patch(map[0 := x], Changes(Batch(map[0 := x], map[0 := y]))) != map[0 := y]
  {
    var b := Batch(map[0 := x], map[0 := y]);
    assert Added(b) == map[] && Removed(b) == map[];
    var p := Patch(map[0 := x], Changes(b));
    assert Changes(b) == map[];
    assert 0 in p && p[0] == x;
    assert map[0 := y][0] == y;
  }
}
