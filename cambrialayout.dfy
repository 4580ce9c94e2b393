/** The byte layout helpers of `cambria/src/layout.rs`: numbers and booleans
    are stored as 8 little-endian bytes, every field of an object takes one
    8-byte slot, in the order of the object's keys. */
module CambriaLayout {
  import opened Wrappers
  import opened Bytes
  import CL = CambriaLenses

  /** The range of an `i64`. */
  predicate IsI64(n: int) {
    -0x8000_0000_0000_0000 <= n < 0x8000_0000_0000_0000
  }

  /** `From<i64> for Number`: the two's-complement bytes, least significant
      first. */
  function NumberToBytes(n: int): (bs: seq<byte>)
    requires IsI64(n)
    ensures |bs| == 8
  {
    Pow256Values();
    ToLe(Unsigned(n, 8), 8)
  }

  /** `From<Number> for i64`. */
  function NumberFromBytes(bs: seq<byte>): (n: int)
    requires |bs| == 8
    ensures IsI64(n)
  {
    Pow256Values();
    Signed(FromLe(bs), 8)
  }

  /** A number survives the trip through its bytes, and so do any 8 bytes
      through the number they encode. */
  lemma NumberRoundTrip(n: int, bs: seq<byte>)
    requires IsI64(n) && |bs| == 8
    ensures NumberFromBytes(NumberToBytes(n)) == n
    ensures NumberToBytes(NumberFromBytes(bs)) == bs
  {
    Pow256Values();
    FromLeToLe(Unsigned(n, 8), 8);
    SignedUnsigned(n, 8);
    ToLeFromLe(bs);
    var u := FromLe(bs);
    assert Unsigned(Signed(u, 8), 8) == u;
  }

  /** `From<bool> for Bool`: `1` or `0` as a `u64`. */
  function BoolToBytes(b: bool): (bs: seq<byte>)
    ensures |bs| == 8
  {
    Pow256Values();
    ToLe(if b then 1 else 0, 8)
  }

  /** `From<Bool> for bool`: true when the `u64` is positive. */
  function BoolFromBytes(bs: seq<byte>): bool
    requires |bs| == 8
  {
    FromLe(bs) > 0
  }

  /** A little-endian number is zero exactly when all its bytes are. */
  lemma {:induction false} FromLeZero(bs: seq<byte>)
    ensures FromLe(bs) == 0 <==> forall i | 0 <= i < |bs| :: bs[i] == 0
    decreases |bs|
  {
    if bs != [] {
      FromLeZero(bs[1..]);
      assert forall i | 1 <= i < |bs| :: bs[i] == bs[1..][i - 1];
    }
  }

  /** A boolean survives the trip through its bytes, and bytes read as
      true exactly when one of them is non-zero. */
  lemma BoolRoundTrip(b: bool, bs: seq<byte>)
    requires |bs| == 8
    ensures BoolFromBytes(BoolToBytes(b)) == b
    ensures BoolFromBytes(bs) <==> exists i | 0 <= i < 8 :: bs[i] != 0
  {
    Pow256Values();
    FromLeToLe(if b then 1 else 0, 8);
    FromLeZero(bs);
  }

  /** Only the bytes of `0` and `1` come back unchanged from a boolean. */
  lemma BoolBytesCanonical(bs: seq<byte>)
    requires |bs| == 8
    ensures BoolToBytes(BoolFromBytes(bs)) == bs <==> FromLe(bs) <= 1
  {
    Pow256Values();
    var v: nat := if BoolFromBytes(bs) then 1 else 0;
    if FromLe(bs) <= 1 {
      assert v == FromLe(bs);
      ToLeFromLe(bs);
    }
    if BoolToBytes(BoolFromBytes(bs)) == bs {
      FromLeToLe(v, 8);
    }
  }

  /** `size_of`: an object takes one slot per field, anything else one
      slot. */
  function SizeOf(s: CL.Schema): (n: nat)
    ensures n % 8 == 0 && (n == 0 <==> s.ObjectSchema? && s.fields == map[])
  {
    if s.ObjectSchema? then |s.fields| * 8 else 8
  }

  /** The position of `key` in `keys`. */
  function IndexOf(keys: seq<string>, key: string): (i: nat)
    requires key in keys
    ensures i < |keys| && keys[i] == key && key !in keys[..i]
  {
    if keys[0] == key then 0
    else
      var j := IndexOf(keys[1..], key);
      assert keys[..j + 1] == [keys[0]] + keys[1..][..j];
      j + 1
  }

  /** `keys` lists the keys of `m` once each, in the order the map keeps. */
  predicate Enumerates<V>(keys: seq<string>, m: map<string, V>) {
    (forall i, j | 0 <= i < j < |keys| :: keys[i] != keys[j]) &&
    (forall k | k in keys :: k in m) && (forall k | k in m :: k in keys)
  }

  /** `key_offset`: no offset for a missing key, else 8 bytes for each key
      before it. `keys` is the order in which the map yields its keys. */
  method KeyOffset(key: string, m: map<string, CL.Schema>, keys: seq<string>) returns (r: Option<nat>)
    requires Enumerates(keys, m)
    ensures key !in m ==> r == None
    ensures key in m ==> r == Some(8 * IndexOf(keys, key))
  {
    if key !in m {
      return None;
    }
    assert keys[..|keys|] == keys;
    var i := 0;
    var n := 0;
    while n < |keys|
      invariant 0 <= n <= |keys| && i == 8 * n
      invariant key !in keys[..n]
    {
      if keys[n] == key {
        break;
      }
      assert keys[..n + 1] == keys[..n] + [keys[n]];
      i := i + 8;
      n := n + 1;
    }
    assert n < |keys| && keys[n] == key;
    IndexUnique(keys, key, n);
    return Some(i);
  }

  /** In a list without repetitions a key has one position. */
  lemma IndexUnique(keys: seq<string>, key: string, n: nat)
    requires forall i, j | 0 <= i < j < |keys| :: keys[i] != keys[j]
    requires n < |keys| && keys[n] == key
    ensures IndexOf(keys, key) == n
  {
  }

  /** Every field of an object has its own slot inside the object: offsets
      of different keys differ, and each slot ends within `size_of`. */
  lemma SlotsFit(m: map<string, CL.Schema>, keys: seq<string>, a: string, b: string)
    requires Enumerates(keys, m) && a in m && b in m
    ensures IndexOf(keys, a) * 8 + 8 <= SizeOf(CL.ObjectSchema(m))
    ensures a != b ==> IndexOf(keys, a) != IndexOf(keys, b)
  {
    EnumerationSize(keys, m);
  }

  /** A list of the keys of a map without repetitions is as long as the
      map. */
  lemma EnumerationSize<V>(keys: seq<string>, m: map<string, V>)
    requires Enumerates(keys, m)
    ensures |keys| == |m|
  {
    DistinctCard(keys);
    assert (set k | k in keys) == m.Keys;
  }

  /** A list without repetitions has as many distinct elements as entries. */
  lemma {:induction false} DistinctCard(keys: seq<string>)
    requires forall i, j | 0 <= i < j < |keys| :: keys[i] != keys[j]
    ensures |set k | k in keys| == |keys|
    decreases |keys|
  {
    if keys != [] {
      var rest := keys[1..];
      DistinctCard(rest);
      assert keys[0] !in rest;
      assert (set k | k in keys) == (set k | k in rest) + {keys[0]};
    }
  }
}
