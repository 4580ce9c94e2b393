/** Bytes and fixed-width integer encodings shared by the path codec, the
    layout helpers and the secret metadata. */
module Bytes {

  newtype byte = x: int | 0 <= x < 256

  /** 256 raised to `w`: the number of values a `w`-byte field can hold. */
  function Pow256(w: nat): (r: nat)
    ensures r >= 1
  {
    if w == 0 then 1 else 256 * Pow256(w - 1)
  }

  /** Big-endian encoding of `n` in exactly `w` bytes (`to_be_bytes`). */
  function ToBe(n: nat, w: nat): (r: seq<byte>)
    requires n < Pow256(w)
    ensures |r| == w
  {
    if w == 0 then [] else ToBe(n / 256, w - 1) + [(n % 256) as byte]
  }

  /** Big-endian decoding (`from_be_bytes`). */
  function FromBe(bs: seq<byte>): (r: nat)
    ensures r < Pow256(|bs|)
  {
    if bs == [] then 0 else FromBe(bs[..|bs| - 1]) * 256 + bs[|bs| - 1] as nat
  }

  /** Little-endian encoding of `n` in exactly `w` bytes (`to_le_bytes`). */
  function ToLe(n: nat, w: nat): (r: seq<byte>)
    requires n < Pow256(w)
    ensures |r| == w
  {
    if w == 0 then [] else [(n % 256) as byte] + ToLe(n / 256, w - 1)
  }

  /** Little-endian decoding (`from_le_bytes`). */
  function FromLe(bs: seq<byte>): (r: nat)
    ensures r < Pow256(|bs|)
  {
    if bs == [] then 0 else bs[0] as nat + 256 * FromLe(bs[1..])
  }

  lemma {:induction false} FromBeToBe(n: nat, w: nat)
    requires n < Pow256(w)
    ensures FromBe(ToBe(n, w)) == n
    decreases w
  {
    if w > 0 {
      var r := ToBe(n, w);
      assert r[..|r| - 1] == ToBe(n / 256, w - 1);
      FromBeToBe(n / 256, w - 1);
    }
  }

  lemma {:induction false} ToBeFromBe(bs: seq<byte>)
    ensures ToBe(FromBe(bs), |bs|) == bs
    decreases |bs|
  {
    if bs != [] {
      var init := bs[..|bs| - 1];
      ToBeFromBe(init);
      var n := FromBe(bs);
      assert n / 256 == FromBe(init);
      assert n % 256 == bs[|bs| - 1] as nat;
      assert bs == init + [bs[|bs| - 1]];
    }
  }

  lemma {:induction false} FromLeToLe(n: nat, w: nat)
    requires n < Pow256(w)
    ensures FromLe(ToLe(n, w)) == n
    decreases w
  {
    if w > 0 {
      var r := ToLe(n, w);
      assert r[1..] == ToLe(n / 256, w - 1);
      FromLeToLe(n / 256, w - 1);
    }
  }

  lemma {:induction false} ToLeFromLe(bs: seq<byte>)
    ensures ToLe(FromLe(bs), |bs|) == bs
    decreases |bs|
  {
    if bs != [] {
      ToLeFromLe(bs[1..]);
      var n := FromLe(bs);
      assert n / 256 == FromLe(bs[1..]);
      assert n % 256 == bs[0] as nat;
      assert bs == [bs[0]] + bs[1..];
    }
  }

  /** Two's-complement reading of a `w`-byte unsigned value (`as i64` etc.). */
  function Signed(u: nat, w: nat): (r: int)
    requires 0 < w && u < Pow256(w)
    ensures -(Pow256(w) as int) / 2 <= r < Pow256(w) / 2
    ensures r >= 0 ==> r == u
  {
    if u < Pow256(w) / 2 then u else u - Pow256(w)
  }

  /** Two's-complement bit pattern of a signed `w`-byte value. */
  function Unsigned(i: int, w: nat): (r: nat)
    requires 0 < w && -(Pow256(w) as int) / 2 <= i < Pow256(w) / 2
    ensures r < Pow256(w)
  {
    if i >= 0 then i else i + Pow256(w)
  }

  lemma SignedUnsigned(i: int, w: nat)
    requires 0 < w && -(Pow256(w) as int) / 2 <= i < Pow256(w) / 2
    ensures Signed(Unsigned(i, w), w) == i
  {
  }

  /** `u16::MAX`. */
  const U16Max: nat := 65535

  lemma Pow256Values()
    ensures Pow256(1) == 256 && Pow256(2) == 65536
    ensures Pow256(8) == 0x1_0000_0000_0000_0000
  {
  }
}
