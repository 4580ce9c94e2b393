/** Secret metadata of `src/secrets.rs`: a 65-byte query key whose bytes
    0..32 name a document, 32..64 a peer and byte 64 the kind of secret,
    and the per-key nonce counter kept in the secrets tree. */
module SecretStore {
  import opened Bytes

  /** `KeyType`, a `repr(u8)` enum. */
  datatype KeyType = Keypair | Key | Nonce

  function Tag(ty: KeyType): byte {
    match ty
    case Keypair => 0
    case Key => 1
    case Nonce => 2
  }

  /** `Metadata([u8; 65])`. */
  datatype Metadata = Metadata(bytes: seq<byte>)

  predicate Wf(m: Metadata) {
    |m.bytes| == 65
  }

  /** `Metadata::new`: the query with every byte zero, whose answers are
      the defaults. */
  function New(): (m: Metadata)
    ensures Wf(m) && forall i | 0 <= i < 65 :: m.bytes[i] == 0
  {
    Metadata(seq(65, _ => 0))
  }

  /** `doc`: a copy whose first 32 bytes are the document id. */
  function Doc(m: Metadata, doc: seq<byte>): (r: Metadata)
    requires Wf(m) && |doc| == 32
    ensures Wf(r) && r.bytes[..32] == doc
    ensures forall i | 32 <= i < 65 :: r.bytes[i] == m.bytes[i]
  {
    Metadata(doc + m.bytes[32..])
  }

  /** `peer`: a copy whose bytes 32..64 are the peer id. */
  function Peer(m: Metadata, peer: seq<byte>): (r: Metadata)
    requires Wf(m) && |peer| == 32
    ensures Wf(r) && r.bytes[32..64] == peer
    ensures forall i | 0 <= i < 65 && !(32 <= i < 64) :: r.bytes[i] == m.bytes[i]
  {
    Metadata(m.bytes[..32] + peer + m.bytes[64..])
  }

  /** `ty`: a copy whose last byte is the kind of secret. */
  function Ty(m: Metadata, ty: KeyType): (r: Metadata)
    requires Wf(m)
    ensures Wf(r) && r.bytes[64] == Tag(ty)
    ensures forall i | 0 <= i < 64 :: r.bytes[i] == m.bytes[i]
  {
    Metadata(m.bytes[..64] + [Tag(ty)])
  }

  /** The key a secret of kind `ty` for `doc` and `peer` is stored under. */
  function KeyOf(doc: seq<byte>, peer: seq<byte>, ty: KeyType): Metadata
    requires |doc| == 32 && |peer| == 32
  {
    Ty(Peer(Doc(New(), doc), peer), ty)
  }

  /** The builders write disjoint bytes, so their order does not matter. */
  lemma BuildersCommute(m: Metadata, doc: seq<byte>, peer: seq<byte>, ty: KeyType)
    requires Wf(m) && |doc| == 32 && |peer| == 32
    ensures Peer(Doc(m, doc), peer) == Doc(Peer(m, peer), doc)
    ensures Ty(Doc(m, doc), ty) == Doc(Ty(m, ty), doc)
    ensures Ty(Peer(m, peer), ty) == Peer(Ty(m, ty), peer)
  {
    assert Peer(Doc(m, doc), peer).bytes == Doc(Peer(m, peer), doc).bytes;
    assert Ty(Doc(m, doc), ty).bytes == Doc(Ty(m, ty), doc).bytes;
    assert Ty(Peer(m, peer), ty).bytes == Peer(Ty(m, ty), peer).bytes;
  }

  /** Distinct documents, peers or kinds of secret have distinct keys. */
  lemma KeysDistinct(d1: seq<byte>, p1: seq<byte>, t1: KeyType, d2: seq<byte>, p2: seq<byte>, t2: KeyType)
    requires |d1| == 32 && |p1| == 32 && |d2| == 32 && |p2| == 32
    ensures KeyOf(d1, p1, t1) == KeyOf(d2, p2, t2) <==> d1 == d2 && p1 == p2 && t1 == t2
  {
    var k1 := KeyOf(d1, p1, t1).bytes;
    var k2 := KeyOf(d2, p2, t2).bytes;
    if k1 == k2 {
      assert k1[..32] == d1 && k2[..32] == d2;
      assert k1[32..64] == p1 && k2[32..64] == p2;
    }
  }

  /** The secrets tree, as far as the nonce counter uses it. */
  class Secrets {
    var tree: map<seq<byte>, seq<byte>>

    constructor(tree: map<seq<byte>, seq<byte>>)
      ensures this.tree == tree
    {
      this.tree := tree;
    }

    /** The counter stored for `m`: little-endian, zero when absent. */
    function Counter(m: Metadata): nat
      requires Wf(m)
      reads this
    {
      var key := Ty(m, KeyType.Nonce).bytes;
      if key in tree && |tree[key]| == 8 then FromLe(tree[key]) else 0
    }

    /** `nonce`: answers the stored counter (zero at first) and stores the
        next one, in one transaction. The increment wraps at 2^64 as the
        release build's `u64` addition does; a stored value that is not
        8 bytes makes the source panic. */
    method NextNonce(m: Metadata) returns (n: nat)
      requires Wf(m)
      requires var key := Ty(m, KeyType.Nonce).bytes; key in tree ==> |tree[key]| == 8
      modifies this
      ensures n == old(Counter(m)) && n < Pow256(8)
      ensures Counter(m) == (n + 1) % Pow256(8)
      ensures tree == old(tree)[Ty(m, KeyType.Nonce).bytes := ToLe((n + 1) % Pow256(8), 8)]
    {
      var key := Ty(m, KeyType.Nonce).bytes;
      var nonce := 0;
      if key in tree {
        nonce := FromLe(tree[key]);
      }
      var next := (nonce + 1) % Pow256(8);
      tree := tree[key := ToLe(next, 8)];
      FromLeToLe(next, 8);
      n := nonce;
    }
  }
}
