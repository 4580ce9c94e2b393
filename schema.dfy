/** Schema validation of `crdt/src/schema.rs`: a document schema is a tree of
    flags, registers, tables and structs, and every path of a document must
    spell a walk down that tree. Paths are the byte encodings of `Paths`;
    the lemmas state what validation accepts in terms of the segments a path
    was built from. */
module Schemas {
  import opened Wrappers
  import Bytes
  import Paths
  import PathCrdt

  type Path = seq<Bytes.byte>

  /** A struct field name, as the bytes of the `Str` segment that names it. */
  type Prop = seq<Bytes.byte>

  datatype PrimitiveKind = Bool | U64 | I64 | Str

  /** The segment type that stores a primitive of the given kind. */
  function SegmentTypeOf(kind: PrimitiveKind): Paths.SegmentType {
    match kind
    case Bool => Paths.SegmentType.Bool
    case U64 => Paths.SegmentType.U64
    case I64 => Paths.SegmentType.I64
    case Str => Paths.SegmentType.Str
  }

  /** `PrimitiveKind::validate`: the segment holds a primitive of this kind. */
  function KindValidates(kind: PrimitiveKind, seg: Paths.Segment): (r: bool)
    ensures r <==> Paths.TypeOf(seg) == SegmentTypeOf(kind)
  {
    match kind
    case Bool => seg.Bool?
    case U64 => seg.U64?
    case I64 => seg.I64?
    case Str => seg.Str?
  }

  datatype Schema =
    | Null
    | Flag
    | Reg(kind: PrimitiveKind)
    | Table(key: PrimitiveKind, value: Schema)
    | Struct(fields: map<Prop, Schema>)
    | Array(elem: Schema)

  /** `validate_policy`: `Some(true)` for a path that is one policy segment. */
  function ValidatePolicy(path: Path): Option<bool> {
    match Paths.SplitFirst(path)
    case None => None
    case Some((policy, rest)) =>
      if policy.Policy? then Some(Paths.IsEmpty(rest)) else None
  }

  /** `validate_path`: `Some(true)` when the path (below the document id) is
      allowed by the schema. The source leaves the array case unimplemented
      (`todo!`); the model answers `None` there. */
  function ValidatePath(schema: Schema, path: Path): Option<bool>
    decreases schema
  {
    if ValidatePolicy(path) == Some(true) then Some(true)
    else
      match schema
      case Null => Some(Paths.IsEmpty(path))
      case Flag =>
        (match Paths.SplitFirst(path)
         case None => None
         case Some((nonce, rest)) => if nonce.Nonce? then Some(Paths.IsEmpty(rest)) else None)
      case Reg(kind) =>
        (match Paths.SplitFirst(path)
         case None => None
         case Some((nonce, rest)) =>
           if !nonce.Nonce? then None
           else
             match Paths.SplitFirst(rest)
             case None => None
             case Some((prim, tail)) => Some(KindValidates(kind, prim) && Paths.IsEmpty(tail)))
      case Table(kind, value) =>
        (match Paths.SplitFirst(path)
         case None => None
         case Some((key, rest)) =>
           if !KindValidates(kind, key) then Some(false) else ValidatePath(value, rest))
      case Struct(fields) =>
        (match Paths.SplitFirst(path)
         case None => None
         case Some((field, rest)) =>
           if field.Str? && field.s in fields then ValidatePath(fields[field.s], rest) else None)
      case Array(_) => None
  }

  /** The reference grammar: the segment sequences a schema admits below the
      document id. A lone policy segment is admitted at every position. */
  predicate Conforms(schema: Schema, segs: seq<Paths.Segment>)
    decreases schema
  {
    (|segs| == 1 && segs[0].Policy?) ||
    match schema
    case Null => segs == []
    case Flag => |segs| == 1 && segs[0].Nonce?
    case Reg(kind) =>
      |segs| == 2 && segs[0].Nonce? && Paths.TypeOf(segs[1]) == SegmentTypeOf(kind)
    case Table(kind, value) =>
      |segs| >= 1 && Paths.TypeOf(segs[0]) == SegmentTypeOf(kind) && Conforms(value, segs[1..])
    case Struct(fields) =>
      |segs| >= 1 && segs[0].Str? && segs[0].s in fields && Conforms(fields[segs[0].s], segs[1..])
    case Array(_) => false
  }

  /** Splitting an encoded path yields its first segment and the encoding of
      the rest. */
  lemma SplitOfEncode(segs: seq<Paths.Segment>)
    requires Paths.AllWf(segs)
    ensures segs == [] ==> Paths.SplitFirst(Paths.Encode(segs)).None?
    ensures segs != [] ==> (Paths.AllWf(segs[1..]) &&
      Paths.SplitFirst(Paths.Encode(segs)) == Some((segs[0], Paths.Encode(segs[1..]))))
    ensures Paths.IsEmpty(Paths.Encode(segs)) <==> segs == []
  {
    Paths.EncodeEmptyIff(segs);
    if segs == [] {
      Paths.EmptyPath();
    } else {
      Paths.ChildOfEncode(segs);
    }
  }

  /** A path passes `validate_policy` exactly when it is one policy segment. */
  lemma PolicyOfEncode(segs: seq<Paths.Segment>)
    requires Paths.AllWf(segs)
    ensures ValidatePolicy(Paths.Encode(segs)) == Some(true) <==> |segs| == 1 && segs[0].Policy?
  {
    SplitOfEncode(segs);
    if segs != [] {
      SplitOfEncode(segs[1..]);
      PolicyOfSplit(Paths.Encode(segs), segs[0], Paths.Encode(segs[1..]));
    }
  }

  lemma PolicyOfSplit(p: Path, first: Paths.Segment, rest: Path)
    requires Paths.SplitFirst(p) == Some((first, rest))
    ensures ValidatePolicy(p) == Some(true) <==> first.Policy? && Paths.IsEmpty(rest)
  {
  }

  /** One step of `validate_path` on a path that is not a lone policy and
      splits into `first` and `rest`. */
  lemma ValidateSplit(schema: Schema, p: Path, first: Paths.Segment, rest: Path)
    requires Paths.SplitFirst(p) == Some((first, rest))
    requires ValidatePolicy(p) != Some(true)
    ensures schema.Null? ==> ValidatePath(schema, p) == Some(Paths.IsEmpty(p))
    ensures schema.Flag? ==>
      ValidatePath(schema, p) == if first.Nonce? then Some(Paths.IsEmpty(rest)) else None
    ensures schema.Reg? && !first.Nonce? ==> ValidatePath(schema, p) == None
    ensures schema.Reg? && first.Nonce? ==>
      ValidatePath(schema, p) == match Paths.SplitFirst(rest)
        case None => None
        case Some((prim, tail)) => Some(KindValidates(schema.kind, prim) && Paths.IsEmpty(tail))
    ensures schema.Table? ==> (ValidatePath(schema, p) ==
      if KindValidates(schema.key, first) then ValidatePath(schema.value, rest) else Some(false))
    ensures schema.Struct? ==> (ValidatePath(schema, p) ==
      if first.Str? && first.s in schema.fields then ValidatePath(schema.fields[first.s], rest) else None)
    ensures schema.Array? ==> ValidatePath(schema, p) == None
  {
  }

  /** Validation of an encoded path agrees with the reference grammar. */
  lemma {:induction false} ValidatePathOfEncode(schema: Schema, segs: seq<Paths.Segment>)
    requires Paths.AllWf(segs)
    ensures ValidatePath(schema, Paths.Encode(segs)) == Some(true) <==> Conforms(schema, segs)
    decreases schema
  {
    var p := Paths.Encode(segs);
    PolicyOfEncode(segs);
    SplitOfEncode(segs);
    if ValidatePolicy(p) == Some(true) {
    } else if segs == [] {
      assert Paths.SplitFirst(p).None? && Paths.IsEmpty(p);
    } else {
      var rest := Paths.Encode(segs[1..]);
      ValidateSplit(schema, p, segs[0], rest);
      SplitOfEncode(segs[1..]);
      match schema
      case Null =>
      case Flag =>
      case Reg(kind) =>
        if |segs| >= 2 {
          SplitOfEncode(segs[1..][1..]);
          assert segs[1..][1..] == [] <==> |segs| == 2;
        }
      case Table(kind, value) =>
        ValidatePathOfEncode(value, segs[1..]);
      case Struct(fields) =>
        if segs[0].Str? && segs[0].s in fields {
          ValidatePathOfEncode(fields[segs[0].s], segs[1..]);
        }
      case Array(_) =>
    }
  }

  /** The leaf schemas: `Null` admits only the empty path, a flag exactly one
      nonce, a register exactly a nonce followed by a primitive of its kind
      (each besides a lone policy segment). */
  lemma LeafPaths(segs: seq<Paths.Segment>, kind: PrimitiveKind)
    requires Paths.AllWf(segs)
    requires !(|segs| == 1 && segs[0].Policy?)
    ensures ValidatePath(Null, Paths.Encode(segs)) == Some(true) <==> segs == []
    ensures ValidatePath(Flag, Paths.Encode(segs)) == Some(true) <==> |segs| == 1 && segs[0].Nonce?
    ensures ValidatePath(Reg(kind), Paths.Encode(segs)) == Some(true) <==>
      |segs| == 2 && segs[0].Nonce? && KindValidates(kind, segs[1])
  {
    ValidatePathOfEncode(Null, segs);
    ValidatePathOfEncode(Flag, segs);
    ValidatePathOfEncode(Reg(kind), segs);
  }

  /** The inner schemas: a table path starts with a key of the table's kind,
      a struct path with a declared field, and the rest must be valid for the
      value schema. */
  lemma InnerPaths(segs: seq<Paths.Segment>, kind: PrimitiveKind, value: Schema, fields: map<Prop, Schema>)
    requires Paths.AllWf(segs) && segs != []
    requires !(|segs| == 1 && segs[0].Policy?)
    ensures Paths.AllWf(segs[1..])
    ensures ValidatePath(Table(kind, value), Paths.Encode(segs)) == Some(true) <==>
      KindValidates(kind, segs[0]) && ValidatePath(value, Paths.Encode(segs[1..])) == Some(true)
    ensures ValidatePath(Struct(fields), Paths.Encode(segs)) == Some(true) <==>
      segs[0].Str? && segs[0].s in fields &&
      ValidatePath(fields[segs[0].s], Paths.Encode(segs[1..])) == Some(true)
  {
    SplitOfEncode(segs);
    ValidatePathOfEncode(Table(kind, value), segs);
    ValidatePathOfEncode(value, segs[1..]);
    ValidatePathOfEncode(Struct(fields), segs);
    if segs[0].Str? && segs[0].s in fields {
      ValidatePathOfEncode(fields[segs[0].s], segs[1..]);
    }
  }

  /** A lone policy segment is valid whatever the schema. */
  lemma PolicyAnywhere(schema: Schema, policy: seq<Bytes.byte>)
    requires |policy| <= Bytes.U16Max
    ensures Paths.AllWf([Paths.Segment.Policy(policy)])
    ensures ValidatePath(schema, Paths.Encode([Paths.Segment.Policy(policy)])) == Some(true)
  {
    assert Paths.WfSegment(Paths.Segment.Policy(policy));
    PolicyOfEncode([Paths.Segment.Policy(policy)]);
  }

  /** The signature check of the peer key, message and signature bytes
      (`PublicKey::verify` of ed25519). */
  type SigCheck = (seq<Bytes.byte>, Path, seq<Bytes.byte>) -> bool

  /** `verify_sig`: strips a trailing peer and signature pair and checks the
      signature over what remains. */
  function VerifySig(path: Path, verify: SigCheck): Option<Path> {
    match Paths.SplitLast(path)
    case None => None
    case Some((signed, sig)) =>
      match Paths.SplitLast(signed)
      case None => None
      case Some((body, peer)) =>
        if sig.Sig? && peer.Peer? && verify(peer.peer, body, sig.sig) then Some(body) else None
  }

  /** A path signed by `peer` verifies exactly when the signature is good. */
  lemma VerifySigOfEncode(segs: seq<Paths.Segment>, peer: seq<Bytes.byte>, sig: seq<Bytes.byte>, verify: SigCheck)
    requires Paths.AllWf(segs) && |peer| == 32 && |sig| == 64
    ensures Paths.AllWf(segs + [Paths.Segment.Peer(peer), Paths.Segment.Sig(sig)])
    ensures VerifySig(Paths.Encode(segs + [Paths.Segment.Peer(peer), Paths.Segment.Sig(sig)]), verify) ==
      if verify(peer, Paths.Encode(segs), sig) then Some(Paths.Encode(segs)) else None
  {
    var signed := segs + [Paths.Segment.Peer(peer)];
    var whole := signed + [Paths.Segment.Sig(sig)];
    assert Paths.WfSegment(Paths.Segment.Peer(peer)) && Paths.WfSegment(Paths.Segment.Sig(sig));
    Paths.AllWfAppend(segs, [Paths.Segment.Peer(peer)]);
    Paths.AllWfAppend(signed, [Paths.Segment.Sig(sig)]);
    assert whole == segs + [Paths.Segment.Peer(peer), Paths.Segment.Sig(sig)];
    Paths.ParentOfEncode(whole);
    assert whole[..|whole| - 1] == signed;
    Paths.ParentOfEncode(signed);
    assert signed[..|signed| - 1] == segs;
  }

  /** The check `_validate` makes of a live path: signed, then rooted at a
      document, then valid for the schema. */
  predicate StorePathValid(schema: Schema, verify: SigCheck, path: Path) {
    match VerifySig(path, verify)
    case None => false
    case Some(body) =>
      match Paths.SplitFirst(body)
      case None => false
      case Some((doc, rest)) => doc.Doc? && ValidatePath(schema, rest) == Some(true)
  }

  /** The check `_validate` makes of a tombstone: signed twice, rooted at a
      document, not ending in a policy, and valid for the schema. */
  predicate ExpiredPathValid(schema: Schema, verify: SigCheck, path: Path) {
    match VerifySig(path, verify)
    case None => false
    case Some(signed) =>
      match VerifySig(signed, verify)
      case None => false
      case Some(body) =>
        match Paths.SplitFirst(body)
        case None => false
        case Some((doc, rest)) =>
          doc.Doc? && Paths.Last(rest).Some? && !Paths.Last(rest).value.Policy? &&
          ValidatePath(schema, rest) == Some(true)
  }

  /** A live path written as document, segments, peer and signature is valid
      exactly when the signature is good and the segments conform. */
  lemma StorePathOfEncode(schema: Schema, verify: SigCheck, doc: seq<Bytes.byte>, segs: seq<Paths.Segment>,
                          peer: seq<Bytes.byte>, sig: seq<Bytes.byte>)
    requires Paths.AllWf(segs) && |doc| == 32 && |peer| == 32 && |sig| == 64
    ensures Paths.AllWf([Paths.Segment.Doc(doc)] + segs)
    ensures Paths.AllWf([Paths.Segment.Doc(doc)] + segs + [Paths.Segment.Peer(peer), Paths.Segment.Sig(sig)])
    ensures StorePathValid(schema, verify,
              Paths.Encode([Paths.Segment.Doc(doc)] + segs + [Paths.Segment.Peer(peer), Paths.Segment.Sig(sig)])) <==>
      verify(peer, Paths.Encode([Paths.Segment.Doc(doc)] + segs), sig) && Conforms(schema, segs)
  {
    var body := [Paths.Segment.Doc(doc)] + segs;
    assert Paths.WfSegment(Paths.Segment.Doc(doc));
    Paths.AllWfAppend([Paths.Segment.Doc(doc)], segs);
    VerifySigOfEncode(body, peer, sig, verify);
    SplitOfEncode(body);
    assert body[1..] == segs;
    ValidatePathOfEncode(schema, segs);
  }

  /** A tombstone written as a signed live path countersigned by a second peer
      is valid exactly when both signatures are good, the path does not end in
      a policy, and its segments conform. */
  lemma ExpiredPathOfEncode(schema: Schema, verify: SigCheck, doc: seq<Bytes.byte>, segs: seq<Paths.Segment>,
                            peer: seq<Bytes.byte>, sig: seq<Bytes.byte>,
                            peer2: seq<Bytes.byte>, sig2: seq<Bytes.byte>)
    requires Paths.AllWf(segs) && |doc| == 32 && |peer| == 32 && |sig| == 64
    requires |peer2| == 32 && |sig2| == 64
    ensures Paths.AllWf([Paths.Segment.Doc(doc)] + segs)
    ensures Paths.AllWf([Paths.Segment.Doc(doc)] + segs + [Paths.Segment.Peer(peer), Paths.Segment.Sig(sig)])
    ensures Paths.AllWf([Paths.Segment.Doc(doc)] + segs + [Paths.Segment.Peer(peer), Paths.Segment.Sig(sig)]
                        + [Paths.Segment.Peer(peer2), Paths.Segment.Sig(sig2)])
    ensures ExpiredPathValid(schema, verify,
              Paths.Encode([Paths.Segment.Doc(doc)] + segs + [Paths.Segment.Peer(peer), Paths.Segment.Sig(sig)]
                           + [Paths.Segment.Peer(peer2), Paths.Segment.Sig(sig2)])) <==>
      verify(peer2, Paths.Encode([Paths.Segment.Doc(doc)] + segs + [Paths.Segment.Peer(peer), Paths.Segment.Sig(sig)]), sig2) &&
      verify(peer, Paths.Encode([Paths.Segment.Doc(doc)] + segs), sig) &&
      segs != [] && !segs[|segs| - 1].Policy? && Conforms(schema, segs)
  {
    var body := [Paths.Segment.Doc(doc)] + segs;
    var signed := body + [Paths.Segment.Peer(peer), Paths.Segment.Sig(sig)];
    assert Paths.WfSegment(Paths.Segment.Doc(doc));
    Paths.AllWfAppend([Paths.Segment.Doc(doc)], segs);
    VerifySigOfEncode(body, peer, sig, verify);
    VerifySigOfEncode(signed, peer2, sig2, verify);
    SplitOfEncode(body);
    assert body[1..] == segs;
    ValidatePathOfEncode(schema, segs);
    if segs != [] {
      Paths.ParentOfEncode(segs);
    } else {
      Paths.EmptyPath();
    }
    ExpiredOfParts(schema, verify,
      Paths.Encode(signed + [Paths.Segment.Peer(peer2), Paths.Segment.Sig(sig2)]),
      Paths.Encode(signed), Paths.Encode(body), Paths.Segment.Doc(doc), Paths.Encode(segs),
      verify(peer2, Paths.Encode(signed), sig2), verify(peer, Paths.Encode(body), sig));
  }

  /** `ExpiredPathValid` on a path whose two signature checks and first split
      are known. */
  lemma ExpiredOfParts(schema: Schema, verify: SigCheck, path: Path, signed: Path, body: Path,
                       doc: Paths.Segment, rest: Path, outer: bool, inner: bool)
    requires VerifySig(path, verify) == if outer then Some(signed) else None
    requires VerifySig(signed, verify) == if inner then Some(body) else None
    requires Paths.SplitFirst(body) == Some((doc, rest))
    ensures ExpiredPathValid(schema, verify, path) <==>
      outer && inner && doc.Doc? && Paths.Last(rest).Some? && !Paths.Last(rest).value.Policy? &&
      ValidatePath(schema, rest) == Some(true)
  {
  }

  /** The first loop of `_validate`: every live path passes. */
  method StoreValid(schema: Schema, verify: SigCheck, store: set<Path>) returns (ok: bool)
    ensures ok <==> forall p | p in store :: StorePathValid(schema, verify, p)
  {
    var todo := store;
    while todo != {}
      invariant todo <= store
      invariant forall p | p in store - todo :: StorePathValid(schema, verify, p)
      decreases todo
    {
      var p :| p in todo;
      if !StorePathValid(schema, verify, p) {
        return false;
      }
      todo := todo - {p};
    }
    return true;
  }

  /** The second loop of `_validate`: every tombstone passes. */
  method ExpiredValid(schema: Schema, verify: SigCheck, expired: set<Path>) returns (ok: bool)
    ensures ok <==> forall p | p in expired :: ExpiredPathValid(schema, verify, p)
  {
    var todo := expired;
    while todo != {}
      invariant todo <= expired
      invariant forall p | p in expired - todo :: ExpiredPathValid(schema, verify, p)
      decreases todo
    {
      var p :| p in todo;
      if !ExpiredPathValid(schema, verify, p) {
        return false;
      }
      todo := todo - {p};
    }
    return true;
  }

  /** `ArchivedSchema::validate`: a causal delta is valid for the schema when
      every live path and every tombstone is. */
  method Validate(schema: Schema, verify: SigCheck, causal: PathCrdt.Delta) returns (ok: bool)
    ensures ok <==> (forall p | p in causal.store :: StorePathValid(schema, verify, p)) &&
                    (forall p | p in causal.expired :: ExpiredPathValid(schema, verify, p))
  {
    ok := StoreValid(schema, verify, causal.store);
    if ok {
      ok := ExpiredValid(schema, verify, causal.expired);
    }
  }
}
