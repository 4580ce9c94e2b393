/** The schemas of `cambria/src/schema.rs`: which node kinds the document
    tree of `CambriaCrdt` may hold where. Unlike the acl crate's schemas, a
    struct node must hold every declared field. */
module CambriaSchema {
  import opened CambriaCrdt

  /** `PrimitiveKind`. */
  datatype PrimitiveKind = BoolKind | U64Kind | I64Kind | StrKind

  /** `PrimitiveKind::validate`: the value is of the kind. */
  function KindValidates(kind: PrimitiveKind, v: Primitive): (ok: bool)
    ensures ok <==> (kind.BoolKind? && v.Bool?) || (kind.U64Kind? && v.U64?) ||
                    (kind.I64Kind? && v.I64?) || (kind.StrKind? && v.Str?)
  {
    match kind
    case BoolKind => v.Bool?
    case U64Kind => v.U64?
    case I64Kind => v.I64?
    case StrKind => v.Str?
  }

  /** `Schema`. */
  datatype Schema =
    | NullSchema
    | FlagSchema
    | RegSchema(kind: PrimitiveKind)
    | TableSchema(keyKind: PrimitiveKind, value: Schema)
    | StructSchema(fields: map<string, Schema>)

  /** What `ArchivedSchema::validate` accepts: the node has the schema's
      kind, every register value and table key has the declared primitive
      kind, every table value is valid, and a struct holds exactly the
      declared fields, each valid. */
  predicate Valid<A(==)>(s: Schema, x: Crdt<A>) {
    match (s, x)
    case (NullSchema, Null) => true
    case (FlagSchema, Flag(_)) => true
    case (RegSchema(kind), Reg(r)) => forall d | d in r :: KindValidates(kind, r[d])
    case (TableSchema(kind, inner), Table(t)) =>
      forall k | k in t :: KindValidates(kind, k) && Valid(inner, t[k])
    case (StructSchema(fs), Struct(m)) =>
      fs.Keys == m.Keys && forall p | p in m :: Valid(fs[p], m[p])
    case _ => false
  }

  /** `ArchivedSchema::validate`: for a struct, first every declared field
      must be present, then every field must be declared and valid; it
      stops at the first failure. */
  method Validate<A(==)>(s: Schema, x: Crdt<A>) returns (ok: bool)
    ensures ok <==> Valid(s, x)
  {
    match (s, x)
    case (NullSchema, Null) => return true;
    case (FlagSchema, Flag(_)) => return true;
    case (RegSchema(kind), Reg(r)) =>
      var todo := r.Keys;
      while todo != {}
        invariant todo <= r.Keys
        invariant forall d | d in r.Keys - todo :: KindValidates(kind, r[d])
        decreases todo
      {
        var d :| d in todo;
        if !KindValidates(kind, r[d]) {
          return false;
        }
        todo := todo - {d};
      }
      return true;
    case (TableSchema(kind, inner), Table(t)) =>
      var todo := t.Keys;
      while todo != {}
        invariant todo <= t.Keys
        invariant forall k | k in t.Keys - todo :: KindValidates(kind, k) && Valid(inner, t[k])
        decreases todo
      {
        var k :| k in todo;
        if !KindValidates(kind, k) {
          return false;
        }
        var valid := Validate(inner, t[k]);
        if !valid {
          return false;
        }
        todo := todo - {k};
      }
      return true;
    case (StructSchema(fs), Struct(m)) =>
      var declared := fs.Keys;
      while declared != {}
        invariant declared <= fs.Keys
        invariant fs.Keys - declared <= m.Keys
        decreases declared
      {
        var p :| p in declared;
        if p !in m {
          return false;
        }
        declared := declared - {p};
      }
      var todo := m.Keys;
      while todo != {}
        invariant todo <= m.Keys
        invariant forall p | p in m.Keys - todo :: p in fs && Valid(fs[p], m[p])
        decreases todo
      {
        var p :| p in todo;
        if p !in fs {
          return false;
        }
        var valid := Validate(fs[p], m[p]);
        if !valid {
          return false;
        }
        todo := todo - {p};
      }
      return true;
    case _ => return false;
  }

  /** A node of another kind than the schema's is invalid. */
  lemma MismatchInvalid<A>(s: Schema, x: Crdt<A>)
    requires s.NullSchema? != x.Null? || s.FlagSchema? != x.Flag? ||
             s.RegSchema? != x.Reg? || s.TableSchema? != x.Table? ||
             s.StructSchema? != x.Struct?
    ensures !Valid(s, x)
  {
  }

  /** Two valid nodes of one schema join to a valid node: a valid pair
      never hits the kind mismatch that empties a node. */
  lemma {:induction false} JoinPreservesValidity<A>(s: Schema, x: Crdt<A>, c: Ctx<A>, y: Crdt<A>, yc: Ctx<A>)
    requires Valid(s, x) && Valid(s, y)
    ensures Valid(s, Join(x, c, y, yc))
  {
    match (s, x, y)
    case (NullSchema, Null, Null) =>
    case (FlagSchema, Flag(_), Flag(_)) =>
    case (RegSchema(kind), Reg(r1), Reg(r2)) =>
    case (TableSchema(kind, inner), Table(t1), Table(t2)) =>
      forall k | k in t1 && k in t2 ensures Valid(inner, Join(t1[k], c, t2[k], yc)) {
        JoinPreservesValidity(inner, t1[k], c, t2[k], yc);
      }
    case (StructSchema(fs), Struct(m1), Struct(m2)) =>
      forall p | p in m1 && p in m2 ensures Valid(fs[p], Join(m1[p], c, m2[p], yc)) {
        JoinPreservesValidity(fs[p], m1[p], c, m2[p], yc);
      }
  }

  /** The part of a valid node that `unjoin` extracts need not be valid: a
      struct field whose part is empty is dropped, yet the schema requires
      every declared field. */
  lemma UnjoinDropsRequiredField<A>(diff: Ctx<A>)
    ensures var x: Crdt<A> := Struct(map["a" := Null]);
      Valid(StructSchema(map["a" := NullSchema]), x) &&
      !Valid(StructSchema(map["a" := NullSchema]), Unjoin(x, diff))
  {
    var x: Crdt<A> := Struct(map["a" := Null]);
    assert IsEmpty(x.fields["a"]);
    assert Unjoin(x, diff).fields == map[];
  }

  /** A part of a valid node: like `Valid`, except that a struct may omit
      declared fields. */
  predicate ValidPart<A(==)>(s: Schema, x: Crdt<A>) {
    match (s, x)
    case (NullSchema, Null) => true
    case (FlagSchema, Flag(_)) => true
    case (RegSchema(kind), Reg(r)) => forall d | d in r :: KindValidates(kind, r[d])
    case (TableSchema(kind, inner), Table(t)) =>
      forall k | k in t :: KindValidates(kind, k) && ValidPart(inner, t[k])
    case (StructSchema(fs), Struct(m)) =>
      m.Keys <= fs.Keys && forall p | p in m :: ValidPart(fs[p], m[p])
    case _ => false
  }

  /** What `unjoin` extracts from a valid node is a part of it: the kept
      entries are valid, and only declared struct fields remain. */
  lemma {:induction false} UnjoinIsValidPart<A>(s: Schema, x: Crdt<A>, diff: Ctx<A>)
    requires ValidPart(s, x)
    ensures ValidPart(s, Unjoin(x, diff))
  {
    var u := Unjoin(x, diff);
    match (s, x)
    case (NullSchema, Null) =>
    case (FlagSchema, Flag(f)) =>
      assert u == Flag(f * diff);
    case (RegSchema(kind), Reg(r)) =>
      assert u.Reg? && u.values.Keys <= r.Keys;
    case (TableSchema(kind, inner), Table(t)) =>
      forall k | k in t ensures ValidPart(inner, Unjoin(t[k], diff)) {
        UnjoinIsValidPart(inner, t[k], diff);
      }
    case (StructSchema(fs), Struct(m)) =>
      forall p | p in m ensures ValidPart(fs[p], Unjoin(m[p], diff)) {
        UnjoinIsValidPart(fs[p], m[p], diff);
      }
  }

  /** A valid node is a part of itself. */
  lemma {:induction false} ValidIsPart<A>(s: Schema, x: Crdt<A>)
    requires Valid(s, x)
    ensures ValidPart(s, x)
  {
    match (s, x)
    case (NullSchema, Null) =>
    case (FlagSchema, Flag(_)) =>
    case (RegSchema(_), Reg(_)) =>
    case (TableSchema(kind, inner), Table(t)) =>
      forall k | k in t ensures ValidPart(inner, t[k]) {
        ValidIsPart(inner, t[k]);
      }
    case (StructSchema(fs), Struct(m)) =>
      forall p | p in m ensures ValidPart(fs[p], m[p]) {
        ValidIsPart(fs[p], m[p]);
      }
  }
}
