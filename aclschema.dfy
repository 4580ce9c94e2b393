/** The schemas of `acl/src/schema.rs`: which node kinds a document tree
    may hold where, and the empty node each schema starts from. */
module AclSchema {
  import opened AclLabels
  import opened AclData
  import opened Wrappers

  /** `PrimitiveKind`. */
  datatype PrimitiveKind = BoolKind | U64Kind | I64Kind | StrKind

  /** `PrimitiveKind::validate`: the value is of the kind. */
  function KindValidates(kind: PrimitiveKind, v: Primitive): (ok: bool)
    ensures ok <==> (kind.BoolKind? && v.Bool?) || (kind.U64Kind? && v.U64?) ||
                    (kind.I64Kind? && v.I64?) || (kind.StrKind? && v.Str?)
  {
    match kind
    case BoolKind => v.Bool?
    case U64Kind => v.U64?
    case I64Kind => v.I64?
    case StrKind => v.Str?
  }

  /** `Schema`. */
  datatype Schema =
    | NullSchema
    | FlagSchema
    | RegSchema(kind: PrimitiveKind)
    | TableSchema(keyKind: PrimitiveKind, value: Schema)
    | StructSchema(fields: map<string, Schema>)

  /** What `ArchivedSchema::validate` accepts: the node has the schema's
      kind, every register value and table key has the declared primitive
      kind, every table value is valid, and every struct field is declared
      and valid (a declared field may be missing). */
  predicate Valid(s: Schema, x: Crdt)
    decreases x
  {
    match (s, x.data)
    case (NullSchema, Null) => true
    case (FlagSchema, Flag(_)) => true
    case (RegSchema(kind), Reg(r)) => forall d | d in r :: KindValidates(kind, r[d])
    case (TableSchema(kind, inner), Table(t)) =>
      forall k | k in t :: KindValidates(kind, k) && Valid(inner, t[k])
    case (StructSchema(fs), Struct(m)) =>
      forall p | p in m :: p in fs && Valid(fs[p], m[p])
    case _ => false
  }

  /** `ArchivedSchema::validate`, entry by entry, stopping at the first
      invalid one. */
  method Validate(s: Schema, x: Crdt) returns (ok: bool)
    ensures ok <==> Valid(s, x)
    decreases x
  {
    match (s, x.data)
    case (NullSchema, Null) => return true;
    case (FlagSchema, Flag(_)) => return true;
    case (RegSchema(kind), Reg(r)) =>
      var todo := r.Keys;
      while todo != {}
        invariant todo <= r.Keys
        invariant forall d | d in r.Keys - todo :: KindValidates(kind, r[d])
        decreases todo
      {
        var d :| d in todo;
        if !KindValidates(kind, r[d]) {
          return false;
        }
        todo := todo - {d};
      }
      return true;
    case (TableSchema(kind, inner), Table(t)) =>
      var todo := t.Keys;
      while todo != {}
        invariant todo <= t.Keys
        invariant forall k | k in t.Keys - todo :: KindValidates(kind, k) && Valid(inner, t[k])
        decreases todo
      {
        var k :| k in todo;
        if !KindValidates(kind, k) {
          return false;
        }
        var valid := Validate(inner, t[k]);
        if !valid {
          return false;
        }
        todo := todo - {k};
      }
      return true;
    case (StructSchema(fs), Struct(m)) =>
      var todo := m.Keys;
      while todo != {}
        invariant todo <= m.Keys
        invariant forall p | p in m.Keys - todo :: p in fs && Valid(fs[p], m[p])
        decreases todo
      {
        var p :| p in todo;
        if p !in fs {
          return false;
        }
        var valid := Validate(fs[p], m[p]);
        if !valid {
          return false;
        }
        todo := todo - {p};
      }
      return true;
    case _ => return false;
  }

  /** `ArchivedSchema::default`: the empty node of the schema's kind, with
      no policy. */
  function Default(s: Schema): (x: Crdt)
    ensures x.policy == map[]
  {
    Crdt(match s
      case NullSchema => Null
      case FlagSchema => Flag({})
      case RegSchema(_) => Reg(map[])
      case TableSchema(_, _) => Table(map[])
      case StructSchema(_) => Struct(map[]), map[])
  }

  /** The default node is empty and valid for its schema. */
  lemma DefaultIsValid(s: Schema)
    ensures Valid(s, Default(s)) && CrdtIsEmpty(Default(s))
  {
  }

  /** A node of another kind than the schema's is invalid. */
  lemma MismatchInvalid(s: Schema, x: Crdt)
    requires s.NullSchema? != x.data.Null? || s.FlagSchema? != x.data.Flag? ||
             s.RegSchema? != x.data.Reg? || s.TableSchema? != x.data.Table? ||
             s.StructSchema? != x.data.Struct?
    ensures !Valid(s, x)
  {
  }

  /** Two valid nodes of one schema always join (with `Null` as the empty
      node), and the join is valid again. */
  lemma {:induction false} JoinPreservesValidity(s: Schema, x: Crdt, c: Ctx, y: Crdt, yc: Ctx)
    requires Valid(s, x) && Valid(s, y)
    ensures CrdtJoin(Intended, x, c, y, yc).Some?
    ensures Valid(s, CrdtJoin(Intended, x, c, y, yc).value)
    decreases x
  {
    match (s, x.data, y.data)
    case (NullSchema, Null, Null) =>
    case (FlagSchema, Flag(_), Flag(_)) =>
    case (RegSchema(kind), Reg(r1), Reg(r2)) =>
    case (TableSchema(kind, inner), Table(t1), Table(t2)) =>
      forall k | k in t1 && k in t2
        ensures CrdtJoin(Intended, t1[k], c, t2[k], yc).Some?
        ensures Valid(inner, CrdtJoin(Intended, t1[k], c, t2[k], yc).value)
      {
        JoinPreservesValidity(inner, t1[k], c, t2[k], yc);
      }
    case (StructSchema(fs), Struct(m1), Struct(m2)) =>
      forall p | p in m1 && p in m2
        ensures CrdtJoin(Intended, m1[p], c, m2[p], yc).Some?
        ensures Valid(fs[p], CrdtJoin(Intended, m1[p], c, m2[p], yc).value)
      {
        JoinPreservesValidity(fs[p], m1[p], c, m2[p], yc);
      }
  }

  /** As written, the two valid nodes of a `Null` schema cannot be joined. */
  lemma NullSchemaJoinPanics(c: Ctx, yc: Ctx)
    ensures Valid(NullSchema, Crdt(Null, map[]))
    ensures CrdtJoin(AsWritten, Crdt(Null, map[]), c, Crdt(Null, map[]), yc) == None
  {
  }

  /** The part of a valid node that `unjoin` extracts is valid. */
  lemma {:induction false} UnjoinPreservesValidity(s: Schema, x: Crdt, diff: Ctx)
    requires Valid(s, x)
    ensures Valid(s, CrdtUnjoin(x, diff))
    decreases x
  {
    var u := CrdtUnjoin(x, diff);
    assert u.data == Unjoin(x.data, diff);
    match (s, x.data)
    case (NullSchema, Null) =>
    case (FlagSchema, Flag(f)) =>
      assert u.data == Flag(f * diff);
    case (RegSchema(kind), Reg(r)) =>
      assert u.data.Reg? && u.data.values.Keys <= r.Keys;
    case (TableSchema(kind, inner), Table(t)) =>
      forall k | k in t ensures Valid(inner, CrdtUnjoin(t[k], diff)) {
        UnjoinPreservesValidity(inner, t[k], diff);
      }
    case (StructSchema(fs), Struct(m)) =>
      forall p | p in m ensures Valid(fs[p], CrdtUnjoin(m[p], diff)) {
        UnjoinPreservesValidity(fs[p], m[p], diff);
      }
  }
}
