/** The document tree of `cambria/src/crdt.rs`: a node is empty (`Null`),
    an enable-wins flag, a multi-value register of primitives, an
    observed-remove table keyed by primitives, or a struct of named fields.
    Unlike the tree of the acl crate, a node carries no policies, and a
    join of two nodes of different kinds does not panic: it empties the
    node. */
module CambriaCrdt {
  import DotSets
  import T = TypedCrdts

  type Dot<A(==)> = DotSets.Dot<A>
  type Ctx<A(==)> = set<Dot<A>>

  /** `Primitive`: the values a register holds and a table is keyed by. */
  datatype Primitive = Bool(b: bool) | U64(u: nat) | I64(i: int) | Str(s: string)

  /** `Crdt<A>`. */
  datatype Crdt<A(==)> =
    | Null
    | Flag(dots: set<Dot<A>>)
    | Reg(values: map<Dot<A>, Primitive>)
    | Table(entries: map<Primitive, Crdt<A>>)
    | Struct(fields: map<string, Crdt<A>>)

  /** `DotStore::is_empty`. A table is empty when it has no key, a struct
      when all its fields are. */
  predicate IsEmpty<A(==)>(x: Crdt<A>) {
    match x
    case Null => true
    case Flag(f) => f == {}
    case Reg(r) => r == map[]
    case Table(t) => t == map[]
    case Struct(s) => forall k | k in s :: IsEmpty(s[k])
  }

  /** `DotStore::dots`: every dot held anywhere below the node. */
  function Dots<A(==)>(x: Crdt<A>): set<Dot<A>> {
    match x
    case Null => {}
    case Flag(f) => f
    case Reg(r) => r.Keys
    case Table(t) => set k, d | k in t && d in Dots(t[k]) :: d
    case Struct(s) => set k, d | k in s && d in Dots(s[k]) :: d
  }

  /** The dots below the entries of a table or struct. */
  function Below<A(==), K>(m: map<K, Crdt<A>>): set<Dot<A>> {
    set k, d | k in m && d in Dots(m[k]) :: d
  }

  /** An empty node holds no dot. */
  lemma {:induction false} EmptyHasNoDots<A>(x: Crdt<A>)
    requires IsEmpty(x)
    ensures Dots(x) == {}
  {
    match x
    case Null =>
    case Flag(_) =>
    case Reg(_) =>
    case Table(_) =>
    case Struct(s) =>
      forall k | k in s ensures Dots(s[k]) == {} {
        EmptyHasNoDots(s[k]);
      }
  }

  /** Two nodes of one variant. */
  predicate SameKind<A(==)>(x: Crdt<A>, y: Crdt<A>) {
    x.Null? == y.Null? && x.Flag? == y.Flag? && x.Reg? == y.Reg? && x.Table? == y.Table? && x.Struct? == y.Struct?
  }

  /** `Primitive::join` does nothing: of two values under one dot the
      node's own stays. */
  function KeepFirst(a: Primitive, b: Primitive): Primitive {
    a
  }

  /** `DotStore::join`: flags join as dot sets and registers as dot
      functions; a table or struct inserts the entries missing from `x` and
      joins the shared ones; any other pair, two `Null`s included, leaves
      `Null`. */
  function Join<A(==)>(x: Crdt<A>, c: Ctx<A>, y: Crdt<A>, yc: Ctx<A>): (r: Crdt<A>)
    ensures SameKind(x, y) ==> SameKind(r, x)
    ensures !SameKind(x, y) ==> r.Null?
  {
    match (x, y)
    case (Flag(f1), Flag(f2)) => Flag(T.SetJoin(f1, c, f2, yc))
    case (Reg(r1), Reg(r2)) => Reg(T.FunJoin(r1, c, r2, yc, KeepFirst))
    case (Table(t1), Table(t2)) =>
      Table(map k | k in t1.Keys + t2.Keys ::
        if k in t1 && k in t2 then Join(t1[k], c, t2[k], yc)
        else if k in t1 then t1[k] else t2[k])
    case (Struct(s1), Struct(s2)) =>
      Struct(map k | k in s1.Keys + s2.Keys ::
        if k in s1 && k in s2 then Join(s1[k], c, s2[k], yc)
        else if k in s1 then s1[k] else s2[k])
    case _ => Null
  }

  /** Nodes of different kinds join to `Null`; in particular joining a
      `Null` delta into any node, or any delta into a `Null` node, empties
      it. */
  lemma MismatchEmpties<A>(x: Crdt<A>, c: Ctx<A>, y: Crdt<A>, yc: Ctx<A>)
    requires x.Null? || y.Null? || x.Flag? != y.Flag? || x.Reg? != y.Reg? ||
             x.Table? != y.Table? || x.Struct? != y.Struct?
    ensures Join(x, c, y, yc) == Null
  {
  }

  /** A struct join keeps every field of both sides: the fields missing
      from `x` are inserted as they are, the shared ones joined. */
  lemma StructJoinFields<A>(s1: map<string, Crdt<A>>, c: Ctx<A>, s2: map<string, Crdt<A>>, yc: Ctx<A>)
    ensures var r := Join(Struct(s1), c, Struct(s2), yc);
      r.Struct? && r.fields.Keys == s1.Keys + s2.Keys &&
      (forall k | k in s2 && k !in s1 :: r.fields[k] == s2[k]) &&
      (forall k | k in s1 && k !in s2 :: r.fields[k] == s1[k]) &&
      (forall k | k in s1 && k in s2 :: r.fields[k] == Join(s1[k], c, s2[k], yc))
  {
  }

  /** The join is idempotent: a node joined with itself is itself. */
  lemma {:induction false} JoinIdempotent<A>(x: Crdt<A>, c: Ctx<A>)
    ensures Join(x, c, x, c) == x
  {
    match x
    case Null =>
    case Flag(f) =>
      assert T.SetJoin(f, c, f, c) == f;
    case Reg(r) =>
      assert T.FunJoin(r, c, r, c, KeepFirst) == r;
    case Table(t) =>
      forall k | k in t ensures Join(t[k], c, t[k], c) == t[k] {
        JoinIdempotent(t[k], c);
      }
      assert Join(x, c, x, c).entries == t;
    case Struct(s) =>
      forall k | k in s ensures Join(s[k], c, s[k], c) == s[k] {
        JoinIdempotent(s[k], c);
      }
      assert Join(x, c, x, c).fields == s;
  }

  /** `DotStore::unjoin`: the part of the node made of dots in `diff`. A
      struct drops the fields that become empty (crdt.rs:104-113); the
      flag, register and table keep their dots in `diff`, and the table
      likewise drops emptied keys. */
  function Unjoin<A(==)>(x: Crdt<A>, diff: Ctx<A>): Crdt<A> {
    match x
    case Null => Null
    case Flag(f) => Flag(f * diff)
    case Reg(r) => Reg(map d | d in r && d in diff :: r[d])
    case Table(t) => Table(map k | k in t && !IsEmpty(Unjoin(t[k], diff)) :: Unjoin(t[k], diff))
    case Struct(s) => Struct(map k | k in s && !IsEmpty(Unjoin(s[k], diff)) :: Unjoin(s[k], diff))
  }

  /** An unjoined node keeps its kind, and an unjoined table or struct
      holds no empty entry. */
  lemma UnjoinShape<A>(x: Crdt<A>, diff: Ctx<A>)
    ensures var r := Unjoin(x, diff);
      r.Null? == x.Null? && r.Flag? == x.Flag? && r.Reg? == x.Reg? &&
      r.Table? == x.Table? && r.Struct? == x.Struct? &&
      (r.Table? ==> forall k | k in r.entries :: !IsEmpty(r.entries[k])) &&
      (r.Struct? ==> forall k | k in r.fields :: !IsEmpty(r.fields[k]))
  {
  }

  /** Unjoin keeps exactly the dots of the node that are in `diff`. */
  lemma {:induction false} UnjoinDots<A>(x: Crdt<A>, diff: Ctx<A>)
    ensures Dots(Unjoin(x, diff)) == Dots(x) * diff
  {
    match x
    case Null =>
    case Flag(_) =>
    case Reg(_) =>
    case Table(t) =>
      var r := Unjoin(x, diff).entries;
      forall k | k in t ensures Dots(Unjoin(t[k], diff)) == Dots(t[k]) * diff {
        UnjoinDots(t[k], diff);
      }
      forall k | k in t && k !in r ensures Dots(t[k]) * diff == {} {
        EmptyHasNoDots(Unjoin(t[k], diff));
      }
      MapDots(t, r, diff);
      assert Dots(x) == Below(t);
      assert Dots(Unjoin(x, diff)) == Below(r);
    case Struct(s) =>
      var r := Unjoin(x, diff).fields;
      forall k | k in s ensures Dots(Unjoin(s[k], diff)) == Dots(s[k]) * diff {
        UnjoinDots(s[k], diff);
      }
      forall k | k in s && k !in r ensures Dots(s[k]) * diff == {} {
        EmptyHasNoDots(Unjoin(s[k], diff));
      }
      MapDots(s, r, diff);
      assert Dots(x) == Below(s);
      assert Dots(Unjoin(x, diff)) == Below(r);
  }

  /** The dots of an unjoined map: the kept entries carry their dots in
      `diff`, and the dropped ones had none there. */
  lemma MapDots<A, K>(m: map<K, Crdt<A>>, r: map<K, Crdt<A>>, diff: Ctx<A>)
    requires r.Keys <= m.Keys
    requires forall k | k in r :: r[k] == Unjoin(m[k], diff)
    requires forall k | k in m :: Dots(Unjoin(m[k], diff)) == Dots(m[k]) * diff
    requires forall k | k in m && k !in r :: Dots(m[k]) * diff == {}
    ensures Below(r) == Below(m) * diff
  {
    var left := Below(r);
    var right := Below(m);
    forall d | d in right * diff ensures d in left {
      var k :| k in m && d in Dots(m[k]);
      assert d in Dots(m[k]) * diff;
      assert k in r && d in Dots(r[k]);
    }
    forall d | d in left ensures d in right * diff {
      var k :| k in r && d in Dots(r[k]);
      assert d in Dots(m[k]) * diff;
    }
  }
}
