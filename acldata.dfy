/** The document tree of `acl/src/data.rs`: every node is a CRDT (`Data`)
    paired with the policy statements said at that node. A node is empty,
    a flag, a register, a table keyed by primitives or a struct of named
    fields; tables and structs hold further nodes. */
module AclData {
  import opened Wrappers
  import opened AclLabels
  import DotSets
  import T = TypedCrdts
  import E = AclEngine

  type Dot = DotSets.Dot<PeerId>
  type Ctx = set<Dot>

  /** `Policy`: a statement kept at a node; its label is the node's. */
  datatype Policy =
    | PolicyCan(actor: E.Actor, perm: E.Permission)
    | PolicyCanIf(actor: E.Actor, perm: E.Permission, cond: E.Can)
    | PolicyRevokes(claim: Dot)

  /** `Data`. */
  datatype Data =
    | Null
    | Flag(dots: set<Dot>)
    | Reg(values: map<Dot, Primitive>)
    | Table(entries: map<Primitive, Crdt>)
    | Struct(fields: map<string, Crdt>)

  /** `Crdt`: a node's data and the policies said at it. */
  datatype Crdt = Crdt(data: Data, policy: map<Dot, Policy>)

  /** `DotStore::is_empty`. A table is empty only when it has no key at all,
      while a struct is empty when all its fields are. */
  predicate IsEmpty(x: Data)
    decreases x, 1
  {
    match x
    case Null => true
    case Flag(f) => f == {}
    case Reg(r) => r == map[]
    case Table(t) => t == map[]
    case Struct(s) => forall k | k in s :: CrdtIsEmpty(s[k])
  }

  predicate CrdtIsEmpty(x: Crdt)
    decreases x, 2
  {
    IsEmpty(x.data) && x.policy == map[]
  }

  /** `DotStore::dots`: every dot held anywhere below the node. */
  function Dots(x: Data): set<Dot>
    decreases x, 1
  {
    match x
    case Null => {}
    case Flag(f) => f
    case Reg(r) => r.Keys
    case Table(t) => set k, d | k in t && d in CrdtDots(t[k]) :: d
    case Struct(s) => set k, d | k in s && d in CrdtDots(s[k]) :: d
  }

  /** The dots below the entries of a table or struct. */
  function Below<K>(m: map<K, Crdt>): set<Dot> {
    set k, d | k in m && d in CrdtDots(m[k]) :: d
  }

  function CrdtDots(x: Crdt): set<Dot>
    decreases x, 2
  {
    Dots(x.data) + x.policy.Keys
  }

  /** An empty node holds no dot. (A node without dots need not be empty:
      a table may keep a key whose node has lost all its dots.) */
  lemma {:induction false} EmptyHasNoDots(x: Data)
    requires IsEmpty(x)
    ensures Dots(x) == {}
    decreases x, 1
  {
    match x
    case Null =>
    case Flag(_) =>
    case Reg(_) =>
    case Table(_) =>
    case Struct(s) =>
      forall k | k in s ensures CrdtDots(s[k]) == {} {
        CrdtEmptyHasNoDots(s[k]);
      }
  }

  lemma {:induction false} CrdtEmptyHasNoDots(x: Crdt)
    requires CrdtIsEmpty(x)
    ensures CrdtDots(x) == {}
    decreases x, 2
  {
    EmptyHasNoDots(x.data);
  }

  // ---------------------------------------------------------------------
  // Join
  // ---------------------------------------------------------------------

  /** Two readings of the join. `AsWritten` is `Data::join` of data.rs:101-117:
      any pair of different variants panics, `(Null, Null)` included, and a
      dot both registers hold joins its two values with `Primitive::join`,
      which panics (data.rs:23-27). `Intended` treats `Null` as the empty
      node that leaves the other side unchanged, and keeps the value of a
      shared dot (a dot names one write, so both sides hold the same value). */
  datatype Mode = AsWritten | Intended

  /** `Data::join`; `None` where the source panics. The flag joins as a dot
      set and the register as a dot function; a table or struct inserts the
      entries missing from `x` and joins the shared ones. */
  function Join(mode: Mode, x: Data, c: Ctx, y: Data, yc: Ctx): (r: Option<Data>)
    ensures r.Some? && mode.AsWritten? ==> !x.Null? && !y.Null?
    ensures r.Some? && x.Null? ==> r.value == y
    ensures r.Some? && !x.Null? ==> SameKind(r.value, x) && (y.Null? || SameKind(x, y))
    decreases x, 1
  {
    match (x, y)
    case (Null, _) => if mode.Intended? then Some(y) else None
    case (_, Null) => if mode.Intended? then Some(x) else None
    case (Flag(f1), Flag(f2)) => Some(Flag(T.SetJoin(f1, c, f2, yc)))
    case (Reg(r1), Reg(r2)) =>
      if mode.AsWritten? && exists d :: d in r1 && d in r2 then None
      else Some(Reg(T.FunJoin(r1, c, r2, yc, KeepFirst)))
    case (Table(t1), Table(t2)) =>
      if forall k | k in t1 && k in t2 :: CrdtJoin(mode, t1[k], c, t2[k], yc).Some? then
        Some(Table(map k | k in t1.Keys + t2.Keys ::
          if k in t1 && k in t2 then CrdtJoin(mode, t1[k], c, t2[k], yc).value
          else if k in t1 then t1[k] else t2[k]))
      else None
    case (Struct(s1), Struct(s2)) =>
      if forall k | k in s1 && k in s2 :: CrdtJoin(mode, s1[k], c, s2[k], yc).Some? then
        Some(Struct(map k | k in s1.Keys + s2.Keys ::
          if k in s1 && k in s2 then CrdtJoin(mode, s1[k], c, s2[k], yc).value
          else if k in s1 then s1[k] else s2[k]))
      else None
    case _ => None
  }

  /** Two nodes of one variant. */
  predicate SameKind(x: Data, y: Data) {
    x.Null? == y.Null? && x.Flag? == y.Flag? && x.Reg? == y.Reg? && x.Table? == y.Table? && x.Struct? == y.Struct?
  }

  function KeepFirst(a: Primitive, b: Primitive): Primitive {
    a
  }

  /** `Crdt::join`: the data joins, and the other side's policies extend
      the map. */
  function CrdtJoin(mode: Mode, x: Crdt, c: Ctx, y: Crdt, yc: Ctx): (r: Option<Crdt>)
    ensures r.Some? <==> Join(mode, x.data, c, y.data, yc).Some?
    ensures r.Some? ==> r.value.policy.Keys == x.policy.Keys + y.policy.Keys
    decreases x, 2
  {
    match Join(mode, x.data, c, y.data, yc)
    case None => None
    case Some(d) => Some(Crdt(d, x.policy + y.policy))
  }

  /** Two non-empty nodes of different kinds never join, whichever reading. */
  lemma MismatchPanics(mode: Mode, x: Data, c: Ctx, y: Data, yc: Ctx)
    requires !x.Null? && !y.Null?
    requires x.Flag? != y.Flag? || x.Reg? != y.Reg? || x.Table? != y.Table?
    ensures Join(mode, x, c, y, yc) == None
  {
  }

  /** A struct join keeps every field of both sides: the fields missing
      from `x` are inserted as they are, the shared ones joined. */
  lemma StructJoinFields(mode: Mode, s1: map<string, Crdt>, c: Ctx, s2: map<string, Crdt>, yc: Ctx)
    requires Join(mode, Struct(s1), c, Struct(s2), yc).Some?
    ensures var r := Join(mode, Struct(s1), c, Struct(s2), yc).value;
      r.Struct? && r.fields.Keys == s1.Keys + s2.Keys &&
      (forall k | k in s2 && k !in s1 :: r.fields[k] == s2[k]) &&
      (forall k | k in s1 && k !in s2 :: r.fields[k] == s1[k]) &&
      (forall k | k in s1 && k in s2 :: Some(r.fields[k]) == CrdtJoin(mode, s1[k], c, s2[k], yc))
  {
  }

  /** The intended join is idempotent: a node joined with itself is itself. */
  lemma {:induction false} JoinIdempotent(x: Data, c: Ctx)
    ensures Join(Intended, x, c, x, c) == Some(x)
    decreases x, 1
  {
    match x
    case Null =>
    case Flag(f) =>
      assert T.SetJoin(f, c, f, c) == f;
    case Reg(r) =>
      assert T.FunJoin(r, c, r, c, KeepFirst) == r;
    case Table(t) =>
      forall k | k in t ensures CrdtJoin(Intended, t[k], c, t[k], c) == Some(t[k]) {
        CrdtJoinIdempotent(t[k], c);
      }
      var r := Join(Intended, x, c, x, c).value;
      assert r.entries == t;
    case Struct(s) =>
      forall k | k in s ensures CrdtJoin(Intended, s[k], c, s[k], c) == Some(s[k]) {
        CrdtJoinIdempotent(s[k], c);
      }
      var r := Join(Intended, x, c, x, c).value;
      assert r.fields == s;
  }

  lemma {:induction false} CrdtJoinIdempotent(x: Crdt, c: Ctx)
    ensures CrdtJoin(Intended, x, c, x, c) == Some(x)
    decreases x, 2
  {
    JoinIdempotent(x.data, c);
    assert x.policy + x.policy == x.policy;
  }

  /** As written, a register that holds a value cannot even be joined with
      itself, and two empty nodes cannot be joined either. */
  lemma JoinAsWrittenPanics(d: Dot, v: Primitive, c: Ctx)
    ensures Join(AsWritten, Reg(map[d := v]), c, Reg(map[d := v]), c) == None
    ensures Join(AsWritten, Null, c, Null, c) == None
  {
    assert d in map[d := v];
  }

  // ---------------------------------------------------------------------
  // Policies
  // ---------------------------------------------------------------------

  /** `Crdt::say`: a fresh state whose root holds one policy and no data
      (and whose context is empty). */
  function Say(dot: Dot, p: Policy): (r: T.Causal<PeerId, Crdt>)
    ensures r.store.data == Null && r.store.policy == map[dot := p] && r.ctx == {}
  {
    T.Causal(Crdt(Null, map[dot := p]), {})
  }

  /** As written, a policy delta never joins into a document whose root is
      a struct: the pair (Struct, Null) panics. */
  lemma SayAsWrittenPanics(fields: map<string, Crdt>, c: Ctx, dot: Dot, p: Policy)
    ensures CrdtJoin(AsWritten, Crdt(Struct(fields), map[]), c, Say(dot, p).store, {}) == None
  {
  }

  /** With `Null` as the empty node, joining a policy delta adds exactly the
      policy and leaves the data alone. */
  lemma SayJoins(x: Crdt, c: Ctx, dot: Dot, p: Policy)
    ensures CrdtJoin(Intended, x, c, Say(dot, p).store, {}) == Some(Crdt(x.data, x.policy[dot := p]))
  {
    assert x.policy + map[dot := p] == x.policy[dot := p];
  }

  // ---------------------------------------------------------------------
  // Unjoin
  // ---------------------------------------------------------------------

  /** `Data::unjoin`: the part of the node made of dots in `diff`. A struct
      drops the fields that become empty (data.rs:125-134); the flag,
      register and table keep their dots in `diff`, and the table likewise
      drops emptied keys. */
  function Unjoin(x: Data, diff: Ctx): (r: Data)
    ensures SameKind(r, x)
    ensures r.Table? ==> r.entries.Keys <= x.entries.Keys
    ensures r.Struct? ==> r.fields.Keys <= x.fields.Keys
    decreases x, 1
  {
    match x
    case Null => Null
    case Flag(f) => Flag(f * diff)
    case Reg(r) => Reg(map d | d in r && d in diff :: r[d])
    case Table(t) => Table(map k | k in t && !CrdtIsEmpty(CrdtUnjoin(t[k], diff)) :: CrdtUnjoin(t[k], diff))
    case Struct(s) => Struct(map k | k in s && !CrdtIsEmpty(CrdtUnjoin(s[k], diff)) :: CrdtUnjoin(s[k], diff))
  }

  /** `Crdt::unjoin`: the data unjoins, and only the policies whose dot is
      in `diff` stay. */
  function CrdtUnjoin(x: Crdt, diff: Ctx): Crdt
    decreases x, 2
  {
    Crdt(Unjoin(x.data, diff), map d | d in x.policy && d in diff :: x.policy[d])
  }

  /** An unjoined table or struct holds no empty entry. */
  lemma UnjoinDropsEmpty(x: Data, diff: Ctx)
    requires x.Table? || x.Struct?
    ensures var r := Unjoin(x, diff);
      (r.Table? ==> forall k | k in r.entries :: !CrdtIsEmpty(r.entries[k])) &&
      (r.Struct? ==> forall k | k in r.fields :: !CrdtIsEmpty(r.fields[k]))
  {
  }

  /** Unjoin keeps exactly the dots of the node that are in `diff`. */
  lemma {:induction false} UnjoinDots(x: Data, diff: Ctx)
    ensures Dots(Unjoin(x, diff)) == Dots(x) * diff
    decreases x, 1
  {
    match x
    case Null =>
    case Flag(_) =>
    case Reg(_) =>
    case Table(t) =>
      var r := Unjoin(x, diff).entries;
      forall k | k in t ensures CrdtDots(CrdtUnjoin(t[k], diff)) == CrdtDots(t[k]) * diff {
        CrdtUnjoinDots(t[k], diff);
      }
      forall k | k in t && k !in r ensures CrdtDots(t[k]) * diff == {} {
        CrdtEmptyHasNoDots(CrdtUnjoin(t[k], diff));
      }
      MapDots(t, r, diff);
      assert Dots(x) == Below(t);
      assert Dots(Unjoin(x, diff)) == Below(r);
    case Struct(s) =>
      var r := Unjoin(x, diff).fields;
      forall k | k in s ensures CrdtDots(CrdtUnjoin(s[k], diff)) == CrdtDots(s[k]) * diff {
        CrdtUnjoinDots(s[k], diff);
      }
      forall k | k in s && k !in r ensures CrdtDots(s[k]) * diff == {} {
        CrdtEmptyHasNoDots(CrdtUnjoin(s[k], diff));
      }
      MapDots(s, r, diff);
      assert Dots(x) == Below(s);
      assert Dots(Unjoin(x, diff)) == Below(r);
  }

  lemma {:induction false} CrdtUnjoinDots(x: Crdt, diff: Ctx)
    ensures CrdtDots(CrdtUnjoin(x, diff)) == CrdtDots(x) * diff
    decreases x, 2
  {
    UnjoinDots(x.data, diff);
  }

  /** The dots of an unjoined map: the kept entries carry their dots in
      `diff`, and the dropped ones had none there. */
  lemma MapDots<K>(m: map<K, Crdt>, r: map<K, Crdt>, diff: Ctx)
    requires r.Keys <= m.Keys
    requires forall k | k in r :: r[k] == CrdtUnjoin(m[k], diff)
    requires forall k | k in m :: CrdtDots(CrdtUnjoin(m[k], diff)) == CrdtDots(m[k]) * diff
    requires forall k | k in m && k !in r :: CrdtDots(m[k]) * diff == {}
    ensures Below(r) == Below(m) * diff
  {
    var left := Below(r);
    var right := Below(m);
    forall d | d in right * diff ensures d in left {
      var k :| k in m && d in CrdtDots(m[k]);
      assert d in CrdtDots(m[k]) * diff;
      assert k in r && d in CrdtDots(r[k]);
    }
    forall d | d in left ensures d in right * diff {
      var k :| k in r && d in CrdtDots(r[k]);
      assert d in CrdtDots(m[k]) * diff;
    }
  }
}
