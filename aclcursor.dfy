/** The cursor of `acl/src/cursor.rs`: a position in a document tree (its
    label and node) from which values are read and deltas are built. A
    writing cursor also carries the schema of its position and a dot
    counter that every cursor derived from it shares. */
module AclCursor {
  import opened Wrappers
  import opened AclLabels
  import opened AclData
  import opened AclSchema
  import T = TypedCrdts
  import E = AclEngine
  import DotSets

  /** A delta: a node below the document root, with the dots it has seen. */
  type Causal = T.Causal<PeerId, Crdt>

  /** `Cursor`: the label of the position, the node there, the context of
      the document it belongs to and the statements its engine has heard. */
  datatype Cursor = Cursor(at: Label, crdt: Crdt, ctx: Ctx, claims: set<E.Says>)

  /** `Cursor::can`: the engine lets `peer` act with `perm` at the label. */
  predicate Can(c: Cursor, peer: PeerId, perm: E.Permission) {
    E.Allows(c.claims, E.Grant(E.Peer(peer), perm, c.at))
  }

  // ---------------------------------------------------------------------
  // Reading
  // ---------------------------------------------------------------------

  /** `enabled`: the flag's value, or `None` when the node is no flag. */
  function Enabled(c: Cursor): (r: Option<bool>)
    ensures r.Some? <==> c.crdt.data.Flag?
    ensures r.Some? ==> (r.value <==> c.crdt.data.dots != {})
  {
    if c.crdt.data.Flag? then Some(T.Value(c.crdt.data.dots)) else None
  }

  /** `values`: the register's values, or `None` when the node is no
      register. */
  function Values(c: Cursor): (r: Option<set<Primitive>>)
    ensures r.Some? <==> c.crdt.data.Reg?
    ensures r.Some? ==> forall v :: v in r.value <==> exists d :: d in c.crdt.data.values && c.crdt.data.values[d] == v
  {
    if c.crdt.data.Reg? then Some(T.Read(c.crdt.data.values)) else None
  }

  /** `bools`: the register's boolean values; the others are skipped. */
  function Bools(c: Cursor): (r: Option<set<bool>>)
    ensures r.Some? <==> c.crdt.data.Reg?
    ensures r.Some? ==> forall b :: b in r.value <==> Primitive.Bool(b) in Values(c).value
  {
    match Values(c)
    case None => None
    case Some(vs) => Some(set v | v in vs && v.Bool? :: v.b)
  }

  /** `u64s`. */
  function U64s(c: Cursor): (r: Option<set<nat>>)
    ensures r.Some? <==> c.crdt.data.Reg?
    ensures r.Some? ==> forall u :: u in r.value <==> Primitive.U64(u) in Values(c).value
  {
    match Values(c)
    case None => None
    case Some(vs) => Some(set v | v in vs && v.U64? :: v.u)
  }

  /** `i64s`. */
  function I64s(c: Cursor): (r: Option<set<int>>)
    ensures r.Some? <==> c.crdt.data.Reg?
    ensures r.Some? ==> forall i :: i in r.value <==> Primitive.I64(i) in Values(c).value
  {
    match Values(c)
    case None => None
    case Some(vs) => Some(set v | v in vs && v.I64? :: v.i)
  }

  /** `strs`. */
  function Strs(c: Cursor): (r: Option<set<string>>)
    ensures r.Some? <==> c.crdt.data.Reg?
    ensures r.Some? ==> forall s :: s in r.value <==> Primitive.Str(s) in Values(c).value
  {
    match Values(c)
    case None => None
    case Some(vs) => Some(set v | v in vs && v.Str? :: v.s)
  }

  /** `key`: the cursor at a table's entry, if the node is a table that
      has the key. */
  function KeyCursor(c: Cursor, key: Primitive): (r: Option<Cursor>)
    ensures r.Some? <==> c.crdt.data.Table? && key in c.crdt.data.entries
    ensures r.Some? ==> r.value == c.(at := Key(c.at, key), crdt := c.crdt.data.entries[key])
  {
    if c.crdt.data.Table? && key in c.crdt.data.entries then
      Some(c.(at := Key(c.at, key), crdt := c.crdt.data.entries[key]))
    else None
  }

  /** `field`: the cursor at a struct's field, if the node is a struct
      that has the field. */
  function FieldCursor(c: Cursor, name: string): (r: Option<Cursor>)
    ensures r.Some? <==> c.crdt.data.Struct? && name in c.crdt.data.fields
    ensures r.Some? ==> r.value == c.(at := Field(c.at, name), crdt := c.crdt.data.fields[name])
  {
    if c.crdt.data.Struct? && name in c.crdt.data.fields then
      Some(c.(at := Field(c.at, name), crdt := c.crdt.data.fields[name]))
    else None
  }

  /** A cursor stays within its document: the label it moves to lies below
      the one it came from and has the same root. */
  lemma NavigationDescends(c: Cursor, key: Primitive, name: string)
    ensures KeyCursor(c, key).Some? ==>
      IsAncestor(c.at, KeyCursor(c, key).value.at) &&
      RootOf(KeyCursor(c, key).value.at) == RootOf(c.at)
    ensures FieldCursor(c, name).Some? ==>
      IsAncestor(c.at, FieldCursor(c, name).value.at) &&
      RootOf(FieldCursor(c, name).value.at) == RootOf(c.at)
  {
  }

  // ---------------------------------------------------------------------
  // Writing
  // ---------------------------------------------------------------------

  /** The dot counter that a writing cursor shares with every cursor made
      from it (`Rc<RefCell<u64>>`), and the peer it writes as. */
  class Writer {
    const peer: PeerId
    var counter: nat

    constructor (peer: PeerId, counter: nat)
      ensures this.peer == peer && this.counter == counter
    {
      this.peer := peer;
      this.counter := counter;
    }

    /** `Cursor::dot`: the next dot of the peer. */
    method NextDot() returns (d: Dot)
      modifies this
      ensures counter == old(counter) + 1
      ensures d == DotSets.Dot(peer, counter)
    {
      counter := counter + 1;
      d := DotSets.Dot(peer, counter);
    }
  }

  /** `W`: the writer and the schema of the cursor's position. */
  datatype W = W(writer: Writer, schema: Schema)

  /** The delta of `enable` for the dot `d`: the flag's delta, wrapped as
      a node without policy (`Crdt::new`). */
  function EnableDelta(c: Cursor, d: Dot): Causal
    requires c.crdt.data.Flag?
  {
    var delta := T.Enable(T.Causal(c.crdt.data.dots, c.ctx), d);
    T.Causal(Crdt(Flag(delta.store), map[]), delta.ctx)
  }

  /** `disable`, likewise. */
  function DisableDelta(c: Cursor, d: Dot): Causal
    requires c.crdt.data.Flag?
  {
    var delta := T.Disable(T.Causal(c.crdt.data.dots, c.ctx), d);
    T.Causal(Crdt(Flag(delta.store), map[]), delta.ctx)
  }

  /** `enable`: `None` without Write permission or when the node is no
      flag; otherwise one dot is drawn and the delta holds it. */
  method Enable(c: Cursor, w: W) returns (r: Option<Causal>)
    modifies w.writer
    ensures !(Can(c, w.writer.peer, E.Write) && c.crdt.data.Flag?) ==>
      r == None && w.writer.counter == old(w.writer.counter)
    ensures Can(c, w.writer.peer, E.Write) && c.crdt.data.Flag? ==>
      w.writer.counter == old(w.writer.counter) + 1 &&
      r == Some(EnableDelta(c, DotSets.Dot(w.writer.peer, w.writer.counter)))
  {
    if !Can(c, w.writer.peer, E.Write) || !c.crdt.data.Flag? {
      return None;
    }
    var d := w.writer.NextDot();
    r := Some(EnableDelta(c, d));
  }

  /** `disable`. */
  method Disable(c: Cursor, w: W) returns (r: Option<Causal>)
    modifies w.writer
    ensures !(Can(c, w.writer.peer, E.Write) && c.crdt.data.Flag?) ==>
      r == None && w.writer.counter == old(w.writer.counter)
    ensures Can(c, w.writer.peer, E.Write) && c.crdt.data.Flag? ==>
      w.writer.counter == old(w.writer.counter) + 1 &&
      r == Some(DisableDelta(c, DotSets.Dot(w.writer.peer, w.writer.counter)))
  {
    if !Can(c, w.writer.peer, E.Write) || !c.crdt.data.Flag? {
      return None;
    }
    var d := w.writer.NextDot();
    r := Some(DisableDelta(c, d));
  }

  /** A flag whose context has seen its dots: joining an enable with a new
      dot switches it on, joining a disable switches it off. */
  lemma FlagDeltasTakeEffect(c: Cursor, d: Dot)
    requires c.crdt.data.Flag? && c.crdt.data.dots <= c.ctx && d !in c.ctx
    ensures var e := EnableDelta(c, d);
      CrdtJoin(Intended, c.crdt, c.ctx, e.store, e.ctx).Some? &&
      Enabled(c.(crdt := CrdtJoin(Intended, c.crdt, c.ctx, e.store, e.ctx).value)) == Some(true)
    ensures var e := DisableDelta(c, d);
      CrdtJoin(Intended, c.crdt, c.ctx, e.store, e.ctx).Some? &&
      Enabled(c.(crdt := CrdtJoin(Intended, c.crdt, c.ctx, e.store, e.ctx).value)) == Some(false)
  {
    var x := T.Causal(c.crdt.data.dots, c.ctx);
    T.EnableThenRead(x, d);
    T.DisableThenRead(x, d);
  }

  /** The delta of `assign`: the register's write of `v`, wrapped. */
  function AssignDelta(c: Cursor, d: Dot, v: Primitive): Causal
    requires c.crdt.data.Reg?
  {
    var delta := T.Write(T.Causal(c.crdt.data.values, c.ctx), d, v);
    T.Causal(Crdt(Reg(delta.store), map[]), delta.ctx)
  }

  /** Whether `assign` of `v` goes ahead: the schema is a register of the
      value's kind, the peer may write and the node is a register. */
  predicate AssignAllowed(c: Cursor, w: W, v: Primitive)
    reads w.writer
  {
    w.schema.RegSchema? && KindValidates(w.schema.kind, v) &&
    Can(c, w.writer.peer, E.Write) && c.crdt.data.Reg?
  }

  /** `assign`. */
  method Assign(c: Cursor, w: W, v: Primitive) returns (r: Option<Causal>)
    modifies w.writer
    ensures !AssignAllowed(c, w, v) ==> r == None && w.writer.counter == old(w.writer.counter)
    ensures AssignAllowed(c, w, v) ==>
      w.writer.counter == old(w.writer.counter) + 1 &&
      r == Some(AssignDelta(c, DotSets.Dot(w.writer.peer, w.writer.counter), v))
  {
    if !(w.schema.RegSchema? && KindValidates(w.schema.kind, v)) {
      return None;
    }
    if !Can(c, w.writer.peer, E.Write) || !c.crdt.data.Reg? {
      return None;
    }
    var d := w.writer.NextDot();
    r := Some(AssignDelta(c, d, v));
  }

  /** An assigned value has the register's kind, so the delta is valid for
      the schema; joined into a register whose context has seen its dots,
      it leaves the value as the only one. */
  lemma AssignDeltaValid(c: Cursor, s: Schema, d: Dot, v: Primitive)
    requires c.crdt.data.Reg? && s.RegSchema? && KindValidates(s.kind, v)
    ensures Valid(s, AssignDelta(c, d, v).store)
    ensures c.crdt.data.values.Keys <= c.ctx && d !in c.ctx ==>
      var e := AssignDelta(c, d, v);
      CrdtJoin(Intended, c.crdt, c.ctx, e.store, e.ctx).Some? &&
      Values(c.(crdt := CrdtJoin(Intended, c.crdt, c.ctx, e.store, e.ctx).value)) == Some({v})
  {
    var x := T.Causal(c.crdt.data.values, c.ctx);
    if c.crdt.data.values.Keys <= c.ctx && d !in c.ctx {
      T.WriteThenRead(x, d, v, KeepFirst);
    }
  }

  /** `field_mut`: the callback builds the field's delta from a cursor at
      the field (over the stored node, or the schema's default when the
      field is missing); the delta is a struct holding only that field.
      The callback is a function of that cursor: its own use of the shared
      counter is not modelled. */
  function FieldMut(c: Cursor, w: W, name: string, f: (Cursor, W) -> Causal): (r: Option<Causal>)
    reads w.writer
    ensures r.Some? <==> w.schema.StructSchema? && name in w.schema.fields &&
                         Can(c, w.writer.peer, E.Write) && c.crdt.data.Struct?
  {
    if !(w.schema.StructSchema? && name in w.schema.fields) then None
    else if !Can(c, w.writer.peer, E.Write) || !c.crdt.data.Struct? then None
    else
      var s := w.schema.fields[name];
      var node := if name in c.crdt.data.fields then c.crdt.data.fields[name] else Default(s);
      var inner := f(c.(at := Field(c.at, name), crdt := node), W(w.writer, s));
      Some(T.Causal(Crdt(Struct(map[name := inner.store]), map[]), inner.ctx))
  }

  /** A field delta that is valid for the field's schema makes a delta
      valid for the struct's. */
  lemma FieldMutValid(c: Cursor, w: W, name: string, f: (Cursor, W) -> Causal)
    requires FieldMut(c, w, name, f).Some?
    requires var s := w.schema.fields[name];
      var node := if name in c.crdt.data.fields then c.crdt.data.fields[name] else Default(s);
      Valid(s, f(c.(at := Field(c.at, name), crdt := node), W(w.writer, s)).store)
    ensures Valid(w.schema, FieldMut(c, w, name, f).value.store)
    ensures FieldMut(c, w, name, f).value.store.data.fields.Keys == {name}
  {
  }

  /** `key_mut`: the map's `apply` at the key, over the stored entry or the
      default of the value schema, with the callback's delta. */
  function KeyMut(c: Cursor, w: W, key: Primitive, f: (Cursor, W) -> Causal): (r: Option<Causal>)
    reads w.writer
    ensures r.Some? <==> w.schema.TableSchema? && KindValidates(w.schema.keyKind, key) &&
                         Can(c, w.writer.peer, E.Write) && c.crdt.data.Table?
  {
    if !(w.schema.TableSchema? && KindValidates(w.schema.keyKind, key)) then None
    else if !Can(c, w.writer.peer, E.Write) || !c.crdt.data.Table? then None
    else
      var s := w.schema.value;
      var sub := W(w.writer, s);
      var delta := T.Apply(T.Causal(c.crdt.data.entries, c.ctx), key,
        (x: Causal) => f(c.(at := Key(c.at, key), crdt := x.store, ctx := x.ctx), sub), Default(s));
      Some(T.Causal(Crdt(Table(delta.store), map[]), delta.ctx))
  }

  /** The table delta holds the key alone, and it is valid when the
      callback's delta is valid for the value schema. */
  lemma KeyMutValid(c: Cursor, w: W, key: Primitive, f: (Cursor, W) -> Causal)
    requires KeyMut(c, w, key, f).Some?
    requires var s := w.schema.value;
      var node := if key in c.crdt.data.entries then c.crdt.data.entries[key] else Default(s);
      Valid(s, f(c.(at := Key(c.at, key), crdt := node), W(w.writer, s)).store)
    ensures KeyMut(c, w, key, f).value.store.data.entries.Keys == {key}
    ensures Valid(w.schema, KeyMut(c, w, key, f).value.store)
  {
  }

  // ---------------------------------------------------------------------
  // Policies
  // ---------------------------------------------------------------------

  /** `From<Option<PeerId>> for Actor`: no peer means anybody. */
  function ActorOf(actor: Option<PeerId>): (a: E.Actor)
    ensures actor.Some? ==> a == E.Peer(actor.value)
    ensures actor.None? ==> a == E.Anonymous
  {
    match actor
    case Some(p) => E.Peer(p)
    case None => E.Anonymous
  }

  /** Whether the cursor's peer may hand out `perm` here: Control is needed,
      and Own as well for a permission Control cannot hand out. */
  predicate MaySay(c: Cursor, peer: PeerId, perm: E.Permission) {
    Can(c, peer, E.Control) && (E.Controllable(perm) || Can(c, peer, E.Own))
  }

  /** `say_can`. */
  method SayCan(c: Cursor, w: W, actor: Option<PeerId>, perm: E.Permission) returns (r: Option<Causal>)
    modifies w.writer
    ensures !MaySay(c, w.writer.peer, perm) ==> r == None && w.writer.counter == old(w.writer.counter)
    ensures MaySay(c, w.writer.peer, perm) ==>
      w.writer.counter == old(w.writer.counter) + 1 &&
      r == Some(Say(DotSets.Dot(w.writer.peer, w.writer.counter), PolicyCan(ActorOf(actor), perm)))
  {
    if !Can(c, w.writer.peer, E.Control) {
      return None;
    }
    if !E.Controllable(perm) && !Can(c, w.writer.peer, E.Own) {
      return None;
    }
    var d := w.writer.NextDot();
    r := Some(Say(d, PolicyCan(ActorOf(actor), perm)));
  }

  /** `say_can_if`. */
  method SayCanIf(c: Cursor, w: W, actor: E.Actor, perm: E.Permission, cond: E.Can) returns (r: Option<Causal>)
    modifies w.writer
    ensures !MaySay(c, w.writer.peer, perm) ==> r == None && w.writer.counter == old(w.writer.counter)
    ensures MaySay(c, w.writer.peer, perm) ==>
      w.writer.counter == old(w.writer.counter) + 1 &&
      r == Some(Say(DotSets.Dot(w.writer.peer, w.writer.counter), PolicyCanIf(actor, perm, cond)))
  {
    if !Can(c, w.writer.peer, E.Control) {
      return None;
    }
    if !E.Controllable(perm) && !Can(c, w.writer.peer, E.Own) {
      return None;
    }
    var d := w.writer.NextDot();
    r := Some(Say(d, PolicyCanIf(actor, perm, cond)));
  }

  /** `revoke`: no permission is checked. */
  method Revoke(c: Cursor, w: W, claim: Dot) returns (r: Option<Causal>)
    modifies w.writer
    ensures w.writer.counter == old(w.writer.counter) + 1
    ensures r == Some(Say(DotSets.Dot(w.writer.peer, w.writer.counter), PolicyRevokes(claim)))
  {
    var d := w.writer.NextDot();
    r := Some(Say(d, PolicyRevokes(claim)));
  }

  /** Only a peer that may act with Control may say anything, handing out
      Own or Control needs Own too, and a peer allowed both may say
      anything. */
  lemma MaySayNeeds(c: Cursor, peer: PeerId, perm: E.Permission)
    ensures MaySay(c, peer, perm) ==> Can(c, peer, E.Control)
    ensures MaySay(c, peer, perm) && (perm == E.Own || perm == E.Control) ==> Can(c, peer, E.Own)
    ensures Can(c, peer, E.Control) && Can(c, peer, E.Own) ==> MaySay(c, peer, perm)
  {
  }
}
