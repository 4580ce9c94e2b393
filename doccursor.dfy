/** The cursor of `crdt/src/cursor.rs`: a position in a document (a path
    below the document id, and the schema that applies there) from which
    values are read and transactions (`Causal`s) are built. A store path is
    kept as the segments it was built from; `Paths.Encode` gives the bytes
    under which the store files it. The access check reads the rule table of
    `DocAcl`, and the random nonces `Cursor::nonce` draws are parameters. */
module DocCursor {
  import opened Wrappers
  import Bytes
  import P = Paths
  import S = Schemas
  import A = DocAcl

  /** A store path, as its segments. */
  type Key = seq<P.Segment>

  /** A `u64`, such as a nonce drawn by `Cursor::nonce`. */
  type U64 = n: nat | n < 0x1_0000_0000_0000_0000

  /** `Causal`: the paths a transaction creates and the paths it expires. */
  datatype Causal = Causal(store: set<Key>, expired: set<Key>)

  /** `Cursor`: the peer that writes through it, the schema at its position,
      the store and rule table of the document it reads, and its path. The
      key pair and document id are represented by the peer and the first
      segment of the path. */
  datatype Cursor = Cursor(peer: A.PeerId, schema: S.Schema, store: set<Key>,
                           rules: map<A.RuleKey, A.Rule>, path: Key)

  /** Every cursor starts at a document id, and its peer id is a key. */
  predicate Wf(c: Cursor) {
    |c.peer| == 32 && P.AllWf(c.path) && A.RootOf(c.path).Some?
  }

  /** `Cursor::new`: at the root of document `id`. */
  function New(peer: A.PeerId, id: A.DocId, schema: S.Schema, store: set<Key>,
               rules: map<A.RuleKey, A.Rule>): (c: Cursor)
    requires |peer| == 32 && |id| == 32
    ensures Wf(c) && c.path == [P.Segment.Doc(id)] && A.RootOf(c.path) == Some(id)
    ensures c.peer == peer && c.schema == schema && c.store == store && c.rules == rules
  {
    Cursor(peer, schema, store, rules, [P.Segment.Doc(id)])
  }

  /** `Cursor::can`: what the document's rule table answers for the cursor's
      path. */
  predicate Can(c: Cursor, peer: A.PeerId, perm: A.Permission)
    requires Wf(c)
  {
    A.Permits(c.rules, peer, A.Rank(perm), c.path)
  }

  // ---------------------------------------------------------------------
  // Scanning the store
  // ---------------------------------------------------------------------

  /** The store paths below the cursor: those whose segments extend its
      path. */
  function Scan(c: Cursor): set<Key> {
    set k | k in c.store && c.path <= k
  }

  /** `scan_path` as written: a sled prefix scan, which returns the store
      paths whose BYTES start with the bytes of the cursor's path. */
  function ScanAsWritten(c: Cursor): set<Key>
    requires Wf(c)
  {
    set k | k in c.store && P.AllWf(k) && P.IsAncestor(P.Encode(c.path), P.Encode(k))
  }

  /** The byte scan finds every path below the cursor. */
  lemma ScanAsWrittenCovers(c: Cursor)
    requires Wf(c) && forall k | k in c.store :: P.AllWf(k)
    ensures Scan(c) <= ScanAsWritten(c)
  {
    forall k | k in Scan(c) ensures k in ScanAsWritten(c) {
      var rest := k[|c.path|..];
      assert c.path + rest == k;
      assert P.AllWf(rest) by {
        forall i | 0 <= i < |rest| ensures P.WfSegment(rest[i]) {
          assert rest[i] == k[|c.path| + i];
        }
      }
      P.AncestorOfExtension(c.path, rest);
    }
  }

  /** The last segment of a store path is a nonce: a flag's or register's
      entry was written there. */
  predicate NonceEnded(k: Key) {
    |k| > 0 && k[|k| - 1].Nonce?
  }

  /** The last segment of a store path is a policy statement. */
  predicate PolicyEnded(k: Key) {
    |k| > 0 && k[|k| - 1].Policy?
  }

  /** The store after a transaction, as the crate's tests expect it: the
      transaction's paths are added, then every expired path is dropped.
      `ApplyAsWritten` below is `Crdt::join` as written. */
  function Apply(store: set<Key>, d: Causal): (r: set<Key>)
    ensures forall k :: k in r <==> (k in store || k in d.store) && k !in d.expired
  {
    (store + d.store) - d.expired
  }

  /** The cursor over the document after the transaction. */
  function After(c: Cursor, d: Causal): Cursor {
    c.(store := Apply(c.store, d))
  }

  /** The path a transaction of the cursor's peer writes: the cursor's
      path, the peer id, then `tail`. */
  function Entry(c: Cursor, tail: Key): Key {
    c.path + [P.Segment.Peer(c.peer)] + tail
  }

  // ---------------------------------------------------------------------
  // Reading
  // ---------------------------------------------------------------------

  /** `enabled`: a flag is on when some path below it ends in a nonce. */
  function Enabled(c: Cursor): (r: Result<bool>)
    ensures r.Ok? <==> c.schema.Flag?
  {
    if c.schema.Flag? then Ok(exists k | k in Scan(c) :: NonceEnded(k)) else Err("not a flag")
  }

  /** `bools`, `u64s`, `i64s`, `strs`: the last segments of the paths below
      a register of that kind which hold a value of the kind. */
  function Values(c: Cursor, kind: S.PrimitiveKind): (r: Result<set<P.Segment>>)
    ensures r.Ok? <==> c.schema == S.Reg(kind)
    ensures r.Ok? ==> forall v | v in r.value :: S.KindValidates(kind, v)
  {
    if c.schema == S.Reg(kind) then
      Ok(set k | k in Scan(c) && |k| > 0 && S.KindValidates(kind, k[|k| - 1]) :: k[|k| - 1])
    else Err("not a Reg")
  }

  // ---------------------------------------------------------------------
  // Navigation
  // ---------------------------------------------------------------------

  /** `d` is `c` moved one segment down, to a position with schema
      `schema`. */
  predicate Descends(c: Cursor, d: Cursor, s: P.Segment, schema: S.Schema) {
    P.WfSegment(s) && d == c.(path := c.path + [s], schema := schema)
  }

  /** The segments a table can be keyed by. */
  predicate IsPrimitive(s: P.Segment) {
    s.Bool? || s.U64? || s.I64? || s.Str?
  }

  /** `key_bool`, `key_u64`, `key_i64`, `key_str`: only a table keyed by
      the key's kind has an entry under it. */
  function KeyCursor(c: Cursor, key: P.Segment): (r: Result<Cursor>)
    requires P.WfSegment(key) && IsPrimitive(key)
    ensures r.Ok? <==> c.schema.Table? && S.KindValidates(c.schema.key, key)
    ensures r.Ok? ==> Descends(c, r.value, key, c.schema.value)
  {
    if c.schema.Table? && S.KindValidates(c.schema.key, key) then
      Ok(c.(path := c.path + [key], schema := c.schema.value))
    else Err("not a Table")
  }

  /** `field`: only a struct declaring the field has it. */
  function FieldCursor(c: Cursor, name: S.Prop): (r: Result<Cursor>)
    requires |name| <= Bytes.U16Max
    ensures r.Ok? <==> c.schema.Struct? && name in c.schema.fields
    ensures r.Err? ==> r.msg == if c.schema.Struct? then "field doesn't exist" else "not a struct"
    ensures r.Ok? ==> Descends(c, r.value, P.Segment.Str(name), c.schema.fields[name])
  {
    if c.schema.Struct? then
      if name in c.schema.fields then
        Ok(c.(path := c.path + [P.Segment.Str(name)], schema := c.schema.fields[name]))
      else Err("field doesn't exist")
    else Err("not a struct")
  }

  /** A cursor moved down stays well formed, sees only paths its parent
      sees, and inherits every permission its parent has. */
  lemma DescendNarrows(c: Cursor, d: Cursor, s: P.Segment, schema: S.Schema, peer: A.PeerId, perm: A.Permission)
    requires Wf(c) && Descends(c, d, s, schema)
    ensures Wf(d) && Scan(d) <= Scan(c)
    ensures Can(c, peer, perm) ==> Can(d, peer, perm)
  {
    P.AllWfAppend(c.path, [s]);
    P.AncestorOfExtension(c.path, [s]);
    forall k | k in Scan(d) ensures k in Scan(c) {
      assert c.path == d.path[..|c.path|];
    }
    if Can(c, peer, perm) {
      A.PermitsBelow(c.rules, peer, A.Rank(perm), c.path, d.path);
    }
  }

  // ---------------------------------------------------------------------
  // Transactions
  // ---------------------------------------------------------------------

  /** `enable`: a flag, and the peer may write; one new path, the cursor's
      peer and a fresh nonce below the flag. */
  function EnableDelta(c: Cursor, nonce: U64): (r: Result<Causal>)
    requires Wf(c)
    ensures r.Ok? <==> c.schema.Flag? && Can(c, c.peer, A.Write)
    ensures r.Err? ==> r.msg == if c.schema.Flag? then "unauthorized" else "not a flag"
    ensures r.Ok? ==> r.value.expired == {} && r.value.store == {Entry(c, [P.Segment.Nonce(nonce)])}
  {
    if !c.schema.Flag? then Err("not a flag")
    else if !Can(c, c.peer, A.Write) then Err("unauthorized")
    else Ok(Causal({Entry(c, [P.Segment.Nonce(nonce)])}, {}))
  }

  /** `disable`: a flag, and the peer may write; expires every path below
      the flag that ends in a nonce. */
  function DisableDelta(c: Cursor): (r: Result<Causal>)
    requires Wf(c)
    ensures r.Ok? <==> c.schema.Flag? && Can(c, c.peer, A.Write)
    ensures r.Err? ==> r.msg == if c.schema.Flag? then "unauthorized" else "not a flag"
  {
    if !c.schema.Flag? then Err("not a flag")
    else if !Can(c, c.peer, A.Write) then Err("unauthorized")
    else Ok(Causal({}, set k | k in Scan(c) && NonceEnded(k)))
  }

  /** `assign_bool`, `assign_u64`, `assign_i64`, `assign_str`: the peer may
      write (checked first), and the position is a register of the value's
      kind; expires every path below the register except policies, and
      adds the value under the peer and a fresh nonce. */
  function AssignDelta(c: Cursor, v: P.Segment, nonce: U64): (r: Result<Causal>)
    requires Wf(c) && IsPrimitive(v)
    ensures r.Ok? <==> Can(c, c.peer, A.Write) && c.schema.Reg? && S.KindValidates(c.schema.kind, v)
    ensures r.Err? ==> r.msg == if Can(c, c.peer, A.Write) then "not a Reg" else "unauthorized"
    ensures r.Ok? ==> r.value.store == {Entry(c, [P.Segment.Nonce(nonce), v])}
  {
    if !Can(c, c.peer, A.Write) then Err("unauthorized")
    else if !(c.schema.Reg? && S.KindValidates(c.schema.kind, v)) then Err("not a Reg")
    else Ok(Causal({Entry(c, [P.Segment.Nonce(nonce), v])}, set k | k in Scan(c) && !PolicyEnded(k)))
  }

  /** `remove`: the peer may write; expires every path below the cursor. */
  function RemoveDelta(c: Cursor): (r: Result<Causal>)
    requires Wf(c)
    ensures r.Ok? <==> Can(c, c.peer, A.Write)
    ensures r.Ok? ==> r.value.store == {}
  {
    if !Can(c, c.peer, A.Write) then Err("unauthorized")
    else Ok(Causal({}, Scan(c)))
  }

  /** `remove` over the byte scan of the source. */
  function RemoveAsWritten(c: Cursor): (r: Result<Causal>)
    requires Wf(c)
    ensures r.Ok? <==> Can(c, c.peer, A.Write)
    ensures r.Ok? ==> r.value.store == {}
  {
    if !Can(c, c.peer, A.Write) then Err("unauthorized")
    else Ok(Causal({}, ScanAsWritten(c)))
  }

  /** What `say` demands: Control to grant Read or Write, Own to grant
      Control or Own, and Control to revoke. */
  predicate MaySay(c: Cursor, policy: A.Policy)
    requires Wf(c)
  {
    match policy
    case CanPolicy(_, perm) =>
      if A.Controllable(perm) then Can(c, c.peer, A.Control) else Can(c, c.peer, A.Own)
    case CanIfPolicy(_, perm, _) =>
      if A.Controllable(perm) then Can(c, c.peer, A.Control) else Can(c, c.peer, A.Own)
    case RevokesPolicy(_) => Can(c, c.peer, A.Control)
  }

  /** `say`, behind `say_can`, `say_can_if` and `revoke`: one new path, the
      cursor's peer and the policy (archived as `archived`) below the
      cursor. */
  function SayDelta(c: Cursor, policy: A.Policy, archived: seq<Bytes.byte>): (r: Result<Causal>)
    requires Wf(c)
    ensures r.Ok? <==> MaySay(c, policy)
    ensures r.Ok? ==> r.value.expired == {} && r.value.store == {Entry(c, [P.Segment.Policy(archived)])}
  {
    if !MaySay(c, policy) then Err("unauthorized")
    else Ok(Causal({Entry(c, [P.Segment.Policy(archived)])}, {}))
  }

  /** Owning a path lets the peer say anything there, and saying anything
      takes at least Control. */
  lemma MaySayBounds(c: Cursor, policy: A.Policy)
    requires Wf(c)
    ensures Can(c, c.peer, A.Own) ==> MaySay(c, policy)
    ensures MaySay(c, policy) ==> Can(c, c.peer, A.Control)
  {
    if Can(c, c.peer, A.Own) {
      A.PermitsWeaker(c.rules, c.peer, A.Rank(A.Own), A.Rank(A.Control), c.path);
    }
    if MaySay(c, policy) && !Can(c, c.peer, A.Control) {
      A.PermitsWeaker(c.rules, c.peer, A.Rank(A.Own), A.Rank(A.Control), c.path);
    }
  }

  // ---------------------------------------------------------------------
  // The transaction loops
  // ---------------------------------------------------------------------

  /** Which scanned paths a transaction expires. */
  datatype Selector = NonceEnds | NonPolicy | AnyPath

  predicate Selects(sel: Selector, k: Key) {
    match sel
    case NonceEnds => NonceEnded(k)
    case NonPolicy => !PolicyEnded(k)
    case AnyPath => true
  }

  /** The loop over `scan_path` that fills `expired`. */
  method ScanWhere(c: Cursor, sel: Selector) returns (expired: set<Key>)
    ensures expired == set k | k in Scan(c) && Selects(sel, k)
  {
    expired := {};
    var todo := c.store;
    while todo != {}
      invariant todo <= c.store
      invariant expired == set k | k in c.store - todo && c.path <= k && Selects(sel, k)
      decreases todo
    {
      var k :| k in todo;
      if c.path <= k && Selects(sel, k) {
        expired := expired + {k};
      }
      todo := todo - {k};
    }
  }

  /** `disable`. */
  method Disable(c: Cursor) returns (r: Result<Causal>)
    requires Wf(c)
    ensures r == DisableDelta(c)
  {
    if !c.schema.Flag? {
      return Err("not a flag");
    }
    if !Can(c, c.peer, A.Write) {
      return Err("unauthorized");
    }
    var expired := ScanWhere(c, NonceEnds);
    assert expired == set k | k in Scan(c) && NonceEnded(k);
    return Ok(Causal({}, expired));
  }

  /** `assign`. */
  method Assign(c: Cursor, v: P.Segment, nonce: U64) returns (r: Result<Causal>)
    requires Wf(c) && IsPrimitive(v)
    ensures r == AssignDelta(c, v, nonce)
  {
    if !Can(c, c.peer, A.Write) {
      return Err("unauthorized");
    }
    if !(c.schema.Reg? && S.KindValidates(c.schema.kind, v)) {
      return Err("not a Reg");
    }
    var expired := ScanWhere(c, NonPolicy);
    assert expired == set k | k in Scan(c) && !PolicyEnded(k);
    return Ok(Causal({Entry(c, [P.Segment.Nonce(nonce), v])}, expired));
  }

  /** `remove`. */
  method Remove(c: Cursor) returns (r: Result<Causal>)
    requires Wf(c)
    ensures r == RemoveDelta(c)
  {
    if !Can(c, c.peer, A.Write) {
      return Err("unauthorized");
    }
    var expired := ScanWhere(c, AnyPath);
    assert expired == Scan(c);
    return Ok(Causal({}, expired));
  }

  // ---------------------------------------------------------------------
  // What the transactions do to the document
  // ---------------------------------------------------------------------

  /** After `enable`, the flag reads as enabled. */
  lemma EnableTakesEffect(c: Cursor, nonce: U64)
    requires Wf(c) && EnableDelta(c, nonce).Ok?
    ensures Enabled(After(c, EnableDelta(c, nonce).value)) == Ok(true)
  {
    var k := Entry(c, [P.Segment.Nonce(nonce)]);
    assert c.path <= k && NonceEnded(k);
    assert k in Scan(After(c, EnableDelta(c, nonce).value));
  }

  /** After `disable`, the flag reads as disabled, and only the paths it
      expired are gone. */
  lemma DisableTakesEffect(c: Cursor)
    requires Wf(c) && DisableDelta(c).Ok?
    ensures Enabled(After(c, DisableDelta(c).value)) == Ok(false)
    ensures After(c, DisableDelta(c).value).store == c.store - set k | k in Scan(c) && NonceEnded(k)
  {
  }

  /** After `assign` with a fresh nonce, the register holds exactly the
      assigned value, and every policy below it survives. */
  lemma AssignTakesEffect(c: Cursor, v: P.Segment, nonce: U64)
    requires Wf(c) && IsPrimitive(v) && AssignDelta(c, v, nonce).Ok?
    requires Entry(c, [P.Segment.Nonce(nonce), v]) !in c.store
    ensures Values(After(c, AssignDelta(c, v, nonce).value), c.schema.kind) == Ok({v})
    ensures forall k | k in Scan(c) && PolicyEnded(k) :: k in After(c, AssignDelta(c, v, nonce).value).store
  {
    var d := AssignDelta(c, v, nonce).value;
    var a := After(c, d);
    var k0 := Entry(c, [P.Segment.Nonce(nonce), v]);
    assert c.path <= k0 && k0 in Scan(a);
    var vals := Values(a, c.schema.kind).value;
    assert v in vals by {
      assert k0[|k0| - 1] == v;
    }
    forall w | w in vals ensures w == v {
      var k :| k in Scan(a) && |k| > 0 && S.KindValidates(c.schema.kind, k[|k| - 1]) && k[|k| - 1] == w;
      assert k == k0;
    }
    assert vals == {v};
  }

  /** After `remove`, nothing is left below the cursor, and nothing else
      changes. */
  lemma RemoveTakesEffect(c: Cursor)
    requires Wf(c) && RemoveDelta(c).Ok?
    ensures Scan(After(c, RemoveDelta(c).value)) == {}
    ensures After(c, RemoveDelta(c).value).store == c.store - Scan(c)
  {
  }

  /** After `say`, the statement is stored below the cursor (a fresh
      statement, unless the same peer said the same there before). */
  lemma SayTakesEffect(c: Cursor, policy: A.Policy, archived: seq<Bytes.byte>)
    requires Wf(c) && SayDelta(c, policy, archived).Ok?
    ensures Entry(c, [P.Segment.Policy(archived)]) in Scan(After(c, SayDelta(c, policy, archived).value))
    ensures PolicyEnded(Entry(c, [P.Segment.Policy(archived)]))
  {
    assert c.path <= Entry(c, [P.Segment.Policy(archived)]);
  }

  // ---------------------------------------------------------------------
  // `Crdt::join` as written
  // ---------------------------------------------------------------------

  /** Some path of `expired` lies exactly two segments below `k`:
      `Crdt::join` removes `k` for it. */
  predicate Kills(expired: set<Key>, k: Key) {
    exists e | e in expired :: |e| >= 2 && e[..|e| - 2] == k
  }

  /** Some tombstone lies at or below `k`. */
  predicate Shadowed(k: Key, tombs: set<Key>) {
    exists e | e in tombs :: k <= e
  }

  /** `Crdt::join` as written, applying a cursor transaction the peer may
      make in full to a store whose tombstones are `tombs`: a transmitted
      path is added unless a tombstone lies at or below it, then each
      transmitted tombstone removes the path two segments above it, not
      itself. */
  function ApplyAsWritten(store: set<Key>, tombs: set<Key>, d: Causal): (r: set<Key>)
    ensures forall k :: k in r <==>
      (k in store || (k in d.store && !Shadowed(k, tombs + d.expired))) && !Kills(d.expired, k)
  {
    (store + set k | k in d.store && !Shadowed(k, tombs + d.expired))
      - set e | e in d.expired && |e| >= 2 :: e[..|e| - 2]
  }

  /** A transaction that expires nothing is applied alike by both joins,
      unless a tombstone the store already holds shadows a new path. */
  lemma ApplyAsWrittenWithoutTombstones(store: set<Key>, d: Causal)
    requires d.expired == {}
    ensures ApplyAsWritten(store, {}, d) == Apply(store, d)
  {
  }

  /** As written, `disable` leaves an enabled flag enabled: its delta
      expires the flag's nonce path itself, and `Crdt::join` removes only
      the path two segments above that, the flag's own path. */
  lemma DisableAsWrittenKeepsFlag(c: Cursor, nonce: U64)
    requires Wf(c) && DisableDelta(c).Ok? && c.store == {Entry(c, [P.Segment.Nonce(nonce)])}
    ensures Enabled(c) == Ok(true)
    ensures Enabled(c.(store := ApplyAsWritten(c.store, {}, DisableDelta(c).value))) == Ok(true)
    ensures Enabled(After(c, DisableDelta(c).value)) == Ok(false)
  {
    var k := Entry(c, [P.Segment.Nonce(nonce)]);
    var d := DisableDelta(c).value;
    assert c.path <= k && NonceEnded(k) && k in Scan(c);
    assert !Kills(d.expired, k) by {
      forall e | e in d.expired && |e| >= 2 ensures e[..|e| - 2] != k {
        assert |e[..|e| - 2]| < |k|;
      }
    }
    assert k in Scan(c.(store := ApplyAsWritten(c.store, {}, d)));
    DisableTakesEffect(c);
  }

  /** A register with paths `k0` and `k1` below it, each ending in a value
      of its kind, reads those two values. */
  lemma ValuesOfPair(c: Cursor, k0: Key, k1: Key)
    requires c.schema.Reg? && Scan(c) == {k0, k1} && |k0| > 0 && |k1| > 0
    requires S.KindValidates(c.schema.kind, k0[|k0| - 1]) && S.KindValidates(c.schema.kind, k1[|k1| - 1])
    ensures Values(c, c.schema.kind) == Ok({k0[|k0| - 1], k1[|k1| - 1]})
  {
    assert c.schema == S.Reg(c.schema.kind);
    var vals := Values(c, c.schema.kind).value;
    assert k0 in Scan(c) && k1 in Scan(c);
    assert vals == {k0[|k0| - 1], k1[|k1| - 1]};
  }

  /** As written, `assign` keeps the register's old value beside the new
      one: its delta expires the old value's path itself, and `Crdt::join`
      removes only the path two segments above that. */
  lemma AssignAsWrittenKeepsOld(c: Cursor, v0: P.Segment, n0: U64, v: P.Segment, nonce: U64)
    requires Wf(c) && IsPrimitive(v) && AssignDelta(c, v, nonce).Ok?
    requires S.KindValidates(c.schema.kind, v0) && v0 != v
    requires c.store == {Entry(c, [P.Segment.Nonce(n0), v0])}
    ensures Values(c, c.schema.kind) == Ok({v0})
    ensures Values(c.(store := ApplyAsWritten(c.store, {}, AssignDelta(c, v, nonce).value)), c.schema.kind) == Ok({v0, v})
    ensures Values(After(c, AssignDelta(c, v, nonce).value), c.schema.kind) == Ok({v})
  {
    var k0 := Entry(c, [P.Segment.Nonce(n0), v0]);
    var k := Entry(c, [P.Segment.Nonce(nonce), v]);
    var w := c.(store := ApplyAsWritten(c.store, {}, AssignDelta(c, v, nonce).value));
    AssignAsWrittenScan(c, v0, n0, v, nonce);
    assert k0[|k0| - 1] == v0 && k[|k| - 1] == v;
    assert c.schema.Reg? && Scan(c) == {k0, k0};
    assert S.KindValidates(c.schema.kind, k0[|k0| - 1]);
    ValuesOfPair(c, k0, k0);
    assert {k0[|k0| - 1], k0[|k0| - 1]} == {v0};
    ValuesOfPair(w, k0, k);
    AssignTakesEffect(c, v, nonce);
  }

  /** The paths below the register after `assign` as written: the old
      value's and the new one's. */
  lemma AssignAsWrittenScan(c: Cursor, v0: P.Segment, n0: U64, v: P.Segment, nonce: U64)
    requires Wf(c) && IsPrimitive(v) && AssignDelta(c, v, nonce).Ok?
    requires S.KindValidates(c.schema.kind, v0) && v0 != v
    requires c.store == {Entry(c, [P.Segment.Nonce(n0), v0])}
    ensures Scan(c) == {Entry(c, [P.Segment.Nonce(n0), v0])}
    ensures Scan(c.(store := ApplyAsWritten(c.store, {}, AssignDelta(c, v, nonce).value))) ==
      {Entry(c, [P.Segment.Nonce(n0), v0]), Entry(c, [P.Segment.Nonce(nonce), v])}
  {
    var k0 := Entry(c, [P.Segment.Nonce(n0), v0]);
    var k := Entry(c, [P.Segment.Nonce(nonce), v]);
    var d := AssignDelta(c, v, nonce).value;
    assert c.path <= k0 && c.path <= k;
    assert k[|k| - 1] != k0[|k0| - 1];
    assert Scan(c) == {k0};
    assert d.expired == {k0} by {
      assert !v0.Policy? && k0[|k0| - 1] == v0;
    }
    assert !Kills(d.expired, k0) && !Kills(d.expired, k) by {
      assert |k0[..|k0| - 2]| < |k0| == |k|;
    }
    assert !Shadowed(k, {} + d.expired);
  }

  /** As written, a statement `say` stores is never read as one: the access
      list reads a policy from a path ending in the policy, a peer and a
      signature, and `say` writes the peer and then the policy, unsigned. */
  lemma SayAsWrittenUnread(c: Cursor, policy: A.Policy, archived: seq<Bytes.byte>,
                           decode: seq<Bytes.byte> -> Option<A.Policy>)
    requires Wf(c) && SayDelta(c, policy, archived).Ok? && |archived| <= Bytes.U16Max
    requires !c.path[|c.path| - 1].Policy?
    ensures P.AllWf(Entry(c, [P.Segment.Policy(archived)]))
    ensures A.StatementOf(Entry(c, [P.Segment.Policy(archived)]), decode) == None
  {
    var k := Entry(c, [P.Segment.Policy(archived)]);
    P.AllWfAppend(c.path, [P.Segment.Peer(c.peer), P.Segment.Policy(archived)]);
    assert k == c.path + [P.Segment.Peer(c.peer), P.Segment.Policy(archived)];
    assert k[|k| - 3] == c.path[|c.path| - 1];
  }

  /** The path a signed statement of the cursor's peer is stored at: the
      cursor's path, the policy, the peer and its signature `sig`. */
  function Statement(c: Cursor, archived: seq<Bytes.byte>, sig: seq<Bytes.byte>): Key {
    c.path + [P.Segment.Policy(archived), P.Segment.Peer(c.peer), P.Segment.Sig(sig)]
  }

  /** `say` with the layout the access list reads (`_add_policy`,
      `join_policy`): one new path, the policy signed by the cursor's
      peer, below the cursor. */
  function SaySigned(c: Cursor, policy: A.Policy, archived: seq<Bytes.byte>, sig: seq<Bytes.byte>): (r: Result<Causal>)
    requires Wf(c)
    ensures r.Ok? <==> MaySay(c, policy)
    ensures r.Ok? ==> r.value.expired == {} && r.value.store == {Statement(c, archived, sig)}
  {
    if !MaySay(c, policy) then Err("unauthorized")
    else Ok(Causal({Statement(c, archived, sig)}, {}))
  }

  /** After the signed `say`, the access list reads the statement back: the
      cursor's peer says the policy about the cursor's path. */
  lemma SaySignedIsStatement(c: Cursor, policy: A.Policy, archived: seq<Bytes.byte>, sig: seq<Bytes.byte>,
                             decode: seq<Bytes.byte> -> Option<A.Policy>)
    requires Wf(c) && SaySigned(c, policy, archived, sig).Ok?
    requires |archived| <= Bytes.U16Max && |sig| == 64 && decode(archived) == Some(policy)
    ensures var k := Statement(c, archived, sig);
      k in Scan(After(c, SaySigned(c, policy, archived, sig).value)) && P.AllWf(k) &&
      A.StatementOf(k, decode).Some? && A.StatementOf(k, decode).value.author == c.peer &&
      (A.StatementOf(k, decode).value.SaysRevokes? <==> policy.RevokesPolicy?) &&
      (!policy.RevokesPolicy? ==> A.StatementOf(k, decode).value.can.scope == c.path)
  {
    var k := Statement(c, archived, sig);
    assert c.path <= k;
    P.AllWfAppend(c.path, [P.Segment.Policy(archived), P.Segment.Peer(c.peer), P.Segment.Sig(sig)]);
    A.StatementOfPolicyPath(c.path, archived, c.peer, P.Segment.Sig(sig), decode, policy);
  }

  // ---------------------------------------------------------------------
  // The byte scan reaches past the cursor
  // ---------------------------------------------------------------------

  /** The table key "b". */
  function KeyB(): S.Prop {
    [98]
  }

  /** A sibling table key whose bytes begin with the encoding of the
      segment `Str("b")`: "b", its length 1 as two bytes, the `Str` tag 6,
      then "x". */
  function KeyBLong(): S.Prop {
    [98, 0, 1, 6, 120]
  }

  /** The encoding of `Str("b")` is a prefix of that of the longer key. */
  lemma StrPrefix()
    ensures P.WfSegment(P.Segment.Str(KeyB())) && P.WfSegment(P.Segment.Str(KeyBLong()))
    ensures P.EncodeSegment(P.Segment.Str(KeyB())) <= P.EncodeSegment(P.Segment.Str(KeyBLong()))
  {
    Bytes.Pow256Values();
    assert Bytes.ToBe(1, 2) == [0, 1] by {
      assert Bytes.ToBe(1, 2) == Bytes.ToBe(0, 1) + [1 as Bytes.byte];
    }
    assert P.EncodeSegment(P.Segment.Str(KeyB())) == [98, 0, 1, 6];
  }

  /** On a table keyed by strings, `remove` of key "b" as written also
      expires the value stored under the sibling key "b\0\x01\x06x", while
      the intended `remove` leaves it alone. */
  lemma RemoveAsWrittenDropsSibling(doc: seq<Bytes.byte>, nonce: U64, value: U64)
    requires |doc| == 32
    ensures var c := Cursor(doc, S.Reg(S.U64), {SiblingEntry(doc, nonce, value)}, map[],
                            [P.Segment.Doc(doc), P.Segment.Str(KeyB())]);
      Wf(c) && RemoveAsWritten(c).Ok? && RemoveDelta(c).Ok? &&
      SiblingEntry(doc, nonce, value) in RemoveAsWritten(c).value.expired &&
      SiblingEntry(doc, nonce, value) !in RemoveDelta(c).value.expired
  {
    var c := Cursor(doc, S.Reg(S.U64), {SiblingEntry(doc, nonce, value)}, map[],
                    [P.Segment.Doc(doc), P.Segment.Str(KeyB())]);
    var k := SiblingEntry(doc, nonce, value);
    SiblingBytesExtend(doc, nonce, value);
    assert Wf(c);
    assert Can(c, c.peer, A.Write);
    assert k in ScanAsWritten(c);
    assert !(c.path <= k) by {
      assert k[1] != c.path[1];
    }
    assert k !in Scan(c);
  }

  /** The bytes of the path to key "b" are a prefix of those of the sibling
      entry, although its segments are not. */
  lemma SiblingBytesExtend(doc: seq<Bytes.byte>, nonce: U64, value: U64)
    requires |doc| == 32
    ensures P.AllWf([P.Segment.Doc(doc), P.Segment.Str(KeyB())])
    ensures P.AllWf(SiblingEntry(doc, nonce, value))
    ensures P.IsAncestor(P.Encode([P.Segment.Doc(doc), P.Segment.Str(KeyB())]),
                         P.Encode(SiblingEntry(doc, nonce, value)))
  {
    StrPrefix();
    Bytes.Pow256Values();
    var d := P.Segment.Doc(doc);
    var sb, sl := P.Segment.Str(KeyB()), P.Segment.Str(KeyBLong());
    var tail := [P.Segment.Peer(doc), P.Segment.Nonce(nonce), P.Segment.U64(value)];
    assert P.WfSegment(d) && P.AllWf(tail);
    P.EncodeSingle(d);
    P.EncodeSingle(sb);
    P.EncodeSingle(sl);
    P.EncodeAppend([d], [sb]);
    assert [d] + [sb] == [d, sb];
    P.EncodeAppend([d], [sl]);
    assert [d] + [sl] == [d, sl];
    P.EncodeAppend([d, sl], tail);
    assert [d, sl] + tail == SiblingEntry(doc, nonce, value);
    PrefixExtend(P.Encode([d]), P.EncodeSegment(sb), P.EncodeSegment(sl), P.Encode(tail));
  }

  /** Extending a prefix on both sides keeps it a prefix. */
  lemma PrefixExtend(x: seq<Bytes.byte>, short: seq<Bytes.byte>, long: seq<Bytes.byte>, y: seq<Bytes.byte>)
    requires short <= long
    ensures x + short <= x + long + y
  {
    assert (x + long + y)[..|x + short|] == x + short;
  }

  /** The value stored under the key "b\0\x01\x06x" of a table at the root of
      `doc`, written by the document's own key. */
  function SiblingEntry(doc: seq<Bytes.byte>, nonce: U64, value: U64): Key {
    [P.Segment.Doc(doc), P.Segment.Str(KeyBLong()), P.Segment.Peer(doc), P.Segment.Nonce(nonce), P.Segment.U64(value)]
  }
}
