/** The path-set CRDT of crdt/src/crdt.rs. A document is a set of live paths
    (the store) and a set of tombstones (expired paths). A tombstone is a path
    two segments below the store path it removes, so the store path it kills
    is its grandparent. A `Causal` is a transaction: the paths it creates and
    the tombstones it adds. Its `CausalContext` names the dots (path hashes)
    of its live paths and of the store paths its tombstones kill. `Crdt` is
    the persistent replica, whose two sled trees are sets here. */
module PathCrdt {
  import opened Wrappers
  import opened Paths

  type Path = seq<Bytes.byte>

  /** `path.parent().unwrap().parent().unwrap()`: the store path a tombstone
      kills. */
  function Grand(p: Path): (r: Option<Path>)
    ensures r.Some? ==> r.value < p
  {
    match Parent(p)
    case None => None
    case Some(q) => Parent(q)
  }

  /** The tombstone `base/x/y` kills `base`. */
  lemma GrandOfEncode(base: seq<Segment>, x: Segment, y: Segment)
    requires AllWf(base) && WfSegment(x) && WfSegment(y)
    ensures AllWf(base + [x, y]) && Grand(Encode(base + [x, y])) == Some(Encode(base))
  {
    var xy := base + [x, y];
    assert AllWf(xy) by {
      forall i | 0 <= i < |xy| ensures WfSegment(xy[i]) {
        if i < |base| { assert xy[i] == base[i]; }
      }
    }
    assert xy[..|xy| - 1] == base + [x];
    ParentOfEncode(xy);
    assert (base + [x])[..|base|] == base;
    ParentOfEncode(base + [x]);
  }

  /** Every tombstone has a grandparent (the source unwraps it). */
  predicate Tombstones(paths: set<Path>) {
    forall e | e in paths :: Grand(e).Some?
  }

  /** Some tombstone of `expired` kills `p`. */
  predicate Killed(p: Path, expired: set<Path>) {
    exists e | e in expired :: Grand(e) == Some(p)
  }

  /** `scan_prefix(p)` / `contains_prefix(p)` finds something: `p` is an
      ancestor of some path of `paths`. */
  predicate AncestorOfAny(p: Path, paths: set<Path>) {
    exists e | e in paths :: IsAncestor(p, e)
  }

  lemma KilledIsAncestor(p: Path, expired: set<Path>)
    ensures Killed(p, expired) ==> AncestorOfAny(p, expired)
  {
    if Killed(p, expired) {
      var e :| e in expired && Grand(e) == Some(p);
      assert IsAncestor(p, e);
    }
  }

  /** A transaction or a document: live paths and tombstones. */
  datatype Delta = Delta(store: set<Path>, expired: set<Path>)

  /** The dots of a `CausalContext`. */
  datatype Context = Context(store: set<PathDot>, expired: set<PathDot>)

  /** No live path is killed by a tombstone of the same state. */
  predicate Consistent(c: Delta) {
    forall p | p in c.store :: !Killed(p, c.expired)
  }

  // ---------------------------------------------------------------------
  // Causal: ctx, join, unjoin

  /** `Causal::ctx`: the dots of the live paths, and the dots of the store
      paths the tombstones kill. */
  function CtxOf(c: Delta): Context
    requires Tombstones(c.expired)
  {
    Context((set p | p in c.store :: DotOf(p)), (set e | e in c.expired :: DotOf(Grand(e).value)))
  }

  lemma CtxMeaning(c: Delta, q: Path)
    requires Tombstones(c.expired)
    ensures DotOf(q) in CtxOf(c).store <==> q in c.store
    ensures DotOf(q) in CtxOf(c).expired <==> Killed(q, c.expired)
  {
    if DotOf(q) in CtxOf(c).expired {
      var e :| e in c.expired && DotOf(Grand(e).value) == DotOf(q);
      DotInjective(Grand(e).value, q);
    }
    if Killed(q, c.expired) {
      var e :| e in c.expired && Grand(e) == Some(q);
      assert DotOf(Grand(e).value) in CtxOf(c).expired;
    }
  }

  /** `Causal::join` as written: both sets unite, then the live paths that
      are themselves tombstones are dropped. */
  function JoinedAsWritten(a: Delta, b: Delta): Delta {
    Delta((a.store + b.store) - (a.expired + b.expired), a.expired + b.expired)
  }

  /** A tombstone added by the other side does not remove the path it kills
      under the join as written, while `Crdt::join` removes it. */
  lemma JoinedAsWrittenKeepsKilled(base: seq<Segment>, x: Segment, y: Segment)
    requires AllWf(base) && WfSegment(x) && WfSegment(y)
    ensures AllWf(base + [x, y])
    ensures var a, b := Delta({Encode(base)}, {}), Delta({}, {Encode(base + [x, y])});
      Consistent(a) && Consistent(b) && Killed(Encode(base), b.expired) &&
      Encode(base) in JoinedAsWritten(a, b).store && Encode(base) !in Joined(a, b).store
  {
    GrandOfEncode(base, x, y);
    var e := Encode(base + [x, y]);
    assert Encode(base) < e;
    assert Encode(base) != e;
  }

  /** The join `Crdt::join` implements: both sets unite and every live path
      a tombstone kills is dropped. */
  function Joined(a: Delta, b: Delta): (r: Delta)
    ensures r.expired == a.expired + b.expired
    ensures r.store <= a.store + b.store
  {
    var expired := a.expired + b.expired;
    Delta((set p | p in a.store + b.store && !Killed(p, expired)), expired)
  }

  lemma JoinedConsistent(a: Delta, b: Delta)
    ensures Consistent(Joined(a, b))
  {
  }

  lemma JoinedIdempotent(a: Delta)
    requires Consistent(a)
    ensures Joined(a, a) == a
  {
  }

  lemma JoinedCommutative(a: Delta, b: Delta)
    ensures Joined(a, b) == Joined(b, a)
  {
    assert a.expired + b.expired == b.expired + a.expired;
  }

  lemma JoinedAssociative(a: Delta, b: Delta, c: Delta)
    ensures Joined(Joined(a, b), c) == Joined(a, Joined(b, c))
  {
    var e := a.expired + b.expired + c.expired;
    assert Joined(Joined(a, b), c).expired == e;
    forall p ensures p in Joined(Joined(a, b), c).store <==> p in a.store + b.store + c.store && !Killed(p, e) {
      if Killed(p, a.expired + b.expired) {
        var t :| t in a.expired + b.expired && Grand(t) == Some(p);
        assert t in e;
      }
    }
    forall p ensures p in Joined(a, Joined(b, c)).store <==> p in a.store + b.store + c.store && !Killed(p, e) {
      if Killed(p, b.expired + c.expired) {
        var t :| t in b.expired + c.expired && Grand(t) == Some(p);
        assert t in e;
      }
    }
  }

  /** The join as written is a join only on states that never hold a path
      both live and expired. */
  lemma JoinedAsWrittenIdempotent(a: Delta)
    requires a.store !! a.expired
    ensures JoinedAsWritten(a, a) == a
  {
  }

  /** `Causal::unjoin`: the tombstones whose killed path `ctx` does not know
      as expired, and the live paths whose dot `ctx` knows neither as live
      nor as expired and that are not themselves such a tombstone. */
  function Unjoined(c: Delta, ctx: Context): (r: Delta)
    requires Tombstones(c.expired)
    ensures r.store <= c.store && r.expired <= c.expired
  {
    var expired := set e | e in c.expired && DotOf(Grand(e).value) !in ctx.expired;
    Delta((set p | p in c.store && DotOf(p) !in ctx.store && DotOf(p) !in ctx.expired && p !in expired), expired)
  }

  /** Joining a state with any of its unjoins gives the state back. */
  lemma JoinUnjoin(a: Delta, ctx: Context)
    requires Tombstones(a.expired) && Consistent(a)
    ensures Joined(a, Unjoined(a, ctx)) == a
  {
    var u := Unjoined(a, ctx);
    assert a.expired + u.expired == a.expired;
    assert a.store + u.store == a.store;
  }

  /** A replica that already knows everything of `a` receives nothing. */
  lemma UnjoinOwnContext(a: Delta)
    requires Tombstones(a.expired)
    ensures Unjoined(a, CtxOf(a)) == Delta({}, {})
  {
    forall e | e in a.expired ensures DotOf(Grand(e).value) in CtxOf(a).expired {
    }
    forall p | p in a.store ensures DotOf(p) in CtxOf(a).store {
    }
  }

  /** The delta `a.unjoin(b.ctx())` brings `b` to the join of both: the same
      live paths, and the same killed paths. */
  lemma UnjoinDelivers(a: Delta, b: Delta)
    requires Tombstones(a.expired) && Tombstones(b.expired)
    requires a.store !! a.expired
    ensures var u := Unjoined(a, CtxOf(b));
      Joined(b, u).store == Joined(a, b).store &&
      forall q :: Killed(q, Joined(b, u).expired) <==> Killed(q, Joined(a, b).expired)
  {
    var u := Unjoined(a, CtxOf(b));
    forall q ensures Killed(q, b.expired + u.expired) <==> Killed(q, a.expired + b.expired) {
      CtxMeaning(b, q);
      if Killed(q, a.expired + b.expired) && !Killed(q, b.expired) {
        var e :| e in a.expired + b.expired && Grand(e) == Some(q);
        assert e in a.expired;
        assert DotOf(Grand(e).value) !in CtxOf(b).expired;
        assert e in u.expired;
      }
    }
    forall p | p in a.store && p !in b.store && !Killed(p, a.expired + b.expired)
      ensures p in u.store
    {
      CtxMeaning(b, p);
      assert !Killed(p, b.expired);
    }
  }

  // ---------------------------------------------------------------------
  // Causal in place

  /** The live paths among `visited` that no tombstone of `expired` kills:
      what the retain pass of the join keeps. */
  ghost function Surviving(visited: set<Path>, expired: set<Path>): set<Path> {
    set p | p in visited && !Killed(p, expired)
  }

  lemma SurvivingStep(visited: set<Path>, expired: set<Path>, p: Path)
    ensures Surviving(visited + {p}, expired) ==
      Surviving(visited, expired) + (if Killed(p, expired) then {} else {p})
  {
  }

  /** The dots of the visited live paths. */
  ghost function StoreDots(visited: set<Path>): set<PathDot> {
    set p | p in visited :: DotOf(p)
  }

  lemma StoreDotsStep(visited: set<Path>, p: Path)
    ensures StoreDots(visited + {p}) == StoreDots(visited) + {DotOf(p)}
  {
  }

  /** The dots of the paths the visited tombstones kill. */
  ghost function KilledDots(visited: set<Path>): set<PathDot> {
    set e | e in visited && Grand(e).Some? :: DotOf(Grand(e).value)
  }

  lemma KilledDotsStep(dead: set<Path>, visited: set<Path>, rest: set<Path>, e: Path)
    requires Tombstones(dead) && visited + rest == dead && e in rest
    ensures Grand(e).Some? && (visited + {e}) + (rest - {e}) == dead
    ensures KilledDots(visited + {e}) == KilledDots(visited) + {DotOf(Grand(e).value)}
  {
    assert e in dead;
    KilledDotsAdd(visited, e);
  }

  lemma KilledDotsAdd(visited: set<Path>, e: Path)
    requires Grand(e).Some?
    ensures KilledDots(visited + {e}) == KilledDots(visited) + {DotOf(Grand(e).value)}
  {
  }

  /** The tombstones `Causal::unjoin` keeps among those visited. */
  ghost function UnknownTombstones(visited: set<Path>, ctx: Context): set<Path> {
    set e | e in visited && KillsUnknown(e, ctx)
  }

  /** The tombstone `e` kills a path whose dot `ctx` does not know as expired. */
  predicate KillsUnknown(e: Path, ctx: Context) {
    Grand(e).Some? && DotOf(Grand(e).value) !in ctx.expired
  }

  lemma UnknownTombstonesStep(visited: set<Path>, ctx: Context, e: Path)
    ensures UnknownTombstones(visited + {e}, ctx) ==
      UnknownTombstones(visited, ctx) + (if KillsUnknown(e, ctx) then {e} else {})
  {
  }

  /** The live paths `Causal::unjoin` keeps among those visited. */
  ghost function UnknownPaths(visited: set<Path>, ctx: Context, expired: set<Path>): set<Path> {
    set p | p in visited && DotOf(p) !in ctx.store && DotOf(p) !in ctx.expired && p !in expired
  }

  lemma UnknownPathsStep(visited: set<Path>, ctx: Context, expired: set<Path>, p: Path)
    ensures UnknownPaths(visited + {p}, ctx, expired) ==
      UnknownPaths(visited, ctx, expired) +
      (if DotOf(p) !in ctx.store && DotOf(p) !in ctx.expired && p !in expired then {p} else {})
  {
  }

  /** `DotStore`: a set of paths, updated in place by `union`. */
  class DotStore {
    var paths: set<Path>

    constructor (paths: set<Path>)
      ensures this.paths == paths
    {
      this.paths := paths;
    }

    /** `union`: insert every path of `other`. */
    method Union(other: set<Path>)
      modifies this
      ensures paths == old(paths) + other
    {
      var todo := other;
      var s := paths;
      while todo != {}
        invariant todo <= other
        invariant s == old(paths) + (other - todo)
        decreases |todo|
      {
        var p :| p in todo;
        s := s + {p};
        todo := todo - {p};
      }
      paths := s;
    }

    /** The `retain` pass of `Causal::join`: keep the paths no tombstone of
        `expired` kills. */
    method RetainSurviving(expired: set<Path>)
      modifies this
      ensures paths == Surviving(old(paths), expired)
    {
      var rest, kept := paths, {};
      ghost var visited := {};
      while rest != {}
        invariant visited + rest == old(paths)
        invariant kept == Surviving(visited, expired)
        decreases |rest|
      {
        var p :| p in rest;
        SurvivingStep(visited, expired, p);
        if !Killed(p, expired) {
          kept := kept + {p};
        }
        rest := rest - {p};
        visited := visited + {p};
      }
      paths := kept;
    }
  }

  class Causal {
    var store: DotStore
    var expired: DotStore

    function Value(): Delta
      reads this, store, expired
    {
      Delta(store.paths, expired.paths)
    }

    ghost predicate Valid()
      reads this
    {
      store != expired
    }

    constructor (store: set<Path>, expired: set<Path>)
      ensures Valid() && Value() == Delta(store, expired)
      ensures fresh(this.store) && fresh(this.expired)
    {
      this.store := new DotStore(store);
      this.expired := new DotStore(expired);
    }

    /** `join`: unite the live paths and the tombstones, then retain the
        live paths no tombstone kills. */
    method Join(that: Delta)
      requires Valid()
      modifies store, expired
      ensures Value() == Joined(old(Value()), that)
    {
      store.Union(that.store);
      expired.Union(that.expired);
      store.RetainSurviving(expired.paths);
    }

    /** `ctx`: the dot of every live path and of every killed path. */
    method Ctx() returns (r: Context)
      requires Tombstones(expired.paths)
      ensures r == CtxOf(Value())
    {
      var ds := StoreDotsOf(store.paths);
      var dx := KilledDotsOf(expired.paths);
      r := Context(ds, dx);
    }

    /** `unjoin`: the tombstones and then the live paths `ctx` does not know. */
    method Unjoin(ctx: Context) returns (r: Delta)
      requires Tombstones(expired.paths)
      ensures r == Unjoined(Value(), ctx)
    {
      var x := UnknownTombstonesOf(expired.paths, ctx);
      var s := UnknownPathsOf(store.paths, ctx, x);
      r := Delta(s, x);
    }
  }

  /** The first loop of `Causal::ctx`: the dot of every live path. */
  method StoreDotsOf(live: set<Path>) returns (ds: set<PathDot>)
    ensures ds == StoreDots(live)
  {
    var rest := live;
    ds := {};
    ghost var visited := {};
    while rest != {}
      invariant visited + rest == live
      invariant ds == StoreDots(visited)
      decreases |rest|
    {
      var p :| p in rest;
      StoreDotsStep(visited, p);
      ds := ds + {DotOf(p)};
      rest := rest - {p};
      visited := visited + {p};
    }
  }

  /** The second loop of `Causal::ctx`: the dot of every path a tombstone
      kills. */
  method KilledDotsOf(dead: set<Path>) returns (dx: set<PathDot>)
    requires Tombstones(dead)
    ensures dx == KilledDots(dead)
  {
    var rest := dead;
    dx := {};
    ghost var visited := {};
    while rest != {}
      invariant visited + rest == dead
      invariant dx == KilledDots(visited)
      decreases |rest|
    {
      var e :| e in rest;
      KilledDotsStep(dead, visited, rest, e);
      dx := dx + {DotOf(Grand(e).value)};
      rest := rest - {e};
      visited := visited + {e};
    }
  }

  /** A loop of `Crdt::remove`: the paths not under the document `doc`. */
  method OutsideDoc(paths: set<Path>, doc: Path) returns (r: set<Path>)
    ensures r <= paths
    ensures forall p | p in paths :: p in r <==> !IsAncestor(doc, p)
  {
    var rest := paths;
    r := {};
    ghost var visited := {};
    while rest != {}
      invariant visited + rest == paths && r <= visited
      invariant forall p | p in visited :: p in r <==> !IsAncestor(doc, p)
      decreases |rest|
    {
      var p :| p in rest;
      if !IsAncestor(doc, p) {
        r := r + {p};
      }
      rest := rest - {p};
      visited := visited + {p};
    }
  }

  /** The first loop of `Causal::unjoin`: the tombstones whose killed path
      `ctx` does not know as expired. */
  method UnknownTombstonesOf(dead: set<Path>, ctx: Context) returns (x: set<Path>)
    ensures x == UnknownTombstones(dead, ctx)
  {
    var rest := dead;
    x := {};
    ghost var visited := {};
    while rest != {}
      invariant visited <= dead && rest <= dead && visited + rest == dead
      invariant x == UnknownTombstones(visited, ctx)
      decreases |rest|
    {
      var e :| e in rest;
      UnknownTombstonesStep(visited, ctx, e);
      if KillsUnknown(e, ctx) {
        x := x + {e};
      }
      rest := rest - {e};
      visited := visited + {e};
    }
  }

  /** The second loop of `Causal::unjoin`: the live paths whose dot `ctx`
      knows neither as live nor as expired and that are not tombstones in
      `x`. */
  method UnknownPathsOf(live: set<Path>, ctx: Context, x: set<Path>) returns (s: set<Path>)
    ensures s == UnknownPaths(live, ctx, x)
  {
    var rest := live;
    s := {};
    ghost var visited := {};
    while rest != {}
      invariant visited + rest == live
      invariant s == UnknownPaths(visited, ctx, x)
      decreases |rest|
    {
      var p :| p in rest;
      UnknownPathsStep(visited, ctx, x, p);
      if DotOf(p) !in ctx.store && DotOf(p) !in ctx.expired && p !in x {
        s := s + {p};
      }
      rest := rest - {p};
      visited := visited + {p};
    }
  }

  // ---------------------------------------------------------------------
  // Crdt: the replica

  /** What `Crdt::join` inserts: the live paths of the transaction that are
      not an ancestor of a local or a transmitted tombstone and that the
      sending peer may write. */
  function Inserted(expired: set<Path>, causal: Delta, canWrite: Path -> bool): set<Path> {
    set p | p in causal.store && !AncestorOfAny(p, expired) && !AncestorOfAny(p, causal.expired) && canWrite(p)
  }

  /** The tombstones of the transaction whose killed path the peer may write. */
  function Admitted(causal: Delta, canWrite: Path -> bool): set<Path> {
    AdmittedAmong(causal.expired, canWrite)
  }

  /** `e` is a tombstone whose killed path the peer may write. */
  predicate AdmittedBy(e: Path, canWrite: Path -> bool) {
    Grand(e).Some? && canWrite(Grand(e).value)
  }

  /** `Crdt::join`: the live paths after inserting and then removing the
      killed paths of admitted tombstones; the tombstones grow by those. */
  function CrdtJoined(s: Delta, causal: Delta, canWrite: Path -> bool): (r: Delta)
    requires Tombstones(causal.expired)
    ensures r.expired == s.expired + Admitted(causal, canWrite)
  {
    var admitted := Admitted(causal, canWrite);
    Delta((set p | p in s.store + Inserted(s.expired, causal, canWrite) && !Killed(p, admitted)),
          s.expired + admitted)
  }

  /** A transaction that names a store path itself as a tombstone, as the
      cursor's `disable`, `assign` and `remove` do, leaves that path in the
      store: `Crdt::join` removes the path two segments above the tombstone
      instead. Every path of at least two segments has one
      (`GrandOfEncode`), a flag's `doc.peer.nonce` among them. */
  lemma CrdtJoinedKeepsTombstonedPath(p: Path)
    requires Grand(p).Some?
    ensures Tombstones({p}) && p in CrdtJoined(Delta({p}, {}), Delta({}, {p}), _ => true).store
  {
    assert Admitted(Delta({}, {p}), _ => true) == {p};
    assert !Killed(p, {p});
  }

  /** `Crdt::join` keeps the replica consistent. */
  lemma CrdtJoinedConsistent(s: Delta, causal: Delta, canWrite: Path -> bool)
    requires Tombstones(causal.expired) && Consistent(s)
    ensures Consistent(CrdtJoined(s, causal, canWrite))
  {
    var r := CrdtJoined(s, causal, canWrite);
    forall p, e | p in r.store && e in r.expired ensures Grand(e) != Some(p) {
      if e in s.expired && p !in s.store {
        assert !AncestorOfAny(p, s.expired);
        assert !IsAncestor(p, e);
      }
    }
  }

  /** Where store paths are ancestors of tombstones only as their
      grandparents, joining a transaction into a replica is the causal join
      (the `crdt_join` property), for a peer allowed to write everywhere. */
  lemma CrdtJoinedAgrees(s: Delta, causal: Delta)
    requires Tombstones(causal.expired) && Consistent(s)
    requires forall p, e | p in causal.store && e in s.expired + causal.expired ::
      IsAncestor(p, e) ==> Grand(e) == Some(p)
    ensures CrdtJoined(s, causal, _ => true) == Joined(s, causal)
  {
    var r, j := CrdtJoined(s, causal, _ => true), Joined(s, causal);
    assert Admitted(causal, _ => true) == causal.expired;
    forall p ensures p in r.store <==> p in j.store {
      if p in causal.store && p !in s.store {
        if AncestorOfAny(p, s.expired) {
          var e :| e in s.expired && IsAncestor(p, e);
          assert Killed(p, s.expired + causal.expired);
        }
        if AncestorOfAny(p, causal.expired) {
          var e :| e in causal.expired && IsAncestor(p, e);
          assert Killed(p, causal.expired);
        }
        KilledIsAncestor(p, s.expired);
        KilledIsAncestor(p, causal.expired);
        if Killed(p, s.expired + causal.expired) {
          var e :| e in s.expired + causal.expired && Grand(e) == Some(p);
          assert IsAncestor(p, e);
        }
      }
      if p in s.store && Killed(p, s.expired + causal.expired) {
        var e :| e in s.expired + causal.expired && Grand(e) == Some(p);
        assert e in causal.expired;
      }
    }
  }

  /** `Crdt::ctx`: the context of the paths under the document path. */
  function CrdtCtx(s: Delta, doc: Path): Context
    requires Tombstones(s.expired)
  {
    CtxOf(Delta((set p | p in s.store && IsAncestor(doc, p)), (set e | e in s.expired && IsAncestor(doc, e))))
  }

  /** `Crdt::unjoin`: the live paths under the document whose dot `other`
      knows neither as live nor as expired, and the tombstones whose killed
      path it does not know as expired, in both cases those the peer may read. */
  function CrdtUnjoined(s: Delta, doc: Path, other: Context, canRead: Path -> bool): (r: Delta)
    requires Tombstones(s.expired)
    ensures r.store <= s.store && r.expired <= s.expired
  {
    Delta((set p | p in s.store && IsAncestor(doc, p) && DotOf(p) !in other.store && DotOf(p) !in other.expired && canRead(p)),
          (set e | e in s.expired && IsAncestor(doc, e) && DotOf(Grand(e).value) !in other.expired && canRead(e)))
  }

  /** On a replica holding only paths of one document, none both live and
      expired, and a peer allowed to read everything, `Crdt::unjoin` is
      `Causal::unjoin` (the `crdt_unjoin` property). */
  lemma CrdtUnjoinedAgrees(s: Delta, doc: Path, other: Context)
    requires Tombstones(s.expired) && s.store !! s.expired
    requires forall p | p in s.store + s.expired :: IsAncestor(doc, p)
    ensures CrdtUnjoined(s, doc, other, _ => true) == Unjoined(s, other)
  {
  }

  /** The tombstones among `tombs` whose killed path the peer may write. */
  function AdmittedAmong(tombs: set<Path>, canWrite: Path -> bool): set<Path> {
    set e | e in tombs && AdmittedBy(e, canWrite)
  }

  /** The paths the admitted tombstones among `tombs` kill. */
  ghost function KilledBy(tombs: set<Path>, canWrite: Path -> bool): set<Path> {
    set e | e in tombs && AdmittedBy(e, canWrite) :: Grand(e).value
  }

  lemma KilledByStep(live: set<Path>, dead: set<Path>, visited: set<Path>, e: Path, canWrite: Path -> bool,
                     s: set<Path>, x: set<Path>)
    requires s == live - KilledBy(visited, canWrite)
    requires x == dead + AdmittedAmong(visited, canWrite)
    ensures AdmittedBy(e, canWrite) ==>
      s - {Grand(e).value} == live - KilledBy(visited + {e}, canWrite) &&
      x + {e} == dead + AdmittedAmong(visited + {e}, canWrite)
    ensures !AdmittedBy(e, canWrite) ==>
      s == live - KilledBy(visited + {e}, canWrite) &&
      x == dead + AdmittedAmong(visited + {e}, canWrite)
  {
    KilledByInsert(visited, e, canWrite);
    AdmittedAmongInsert(visited, e, canWrite);
  }

  /** Visiting one more tombstone kills its grandparent when it is admitted. */
  lemma KilledByInsert(tombs: set<Path>, e: Path, canWrite: Path -> bool)
    ensures AdmittedBy(e, canWrite) ==> KilledBy(tombs + {e}, canWrite) == KilledBy(tombs, canWrite) + {Grand(e).value}
    ensures !AdmittedBy(e, canWrite) ==> KilledBy(tombs + {e}, canWrite) == KilledBy(tombs, canWrite)
  {
  }

  /** Visiting one more tombstone admits it when the peer may write its grandparent. */
  lemma AdmittedAmongInsert(tombs: set<Path>, e: Path, canWrite: Path -> bool)
    ensures AdmittedBy(e, canWrite) ==> AdmittedAmong(tombs + {e}, canWrite) == AdmittedAmong(tombs, canWrite) + {e}
    ensures !AdmittedBy(e, canWrite) ==> AdmittedAmong(tombs + {e}, canWrite) == AdmittedAmong(tombs, canWrite)
  {
  }

  /** Removing the killed paths is retaining the surviving ones. */
  lemma KilledBySurviving(live: set<Path>, tombs: set<Path>, canWrite: Path -> bool)
    ensures live - KilledBy(tombs, canWrite) == Surviving(live, AdmittedAmong(tombs, canWrite))
  {
    forall p | p in live
      ensures p in KilledBy(tombs, canWrite) <==> Killed(p, AdmittedAmong(tombs, canWrite))
    {
      if Killed(p, AdmittedAmong(tombs, canWrite)) {
        var e :| e in AdmittedAmong(tombs, canWrite) && Grand(e) == Some(p);
        assert p == Grand(e).value;
      }
    }
  }

  /** The loop of `Crdt::join` over the transmitted tombstones, on the
      live paths `live` and the tombstones `dead` of the replica. */
  method KillAdmitted(live: set<Path>, dead: set<Path>, tombstones: set<Path>, canWrite: Path -> bool)
    returns (s: set<Path>, x: set<Path>)
    ensures s == live - KilledBy(tombstones, canWrite)
    ensures x == dead + AdmittedAmong(tombstones, canWrite)
  {
    var todo := tombstones;
    s, x := live, dead;
    ghost var visited := {};
    while todo != {}
      invariant visited + todo == tombstones
      invariant x == dead + AdmittedAmong(visited, canWrite)
      invariant s == live - KilledBy(visited, canWrite)
      decreases |todo|
    {
      var e :| e in todo;
      KilledByStep(live, dead, visited, e, canWrite, s, x);
      if AdmittedBy(e, canWrite) {
        s := s - {Grand(e).value};
        x := x + {e};
      }
      todo := todo - {e};
      visited := visited + {e};
    }
  }

  class Crdt {
    var store: set<Path>
    var expired: set<Path>

    function Value(): Delta
      reads this
    {
      Delta(store, expired)
    }

    ghost predicate Valid()
      reads this
    {
      Consistent(Value())
    }

    constructor ()
      ensures Valid() && Value() == Delta({}, {})
    {
      store, expired := {}, {};
    }

    /** `join`: insert the admissible live paths of the transaction, then
        for every tombstone the peer may write remove the path it kills and
        record it. */
    method Join(causal: Delta, canWrite: Path -> bool)
      requires Valid() && Tombstones(causal.expired)
      modifies this
      ensures Valid()
      ensures Value() == CrdtJoined(old(Value()), causal, canWrite)
      ensures forall p | p in causal.store && (AncestorOfAny(p, old(expired)) || !canWrite(p)) ::
        p in store ==> p in old(store)
      ensures forall e | e in causal.expired && canWrite(Grand(e).value) :: e in expired && Grand(e).value !in store
    {
      InsertLive(causal, canWrite);
      ApplyTombstones(causal, canWrite);
      CrdtJoinedConsistent(old(Value()), causal, canWrite);
    }

    /** The first loop of `join`: insert every live path of the transaction
        that no local or transmitted tombstone lies under and that the peer
        may write. */
    method InsertLive(causal: Delta, canWrite: Path -> bool)
      modifies this
      ensures store == old(store) + Inserted(old(expired), causal, canWrite)
      ensures expired == old(expired)
    {
      var todo, s, x := causal.store, store, expired;
      while todo != {}
        invariant todo <= causal.store
        invariant s == old(store) + (Inserted(x, causal, canWrite) - todo)
        decreases |todo|
      {
        var p :| p in todo;
        var isExpired := AncestorOfAny(p, x);
        if !isExpired && !AncestorOfAny(p, causal.expired) {
          if canWrite(p) {
            s := s + {p};
          }
        }
        todo := todo - {p};
      }
      store := s;
    }

    /** The second loop of `join`: for every tombstone whose killed path the
        peer may write, remove that path and record the tombstone. */
    method ApplyTombstones(causal: Delta, canWrite: Path -> bool)
      modifies this
      ensures store == Surviving(old(store), Admitted(causal, canWrite))
      ensures expired == old(expired) + Admitted(causal, canWrite)
    {
      KilledBySurviving(store, causal.expired, canWrite);
      store, expired := KillAdmitted(store, expired, causal.expired, canWrite);
    }

    /** `remove`: drop every live path and tombstone under the document. */
    method Remove(doc: Path)
      requires Valid()
      modifies this
      ensures Valid()
      ensures store == set p | p in old(store) && !IsAncestor(doc, p)
      ensures expired == set e | e in old(expired) && !IsAncestor(doc, e)
    {
      store := OutsideDoc(store, doc);
      expired := OutsideDoc(expired, doc);
    }
  }
}
