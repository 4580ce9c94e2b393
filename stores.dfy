/** The causal stores of crdt/src/store.rs and src/store.rs, which hold the
    same joins: a set of dots (`DotSet`), a function from dots to lattice
    values (`DotFun`) and a map of nested stores (`DotMap`), each joined
    against the clocks of both replicas, and `Causal`, a store paired with
    the clock that records what its replica has seen. `Causal` exists twice:
    over the vector clock of src/clock.rs and over the clock with a cloud of
    crdt/src/clock.rs. */
module Stores {
  import opened Dots
  import VClocks
  import CloudClocks

  type Counters<A> = VClocks.Counters<A>

  /** Whether the owner of clock `c` has seen more events of actor `a` than
      the owner of clock `co` (the test the source writes on both sides). */
  predicate Ahead<A>(c: Counters<A>, co: Counters<A>, a: A) {
    VClocks.Get(c, a) > VClocks.Get(co, a)
  }

  /** Whether the replica with clock `c` has seen the dot `d`. */
  predicate Seen<A>(c: Counters<A>, d: Dot<A>) {
    d.counter <= VClocks.Get(c, d.actor)
  }

  /** Every dot of the store is one its clock has seen. */
  ghost predicate Covered<A>(s: set<Dot<A>>, c: Counters<A>) {
    forall d | d in s :: Seen(c, d)
  }

  // ---------------------------------------------------------------------
  // DotSet, as written

  /** The `DotSet` causal join as written: a dot of the other side is added
      when the other clock is ahead for its actor, and a dot of this side
      survives when the other side holds it too or this clock is ahead. */
  function SetJoinAsWritten<A>(s: set<Dot<A>>, c: Counters<A>, o: set<Dot<A>>, co: Counters<A>): (r: set<Dot<A>>)
    ensures s * o <= r <= s + o
  {
    (set d | d in s && (d in o || Ahead(c, co, d.actor))) + (set d | d in o && Ahead(co, c, d.actor))
  }

  /** Per actor, the join as written lets the replica whose clock is ahead
      win outright and intersects on a tie. */
  lemma SetJoinAsWrittenPerActor<A>(s: set<Dot<A>>, c: Counters<A>, o: set<Dot<A>>, co: Counters<A>, d: Dot<A>)
    ensures d in SetJoinAsWritten(s, c, o, co) <==>
      if Ahead(c, co, d.actor) then d in s
      else if Ahead(co, c, d.actor) then d in o
      else d in s && d in o
  {
  }

  /** The other replica has seen `Dot(0, 1)` and no longer holds it, yet the
      join as written keeps it because this replica has seen more of actor 0. */
  lemma SetJoinAsWrittenKeepsRemoved()
    ensures var s, c, o, co := {Dot(0, 1), Dot(0, 2)}, map[0 := 2], {}, map[0 := 1];
      Covered(s, c) && Covered(o, co) && Seen(co, Dot(0, 1)) && Dot(0, 1) !in o &&
      Dot(0, 1) in SetJoinAsWritten(s, c, o, co) && Dot(0, 1) !in SetJoin(s, c, o, co)
  {
    var s, c, co := {Dot(0, 1), Dot(0, 2)}, map[0 := 2], map[0 := 1];
    assert Ahead(c, co, 0);
  }

  // ---------------------------------------------------------------------
  // DotSet, observed-remove

  /** The observed-remove join: a dot survives when both sides hold it, or
      when one side holds it and the other side has not seen it. */
  function SetJoin<A>(s: set<Dot<A>>, c: Counters<A>, o: set<Dot<A>>, co: Counters<A>): (r: set<Dot<A>>)
    ensures r <= s + o
  {
    (set d | d in s && (d in o || !Seen(co, d))) + (set d | d in o && !Seen(c, d))
  }

  /** A dot one side has seen and dropped stays dropped. */
  lemma SetJoinDropsRemoved<A>(s: set<Dot<A>>, c: Counters<A>, o: set<Dot<A>>, co: Counters<A>, d: Dot<A>)
    requires Covered(s, c) && Covered(o, co)
    ensures d in s && d !in o && Seen(co, d) ==> d !in SetJoin(s, c, o, co)
    ensures d in o && d !in s && Seen(c, d) ==> d !in SetJoin(s, c, o, co)
    ensures d in s && !Seen(co, d) ==> d in SetJoin(s, c, o, co)
    ensures d in o && !Seen(c, d) ==> d in SetJoin(s, c, o, co)
    ensures d in s && d in o ==> d in SetJoin(s, c, o, co)
  {
  }

  /** The join of covered stores is covered by the joined clock. */
  lemma SetJoinCovered<A>(s: set<Dot<A>>, c: Counters<A>, o: set<Dot<A>>, co: Counters<A>)
    requires Covered(s, c) && Covered(o, co)
    ensures Covered(SetJoin(s, c, o, co), VClocks.Max(c, co))
  {
    forall d | d in SetJoin(s, c, o, co) ensures Seen(VClocks.Max(c, co), d) {
      VClocks.MaxGet(c, co, d.actor);
    }
  }

  /** Both joins, as written and observed-remove, are idempotent. */
  lemma SetJoinIdempotent<A>(s: set<Dot<A>>, c: Counters<A>)
    ensures SetJoin(s, c, s, c) == s
    ensures SetJoinAsWritten(s, c, s, c) == s
  {
  }

  /** Both joins are commutative. */
  lemma SetJoinCommutative<A>(s: set<Dot<A>>, c: Counters<A>, o: set<Dot<A>>, co: Counters<A>)
    ensures SetJoin(s, c, o, co) == SetJoin(o, co, s, c)
    ensures SetJoinAsWritten(s, c, o, co) == SetJoinAsWritten(o, co, s, c)
  {
  }

  /** Joining three covered stores in either grouping gives the same store. */
  lemma SetJoinAssociative<A>(s1: set<Dot<A>>, c1: Counters<A>, s2: set<Dot<A>>, c2: Counters<A>,
                              s3: set<Dot<A>>, c3: Counters<A>)
    requires Covered(s1, c1) && Covered(s2, c2) && Covered(s3, c3)
    ensures SetJoin(SetJoin(s1, c1, s2, c2), VClocks.Max(c1, c2), s3, c3) ==
            SetJoin(s1, c1, SetJoin(s2, c2, s3, c3), VClocks.Max(c2, c3))
  {
    var left := SetJoin(SetJoin(s1, c1, s2, c2), VClocks.Max(c1, c2), s3, c3);
    var right := SetJoin(s1, c1, SetJoin(s2, c2, s3, c3), VClocks.Max(c2, c3));
    forall d ensures d in left <==> d in right {
      VClocks.MaxGet(c1, c2, d.actor);
      VClocks.MaxGet(c2, c3, d.actor);
    }
  }

  // ---------------------------------------------------------------------
  // DotFun and DotMap

  /** The `DotFun` join: the dots are joined as a `DotSet`; a dot both sides
      hold carries the lattice join of the two values, any other surviving
      dot keeps the value of the side that holds it. */
  function FunJoin<A, T>(f: map<Dot<A>, T>, c: Counters<A>, g: map<Dot<A>, T>, co: Counters<A>,
                         join: (T, T) -> T): (r: map<Dot<A>, T>)
    ensures r.Keys == SetJoin(f.Keys, c, g.Keys, co)
  {
    map d | d in SetJoin(f.Keys, c, g.Keys, co) ::
      if d in f && d in g then join(f[d], g[d]) else if d in f then f[d] else g[d]
  }

  /** The `DotFun` join as written: the dots the `DotSet` join as written
      keeps, a shared dot carrying the join of the two values. */
  function FunJoinAsWritten<A, T>(f: map<Dot<A>, T>, c: Counters<A>, g: map<Dot<A>, T>, co: Counters<A>,
                                  join: (T, T) -> T): (r: map<Dot<A>, T>)
    ensures r.Keys == SetJoinAsWritten(f.Keys, c, g.Keys, co)
  {
    map d | d in SetJoinAsWritten(f.Keys, c, g.Keys, co) ::
      if d in f && d in g then join(f[d], g[d]) else if d in f then f[d] else g[d]
  }

  /** The other replica has seen the entry at `Dot(0, 1)` and removed it,
      yet the join as written keeps it, as the `DotSet` join does. */
  lemma FunJoinAsWrittenKeepsRemoved(join: (int, int) -> int)
    ensures var f, c, g, co := map[Dot(0, 1) := 7, Dot(0, 2) := 8], map[0 := 2], map[], map[0 := 1];
      Covered(f.Keys, c) && Seen(co, Dot(0, 1)) && Dot(0, 1) !in g &&
      Dot(0, 1) in FunJoinAsWritten(f, c, g, co, join) && FunJoinAsWritten(f, c, g, co, join)[Dot(0, 1)] == 7 &&
      Dot(0, 1) !in FunJoin(f, c, g, co, join)
  {
    var f, c, co := map[Dot(0, 1) := 7, Dot(0, 2) := 8], map[0 := 2], map[0 := 1];
    assert Ahead(c, co, 0);
    assert f.Keys == {Dot(0, 1), Dot(0, 2)};
  }

  /** For an idempotent value join, both `DotFun` joins are idempotent. */
  lemma FunJoinIdempotent<A, T>(f: map<Dot<A>, T>, c: Counters<A>, join: (T, T) -> T)
    requires forall x :: join(x, x) == x
    ensures FunJoin(f, c, f, c, join) == f
    ensures FunJoinAsWritten(f, c, f, c, join) == f
  {
    SetJoinIdempotent(f.Keys, c);
  }

  /** For a commutative value join, both `DotFun` joins are commutative. */
  lemma FunJoinCommutative<A, T>(f: map<Dot<A>, T>, c: Counters<A>, g: map<Dot<A>, T>, co: Counters<A>,
                                 join: (T, T) -> T)
    requires forall x, y :: join(x, y) == join(y, x)
    ensures FunJoin(f, c, g, co, join) == FunJoin(g, co, f, c, join)
    ensures FunJoinAsWritten(f, c, g, co, join) == FunJoinAsWritten(g, co, f, c, join)
  {
    SetJoinCommutative(f.Keys, c, g.Keys, co);
  }

  /** The `DotMap` join: every key of either side is kept; a key both sides
      hold carries the causal join of the two nested stores under the two
      clocks. A key only this side holds is never dropped. */
  function MapJoin<A, K, V>(m: map<K, V>, c: Counters<A>, n: map<K, V>, co: Counters<A>,
                            vjoin: (V, Counters<A>, V, Counters<A>) -> V): (r: map<K, V>)
    ensures r.Keys == m.Keys + n.Keys
  {
    map k | k in m.Keys + n.Keys ::
      if k in m && k in n then vjoin(m[k], c, n[k], co) else if k in m then m[k] else n[k]
  }

  lemma MapJoinIdempotent<A, K, V>(m: map<K, V>, c: Counters<A>, vjoin: (V, Counters<A>, V, Counters<A>) -> V)
    requires forall x :: vjoin(x, c, x, c) == x
    ensures MapJoin(m, c, m, c, vjoin) == m
  {
  }

  lemma MapJoinCommutative<A, K, V>(m: map<K, V>, c: Counters<A>, n: map<K, V>, co: Counters<A>,
                                    vjoin: (V, Counters<A>, V, Counters<A>) -> V)
    requires forall x, y :: vjoin(x, c, y, co) == vjoin(y, co, x, c)
    ensures MapJoin(m, c, n, co, vjoin) == MapJoin(n, co, m, c, vjoin)
  {
  }

  // ---------------------------------------------------------------------
  // The stores in place

  /** The dots of `other` among the visited ones that this side has not
      seen: what the insert loop of `causal_join` adds. */
  ghost function Taken<A>(other: set<Dot<A>>, todo: set<Dot<A>>, c: Counters<A>): set<Dot<A>> {
    set d | d in other && d !in todo && !Seen(c, d)
  }

  lemma TakenStep<A>(other: set<Dot<A>>, todo: set<Dot<A>>, c: Counters<A>, d: Dot<A>)
    requires d in todo
    ensures Taken(other, todo - {d}, c) ==
      Taken(other, todo, c) + (if d in other && !Seen(c, d) then {d} else {})
  {
  }

  /** The dots among `visited` that the retain pass of `causal_join` keeps. */
  ghost function Retained<A>(visited: set<Dot<A>>, o: set<Dot<A>>, co: Counters<A>): set<Dot<A>> {
    set d | d in visited && (d in o || !Seen(co, d))
  }

  lemma RetainedStep<A>(visited: set<Dot<A>>, o: set<Dot<A>>, co: Counters<A>, d: Dot<A>)
    ensures Retained(visited + {d}, o, co) ==
      Retained(visited, o, co) + (if d in o || !Seen(co, d) then {d} else {})
  {
  }

  /** The two loops together compute the join. */
  lemma TakenRetained<A>(s: set<Dot<A>>, c: Counters<A>, o: set<Dot<A>>, co: Counters<A>)
    ensures Retained(s + Taken(o, {}, c), o, co) == SetJoin(s, c, o, co)
  {
  }

  class DotSet<A(==)> {
    var dots: set<Dot<A>>

    constructor ()
      ensures dots == {}
    {
      dots := {};
    }

    /** `causal_join`: insert the dots of `other` this side has not seen,
        then retain the dots `other` holds or has not seen. */
    method Join(clock: Counters<A>, other: set<Dot<A>>, clockOther: Counters<A>)
      modifies this
      ensures dots == SetJoin(old(dots), clock, other, clockOther)
    {
      var todo := other;
      while todo != {}
        invariant todo <= other
        invariant dots == old(dots) + Taken(other, todo, clock)
        decreases |todo|
      {
        var d :| d in todo;
        TakenStep(other, todo, clock, d);
        if !Seen(clock, d) {
          dots := dots + {d};
        }
        todo := todo - {d};
      }
      Retain(other, clockOther);
      TakenRetained(old(dots), clock, other, clockOther);
    }

    /** The `retain` pass: keep the dots `other` holds or has not seen. */
    method Retain(other: set<Dot<A>>, clockOther: Counters<A>)
      modifies this
      ensures dots == Retained(old(dots), other, clockOther)
    {
      var rest, kept := dots, {};
      ghost var visited := {};
      while rest != {}
        invariant visited + rest == old(dots)
        invariant kept == Retained(visited, other, clockOther)
        decreases |rest|
      {
        var d :| d in rest;
        RetainedStep(visited, other, clockOther, d);
        if d in other || !Seen(clockOther, d) {
          kept := kept + {d};
        }
        rest := rest - {d};
        visited := visited + {d};
      }
      dots := kept;
    }
  }

  /** The function after the insert loop of `causal_join` has visited the
      dots of `g` outside `todo`. */
  ghost function FunTaken<A, T>(f: map<Dot<A>, T>, c: Counters<A>, g: map<Dot<A>, T>, todo: set<Dot<A>>,
                               join: (T, T) -> T): map<Dot<A>, T> {
    map d | d in f.Keys + Taken(g.Keys, todo, c) ::
      if d in f && d in g && d !in todo then join(f[d], g[d]) else if d in f then f[d] else g[d]
  }

  lemma FunTakenStep<A, T>(f: map<Dot<A>, T>, c: Counters<A>, g: map<Dot<A>, T>, todo: set<Dot<A>>,
                           join: (T, T) -> T, d: Dot<A>)
    requires d in todo && d in g
    ensures var cur := FunTaken(f, c, g, todo, join);
      FunTaken(f, c, g, todo - {d}, join) ==
        if d in cur then cur[d := join(cur[d], g[d])]
        else if !Seen(c, d) then cur[d := g[d]]
        else cur
  {
    TakenStep(g.Keys, todo, c, d);
  }

  /** The entries of `m` the `retain` pass keeps. */
  ghost function FunRetained<A, T>(m: map<Dot<A>, T>, o: set<Dot<A>>, co: Counters<A>): map<Dot<A>, T> {
    map d | d in Retained(m.Keys, o, co) :: m[d]
  }

  lemma FunTakenRetained<A, T>(f: map<Dot<A>, T>, c: Counters<A>, g: map<Dot<A>, T>, co: Counters<A>,
                               join: (T, T) -> T)
    ensures FunRetained(FunTaken(f, c, g, {}, join), g.Keys, co) == FunJoin(f, c, g, co, join)
  {
    TakenRetained(f.Keys, c, g.Keys, co);
  }

  lemma FunRetainedStep<A, T>(m: map<Dot<A>, T>, visited: set<Dot<A>>, o: set<Dot<A>>, co: Counters<A>,
                              d: Dot<A>, kept: map<Dot<A>, T>)
    requires visited <= m.Keys && d in m && d !in visited
    requires kept == map x | x in Retained(visited, o, co) :: m[x]
    ensures (if d in o || !Seen(co, d) then kept[d := m[d]] else kept) ==
      map x | x in Retained(visited + {d}, o, co) :: m[x]
  {
    RetainedStep(visited, o, co, d);
  }

  class DotFun<A(==), T> {
    var fun: map<Dot<A>, T>

    constructor ()
      ensures fun == map[]
    {
      fun := map[];
    }

    /** `causal_join`: join the values of shared dots, insert the dots of
        `other` this side has not seen, then retain the dots `other` holds
        or has not seen. */
    method Join(clock: Counters<A>, other: map<Dot<A>, T>, clockOther: Counters<A>, join: (T, T) -> T)
      modifies this
      ensures fun == FunJoin(old(fun), clock, other, clockOther, join)
    {
      var todo := other.Keys;
      assert fun == FunTaken(fun, clock, other, todo, join);
      while todo != {}
        invariant todo <= other.Keys
        invariant fun == FunTaken(old(fun), clock, other, todo, join)
        decreases |todo|
      {
        var d :| d in todo;
        FunTakenStep(old(fun), clock, other, todo, join, d);
        if d in fun {
          fun := fun[d := join(fun[d], other[d])];
        } else if !Seen(clock, d) {
          fun := fun[d := other[d]];
        }
        todo := todo - {d};
      }
      Retain(other.Keys, clockOther);
      FunTakenRetained(old(fun), clock, other, clockOther, join);
    }

    /** The `retain` pass: keep the entries whose dot `other` holds or has
        not seen. */
    method Retain(other: set<Dot<A>>, clockOther: Counters<A>)
      modifies this
      ensures fun == FunRetained(old(fun), other, clockOther)
    {
      var m := fun;
      var rest, kept := m.Keys, map[];
      ghost var visited := {};
      while rest != {}
        invariant visited + rest == m.Keys && visited !! rest
        invariant kept == map d | d in Retained(visited, other, clockOther) :: m[d]
        decreases |rest|
      {
        var d :| d in rest;
        FunRetainedStep(m, visited, other, clockOther, d, kept);
        if d in other || !Seen(clockOther, d) {
          kept := kept[d := m[d]];
        }
        rest := rest - {d};
        visited := visited + {d};
      }
      fun := kept;
    }
  }

  /** The map after the loop of `causal_join` has visited the keys of `n`
      outside `todo`. */
  ghost function MapMerged<A, K, V>(m: map<K, V>, c: Counters<A>, n: map<K, V>, co: Counters<A>,
                                   vjoin: (V, Counters<A>, V, Counters<A>) -> V, todo: set<K>): map<K, V> {
    map k | k in m.Keys + (n.Keys - todo) ::
      if k in m && k in n && k !in todo then vjoin(m[k], c, n[k], co) else if k in m then m[k] else n[k]
  }

  lemma MapMergedStep<A, K, V>(m: map<K, V>, c: Counters<A>, n: map<K, V>, co: Counters<A>,
                               vjoin: (V, Counters<A>, V, Counters<A>) -> V, todo: set<K>, k: K)
    requires k in todo && k in n
    ensures var cur := MapMerged(m, c, n, co, vjoin, todo);
      MapMerged(m, c, n, co, vjoin, todo - {k}) ==
        if k in cur then cur[k := vjoin(cur[k], c, n[k], co)] else cur[k := n[k]]
  {
  }

  lemma MapMergedEnds<A, K, V>(m: map<K, V>, c: Counters<A>, n: map<K, V>, co: Counters<A>,
                               vjoin: (V, Counters<A>, V, Counters<A>) -> V)
    ensures MapMerged(m, c, n, co, vjoin, n.Keys) == m
    ensures MapMerged(m, c, n, co, vjoin, {}) == MapJoin(m, c, n, co, vjoin)
  {
  }

  class DotMap<A(==), K(==), V> {
    var entries: map<K, V>

    constructor ()
      ensures entries == map[]
    {
      entries := map[];
    }

    /** `causal_join`: recurse on the keys both sides hold, insert the keys
        only `other` holds. */
    method Join(clock: Counters<A>, other: map<K, V>, clockOther: Counters<A>,
                vjoin: (V, Counters<A>, V, Counters<A>) -> V)
      modifies this
      ensures entries == MapJoin(old(entries), clock, other, clockOther, vjoin)
    {
      var start := entries;
      var todo, cur := other.Keys, entries;
      MapMergedEnds(start, clock, other, clockOther, vjoin);
      while todo != {}
        invariant todo <= other.Keys
        invariant cur == MapMerged(start, clock, other, clockOther, vjoin, todo)
        decreases |todo|
      {
        var k :| k in todo;
        MapMergedStep(start, clock, other, clockOther, vjoin, todo, k);
        if k in cur {
          cur := cur[k := vjoin(cur[k], clock, other[k], clockOther)];
        } else {
          cur := cur[k := other[k]];
        }
        todo := todo - {k};
      }
      entries := cur;
    }
  }

  // ---------------------------------------------------------------------
  // Causal

  /** `Causal` over the vector clock (src/store.rs): a dot set and the clock
      of everything its replica has seen. */
  class Causal<A(==)> {
    var store: DotSet<A>
    var clock: VClocks.Clock<A>

    ghost predicate Valid()
      reads this, store, clock
    {
      clock.Valid() && Covered(store.dots, clock.dots)
    }

    constructor ()
      ensures Valid() && fresh(store) && fresh(clock)
      ensures store.dots == {} && clock.dots == map[]
    {
      store := new DotSet();
      clock := new VClocks.Clock();
    }

    /** `join`: the store joins against both clocks, then the clocks unite. */
    method Join(other: Causal<A>)
      requires Valid() && other.Valid()
      requires store != other.store && clock != other.clock
      modifies store, clock
      ensures Valid()
      ensures store.dots == SetJoin(old(store.dots), old(clock.dots), other.store.dots, other.clock.dots)
      ensures clock.dots == VClocks.Max(old(clock.dots), other.clock.dots)
    {
      store.Join(clock.dots, other.store.dots, other.clock.dots);
      clock.Union(other.clock.dots);
      SetJoinCovered(old(store.dots), old(clock.dots), other.store.dots, other.clock.dots);
    }
  }

  /** `Causal` over the clock with a cloud (crdt/src/store.rs): the store
      joins against the contiguous counters of the two clocks. */
  class CloudCausal<A(==, !new)> {
    var store: DotSet<A>
    var clock: CloudClocks.Clock<A>

    ghost predicate Valid()
      reads this, clock
    {
      CloudClocks.Normal(clock.Value())
    }

    constructor ()
      ensures Valid() && fresh(store) && fresh(clock)
      ensures store.dots == {} && clock.Value() == CloudClocks.State(map[], {})
    {
      store := new DotSet();
      clock := new CloudClocks.Clock();
    }

    /** `join`: the store joins against both clocks, then the clocks unite. */
    method Join(other: CloudCausal<A>)
      requires Valid() && other.Valid()
      requires store != other.store && clock != other.clock
      modifies store, clock
      ensures Valid()
      ensures store.dots == SetJoin(old(store.dots), old(clock.clock), other.store.dots, other.clock.clock)
      ensures CloudClocks.IsUnion(clock.Value(), old(clock.Value()), other.clock.Value())
    {
      store.Join(clock.clock, other.store.dots, other.clock.clock);
      clock.Union(other.clock);
    }
  }

  /** The join of two `Causal` states, as values. */
  function CausalJoin<A>(x: (set<Dot<A>>, Counters<A>), y: (set<Dot<A>>, Counters<A>)): (set<Dot<A>>, Counters<A>) {
    (SetJoin(x.0, x.1, y.0, y.1), VClocks.Max(x.1, y.1))
  }

  /** `Causal::join` is a join on states whose stores their clocks cover. */
  lemma CausalJoinLaws<A>(x: (set<Dot<A>>, Counters<A>), y: (set<Dot<A>>, Counters<A>), z: (set<Dot<A>>, Counters<A>))
    requires Covered(x.0, x.1) && Covered(y.0, y.1) && Covered(z.0, z.1)
    ensures CausalJoin(x, x) == x
    ensures CausalJoin(x, y) == CausalJoin(y, x)
    ensures CausalJoin(CausalJoin(x, y), z) == CausalJoin(x, CausalJoin(y, z))
  {
    VClocks.MaxIdempotent(x.1);
    VClocks.MaxCommutative(x.1, y.1);
    VClocks.MaxAssociative(x.1, y.1, z.1);
    SetJoinIdempotent(x.0, x.1);
    SetJoinCommutative(x.0, x.1, y.0, y.1);
    SetJoinAssociative(x.0, x.1, y.0, y.1, z.0, z.1);
  }
}
