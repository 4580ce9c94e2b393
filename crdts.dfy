/** The typed CRDTs of crdt/src/crdts.rs over dot stores: the
    enable-wins flag (`EWFlag`, a set of dots), the multi-value register
    (`MVReg`, a function from dots to values) and the observed-remove map
    (`ORMap`, a map of nested stores). Each operation builds a delta, a
    store paired with a causal context, that the replica joins into its
    state. The causal context is the set of dots it has seen; the joins are
    the observed-remove joins of delta-state CRDTs whose formulas the
    comments of crdts.rs quote. */
module TypedCrdts {
  import DotSets
  import opened Wrappers

  type Dot<I(==)> = DotSets.Dot<I>

  /** A causal context, as the set of dots it contains. */
  type Ctx<I(==)> = set<Dot<I>>

  /** `Causal<I, S>`: a store and the context it was built against. */
  datatype Causal<I(==), S> = Causal(store: S, ctx: Ctx<I>)

  // ---------------------------------------------------------------------
  // Dot-set join
  // ---------------------------------------------------------------------

  /** The observed-remove join of two dot sets: a dot survives when both
      sides hold it, or when one side holds it and the other has not seen it. */
  function SetJoin<I(==)>(s: set<Dot<I>>, c: Ctx<I>, o: set<Dot<I>>, oc: Ctx<I>): (r: set<Dot<I>>)
    ensures r <= s + o
  {
    (s * o) + (s - oc) + (o - c)
  }

  /** The join is a semilattice on states whose stores their contexts cover,
      and it keeps stores covered. */
  lemma SetJoinLaws<I>(s1: set<Dot<I>>, c1: Ctx<I>, s2: set<Dot<I>>, c2: Ctx<I>, s3: set<Dot<I>>, c3: Ctx<I>)
    requires s1 <= c1 && s2 <= c2 && s3 <= c3
    ensures SetJoin(s1, c1, s1, c1) == s1
    ensures SetJoin(s1, c1, s2, c2) == SetJoin(s2, c2, s1, c1)
    ensures SetJoin(s1, c1, s2, c2) <= c1 + c2
    ensures SetJoin(SetJoin(s1, c1, s2, c2), c1 + c2, s3, c3) ==
            SetJoin(s1, c1, SetJoin(s2, c2, s3, c3), c2 + c3)
  {
    var left := SetJoin(SetJoin(s1, c1, s2, c2), c1 + c2, s3, c3);
    var right := SetJoin(s1, c1, SetJoin(s2, c2, s3, c3), c2 + c3);
    forall d ensures d in left <==> d in right {
    }
  }

  // ---------------------------------------------------------------------
  // EWFlag
  // ---------------------------------------------------------------------

  type Flag<I(==)> = set<Dot<I>>

  /** `EWFlag::value`: the flag is on while it holds a dot. */
  function Value<I(==)>(f: Flag<I>): (on: bool)
    ensures on <==> exists d :: d in f
  {
    f != {}
  }

  /** `EWFlag::join` (crdts.rs:53-55), lifted to states: the stores join,
      the contexts unite. */
  function FlagJoin<I(==)>(x: Causal<I, Flag<I>>, y: Causal<I, Flag<I>>): (r: Causal<I, Flag<I>>)
    ensures r.ctx == x.ctx + y.ctx
    ensures r.store <= x.store + y.store
    ensures forall d | d in x.store + y.store :: d in r.store <==>
      (d in x.store && (d in y.store || d !in y.ctx)) || (d in y.store && d !in x.ctx)
  {
    Causal(SetJoin(x.store, x.ctx, y.store, y.ctx), x.ctx + y.ctx)
  }

  /** `enable` as written: the delta holds the new dot and carries the
      whole context of the state it was made from. */
  function EnableAsWritten<I(==)>(x: Causal<I, Flag<I>>, dot: Dot<I>): (delta: Causal<I, Flag<I>>)
    ensures delta.store == {dot} && delta.ctx == x.ctx + {dot}
  {
    Causal({dot}, x.ctx + {dot})
  }

  /** `enable` as the comment beside it defines it, (d, d ∪ s): the delta
      claims only the flag's own dots. */
  function Enable<I(==)>(x: Causal<I, Flag<I>>, dot: Dot<I>): (delta: Causal<I, Flag<I>>)
    ensures delta.store == {dot} && delta.ctx == x.store + {dot}
  {
    Causal({dot}, x.store + {dot})
  }

  /** `disable` as written: an empty store and the whole context. */
  function DisableAsWritten<I(==)>(x: Causal<I, Flag<I>>, dot: Dot<I>): (delta: Causal<I, Flag<I>>)
    ensures delta.store == {} && delta.ctx == x.ctx + {dot}
  {
    Causal({}, x.ctx + {dot})
  }

  /** `disable` as the comment defines it, ({}, s), recording the dot used. */
  function Disable<I(==)>(x: Causal<I, Flag<I>>, dot: Dot<I>): (delta: Causal<I, Flag<I>>)
    ensures delta.store == {} && delta.ctx == x.store + {dot}
  {
    Causal({}, x.store + {dot})
  }

  /** A state whose context has seen every dot of its store. */
  predicate FlagCovered<I(==)>(x: Causal<I, Flag<I>>) {
    x.store <= x.ctx
  }

  /** Joining an enable with a fresh dot turns the flag on: its store is
      then exactly that dot, as written and as commented alike. */
  lemma EnableThenRead<I>(x: Causal<I, Flag<I>>, dot: Dot<I>)
    requires FlagCovered(x) && dot !in x.ctx
    ensures FlagJoin(x, Enable(x, dot)).store == {dot}
    ensures FlagJoin(x, EnableAsWritten(x, dot)).store == {dot}
    ensures Value(FlagJoin(x, Enable(x, dot)).store)
    ensures FlagCovered(FlagJoin(x, Enable(x, dot)))
  {
    assert dot in FlagJoin(x, Enable(x, dot)).store;
  }

  /** Joining a disable turns the flag off, as written and as commented. */
  lemma DisableThenRead<I>(x: Causal<I, Flag<I>>, dot: Dot<I>)
    requires FlagCovered(x)
    ensures FlagJoin(x, Disable(x, dot)).store == {}
    ensures FlagJoin(x, DisableAsWritten(x, dot)).store == {}
    ensures !Value(FlagJoin(x, Disable(x, dot)).store)
  {
  }

  /** Enable wins: an enable and a disable made concurrently from the same
      state leave the flag on, whichever is joined first. */
  lemma EnableWins<I>(x: Causal<I, Flag<I>>, d1: Dot<I>, d2: Dot<I>)
    requires FlagCovered(x) && d1 !in x.ctx && d2 !in x.ctx && d1 != d2
    ensures Value(FlagJoin(FlagJoin(x, Disable(x, d1)), Enable(x, d2)).store)
    ensures Value(FlagJoin(FlagJoin(x, Enable(x, d2)), Disable(x, d1)).store)
  {
    assert d2 in FlagJoin(FlagJoin(x, Disable(x, d1)), Enable(x, d2)).store;
    assert d2 in FlagJoin(FlagJoin(x, Enable(x, d2)), Disable(x, d1)).store;
  }

  // ---------------------------------------------------------------------
  // MVReg
  // ---------------------------------------------------------------------

  type Reg<I(==), L> = map<Dot<I>, L>

  /** The observed-remove join of two dot functions: the domain joins as a
      dot set, and values at a shared dot join in the value lattice. */
  function FunJoin<I(==), L>(f: Reg<I, L>, c: Ctx<I>, g: Reg<I, L>, gc: Ctx<I>, join: (L, L) -> L): (r: Reg<I, L>)
    ensures r.Keys == SetJoin(f.Keys, c, g.Keys, gc)
    ensures forall d :: d in r && d in f && d !in g ==> r[d] == f[d]
    ensures forall d :: d in r && d in g && d !in f ==> r[d] == g[d]
  {
    map d | d in SetJoin(f.Keys, c, g.Keys, gc) ::
      if d in f && d in g then join(f[d], g[d]) else if d in f then f[d] else g[d]
  }

  /** For an idempotent value join, joining a covered register with
      itself changes nothing. */
  lemma FunJoinIdempotent<I, L>(f: Reg<I, L>, c: Ctx<I>, join: (L, L) -> L)
    requires f.Keys <= c
    requires forall v :: join(v, v) == v
    ensures FunJoin(f, c, f, c, join) == f
  {
    SetJoinLaws(f.Keys, c, f.Keys, c, f.Keys, c);
  }

  /** For a commutative value join, the register join is commutative. */
  lemma FunJoinCommutative<I, L>(f: Reg<I, L>, c: Ctx<I>, g: Reg<I, L>, gc: Ctx<I>, join: (L, L) -> L)
    requires f.Keys <= c && g.Keys <= gc
    requires forall v, w :: join(v, w) == join(w, v)
    ensures FunJoin(f, c, g, gc, join) == FunJoin(g, gc, f, c, join)
  {
    SetJoinLaws(f.Keys, c, g.Keys, gc, f.Keys, c);
  }

  /** For an associative value join, joining three covered registers in
      either grouping, under the united contexts, gives the same register. */
  lemma FunJoinAssociative<I, L>(f1: Reg<I, L>, c1: Ctx<I>, f2: Reg<I, L>, c2: Ctx<I>, f3: Reg<I, L>, c3: Ctx<I>,
                                 join: (L, L) -> L)
    requires f1.Keys <= c1 && f2.Keys <= c2 && f3.Keys <= c3
    requires forall u, v, w :: join(join(u, v), w) == join(u, join(v, w))
    ensures FunJoin(FunJoin(f1, c1, f2, c2, join), c1 + c2, f3, c3, join) ==
            FunJoin(f1, c1, FunJoin(f2, c2, f3, c3, join), c2 + c3, join)
  {
    var left := FunJoin(FunJoin(f1, c1, f2, c2, join), c1 + c2, f3, c3, join);
    var right := FunJoin(f1, c1, FunJoin(f2, c2, f3, c3, join), c2 + c3, join);
    SetJoinLaws(f1.Keys, c1, f2.Keys, c2, f3.Keys, c3);
    assert left.Keys == right.Keys;
    forall d | d in left
      ensures left[d] == right[d]
    {
    }
  }

  /** `MVReg::join` (crdts.rs:127-129), lifted to states. */
  function RegJoin<I(==), L>(x: Causal<I, Reg<I, L>>, y: Causal<I, Reg<I, L>>, join: (L, L) -> L): Causal<I, Reg<I, L>> {
    Causal(FunJoin(x.store, x.ctx, y.store, y.ctx, join), x.ctx + y.ctx)
  }

  /** `write` as written: the new dot maps to the value; the delta carries
      the whole context. */
  function WriteAsWritten<I(==), L>(x: Causal<I, Reg<I, L>>, dot: Dot<I>, v: L): (delta: Causal<I, Reg<I, L>>)
    ensures delta.store == map[dot := v] && delta.ctx == x.ctx + {dot}
  {
    Causal(map[dot := v], x.ctx + {dot})
  }

  /** `write` as the comment defines it, ({d → v}, {d} ∪ dom m). */
  function Write<I(==), L>(x: Causal<I, Reg<I, L>>, dot: Dot<I>, v: L): (delta: Causal<I, Reg<I, L>>)
    ensures delta.store == map[dot := v] && delta.ctx == x.store.Keys + {dot}
  {
    Causal(map[dot := v], x.store.Keys + {dot})
  }

  /** `MVReg::read`: the values the register holds. */
  function Read<I(==), L>(m: Reg<I, L>): (vs: set<L>)
    ensures forall d :: d in m ==> m[d] in vs
    ensures forall v :: v in vs ==> exists d :: d in m && m[d] == v
  {
    set d | d in m :: m[d]
  }

  predicate RegCovered<I(==), L>(x: Causal<I, Reg<I, L>>) {
    x.store.Keys <= x.ctx
  }

  /** A write joined into its own state replaces every value it saw. */
  lemma WriteThenRead<I, L>(x: Causal<I, Reg<I, L>>, dot: Dot<I>, v: L, join: (L, L) -> L)
    requires RegCovered(x) && dot !in x.ctx
    ensures RegJoin(x, Write(x, dot, v), join).store == map[dot := v]
    ensures Read(RegJoin(x, Write(x, dot, v), join).store) == {v}
  {
    var r := RegJoin(x, Write(x, dot, v), join).store;
    assert r.Keys == {dot};
    assert Read(r) == {v} by {
      assert r[dot] == v;
    }
  }

  /** Two writes made concurrently from one state, with distinct fresh dots,
      both stay readable once both are joined. */
  lemma ConcurrentWritesBothRead<I, L>(x: Causal<I, Reg<I, L>>, d1: Dot<I>, v1: L, d2: Dot<I>, v2: L, join: (L, L) -> L)
    requires RegCovered(x) && d1 !in x.ctx && d2 !in x.ctx && d1 != d2
    ensures var r := RegJoin(RegJoin(x, Write(x, d1, v1), join), Write(x, d2, v2), join).store;
      r == map[d1 := v1, d2 := v2] && Read(r) == {v1, v2}
  {
    var y := RegJoin(x, Write(x, d1, v1), join);
    assert y.store == map[d1 := v1];
    var r := RegJoin(y, Write(x, d2, v2), join).store;
    assert r.Keys == {d1, d2};
    assert r == map[d1 := v1, d2 := v2];
    assert Read(r) == {v1, v2} by {
      assert r[d1] == v1 && r[d2] == v2;
    }
  }

  // ---------------------------------------------------------------------
  // ORMap
  // ---------------------------------------------------------------------

  /** The observed-remove join of two maps of nested stores: every key of
      either side joins its two stores (a missing one is `bottom`), and a
      key whose joined store is empty disappears. */
  function MapJoin<I(==), K(==), V(==)>(m: map<K, V>, c: Ctx<I>, n: map<K, V>, nc: Ctx<I>,
                                vjoin: (V, Ctx<I>, V, Ctx<I>) -> V, bottom: V): (r: map<K, V>)
    ensures r.Keys <= m.Keys + n.Keys
    ensures forall k :: k in r ==> r[k] != bottom
  {
    map k | k in m.Keys + n.Keys && vjoin(Get(m, k, bottom), c, Get(n, k, bottom), nc) != bottom ::
      vjoin(Get(m, k, bottom), c, Get(n, k, bottom), nc)
  }

  function Get<K(==), V>(m: map<K, V>, k: K, bottom: V): V {
    if k in m then m[k] else bottom
  }

  /** The map join is the map that holds, under every key of either side,
      the non-empty join of the key's two stores. */
  lemma MapJoinIs<I, K, V>(m: map<K, V>, c: Ctx<I>, n: map<K, V>, nc: Ctx<I>,
                           vjoin: (V, Ctx<I>, V, Ctx<I>) -> V, bottom: V, target: map<K, V>)
    requires target.Keys <= m.Keys + n.Keys
    requires forall k :: k in target ==> target[k] != bottom
    requires forall k :: k in m.Keys + n.Keys ==> vjoin(Get(m, k, bottom), c, Get(n, k, bottom), nc) == Get(target, k, bottom)
    ensures MapJoin(m, c, n, nc, vjoin, bottom) == target
  {
    var r := MapJoin(m, c, n, nc, vjoin, bottom);
    assert r.Keys == target.Keys;
  }

  /** A key's store in the joined map is the join of its two stores, for a
      nested join that leaves two empty stores empty. */
  lemma GetMapJoin<I, K, V>(m: map<K, V>, c: Ctx<I>, n: map<K, V>, nc: Ctx<I>,
                            vjoin: (V, Ctx<I>, V, Ctx<I>) -> V, bottom: V, k: K)
    requires vjoin(bottom, c, bottom, nc) == bottom
    ensures Get(MapJoin(m, c, n, nc, vjoin, bottom), k, bottom) == vjoin(Get(m, k, bottom), c, Get(n, k, bottom), nc)
  {
  }

  /** Two maps without empty stores that agree on every key are equal. */
  lemma GetExtensional<K, V>(m: map<K, V>, n: map<K, V>, bottom: V)
    requires forall k :: k in m ==> m[k] != bottom
    requires forall k :: k in n ==> n[k] != bottom
    requires forall k :: Get(m, k, bottom) == Get(n, k, bottom)
    ensures m == n
  {
    forall k ensures k in m <==> k in n {
      assert Get(m, k, bottom) == Get(n, k, bottom);
    }
    forall k | k in m ensures m[k] == n[k] {
      assert Get(m, k, bottom) == Get(n, k, bottom);
    }
  }

  /** When the nested join is idempotent on each key's store, joining a
      map without empty stores with itself changes nothing. */
  lemma MapJoinIdempotent<I, K, V>(m: map<K, V>, c: Ctx<I>, vjoin: (V, Ctx<I>, V, Ctx<I>) -> V, bottom: V)
    requires forall k :: k in m ==> m[k] != bottom
    requires vjoin(bottom, c, bottom, c) == bottom
    requires forall k :: k in m ==> vjoin(m[k], c, m[k], c) == m[k]
    ensures MapJoin(m, c, m, c, vjoin, bottom) == m
  {
    var r := MapJoin(m, c, m, c, vjoin, bottom);
    forall k ensures Get(r, k, bottom) == Get(m, k, bottom) {
      GetMapJoin(m, c, m, c, vjoin, bottom, k);
    }
    GetExtensional(r, m, bottom);
  }

  /** When the nested join is commutative on each key's stores, so is the
      map join. */
  lemma MapJoinCommutative<I, K, V>(m: map<K, V>, c: Ctx<I>, n: map<K, V>, nc: Ctx<I>,
                                    vjoin: (V, Ctx<I>, V, Ctx<I>) -> V, bottom: V)
    requires vjoin(bottom, c, bottom, nc) == bottom && vjoin(bottom, nc, bottom, c) == bottom
    requires forall k :: vjoin(Get(m, k, bottom), c, Get(n, k, bottom), nc) == vjoin(Get(n, k, bottom), nc, Get(m, k, bottom), c)
    ensures MapJoin(m, c, n, nc, vjoin, bottom) == MapJoin(n, nc, m, c, vjoin, bottom)
  {
    var r, q := MapJoin(m, c, n, nc, vjoin, bottom), MapJoin(n, nc, m, c, vjoin, bottom);
    forall k ensures Get(r, k, bottom) == Get(q, k, bottom) {
      GetMapJoin(m, c, n, nc, vjoin, bottom, k);
      GetMapJoin(n, nc, m, c, vjoin, bottom, k);
    }
    GetExtensional(r, q, bottom);
  }

  /** When the nested join is associative on each key's stores, joining
      three maps in either grouping, under the united contexts, gives the
      same map. */
  lemma MapJoinAssociative<I, K, V>(m1: map<K, V>, c1: Ctx<I>, m2: map<K, V>, c2: Ctx<I>, m3: map<K, V>, c3: Ctx<I>,
                                    vjoin: (V, Ctx<I>, V, Ctx<I>) -> V, bottom: V)
    requires vjoin(bottom, c1, bottom, c2) == bottom && vjoin(bottom, c1 + c2, bottom, c3) == bottom
    requires vjoin(bottom, c2, bottom, c3) == bottom && vjoin(bottom, c1, bottom, c2 + c3) == bottom
    requires forall k :: vjoin(vjoin(Get(m1, k, bottom), c1, Get(m2, k, bottom), c2), c1 + c2, Get(m3, k, bottom), c3) ==
                         vjoin(Get(m1, k, bottom), c1, vjoin(Get(m2, k, bottom), c2, Get(m3, k, bottom), c3), c2 + c3)
    ensures MapJoin(MapJoin(m1, c1, m2, c2, vjoin, bottom), c1 + c2, m3, c3, vjoin, bottom) ==
            MapJoin(m1, c1, MapJoin(m2, c2, m3, c3, vjoin, bottom), c2 + c3, vjoin, bottom)
  {
    var m12, m23 := MapJoin(m1, c1, m2, c2, vjoin, bottom), MapJoin(m2, c2, m3, c3, vjoin, bottom);
    var left := MapJoin(m12, c1 + c2, m3, c3, vjoin, bottom);
    var right := MapJoin(m1, c1, m23, c2 + c3, vjoin, bottom);
    forall k ensures Get(left, k, bottom) == Get(right, k, bottom) {
      GetMapJoin(m1, c1, m2, c2, vjoin, bottom, k);
      GetMapJoin(m2, c2, m3, c3, vjoin, bottom, k);
      GetMapJoin(m12, c1 + c2, m3, c3, vjoin, bottom, k);
      GetMapJoin(m1, c1, m23, c2 + c3, vjoin, bottom, k);
    }
    GetExtensional(left, right, bottom);
  }

  /** `ORMap::get`. */
  function Lookup<K(==), V>(m: map<K, V>, k: K): (r: Option<V>)
    ensures r.Some? <==> k in m
    ensures r.Some? ==> r.value == m[k]
  {
    if k in m then Some(m[k]) else None
  }

  /** `apply`: the operation `f` runs on the key's store (or on `default`
      when the key is missing) with the map's context, and its delta is
      wrapped under the key. */
  function Apply<I(==), K(==), V>(x: Causal<I, map<K, V>>, k: K, f: Causal<I, V> -> Causal<I, V>, default: V): (delta: Causal<I, map<K, V>>)
    ensures delta.store.Keys == {k}
    ensures var inner := f(Causal(if k in x.store then x.store[k] else default, x.ctx));
      delta.store[k] == inner.store && delta.ctx == inner.ctx
  {
    var inner := f(Causal(if k in x.store then x.store[k] else default, x.ctx));
    Causal(map[k := inner.store], inner.ctx)
  }

  /** `remove`: an empty store whose context is the key's dots and the new
      dot; the empty delta when the key is missing. */
  function Remove<I(==), K(==), V>(x: Causal<I, map<K, V>>, dot: Dot<I>, k: K, dots: V -> set<Dot<I>>): (delta: Causal<I, map<K, V>>)
    ensures delta.store == map[]
    ensures k in x.store ==> delta.ctx == dots(x.store[k]) + {dot}
    ensures k !in x.store ==> delta.ctx == {}
  {
    if k in x.store then Causal(map[], dots(x.store[k]) + {dot}) else Causal(map[], {})
  }

  // The map of flags that the tests of crdts.rs exercise.

  function FlagStoreJoin<I(==)>(s: Flag<I>, c: Ctx<I>, o: Flag<I>, oc: Ctx<I>): Flag<I> {
    SetJoin(s, c, o, oc)
  }

  function FlagMapJoin<I(==), K(==)>(x: Causal<I, map<K, Flag<I>>>, y: Causal<I, map<K, Flag<I>>>): Causal<I, map<K, Flag<I>>> {
    Causal(MapJoin(x.store, x.ctx, y.store, y.ctx, FlagStoreJoin, {}), x.ctx + y.ctx)
  }

  function FlagDots<I(==)>(f: Flag<I>): set<Dot<I>> {
    f
  }

  /** Every flag of the map is covered by the map's context. */
  predicate MapCovered<I(==), K(==)>(x: Causal<I, map<K, Flag<I>>>) {
    forall k :: k in x.store ==> x.store[k] <= x.ctx
  }

  /** A joined map holds no empty flag. */
  predicate NonEmpty<I(==), K(==)>(x: Causal<I, map<K, Flag<I>>>) {
    forall k :: k in x.store ==> x.store[k] != {}
  }

  /** Flags under distinct keys hold distinct dots: each dot is one
      operation, made under one key. */
  predicate Disjoint<I(==), K(==)>(x: Causal<I, map<K, Flag<I>>>) {
    forall k, j :: k in x.store && j in x.store && k != j ==> x.store[k] !! x.store[j]
  }

  /** Keys the delta does not name keep their flags when the delta's context
      has not seen their dots. */
  lemma {:induction false} UntouchedKeysStay<I, K>(x: Causal<I, map<K, Flag<I>>>, y: Causal<I, map<K, Flag<I>>>, k: K)
    requires k in x.store && k !in y.store && x.store[k] != {}
    requires x.store[k] !! y.ctx
    ensures k in FlagMapJoin(x, y).store && FlagMapJoin(x, y).store[k] == x.store[k]
  {
    assert SetJoin(x.store[k], x.ctx, {}, y.ctx) == x.store[k];
  }

  /** `apply(k, enable)` with a fresh dot sets the key's flag to that dot,
      keeps every other key, and keeps the map covered. */
  lemma ApplyEnable<I, K>(x: Causal<I, map<K, Flag<I>>>, k: K, dot: Dot<I>)
    requires MapCovered(x) && NonEmpty(x) && Disjoint(x) && dot !in x.ctx
    ensures var r := FlagMapJoin(x, Apply(x, k, (v: Causal<I, Flag<I>>) => Enable(v, dot), {})).store;
      r == x.store[k := {dot}]
  {
    var delta := Apply(x, k, (v: Causal<I, Flag<I>>) => Enable(v, dot), {});
    var r := FlagMapJoin(x, delta).store;
    assert delta.store[k] == {dot};
    assert delta.ctx == Get(x.store, k, {}) + {dot};
    assert SetJoin(Get(x.store, k, {}), x.ctx, {dot}, delta.ctx) == {dot};
    assert k in r && r[k] == {dot};
    forall j | j != k && j in x.store
      ensures j in r && r[j] == x.store[j]
    {
      UntouchedKeysStay(x, delta, j);
    }
  }

  /** `apply(k, disable)` drops the key once joined. */
  lemma ApplyDisable<I, K>(x: Causal<I, map<K, Flag<I>>>, k: K, dot: Dot<I>)
    requires MapCovered(x)
    ensures k !in FlagMapJoin(x, Apply(x, k, (v: Causal<I, Flag<I>>) => Disable(v, dot), {})).store
  {
    var delta := Apply(x, k, (v: Causal<I, Flag<I>>) => Disable(v, dot), {});
    assert SetJoin(Get(x.store, k, {}), x.ctx, {}, delta.ctx) == {};
  }

  /** `remove(dot, k)` drops the key once joined. */
  lemma RemoveDropsKey<I, K>(x: Causal<I, map<K, Flag<I>>>, dot: Dot<I>, k: K)
    requires MapCovered(x)
    ensures k !in FlagMapJoin(x, Remove(x, dot, k, FlagDots)).store
  {
    var delta := Remove(x, dot, k, FlagDots);
    assert SetJoin(Get(x.store, k, {}), x.ctx, {}, delta.ctx) == {};
  }

  /** The scenario of the map test (crdts.rs:448-481): enable, disable,
      enable again, remove. */
  lemma MapScenario(k: string)
    ensures var x0: Causal<nat, map<string, Flag<nat>>> := Causal(map[], {});
      var x1 := FlagMapJoin(x0, Apply(x0, k, (v: Causal<nat, Flag<nat>>) => Enable(v, DotSets.Dot(0, 1)), {}));
      var x2 := FlagMapJoin(x1, Apply(x1, k, (v: Causal<nat, Flag<nat>>) => Disable(v, DotSets.Dot(1, 1)), {}));
      var x3 := FlagMapJoin(x2, Apply(x2, k, (v: Causal<nat, Flag<nat>>) => Enable(v, DotSets.Dot(0, 3)), {}));
      var x4 := FlagMapJoin(x3, Remove(x3, DotSets.Dot(0, 3), k, FlagDots));
      Lookup(x1.store, k).Some? && Value(x1.store[k]) &&
      Lookup(x2.store, k).None? &&
      Lookup(x3.store, k).Some? && Value(x3.store[k]) &&
      Lookup(x4.store, k).None?
  {
    var x0: Causal<nat, map<string, Flag<nat>>> := Causal(map[], {});
    ApplyEnable(x0, k, DotSets.Dot(0, 1));
    var x1 := FlagMapJoin(x0, Apply(x0, k, (v: Causal<nat, Flag<nat>>) => Enable(v, DotSets.Dot(0, 1)), {}));
    assert x1.ctx == {DotSets.Dot(0, 1)};
    ApplyDisable(x1, k, DotSets.Dot(1, 1));
    var x2 := FlagMapJoin(x1, Apply(x1, k, (v: Causal<nat, Flag<nat>>) => Disable(v, DotSets.Dot(1, 1)), {}));
    assert x2.ctx == {DotSets.Dot(0, 1), DotSets.Dot(1, 1)};
    assert MapCovered(x2) && x2.store == map[];
    ApplyEnable(x2, k, DotSets.Dot(0, 3));
    var x3 := FlagMapJoin(x2, Apply(x2, k, (v: Causal<nat, Flag<nat>>) => Enable(v, DotSets.Dot(0, 3)), {}));
    assert x3.store == map[k := {DotSets.Dot(0, 3)}];
    assert MapCovered(x3);
    RemoveDropsKey(x3, DotSets.Dot(0, 3), k);
  }

  /** As written, a flag operation applied under one key carries the whole
      context of the map, so joining it erases every other key: here "a"
      is enabled, then enabling "b" loses it. */
  lemma EnableAsWrittenErasesOtherKeys()
    ensures var x: Causal<nat, map<string, Flag<nat>>> := Causal(map["a" := {DotSets.Dot(0, 1)}], {DotSets.Dot(0, 1)});
      var asWritten := FlagMapJoin(x, Apply(x, "b", (v: Causal<nat, Flag<nat>>) => EnableAsWritten(v, DotSets.Dot(0, 2)), {}));
      var intended := FlagMapJoin(x, Apply(x, "b", (v: Causal<nat, Flag<nat>>) => Enable(v, DotSets.Dot(0, 2)), {}));
      "a" !in asWritten.store && "a" in intended.store
  {
    var x: Causal<nat, map<string, Flag<nat>>> := Causal(map["a" := {DotSets.Dot(0, 1)}], {DotSets.Dot(0, 1)});
    var d1 := Apply(x, "b", (v: Causal<nat, Flag<nat>>) => EnableAsWritten(v, DotSets.Dot(0, 2)), {});
    assert SetJoin({DotSets.Dot(0, 1)}, x.ctx, {}, d1.ctx) == {};
    ApplyEnable(x, "b", DotSets.Dot(0, 2));
  }
}
