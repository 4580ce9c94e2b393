/** The observed-remove array of crdt/src/crdts.rs (`ORArray`). Each element
    has a uid, the dot of the insert that made it. The metadata maps every
    uid to the dots that placed it and, under each, to the positional
    identifiers it was placed at; the content maps each identifier to its
    uid and value, in identifier order, which is the order of the array.
    Inserts, deletes, updates and moves build deltas that a replica joins
    into its state; the join keeps only content whose identifier the joined
    metadata still refers to. */
module ORArrays {
  import opened Wrappers
  import opened Dots
  import DotSets
  import Positions
  import TypedCrdts

  type Dot<I(==)> = DotSets.Dot<I>
  type Id<I(==)> = Positions.Identifier<I>
  type Ctx<I(==)> = TypedCrdts.Ctx<I>

  /** The positions one placing dot gave the element (`DotFun<I, PositionalIdentifier<I>>`). */
  type Path<I(==)> = map<Dot<I>, Id<I>>
  /** The placements of one element (`DotMap<Dot<I>, DotFun<..>>`). */
  type Inner<I(==)> = map<Dot<I>, Path<I>>
  /** `Metadata<I>`: the placements of every element, by uid. */
  type Meta<I(==)> = map<Dot<I>, Inner<I>>

  /** One entry of `content`: an identifier, the element's uid and its value. */
  datatype Entry<I(==), V> = Entry(pos: Id<I>, uid: Dot<I>, value: V)

  /** The fields of `ORArray`; `content` is the ordered map as its entries
      in key order. */
  datatype ArrayStore<I(==), V> = ArrayStore(meta: Meta<I>, content: seq<Entry<I, V>>)

  type State<I(==), V> = TypedCrdts.Causal<I, ArrayStore<I, V>>

  // ---------------------------------------------------------------------
  // The ordered content map
  // ---------------------------------------------------------------------

  /** The entries are in strictly ascending identifier order. */
  ghost predicate Sorted<I, V>(cmp: (I, I) -> Ordering, s: seq<Entry<I, V>>) {
    forall i, j :: 0 <= i < j < |s| ==> Positions.IdCmp(cmp, s[i].pos, s[j].pos) == Less
  }

  /** `BTreeMap::insert`: an entry whose identifier is equal to a present
      key replaces that key's value (the key itself stays); otherwise it is
      placed in order. */
  function Put<I(==), V>(cmp: (I, I) -> Ordering, s: seq<Entry<I, V>>, e: Entry<I, V>): (r: seq<Entry<I, V>>)
    ensures |r| <= |s| + 1
    decreases |s|
  {
    if |s| == 0 then [e]
    else match Positions.IdCmp(cmp, e.pos, s[0].pos)
      case Less => [e] + s
      case Equal => [Entry(s[0].pos, e.uid, e.value)] + s[1..]
      case Greater => [s[0]] + Put(cmp, s[1..], e)
  }

  /** `extend`: the entries of `es`, put one after the other. */
  function Extended<I(==), V>(cmp: (I, I) -> Ordering, s: seq<Entry<I, V>>, es: seq<Entry<I, V>>): seq<Entry<I, V>>
    decreases |es|
  {
    if |es| == 0 then s else Put(cmp, Extended(cmp, s, es[..|es| - 1]), es[|es| - 1])
  }

  /** `retain`: the entries whose identifier is in `keep`, in order. */
  function Kept<I(==), V>(s: seq<Entry<I, V>>, keep: set<Id<I>>): (r: seq<Entry<I, V>>)
    ensures |r| <= |s|
    ensures forall i :: 0 <= i < |r| ==> r[i] in s && r[i].pos in keep
  {
    if |s| == 0 then []
    else Kept(s[..|s| - 1], keep) + (if s[|s| - 1].pos in keep then [s[|s| - 1]] else [])
  }

  /** The entries of elements other than `u`, in order. */
  function Without<I(==), V>(s: seq<Entry<I, V>>, u: Dot<I>): (r: seq<Entry<I, V>>)
    ensures |r| <= |s|
    ensures forall i :: 0 <= i < |r| ==> r[i] in s && r[i].uid != u
    ensures forall i :: 0 <= i < |s| && s[i].uid != u ==> s[i] in r
  {
    if |s| == 0 then []
    else Without(s[..|s| - 1], u) + (if s[|s| - 1].uid != u then [s[|s| - 1]] else [])
  }

  /** `iter`: the values in array order. */
  function Values<I(==), V>(s: seq<Entry<I, V>>): (vs: seq<V>)
    ensures |vs| == |s|
    ensures forall i :: 0 <= i < |s| ==> vs[i] == s[i].value
  {
    if |s| == 0 then [] else Values(s[..|s| - 1]) + [s[|s| - 1].value]
  }

  /** `position`: the value at index `ix`, if there is one. */
  function ValueAt<I(==), V>(a: ArrayStore<I, V>, ix: nat): (r: Option<V>)
    ensures r.Some? <==> ix < |a.content|
    ensures r.Some? ==> r.value == Values(a.content)[ix]
  {
    if ix < |a.content| then Some(a.content[ix].value) else None
  }

  ghost function PosSet<I, V>(s: seq<Entry<I, V>>): set<Id<I>> {
    set e | e in s :: e.pos
  }

  /** No two entries belong to the same element. */
  ghost predicate UniqueUids<I, V>(s: seq<Entry<I, V>>) {
    forall i, j :: 0 <= i < j < |s| ==> s[i].uid != s[j].uid
  }

  // Lemmas on the ordered content

  lemma IdCmpRefl<I(!new)>(cmp: (I, I) -> Ordering, p: Id<I>)
    requires IsTotalOrder(cmp)
    ensures Positions.IdCmp(cmp, p, p) == Equal
  {
    Positions.IdCmpLaws(cmp, p, p);
  }

  /** An entry strictly between the neighbours at `t` is put at index `t`. */
  lemma {:induction false} PutBetween<I(!new), V>(cmp: (I, I) -> Ordering, s: seq<Entry<I, V>>, e: Entry<I, V>, t: nat)
    requires IsTotalOrder(cmp) && Sorted(cmp, s) && t <= |s|
    requires t > 0 ==> Positions.IdCmp(cmp, s[t - 1].pos, e.pos) == Less
    requires t < |s| ==> Positions.IdCmp(cmp, e.pos, s[t].pos) == Less
    ensures Put(cmp, s, e) == s[..t] + [e] + s[t..]
    decreases |s|
  {
    if |s| > 0 {
      if t == 0 {
        assert Positions.IdCmp(cmp, e.pos, s[0].pos) == Less;
      } else {
        if t - 1 > 0 {
          Positions.IdCmpTransitive(cmp, s[0].pos, s[t - 1].pos, e.pos);
        }
        Positions.IdCmpLaws(cmp, s[0].pos, e.pos);
        assert Positions.IdCmp(cmp, e.pos, s[0].pos) == Greater;
        PutBetween(cmp, s[1..], e, t - 1);
        SpliceAfterHead(s, t, e);
      }
    }
  }

  /** Replacing the element at `ix` is splicing the new one in its place. */
  lemma UpdateIsSplice<T>(s: seq<T>, ix: nat, e: T)
    requires ix < |s|
    ensures s[ix := e] == s[..ix] + [e] + s[ix + 1..]
  {
  }

  /** Splicing `e` in at `t - 1` behind the head is splicing it in at `t`. */
  lemma SpliceAfterHead<T>(s: seq<T>, t: nat, e: T)
    requires 0 < t <= |s|
    ensures [s[0]] + (s[1..][..t - 1] + [e] + s[1..][t - 1..]) == s[..t] + [e] + s[t..]
  {
    assert s[1..][..t - 1] == s[1..t];
    assert s[1..][t - 1..] == s[t..];
    assert s[..t] == [s[0]] + s[1..t];
  }

  /** An entry at a present identifier replaces that entry's uid and value. */
  lemma {:induction false} PutReplaces<I(!new), V>(cmp: (I, I) -> Ordering, s: seq<Entry<I, V>>, e: Entry<I, V>, i: nat)
    requires IsTotalOrder(cmp) && Sorted(cmp, s) && i < |s| && e.pos == s[i].pos
    ensures Put(cmp, s, e) == s[i := Entry(s[i].pos, e.uid, e.value)]
    decreases |s|
  {
    if i == 0 {
      IdCmpRefl(cmp, e.pos);
    } else {
      Positions.IdCmpLaws(cmp, s[0].pos, e.pos);
      assert Positions.IdCmp(cmp, e.pos, s[0].pos) == Greater;
      PutReplaces(cmp, s[1..], e, i - 1);
      assert s[i := Entry(s[i].pos, e.uid, e.value)] == [s[0]] + s[1..][i - 1 := Entry(s[i].pos, e.uid, e.value)];
    }
  }

  /** Inserting an entry strictly between its neighbours keeps the order. */
  lemma SortedInsertAt<I(!new), V>(cmp: (I, I) -> Ordering, s: seq<Entry<I, V>>, e: Entry<I, V>, t: nat)
    requires IsTotalOrder(cmp) && Sorted(cmp, s) && t <= |s|
    requires t > 0 ==> Positions.IdCmp(cmp, s[t - 1].pos, e.pos) == Less
    requires t < |s| ==> Positions.IdCmp(cmp, e.pos, s[t].pos) == Less
    ensures Sorted(cmp, s[..t] + [e] + s[t..])
    ensures forall i :: 0 <= i < |s| ==> s[i].pos != e.pos
  {
    var r := s[..t] + [e] + s[t..];
    forall i | 0 <= i < t
      ensures Positions.IdCmp(cmp, s[i].pos, e.pos) == Less
    {
      if i < t - 1 {
        Positions.IdCmpTransitive(cmp, s[i].pos, s[t - 1].pos, e.pos);
      }
    }
    forall i | t <= i < |s|
      ensures Positions.IdCmp(cmp, e.pos, s[i].pos) == Less
    {
      if i > t {
        Positions.IdCmpTransitive(cmp, e.pos, s[t].pos, s[i].pos);
      }
    }
    forall i, j | 0 <= i < j < |r|
      ensures Positions.IdCmp(cmp, r[i].pos, r[j].pos) == Less
    {
      if j < t {
      } else if j == t {
      } else if i < t {
        Positions.IdCmpTransitive(cmp, s[i].pos, e.pos, s[j - 1].pos);
      } else if i == t {
      } else {
      }
    }
    forall i | 0 <= i < |s|
      ensures s[i].pos != e.pos
    {
      IdCmpRefl(cmp, e.pos);
    }
  }

  /** `retain` keeps the order. */
  lemma {:induction false} KeptSorted<I(!new), V>(cmp: (I, I) -> Ordering, s: seq<Entry<I, V>>, keep: set<Id<I>>)
    requires IsTotalOrder(cmp) && Sorted(cmp, s)
    ensures Sorted(cmp, Kept(s, keep))
    decreases |s|
  {
    if |s| > 0 {
      var init := s[..|s| - 1];
      KeptSorted(cmp, init, keep);
      var k := Kept(init, keep);
      forall i | 0 <= i < |k|
        ensures Positions.IdCmp(cmp, k[i].pos, s[|s| - 1].pos) == Less
      {
        assert k[i] in init;
      }
    }
  }

  /** `retain` keeps everything when every identifier is kept. */
  lemma {:induction false} KeptAll<I, V>(s: seq<Entry<I, V>>, keep: set<Id<I>>)
    requires forall i :: 0 <= i < |s| ==> s[i].pos in keep
    ensures Kept(s, keep) == s
    decreases |s|
  {
    if |s| > 0 {
      KeptAll(s[..|s| - 1], keep);
    }
  }

  /** `retain` by identifier drops the entries of `u` when an entry's
      identifier is kept exactly if it belongs to another element. */
  lemma {:induction false} KeptWithout<I, V>(s: seq<Entry<I, V>>, keep: set<Id<I>>, u: Dot<I>)
    requires forall i :: 0 <= i < |s| ==> (s[i].pos in keep <==> s[i].uid != u)
    ensures Kept(s, keep) == Without(s, u)
    decreases |s|
  {
    if |s| > 0 {
      KeptWithout(s[..|s| - 1], keep, u);
    }
  }

  /** When `u` owns one entry, at `ix`, dropping it removes that index. */
  lemma {:induction false} WithoutOne<I, V>(s: seq<Entry<I, V>>, ix: nat)
    requires ix < |s| && UniqueUids(s)
    ensures Without(s, s[ix].uid) == s[..ix] + s[ix + 1..]
    decreases |s|
  {
    var u := s[ix].uid;
    var init := s[..|s| - 1];
    if ix == |s| - 1 {
      WithoutNone(init, u);
    } else {
      WithoutOne(init, ix);
      DropBeforeLast(s, ix);
    }
  }

  /** Dropping index `ix` before the last element, then appending it. */
  lemma DropBeforeLast<T>(s: seq<T>, ix: nat)
    requires ix < |s| - 1
    ensures s[..|s| - 1][..ix] + s[..|s| - 1][ix + 1..] + [s[|s| - 1]] == s[..ix] + s[ix + 1..]
  {
    var init := s[..|s| - 1];
    assert init[..ix] == s[..ix];
    assert init[ix + 1..] + [s[|s| - 1]] == s[ix + 1..];
  }

  lemma {:induction false} WithoutNone<I, V>(s: seq<Entry<I, V>>, u: Dot<I>)
    requires forall i :: 0 <= i < |s| ==> s[i].uid != u
    ensures Without(s, u) == s
    decreases |s|
  {
    if |s| > 0 {
      WithoutNone(s[..|s| - 1], u);
    }
  }

  lemma ValuesSplice<I, V>(a: seq<Entry<I, V>>, b: seq<Entry<I, V>>)
    ensures Values(a + b) == Values(a) + Values(b)
  {
  }

  // ---------------------------------------------------------------------
  // The metadata
  // ---------------------------------------------------------------------

  /** The values at one dot of a `DotFun` of identifiers are the same on
      both sides (the identifier's lattice join is unreachable), so a shared
      dot keeps this side's. */
  function KeepFirst<T>(a: T, b: T): T {
    a
  }

  function PathJoin<I(==)>(p: Path<I>, c: Ctx<I>, q: Path<I>, qc: Ctx<I>): Path<I> {
    TypedCrdts.FunJoin(p, c, q, qc, KeepFirst)
  }

  function InnerJoin<I(==)>(m: Inner<I>, c: Ctx<I>, n: Inner<I>, nc: Ctx<I>): Inner<I> {
    TypedCrdts.MapJoin(m, c, n, nc, PathJoin, map[])
  }

  /** The join of two metadata maps, a `DotMap` of `DotMap`s of `DotFun`s. */
  function MetaJoin<I(==)>(m: Meta<I>, c: Ctx<I>, n: Meta<I>, nc: Ctx<I>): Meta<I> {
    TypedCrdts.MapJoin(m, c, n, nc, InnerJoin, map[])
  }

  /** `DotStore::dots` of one element's placements: the dots of its paths. */
  function InnerDots<I(==)>(inner: Inner<I>): set<Dot<I>> {
    set k, d | k in inner && d in inner[k] :: d
  }

  /** The identifiers one element is placed at. */
  function PosOf<I(==)>(inner: Inner<I>): set<Id<I>> {
    set k, d | k in inner && d in inner[k] :: inner[k][d]
  }

  /** `all_pos` of the join: every identifier the metadata refers to. */
  function AllPos<I(==)>(meta: Meta<I>): set<Id<I>> {
    set u, p | u in meta && p in PosOf(meta[u]) :: p
  }

  ghost function MetaDots<I>(meta: Meta<I>): set<Dot<I>> {
    set u, d | u in meta && d in InnerDots(meta[u]) :: d
  }

  ghost predicate NonEmptyPaths<I>(inner: Inner<I>) {
    forall k :: k in inner ==> inner[k] != map[]
  }

  lemma InnerMembers<I>(inner: Inner<I>, k: Dot<I>, d: Dot<I>)
    requires k in inner && d in inner[k]
    ensures d in InnerDots(inner) && inner[k][d] in PosOf(inner)
  {
  }

  lemma MetaMembers<I>(meta: Meta<I>, u: Dot<I>)
    requires u in meta
    ensures InnerDots(meta[u]) <= MetaDots(meta) && PosOf(meta[u]) <= AllPos(meta)
  {
  }

  /** A path whose dots this side has seen and the other side has dropped
      gives way to the other side's path, whose dots this side has not seen. */
  lemma PathJoinReplaces<I>(p: Path<I>, c: Ctx<I>, q: Path<I>, qc: Ctx<I>)
    requires p.Keys <= c && p.Keys <= qc && q.Keys !! c
    ensures PathJoin(p, c, q, qc) == q
  {
    var r := PathJoin(p, c, q, qc);
    assert r.Keys == q.Keys;
  }

  /** A path the other side has not seen stays as it is. */
  lemma PathJoinKeeps<I>(p: Path<I>, c: Ctx<I>, qc: Ctx<I>)
    requires p.Keys !! qc
    ensures PathJoin(p, c, map[], qc) == p
  {
    var r := PathJoin(p, c, map[], qc);
    assert r.Keys == p.Keys;
  }

  /** The placements of an element are replaced by the other side's when
      this side's are all seen there and the other side's are repl here. */
  lemma InnerJoinReplaces<I>(prev: Inner<I>, c: Ctx<I>, repl: Inner<I>, nc: Ctx<I>)
    requires InnerDots(prev) <= c && InnerDots(prev) <= nc && InnerDots(repl) !! c
    requires NonEmptyPaths(repl)
    ensures InnerJoin(prev, c, repl, nc) == repl
  {
    var r := InnerJoin(prev, c, repl, nc);
    forall k | k in prev.Keys + repl.Keys
      ensures PathJoin(TypedCrdts.Get(prev, k, map[]), c, TypedCrdts.Get(repl, k, map[]), nc) == TypedCrdts.Get(repl, k, map[])
    {
      var p, q := TypedCrdts.Get(prev, k, map[]), TypedCrdts.Get(repl, k, map[]);
      forall d | d in p ensures d in c && d in nc {
        InnerMembers(prev, k, d);
      }
      forall d | d in q ensures d !in c {
        InnerMembers(repl, k, d);
      }
      PathJoinReplaces(p, c, q, nc);
    }
    TypedCrdts.MapJoinIs(prev, c, repl, nc, PathJoin, map[], repl);
  }

  /** Placements the other side has not seen stay as they are. */
  lemma InnerJoinKeeps<I>(prev: Inner<I>, c: Ctx<I>, nc: Ctx<I>)
    requires InnerDots(prev) !! nc && NonEmptyPaths(prev)
    ensures InnerJoin(prev, c, map[], nc) == prev
  {
    var r := InnerJoin(prev, c, map[], nc);
    forall k | k in prev
      ensures PathJoin(prev[k], c, map[], nc) == prev[k]
    {
      forall d | d in prev[k] ensures d !in nc {
        InnerMembers(prev, k, d);
      }
      PathJoinKeeps(prev[k], c, nc);
    }
    TypedCrdts.MapJoinIs(prev, c, map[], nc, PathJoin, map[], prev);
  }

  /** The metadata join with a delta naming at most the element `u`: `u`
      takes the delta's placements (and goes when they are empty), every
      other element stays. */
  lemma MetaJoinUpdate<I>(meta: Meta<I>, c: Ctx<I>, n: Meta<I>, nc: Ctx<I>, u: Dot<I>)
    requires n.Keys <= {u}
    requires forall k :: k in meta && k != u ==> InnerDots(meta[k]) !! nc && NonEmptyPaths(meta[k]) && meta[k] != map[]
    requires InnerDots(TypedCrdts.Get(meta, u, map[])) <= c
    requires InnerDots(TypedCrdts.Get(meta, u, map[])) <= nc
    requires InnerDots(TypedCrdts.Get(n, u, map[])) !! c && NonEmptyPaths(TypedCrdts.Get(n, u, map[]))
    ensures var repl := TypedCrdts.Get(n, u, map[]);
      MetaJoin(meta, c, n, nc) == if repl == map[] then meta - {u} else meta[u := repl]
  {
    var repl := TypedCrdts.Get(n, u, map[]);
    var target := if repl == map[] then meta - {u} else meta[u := repl];
    forall k | k in meta.Keys + n.Keys
      ensures InnerJoin(TypedCrdts.Get(meta, k, map[]), c, TypedCrdts.Get(n, k, map[]), nc) == TypedCrdts.Get(target, k, map[])
    {
      if k == u {
        InnerJoinReplaces(TypedCrdts.Get(meta, u, map[]), c, repl, nc);
      } else {
        assert TypedCrdts.Get(n, k, map[]) == map[];
        InnerJoinKeeps(meta[k], c, nc);
      }
    }
    TypedCrdts.MapJoinIs(meta, c, n, nc, InnerJoin, map[], target);
  }

  // ---------------------------------------------------------------------
  // Join
  // ---------------------------------------------------------------------

  /** `ORArray::join`: the metadata join, then the other side's content
      put into this side's, then only the entries whose identifier the
      joined metadata refers to are retained. */
  function JoinStores<I(==), V>(cmp: (I, I) -> Ordering, a: ArrayStore<I, V>, ac: Ctx<I>, b: ArrayStore<I, V>, bc: Ctx<I>): (r: ArrayStore<I, V>)
    ensures r.meta == MetaJoin(a.meta, ac, b.meta, bc)
    ensures forall i :: 0 <= i < |r.content| ==> r.content[i].pos in AllPos(r.meta)
  {
    var meta := MetaJoin(a.meta, ac, b.meta, bc);
    ArrayStore(meta, Kept(Extended(cmp, a.content, b.content), AllPos(meta)))
  }

  /** The join of two array states. */
  function Join<I(==), V>(cmp: (I, I) -> Ordering, x: State<I, V>, y: State<I, V>): (r: State<I, V>)
    ensures r.ctx == x.ctx + y.ctx
    ensures r.store.meta == MetaJoin(x.store.meta, x.ctx, y.store.meta, y.ctx)
    ensures forall i :: 0 <= i < |r.store.content| ==> r.store.content[i].pos in AllPos(r.store.meta)
  {
    TypedCrdts.Causal(JoinStores(cmp, x.store, x.ctx, y.store, y.ctx), x.ctx + y.ctx)
  }

  function EmptyStore<I(==), V>(): ArrayStore<I, V> {
    ArrayStore(map[], [])
  }

  /** `is_empty`: no element is placed. */
  predicate IsEmpty<I(==), V>(a: ArrayStore<I, V>) {
    a.meta == map[]
  }

  // ---------------------------------------------------------------------
  // Delta builders
  // ---------------------------------------------------------------------

  /** The index clamped to the length, as `ix.min(len)`. */
  function Clamp(ix: nat, len: nat): (t: nat)
    ensures t <= len && (ix <= len ==> t == ix)
  {
    if ix < len then ix else len
  }

  /** The identifiers left and right of the gap before index `t`. */
  function Left<I(==), V>(s: seq<Entry<I, V>>, t: nat): Option<Id<I>>
    requires t <= |s|
  {
    if t > 0 then Some(s[t - 1].pos) else None
  }

  function Right<I(==), V>(s: seq<Entry<I, V>>, t: nat): Option<Id<I>>
    requires t <= |s|
  {
    if t < |s| then Some(s[t].pos) else None
  }

  /** The identifier `between` makes for the gap before index `t`. The
      source passes `dot.id` (`crdt/src/crdts.rs:237`, `:300`) where
      `between` takes a dot; the model passes the dot. */
  function Place<I(==), V>(s: seq<Entry<I, V>>, t: nat, dot: Dot<I>): (p: Id<I>)
    requires t <= |s|
    ensures p.id == dot
  {
    Positions.IdBetween(Left(s, t), Right(s, t), dot)
  }

  /** The identifier `between` as written makes: at the front of a
      non-empty array its mantissa wraps below 0. */
  function PlaceAsWritten<I(==), V>(s: seq<Entry<I, V>>, t: nat, dot: Dot<I>): (p: Id<I>)
    requires t <= |s|
    ensures p.id == dot
    ensures t > 0 || t == |s| ==> p == Place(s, t, dot)
  {
    Positions.IdBetweenAsWritten(Left(s, t), Right(s, t), dot)
  }

  /** Two inserts at index 0 of an empty array. The first one is placed at
      the zero position; as written, the second one wraps to the largest
      mantissa and lands after the first, where the corrected placement
      puts it in front. */
  lemma SecondFrontInsert()
    ensures var cmp := (a: nat, b: nat) => CmpNat(a, b);
      var d1: Dot<nat> := DotSets.Dot(1, 1);
      var d2: Dot<nat> := DotSets.Dot(2, 1);
      var none: seq<Entry<nat, string>> := [];
      var s := [Entry(Place(none, 0, d1), d1, "a")];
      var w := Entry(PlaceAsWritten(s, 0, d2), d2, "b");
      var c := Entry(Place(s, 0, d2), d2, "b");
      Put(cmp, s, w) == s + [w] && Put(cmp, s, c) == [c] + s
  {
    var cmp := (a: nat, b: nat) => CmpNat(a, b);
    var d1: Dot<nat> := DotSets.Dot(1, 1);
    var d2: Dot<nat> := DotSets.Dot(2, 1);
    var none: seq<Entry<nat, string>> := [];
    var s := [Entry(Place(none, 0, d1), d1, "a")];
    assert s[0].pos == Positions.Identifier(Positions.Zero, d1);
    assert PlaceAsWritten(s, 0, d2).val == Positions.Position(Positions.U128 - 1, 0);
    assert Place(s, 0, d2).val == Positions.Position(-1, 0);
  }

  /** The gap's neighbours sit at distinct positions, so `between` has room. */
  predicate Room<I(==), V>(s: seq<Entry<I, V>>, t: nat) {
    0 < t < |s| ==> Positions.Cmp(s[t - 1].pos.val, s[t].pos.val) == Less
  }

  /** The new identifier lies strictly between the gap's neighbours. */
  lemma PlaceIsBetween<I(!new), V>(cmp: (I, I) -> Ordering, s: seq<Entry<I, V>>, t: nat, dot: Dot<I>)
    requires IsTotalOrder(cmp) && t <= |s| && Room(s, t)
    ensures t > 0 ==> Positions.IdCmp(cmp, s[t - 1].pos, Place(s, t, dot)) == Less
    ensures t < |s| ==> Positions.IdCmp(cmp, Place(s, t, dot), s[t].pos) == Less
  {
    var p := Place(s, t, dot);
    if 0 < t < |s| {
      Positions.IdBetweenIsStrict(cmp, s[t - 1].pos, s[t].pos, dot);
    } else if t > 0 {
      Positions.IdCmpLaws(cmp, s[t - 1].pos, p);
    } else if t < |s| {
      Positions.IdCmpLaws(cmp, p, s[t].pos);
    }
  }

  /** No entry of an ordered content sits at the identifier placed in one
      of its gaps. */
  lemma PlaceFresh<I(!new), V>(cmp: (I, I) -> Ordering, s: seq<Entry<I, V>>, t: nat, dot: Dot<I>)
    requires IsTotalOrder(cmp) && Sorted(cmp, s) && t <= |s| && Room(s, t)
    ensures Place(s, t, dot) !in PosSet(s)
  {
    if |s| > 0 {
      var p := Place(s, t, dot);
      PlaceIsBetween(cmp, s, t, dot);
      PlacedFacts(cmp, s, Entry(p, dot, s[0].value), t);
    }
  }

  /** `insert`: a new element, its uid the insert's dot, placed at the
      clamped index by one path of that dot. */
  function Insert<I(==), V>(x: State<I, V>, ix: nat, dot: Dot<I>, v: V): (delta: State<I, V>)
    ensures delta.ctx == {dot}
    ensures var p := Place(x.store.content, Clamp(ix, |x.store.content|), dot);
      delta.store == ArrayStore(map[dot := map[dot := map[dot := p]]], [Entry(p, dot, v)])
  {
    var p := Place(x.store.content, Clamp(ix, |x.store.content|), dot);
    TypedCrdts.Causal(ArrayStore(map[dot := map[dot := map[dot := p]]], [Entry(p, dot, v)]), {dot})
  }

  /** `delete`: an empty store whose context holds the placing dots of the
      element at `ix` and the new dot; the empty delta past the end. The
      source expects the element's uid in the metadata. */
  function Delete<I(==), V>(x: State<I, V>, ix: nat, dot: Dot<I>): (delta: State<I, V>)
    requires ix < |x.store.content| ==> x.store.content[ix].uid in x.store.meta
    ensures delta.store == EmptyStore()
    ensures ix < |x.store.content| ==> delta.ctx == InnerDots(x.store.meta[x.store.content[ix].uid]) + {dot}
    ensures ix >= |x.store.content| ==> delta.ctx == {}
  {
    if ix < |x.store.content| then
      TypedCrdts.Causal(EmptyStore(), InnerDots(x.store.meta[x.store.content[ix].uid]) + {dot})
    else TypedCrdts.Causal(EmptyStore(), {})
  }

  /** `update`: the element at `ix` gets `f` of its value at the same
      identifier, now placed by the new dot alone; past the end only the
      dot is recorded. */
  function Update<I(==), V>(x: State<I, V>, ix: nat, dot: Dot<I>, f: V -> V): (delta: State<I, V>)
    requires ix < |x.store.content| ==> x.store.content[ix].uid in x.store.meta
    ensures ix >= |x.store.content| ==> delta == TypedCrdts.Causal(EmptyStore(), {dot})
    ensures ix < |x.store.content| ==>
      var e := x.store.content[ix];
      delta.ctx == InnerDots(x.store.meta[e.uid]) + {dot} &&
      delta.store == ArrayStore(map[e.uid := map[dot := map[dot := e.pos]]], [Entry(e.pos, e.uid, f(e.value))])
  {
    if ix < |x.store.content| then
      var e := x.store.content[ix];
      TypedCrdts.Causal(ArrayStore(map[e.uid := map[dot := map[dot := e.pos]]], [Entry(e.pos, e.uid, f(e.value))]),
                        InnerDots(x.store.meta[e.uid]) + {dot})
    else TypedCrdts.Causal(EmptyStore(), {dot})
  }

  /** `move`: the element at `ix` keeps its uid and value and is placed in
      the gap before the clamped index `to`; every placing dot of it now
      leads to the one new identifier. */
  function Move<I(==), V>(x: State<I, V>, ix: nat, to: nat, dot: Dot<I>): (delta: State<I, V>)
    requires ix < |x.store.content| ==>
      x.store.content[ix].uid in x.store.meta
    ensures ix >= |x.store.content| ==> delta == TypedCrdts.Causal(EmptyStore(), {dot})
    ensures ix < |x.store.content| ==>
      var e := x.store.content[ix];
      var p := Place(x.store.content, Clamp(to, |x.store.content|), dot);
      delta.ctx == InnerDots(x.store.meta[e.uid]) + {dot} &&
      delta.store.content == [Entry(p, e.uid, e.value)] &&
      delta.store.meta.Keys == {e.uid} &&
      delta.store.meta[e.uid] == Repath(x.store.meta[e.uid], dot, p)
  {
    if ix < |x.store.content| then
      var e := x.store.content[ix];
      var p := Place(x.store.content, Clamp(to, |x.store.content|), dot);
      TypedCrdts.Causal(ArrayStore(map[e.uid := Repath(x.store.meta[e.uid], dot, p)], [Entry(p, e.uid, e.value)]),
                        InnerDots(x.store.meta[e.uid]) + {dot})
    else TypedCrdts.Causal(EmptyStore(), {dot})
  }

  /** The placements of a moved element: each placing dot's path becomes
      the single new one. */
  function Repath<I(==)>(inner: Inner<I>, dot: Dot<I>, p: Id<I>): (r: Inner<I>)
    ensures r.Keys == inner.Keys
    ensures forall k :: k in r ==> r[k] == map[dot := p]
  {
    map k | k in inner :: map[dot := p]
  }

  /** A moved element has one placing dot and one identifier. */
  lemma RepathSingle<I>(inner: Inner<I>, dot: Dot<I>, p: Id<I>)
    requires inner != map[]
    ensures InnerDots(Repath(inner, dot, p)) == {dot} && PosOf(Repath(inner, dot, p)) == {p}
    ensures NonEmptyPaths(Repath(inner, dot, p)) && Repath(inner, dot, p) != map[]
  {
    var r := Repath(inner, dot, p);
    var k :| k in inner;
    InnerMembers(r, k, dot);
    assert k in r;
  }

  // ---------------------------------------------------------------------
  // Well-formed states
  // ---------------------------------------------------------------------

  /** The metadata of a state reached by joining deltas: the context has
      seen every uid and placing dot, no element or path is empty, and
      distinct elements share neither placing dots nor identifiers. */
  ghost predicate MetaWf<I>(meta: Meta<I>, ctx: Ctx<I>) {
    meta.Keys <= ctx && MetaDots(meta) <= ctx &&
    (forall u :: u in meta ==> meta[u] != map[] && NonEmptyPaths(meta[u])) &&
    (forall u, w :: u in meta && w in meta && u != w ==>
       InnerDots(meta[u]) !! InnerDots(meta[w]) && PosOf(meta[u]) !! PosOf(meta[w]))
  }

  /** The content agrees with the metadata: it is ordered, it holds exactly
      the identifiers the metadata refers to, and each entry sits at an
      identifier of its own element. */
  ghost predicate ContentWf<I, V>(cmp: (I, I) -> Ordering, meta: Meta<I>, s: seq<Entry<I, V>>) {
    Sorted(cmp, s) &&
    PosSet(s) == AllPos(meta) &&
    (forall i :: 0 <= i < |s| ==> s[i].uid in meta && s[i].pos in PosOf(meta[s[i].uid]))
  }

  ghost predicate Wf<I, V>(cmp: (I, I) -> Ordering, x: State<I, V>) {
    MetaWf(x.store.meta, x.ctx) && ContentWf(cmp, x.store.meta, x.store.content)
  }

  lemma EmptyWf<I, V>(cmp: (I, I) -> Ordering)
    ensures Wf(cmp, TypedCrdts.Causal(EmptyStore<I, V>(), {}))
  {
  }

  /** The metadata after the join of a delta that replaces one element's
      placements by `repl`, or drops the element when `repl` is empty. */
  function Replaced<I(==)>(meta: Meta<I>, u: Dot<I>, repl: Inner<I>): Meta<I> {
    if repl == map[] then meta - {u} else meta[u := repl]
  }

  lemma {:induction false} KeptHas<I, V>(s: seq<Entry<I, V>>, keep: set<Id<I>>, i: nat)
    requires i < |s| && s[i].pos in keep
    ensures s[i] in Kept(s, keep)
    decreases |s|
  {
    if i < |s| - 1 {
      KeptHas(s[..|s| - 1], keep, i);
    }
  }

  /** Replacing one element's placements by fresh ones keeps the metadata
      well formed. */
  lemma MetaWfReplaced<I>(meta: Meta<I>, ctx: Ctx<I>, u: Dot<I>, repl: Inner<I>, d: Ctx<I>)
    requires MetaWf(meta, ctx)
    requires u in ctx + d
    requires InnerDots(repl) <= d && InnerDots(repl) !! ctx && NonEmptyPaths(repl)
    requires forall w :: w in meta && w != u ==> PosOf(repl) !! PosOf(meta[w])
    ensures MetaWf(Replaced(meta, u, repl), ctx + d)
  {
    var m := Replaced(meta, u, repl);
    forall w | w in m
      ensures InnerDots(m[w]) <= ctx + d
    {
      if w != u {
        MetaMembers(meta, w);
      }
    }
    forall w, v | w in m && v in m && w != v
      ensures InnerDots(m[w]) !! InnerDots(m[v]) && PosOf(m[w]) !! PosOf(m[v])
    {
      if w == u {
        MetaMembers(meta, v);
      } else if v == u {
        MetaMembers(meta, w);
      }
    }
  }

  /** The content after the join of such a delta: `t` is the content once
      the delta's entries are put in, and the retain pass keeps what the
      new metadata refers to. */
  lemma ContentWfReplaced<I(!new), V>(cmp: (I, I) -> Ordering, meta: Meta<I>, s: seq<Entry<I, V>>, u: Dot<I>, repl: Inner<I>, t: seq<Entry<I, V>>)
    requires IsTotalOrder(cmp) && ContentWf(cmp, meta, s)
    requires forall w, v :: w in meta && v in meta && w != v ==> PosOf(meta[w]) !! PosOf(meta[v])
    requires forall w :: w in meta && w != u ==> PosOf(repl) !! PosOf(meta[w])
    requires Sorted(cmp, t)
    requires forall i :: 0 <= i < |t| ==>
      (t[i].uid == u && t[i].pos in PosOf(repl)) || (t[i] in s && t[i].pos !in PosOf(repl))
    requires forall i :: 0 <= i < |s| && s[i].pos !in PosOf(repl) ==> s[i] in t
    requires PosOf(repl) <= PosSet(t)
    ensures ContentWf(cmp, Replaced(meta, u, repl), Kept(t, AllPos(Replaced(meta, u, repl))))
  {
    var m := Replaced(meta, u, repl);
    KeptSorted(cmp, t, AllPos(m));
    ReplacedCovered(meta, s, u, repl, t);
    ReplacedOwned(meta, s, u, repl, t);
  }

  lemma ReplacedCovered<I, V>(meta: Meta<I>, s: seq<Entry<I, V>>, u: Dot<I>, repl: Inner<I>, t: seq<Entry<I, V>>)
    requires PosSet(s) == AllPos(meta)
    requires forall w :: w in meta && w != u ==> PosOf(repl) !! PosOf(meta[w])
    requires forall i :: 0 <= i < |s| && s[i].pos !in PosOf(repl) ==> s[i] in t
    requires PosOf(repl) <= PosSet(t)
    ensures PosSet(Kept(t, AllPos(Replaced(meta, u, repl)))) == AllPos(Replaced(meta, u, repl))
  {
    var m := Replaced(meta, u, repl);
    var keep := AllPos(m);
    var r := Kept(t, keep);
    forall p | p in keep
      ensures p in PosSet(r)
    {
      var w :| w in m && p in PosOf(m[w]);
      var j: nat;
      if w == u {
        assert p in PosSet(t);
        j :| j < |t| && t[j].pos == p;
      } else {
        assert p in AllPos(meta);
        var i :| 0 <= i < |s| && s[i].pos == p;
        assert s[i] in t;
        j :| j < |t| && t[j] == s[i];
      }
      KeptHas(t, keep, j);
    }
  }

  lemma ReplacedOwned<I, V>(meta: Meta<I>, s: seq<Entry<I, V>>, u: Dot<I>, repl: Inner<I>, t: seq<Entry<I, V>>)
    requires forall i :: 0 <= i < |s| ==> s[i].uid in meta && s[i].pos in PosOf(meta[s[i].uid])
    requires forall w, v :: w in meta && v in meta && w != v ==> PosOf(meta[w]) !! PosOf(meta[v])
    requires forall i :: 0 <= i < |t| ==>
      (t[i].uid == u && t[i].pos in PosOf(repl)) || (t[i] in s && t[i].pos !in PosOf(repl))
    ensures var m := Replaced(meta, u, repl); var r := Kept(t, AllPos(m));
      forall i :: 0 <= i < |r| ==> r[i].uid in m && r[i].pos in PosOf(m[r[i].uid])
  {
    var m := Replaced(meta, u, repl);
    var r := Kept(t, AllPos(m));
    forall i | 0 <= i < |r|
      ensures r[i].uid in m && r[i].pos in PosOf(m[r[i].uid])
    {
      var e := r[i];
      assert e in t && e.pos in AllPos(m);
      var j :| 0 <= j < |t| && t[j] == e;
      if !(e.uid == u && e.pos in PosOf(repl)) {
        var k :| 0 <= k < |s| && s[k] == e;
        assert e.uid in meta && e.pos in PosOf(meta[e.uid]);
      }
    }
  }

  lemma {:induction false} KeptConcat<I, V>(a: seq<Entry<I, V>>, b: seq<Entry<I, V>>, keep: set<Id<I>>)
    ensures Kept(a + b, keep) == Kept(a, keep) + Kept(b, keep)
    decreases |b|
  {
    if |b| == 0 {
      assert a + b == a;
    } else {
      KeptConcat(a, b[..|b| - 1], keep);
      assert (a + b)[..|a + b| - 1] == a + b[..|b| - 1];
    }
  }

  lemma ValuesSlice<I, V>(s: seq<Entry<I, V>>, i: nat, j: nat)
    requires i <= j <= |s|
    ensures Values(s[i..j]) == Values(s)[i..j]
  {
  }

  /** Putting a single entry is what extending by it does. */
  lemma ExtendedOne<I, V>(cmp: (I, I) -> Ordering, s: seq<Entry<I, V>>, e: Entry<I, V>)
    ensures Extended(cmp, s, [e]) == Put(cmp, s, e)
  {
    assert [e][..0] == [];
  }

  /** Every entry sits at an identifier of its own element. */
  ghost predicate Owned<I, V>(meta: Meta<I>, s: seq<Entry<I, V>>) {
    forall i :: 0 <= i < |s| ==> s[i].uid in meta && s[i].pos in PosOf(meta[s[i].uid])
  }

  /** Putting an entry into the gap before index `t`: the content stays
      ordered and every old entry keeps a position other than the new one. */
  lemma PlacedFacts<I(!new), V>(cmp: (I, I) -> Ordering, s: seq<Entry<I, V>>, e: Entry<I, V>, t: nat)
    requires IsTotalOrder(cmp) && Sorted(cmp, s) && t <= |s|
    requires t > 0 ==> Positions.IdCmp(cmp, s[t - 1].pos, e.pos) == Less
    requires t < |s| ==> Positions.IdCmp(cmp, e.pos, s[t].pos) == Less
    ensures var r := s[..t] + [e] + s[t..];
      Sorted(cmp, r) && Put(cmp, s, e) == r && r[t] == e &&
      (forall i :: 0 <= i < |r| ==> r[i] == e || (r[i] in s && r[i].pos != e.pos)) &&
      (forall i :: 0 <= i < |s| ==> s[i] in r && s[i].pos != e.pos)
  {
    PutBetween(cmp, s, e, t);
    SortedInsertAt(cmp, s, e, t);
    var r := s[..t] + [e] + s[t..];
    forall i | 0 <= i < |r|
      ensures r[i] == e || (r[i] in s && r[i].pos != e.pos)
    {
      if i < t {
        assert r[i] == s[i];
      } else if i > t {
        assert r[i] == s[i - 1];
      }
    }
    forall i | 0 <= i < |s|
      ensures s[i] in r
    {
      if i < t {
        assert r[i] == s[i];
      } else {
        assert r[i + 1] == s[i];
      }
    }
  }

  /** The retain pass of a join that re-placed element `u` at `e.pos`: every
      other element stays, `u` is left only at its new identifier. */
  lemma KeptAround<I, V>(meta: Meta<I>, u: Dot<I>, repl: Inner<I>,
                         a: seq<Entry<I, V>>, e: Entry<I, V>, b: seq<Entry<I, V>>)
    requires Owned(meta, a) && Owned(meta, b)
    requires forall w, v :: w in meta && v in meta && w != v ==> PosOf(meta[w]) !! PosOf(meta[v])
    requires PosOf(repl) == {e.pos}
    requires forall i :: 0 <= i < |a| ==> a[i].pos != e.pos
    requires forall i :: 0 <= i < |b| ==> b[i].pos != e.pos
    ensures Kept(a + [e] + b, AllPos(meta[u := repl])) == Without(a, u) + [e] + Without(b, u)
  {
    var keep := AllPos(meta[u := repl]);
    assert e.pos in PosOf(meta[u := repl][u]);
    KeptSingle(e, keep);
    KeptConcat(a + [e], b, keep);
    KeptConcat(a, [e], keep);
    KeptAroundSide(meta, u, repl, a, e);
    KeptAroundSide(meta, u, repl, b, e);
  }

  /** The two sides of the gap at `t` are owned and avoid the identifier `p`
      when the whole content does. */
  lemma SidesOwned<I, V>(meta: Meta<I>, s: seq<Entry<I, V>>, t: nat, p: Id<I>)
    requires t <= |s| && Owned(meta, s)
    requires forall i :: 0 <= i < |s| ==> s[i].pos != p
    ensures Owned(meta, s[..t]) && Owned(meta, s[t..])
    ensures forall i :: 0 <= i < |s[..t]| ==> s[..t][i].pos != p
    ensures forall i :: 0 <= i < |s[t..]| ==> s[t..][i].pos != p
  {
    assert forall i :: 0 <= i < |s[t..]| ==> s[t..][i] == s[t + i];
  }

  lemma KeptSingle<I, V>(e: Entry<I, V>, keep: set<Id<I>>)
    requires e.pos in keep
    ensures Kept([e], keep) == [e]
  {
    assert [e][..0] == [];
  }

  lemma KeptAroundSide<I, V>(meta: Meta<I>, u: Dot<I>, repl: Inner<I>, a: seq<Entry<I, V>>, e: Entry<I, V>)
    requires Owned(meta, a)
    requires forall w, v :: w in meta && v in meta && w != v ==> PosOf(meta[w]) !! PosOf(meta[v])
    requires PosOf(repl) == {e.pos}
    requires forall i :: 0 <= i < |a| ==> a[i].pos != e.pos
    ensures Kept(a, AllPos(meta[u := repl])) == Without(a, u)
  {
    var m := meta[u := repl];
    forall i | 0 <= i < |a|
      ensures a[i].pos in AllPos(m) <==> a[i].uid != u
    {
      var w := a[i].uid;
      if w != u {
        assert a[i].pos in PosOf(m[w]);
      }
    }
    KeptWithout(a, AllPos(m), u);
  }

  /** The metadata join of a delta made for element `u`: its context holds
      `u`'s placing dots and otherwise only dots the state has not seen, its
      store at most `u`'s new placements. */
  lemma MetaStep<I>(meta: Meta<I>, ctx: Ctx<I>, u: Dot<I>, n: Meta<I>, d: Ctx<I>)
    requires MetaWf(meta, ctx) && n.Keys <= {u}
    requires InnerDots(TypedCrdts.Get(meta, u, map[])) <= d
    requires forall z :: z in d && z in ctx ==> z in InnerDots(TypedCrdts.Get(meta, u, map[]))
    requires InnerDots(TypedCrdts.Get(n, u, map[])) !! ctx && NonEmptyPaths(TypedCrdts.Get(n, u, map[]))
    ensures MetaJoin(meta, ctx, n, d) == Replaced(meta, u, TypedCrdts.Get(n, u, map[]))
  {
    forall k | k in meta && k != u
      ensures InnerDots(meta[k]) !! d && NonEmptyPaths(meta[k]) && meta[k] != map[]
    {
      MetaMembers(meta, k);
      if u in meta {
        assert InnerDots(meta[k]) !! InnerDots(meta[u]);
      }
    }
    if u in meta {
      MetaMembers(meta, u);
    }
    MetaJoinUpdate(meta, ctx, n, d, u);
  }

  /** A join with a delta whose context is one fresh dot and whose store is
      empty changes nothing but the context. */
  lemma JoinFreshDot<I(!new), V>(cmp: (I, I) -> Ordering, x: State<I, V>, dot: Dot<I>)
    requires IsTotalOrder(cmp) && Wf(cmp, x) && dot !in x.ctx
    ensures Join(cmp, x, TypedCrdts.Causal(EmptyStore(), {dot})) == TypedCrdts.Causal(x.store, x.ctx + {dot})
  {
    var meta, s := x.store.meta, x.store.content;
    assert TypedCrdts.Get(meta, dot, map[]) == map[];
    MetaStep(meta, x.ctx, dot, map[], {dot});
    assert Replaced(meta, dot, map[]) == meta;
    KeptAll(s, AllPos(meta));
  }

  /** `delete` past the end yields the empty delta, which the join ignores. */
  lemma DeletePastEnd<I(!new), V>(cmp: (I, I) -> Ordering, x: State<I, V>, ix: nat, dot: Dot<I>)
    requires IsTotalOrder(cmp) && Wf(cmp, x) && ix >= |x.store.content|
    ensures Join(cmp, x, Delete(x, ix, dot)) == x
  {
    JoinNothing(cmp, x);
  }

  /** The empty delta changes nothing. */
  lemma JoinNothing<I(!new), V>(cmp: (I, I) -> Ordering, x: State<I, V>)
    requires Wf(cmp, x)
    ensures Join(cmp, x, TypedCrdts.Causal(EmptyStore(), {})) == x
  {
    MetaJoinNothing(x.store.meta, x.ctx);
    assert Extended(cmp, x.store.content, []) == x.store.content;
    JoinIs(cmp, x, TypedCrdts.Causal(EmptyStore(), {}), x.store.meta, x.store.content);
    KeptAll(x.store.content, AllPos(x.store.meta));
    assert x.ctx + {} == x.ctx;
  }

  lemma MetaJoinNothing<I>(meta: Meta<I>, c: Ctx<I>)
    requires forall u :: u in meta ==> meta[u] != map[] && NonEmptyPaths(meta[u])
    ensures MetaJoin(meta, c, map[], {}) == meta
  {
    forall k | k in meta.Keys
      ensures InnerJoin(TypedCrdts.Get(meta, k, map[]), c, TypedCrdts.Get(map[], k, map[]), {}) == TypedCrdts.Get(meta, k, map[])
    {
      InnerJoinKeeps(meta[k], c, {});
    }
    TypedCrdts.MapJoinIs(meta, c, map[], {}, InnerJoin, map[], meta);
  }

  /** The join of a delta, once its metadata join and its content put in
      are known. */
  lemma JoinIs<I, V>(cmp: (I, I) -> Ordering, x: State<I, V>, delta: State<I, V>, m: Meta<I>, r: seq<Entry<I, V>>)
    requires MetaJoin(x.store.meta, x.ctx, delta.store.meta, delta.ctx) == m
    requires Extended(cmp, x.store.content, delta.store.content) == r
    ensures Join(cmp, x, delta) == TypedCrdts.Causal(ArrayStore(m, Kept(r, AllPos(m))), x.ctx + delta.ctx)
  {
  }

  /** `insert` joined into the state it was made from places the value at
      the clamped index, gives it the insert's dot as uid and keeps the
      state well formed. */
  lemma InsertPlaces<I(!new), V>(cmp: (I, I) -> Ordering, x: State<I, V>, ix: nat, dot: Dot<I>, v: V)
    requires IsTotalOrder(cmp) && Wf(cmp, x) && dot !in x.ctx
    requires Room(x.store.content, Clamp(ix, |x.store.content|))
    ensures var y := Join(cmp, x, Insert(x, ix, dot, v));
      var t := Clamp(ix, |x.store.content|);
      var p := Place(x.store.content, t, dot);
      Wf(cmp, y) &&
      y.store.content == x.store.content[..t] + [Entry(p, dot, v)] + x.store.content[t..] &&
      Values(y.store.content) == Values(x.store.content)[..t] + [v] + Values(x.store.content)[t..]
  {
    var s := x.store.content;
    var t := Clamp(ix, |s|);
    InsertJoin(cmp, x, t, dot, v, Insert(x, ix, dot, v));
    ValuesAround(s, t, Entry(Place(s, t, dot), dot, v));
  }

  /** The join of a delta that places a new element, its uid the fresh
      dot, in the gap at `t`. */
  lemma InsertJoin<I(!new), V>(cmp: (I, I) -> Ordering, x: State<I, V>, t: nat, dot: Dot<I>, v: V, delta: State<I, V>)
    requires IsTotalOrder(cmp) && Wf(cmp, x) && dot !in x.ctx
    requires t <= |x.store.content| && Room(x.store.content, t)
    requires delta.ctx == {dot}
    requires var p := Place(x.store.content, t, dot);
      delta.store == ArrayStore(map[dot := map[dot := map[dot := p]]], [Entry(p, dot, v)])
    ensures var y := Join(cmp, x, delta);
      var s := x.store.content;
      Wf(cmp, y) && y.store.content == s[..t] + [Entry(Place(s, t, dot), dot, v)] + s[t..]
  {
    InsertJoinIs(cmp, x, t, dot, v, delta);
    InsertWf(cmp, x, t, dot, v);
  }

  /** The state that join is, before its well-formedness is shown. */
  lemma InsertJoinIs<I(!new), V>(cmp: (I, I) -> Ordering, x: State<I, V>, t: nat, dot: Dot<I>, v: V, delta: State<I, V>)
    requires IsTotalOrder(cmp) && Wf(cmp, x) && dot !in x.ctx
    requires t <= |x.store.content| && Room(x.store.content, t)
    requires delta.ctx == {dot}
    requires var p := Place(x.store.content, t, dot);
      delta.store == ArrayStore(map[dot := map[dot := map[dot := p]]], [Entry(p, dot, v)])
    ensures var s := x.store.content;
      var p := Place(s, t, dot);
      var m := Replaced(x.store.meta, dot, map[dot := map[dot := p]]);
      var r := s[..t] + [Entry(p, dot, v)] + s[t..];
      Join(cmp, x, delta) == TypedCrdts.Causal(ArrayStore(m, Kept(r, AllPos(m))), x.ctx + {dot}) &&
      Kept(r, AllPos(m)) == r
  {
    PlaceIsBetween(cmp, x.store.content, t, dot);
    JoinPlaced(cmp, x, t, Entry(Place(x.store.content, t, dot), dot, v), delta);
  }

  /** The join of a delta that places one entry of a fresh dot, at an
      identifier that sorts into the gap at `t`. */
  lemma JoinPlaced<I(!new), V>(cmp: (I, I) -> Ordering, x: State<I, V>, t: nat, e: Entry<I, V>, delta: State<I, V>)
    requires IsTotalOrder(cmp) && MetaWf(x.store.meta, x.ctx) && e.uid !in x.ctx
    requires Sorted(cmp, x.store.content) && Owned(x.store.meta, x.store.content)
    requires t <= |x.store.content|
    requires t > 0 ==> Positions.IdCmp(cmp, x.store.content[t - 1].pos, e.pos) == Less
    requires t < |x.store.content| ==> Positions.IdCmp(cmp, e.pos, x.store.content[t].pos) == Less
    requires delta.ctx == {e.uid}
    requires delta.store == ArrayStore(map[e.uid := map[e.uid := map[e.uid := e.pos]]], [e])
    ensures var s := x.store.content;
      var m := Replaced(x.store.meta, e.uid, map[e.uid := map[e.uid := e.pos]]);
      var r := s[..t] + [e] + s[t..];
      Join(cmp, x, delta) == TypedCrdts.Causal(ArrayStore(m, Kept(r, AllPos(m))), x.ctx + {e.uid}) &&
      Kept(r, AllPos(m)) == r
  {
    var meta, s, dot := x.store.meta, x.store.content, e.uid;
    var inner := map[dot := map[dot := e.pos]];
    var m := meta[dot := inner];
    var r := s[..t] + [e] + s[t..];
    InsertMetaJoin(meta, x.ctx, dot, e.pos);
    ExtendedOne(cmp, s, e);
    PutBetween(cmp, s, e, t);
    JoinIs(cmp, x, delta, m, r);
    KeptBetween(cmp, meta, x.ctx, s, t, e);
    assert dot in inner;
  }

  /** An entry that sorts into a gap sits at no identifier of the content. */
  lemma GapFresh<I(!new), V>(cmp: (I, I) -> Ordering, s: seq<Entry<I, V>>, e: Entry<I, V>, t: nat)
    requires IsTotalOrder(cmp) && Sorted(cmp, s) && t <= |s|
    requires t > 0 ==> Positions.IdCmp(cmp, s[t - 1].pos, e.pos) == Less
    requires t < |s| ==> Positions.IdCmp(cmp, e.pos, s[t].pos) == Less
    ensures forall i :: 0 <= i < |s| ==> s[i].pos != e.pos
  {
    PlacedFacts(cmp, s, e, t);
  }

  /** The metadata join of an insert's delta adds the new element. */
  lemma InsertMetaJoin<I>(meta: Meta<I>, ctx: Ctx<I>, dot: Dot<I>, p: Id<I>)
    requires MetaWf(meta, ctx) && dot !in ctx
    ensures var inner := map[dot := map[dot := p]];
      MetaJoin(meta, ctx, map[dot := inner], {dot}) == meta[dot := inner]
  {
    var inner := map[dot := map[dot := p]];
    assert TypedCrdts.Get(meta, dot, map[]) == map[];
    assert InnerDots(inner) == {dot} by {
      assert dot in inner && dot in inner[dot];
    }
    assert TypedCrdts.Get(map[dot := inner], dot, map[]) == inner;
    MetaStep(meta, ctx, dot, map[dot := inner], {dot});
    assert dot in inner;
  }

  lemma ValuesAround<I, V>(s: seq<Entry<I, V>>, t: nat, e: Entry<I, V>)
    requires t <= |s|
    ensures Values(s[..t] + [e] + s[t..]) == Values(s)[..t] + [e.value] + Values(s)[t..]
  {
    ValuesSplice(s[..t] + [e], s[t..]);
    ValuesSplice(s[..t], [e]);
    ValuesSlice(s, 0, t);
    ValuesSlice(s, t, |s|);
  }

  lemma InsertKept<I(!new), V>(cmp: (I, I) -> Ordering, meta: Meta<I>, ctx: Ctx<I>, s: seq<Entry<I, V>>, t: nat, dot: Dot<I>, v: V)
    requires IsTotalOrder(cmp) && Sorted(cmp, s) && Owned(meta, s) && meta.Keys <= ctx && dot !in ctx
    requires forall w, v :: w in meta && v in meta && w != v ==> PosOf(meta[w]) !! PosOf(meta[v])
    requires t <= |s| && Room(s, t)
    ensures var p := Place(s, t, dot);
      var m := meta[dot := map[dot := map[dot := p]]];
      Kept(s[..t] + [Entry(p, dot, v)] + s[t..], AllPos(m)) == s[..t] + [Entry(p, dot, v)] + s[t..]
  {
    PlaceIsBetween(cmp, s, t, dot);
    KeptBetween(cmp, meta, ctx, s, t, Entry(Place(s, t, dot), dot, v));
  }

  /** The same for any entry of a fresh dot that sorts into the gap. */
  lemma KeptBetween<I(!new), V>(cmp: (I, I) -> Ordering, meta: Meta<I>, ctx: Ctx<I>, s: seq<Entry<I, V>>, t: nat, e: Entry<I, V>)
    requires IsTotalOrder(cmp) && Sorted(cmp, s) && Owned(meta, s) && meta.Keys <= ctx && e.uid !in ctx
    requires forall w, v :: w in meta && v in meta && w != v ==> PosOf(meta[w]) !! PosOf(meta[v])
    requires t <= |s|
    requires t > 0 ==> Positions.IdCmp(cmp, s[t - 1].pos, e.pos) == Less
    requires t < |s| ==> Positions.IdCmp(cmp, e.pos, s[t].pos) == Less
    ensures var m := meta[e.uid := map[e.uid := map[e.uid := e.pos]]];
      Kept(s[..t] + [e] + s[t..], AllPos(m)) == s[..t] + [e] + s[t..]
  {
    var dot, p := e.uid, e.pos;
    var inner := map[dot := map[dot := p]];
    InnerMembers(inner, dot, dot);
    assert PosOf(inner) == {p};
    GapFresh(cmp, s, e, t);
    SidesOwned(meta, s, t, p);
    KeptAround(meta, dot, inner, s[..t], e, s[t..]);
    WithoutNone(s[..t], dot);
    WithoutNone(s[t..], dot);
  }

  lemma InsertWf<I(!new), V>(cmp: (I, I) -> Ordering, x: State<I, V>, t: nat, dot: Dot<I>, v: V)
    requires IsTotalOrder(cmp) && Wf(cmp, x) && dot !in x.ctx
    requires t <= |x.store.content| && Room(x.store.content, t)
    ensures var s := x.store.content;
      var p := Place(s, t, dot);
      var m := Replaced(x.store.meta, dot, map[dot := map[dot := p]]);
      Wf(cmp, TypedCrdts.Causal(ArrayStore(m, Kept(s[..t] + [Entry(p, dot, v)] + s[t..], AllPos(m))), x.ctx + {dot}))
  {
    var meta, s := x.store.meta, x.store.content;
    var p := Place(s, t, dot);
    PlaceFresh(cmp, s, t, dot);
    InsertMetaWf(meta, x.ctx, dot, p);
    InsertContentWf(cmp, meta, s, t, dot, v);
  }

  /** The metadata stays well formed when a fresh dot places a new element
      at an unused identifier. */
  lemma InsertMetaWf<I>(meta: Meta<I>, ctx: Ctx<I>, dot: Dot<I>, p: Id<I>)
    requires MetaWf(meta, ctx) && dot !in ctx && p !in AllPos(meta)
    ensures MetaWf(Replaced(meta, dot, map[dot := map[dot := p]]), ctx + {dot})
  {
    var inner := map[dot := map[dot := p]];
    InnerMembers(inner, dot, dot);
    assert InnerDots(inner) == {dot} && PosOf(inner) == {p};
    forall w | w in meta && w != dot
      ensures {p} !! PosOf(meta[w])
    {
      MetaMembers(meta, w);
    }
    MetaWfReplaced(meta, ctx, dot, inner, {dot});
  }

  /** The content stays well formed when the new element is placed in the
      gap at `t`. */
  lemma InsertContentWf<I(!new), V>(cmp: (I, I) -> Ordering, meta: Meta<I>, s: seq<Entry<I, V>>, t: nat, dot: Dot<I>, v: V)
    requires IsTotalOrder(cmp) && ContentWf(cmp, meta, s)
    requires forall w, u :: w in meta && u in meta && w != u ==> PosOf(meta[w]) !! PosOf(meta[u])
    requires t <= |s| && Room(s, t)
    requires Place(s, t, dot) !in AllPos(meta)
    ensures var p := Place(s, t, dot);
      var m := Replaced(meta, dot, map[dot := map[dot := p]]);
      ContentWf(cmp, m, Kept(s[..t] + [Entry(p, dot, v)] + s[t..], AllPos(m)))
  {
    var p := Place(s, t, dot);
    var e := Entry(p, dot, v);
    var inner := map[dot := map[dot := p]];
    InnerMembers(inner, dot, dot);
    assert PosOf(inner) == {p};
    PlaceIsBetween(cmp, s, t, dot);
    PlacedFacts(cmp, s, e, t);
    forall w | w in meta && w != dot
      ensures PosOf(inner) !! PosOf(meta[w])
    {
      MetaMembers(meta, w);
    }
    ContentWfReplaced(cmp, meta, s, dot, inner, s[..t] + [e] + s[t..]);
  }

  /** `delete` made at state `x` and joined into a later state `z` in which
      the element has not been touched since removes every entry of that
      element from `z` and keeps `z` well formed. */
  lemma DeleteLater<I(!new), V>(cmp: (I, I) -> Ordering, x: State<I, V>, ix: nat, dot: Dot<I>, z: State<I, V>)
    requires IsTotalOrder(cmp) && Wf(cmp, z) && dot !in z.ctx
    requires ix < |x.store.content| && x.store.content[ix].uid in x.store.meta
    requires x.store.content[ix].uid in z.store.meta
    requires z.store.meta[x.store.content[ix].uid] == x.store.meta[x.store.content[ix].uid]
    ensures var y := Join(cmp, z, Delete(x, ix, dot));
      var u := x.store.content[ix].uid;
      Wf(cmp, y) && y.store.meta == z.store.meta - {u} &&
      y.store.content == Without(z.store.content, u)
  {
    var meta, s := z.store.meta, z.store.content;
    var u := x.store.content[ix].uid;
    var d := InnerDots(meta[u]) + {dot};
    MetaMembers(meta, u);
    MetaStep(meta, z.ctx, u, map[], d);
    var m := meta - {u};
    assert Extended(cmp, s, []) == s;
    JoinIs(cmp, z, Delete(x, ix, dot), m, s);
    var y := Join(cmp, z, Delete(x, ix, dot));
    assert y.store.meta == m && y.store.content == Kept(s, AllPos(m)) && y.ctx == z.ctx + d;
    DeleteKeeps(meta, s, u);
    DeleteWf(cmp, z, u, d);
  }

  /** `delete` joined into the state it was made from removes the element
      at `ix`; when each element sits at one identifier, exactly index `ix`
      goes. */
  lemma DeleteRemoves<I(!new), V>(cmp: (I, I) -> Ordering, x: State<I, V>, ix: nat, dot: Dot<I>)
    requires IsTotalOrder(cmp) && Wf(cmp, x) && dot !in x.ctx && ix < |x.store.content|
    ensures var y := Join(cmp, x, Delete(x, ix, dot));
      var u := x.store.content[ix].uid;
      Wf(cmp, y) && y.store.meta == x.store.meta - {u} &&
      y.store.content == Without(x.store.content, u) &&
      (UniqueUids(x.store.content) ==>
         Values(y.store.content) == Values(x.store.content)[..ix] + Values(x.store.content)[ix + 1..])
  {
    DeleteLater(cmp, x, ix, dot, x);
    if UniqueUids(x.store.content) {
      ValuesWithoutOne(x.store.content, ix);
    }
  }

  lemma ValuesWithoutOne<I, V>(s: seq<Entry<I, V>>, ix: nat)
    requires ix < |s| && UniqueUids(s)
    ensures Values(Without(s, s[ix].uid)) == Values(s)[..ix] + Values(s)[ix + 1..]
  {
    WithoutOne(s, ix);
    ValuesSplice(s[..ix], s[ix + 1..]);
    ValuesSlice(s, 0, ix);
    ValuesSlice(s, ix + 1, |s|);
    FullSlices(s, ix);
    FullSlices(s, ix + 1);
    FullSlices(Values(s), ix);
    FullSlices(Values(s), ix + 1);
  }

  lemma DeleteWf<I(!new), V>(cmp: (I, I) -> Ordering, x: State<I, V>, u: Dot<I>, d: Ctx<I>)
    requires IsTotalOrder(cmp) && Wf(cmp, x) && u in x.store.meta
    ensures var m := x.store.meta - {u};
      Wf(cmp, TypedCrdts.Causal(ArrayStore(m, Kept(x.store.content, AllPos(m))), x.ctx + d))
  {
    var meta, s := x.store.meta, x.store.content;
    assert Replaced(meta, u, map[]) == meta - {u};
    MetaWfReplaced(meta, x.ctx, u, map[], d);
    ContentWfReplaced(cmp, meta, s, u, map[], s);
  }

  lemma DeleteKeeps<I, V>(meta: Meta<I>, s: seq<Entry<I, V>>, u: Dot<I>)
    requires Owned(meta, s)
    requires forall w, v :: w in meta && v in meta && w != v ==> PosOf(meta[w]) !! PosOf(meta[v])
    ensures Kept(s, AllPos(meta - {u})) == Without(s, u)
  {
    var m := meta - {u};
    forall i | 0 <= i < |s|
      ensures s[i].pos in AllPos(m) <==> s[i].uid != u
    {
      var w := s[i].uid;
      if w != u {
        assert s[i].pos in PosOf(m[w]);
      }
    }
    KeptWithout(s, AllPos(m), u);
  }

  /** Distinct entries of ordered content sit at distinct identifiers. */
  lemma SortedDistinct<I(!new), V>(cmp: (I, I) -> Ordering, s: seq<Entry<I, V>>, i: nat, j: nat)
    requires IsTotalOrder(cmp) && Sorted(cmp, s) && i < |s| && j < |s| && i != j
    ensures s[i].pos != s[j].pos
  {
    IdCmpRefl(cmp, s[i].pos);
  }

  /** Giving the entry at `ix` a new value at the same identifier: the
      content stays ordered and the other entries keep other identifiers. */
  lemma ReplacedAtFacts<I(!new), V>(cmp: (I, I) -> Ordering, s: seq<Entry<I, V>>, ix: nat, e': Entry<I, V>)
    requires IsTotalOrder(cmp) && Sorted(cmp, s) && ix < |s| && e'.pos == s[ix].pos
    ensures var r := s[..ix] + [e'] + s[ix + 1..];
      Sorted(cmp, r) && r[ix] == e' &&
      (forall i :: 0 <= i < |r| ==> r[i] == e' || (r[i] in s && r[i].pos != e'.pos)) &&
      (forall i :: 0 <= i < |s| && s[i].pos != e'.pos ==> s[i] in r) &&
      (forall i :: 0 <= i < ix ==> r[i].pos != e'.pos) &&
      (forall i :: ix < i < |r| ==> r[i].pos != e'.pos)
  {
    var r := s[..ix] + [e'] + s[ix + 1..];
    forall i | 0 <= i < |r| && i != ix
      ensures r[i] == s[i] && r[i].pos != e'.pos
    {
      SortedDistinct(cmp, s, i, ix);
    }
    forall i | 0 <= i < |s| && s[i].pos != e'.pos
      ensures s[i] in r
    {
      assert r[i] == s[i];
    }
    assert forall i :: 0 <= i < |r| ==> r[i].pos == s[i].pos;
  }

  /** `update` joined into the state it was made from gives the element at
      `ix` the new value at the same identifier, leaves every other element
      as it was, drops any other entry of the updated element, and keeps
      the state well formed. */
  lemma UpdateReplaces<I(!new), V>(cmp: (I, I) -> Ordering, x: State<I, V>, ix: nat, dot: Dot<I>, f: V -> V)
    requires IsTotalOrder(cmp) && Wf(cmp, x) && dot !in x.ctx && ix < |x.store.content|
    ensures var y := Join(cmp, x, Update(x, ix, dot, f));
      var s := x.store.content;
      var e := s[ix];
      Wf(cmp, y) &&
      y.store.content == Without(s[..ix], e.uid) + [Entry(e.pos, e.uid, f(e.value))] + Without(s[ix + 1..], e.uid) &&
      (UniqueUids(s) ==> Values(y.store.content) == Values(s)[ix := f(e.value)])
  {
    var s := x.store.content;
    var e := s[ix];
    var e' := Entry(e.pos, e.uid, f(e.value));
    ReplaceJoin(cmp, x, ix, dot, Update(x, ix, dot, f), e');
    if UniqueUids(s) {
      UpdatedValues(s, ix, e');
    }
  }

  /** The join of a delta that places element `ix` again, at its own
      identifier, by the new dot alone. */
  lemma ReplaceJoin<I(!new), V>(cmp: (I, I) -> Ordering, x: State<I, V>, ix: nat, dot: Dot<I>, delta: State<I, V>, e': Entry<I, V>)
    requires IsTotalOrder(cmp) && Wf(cmp, x) && dot !in x.ctx && ix < |x.store.content|
    requires e'.pos == x.store.content[ix].pos && e'.uid == x.store.content[ix].uid
    requires delta.ctx == InnerDots(x.store.meta[e'.uid]) + {dot}
    requires delta.store == ArrayStore(map[e'.uid := map[dot := map[dot := e'.pos]]], [e'])
    ensures var y := Join(cmp, x, delta);
      var s := x.store.content;
      Wf(cmp, y) &&
      y.store.content == Without(s[..ix], e'.uid) + [e'] + Without(s[ix + 1..], e'.uid)
  {
    var meta, s := x.store.meta, x.store.content;
    var u := e'.uid;
    var repl := map[dot := map[dot := e'.pos]];
    var d := delta.ctx;
    var m := meta[u := repl];
    var r := s[..ix] + [e'] + s[ix + 1..];
    InnerMembers(repl, dot, dot);
    MetaMembers(meta, u);
    MetaStep(meta, x.ctx, u, map[u := repl], d);
    assert Replaced(meta, u, repl) == m;
    ExtendedOne(cmp, s, e');
    PutReplaces(cmp, s, e', ix);
    assert Entry(s[ix].pos, e'.uid, e'.value) == e';
    UpdateIsSplice(s, ix, e');
    JoinIs(cmp, x, delta, m, r);
    var y := Join(cmp, x, delta);
    assert y.store.meta == m && y.store.content == Kept(r, AllPos(m)) && y.ctx == x.ctx + d;
    UpdateKept(cmp, meta, s, ix, dot, e');
    UpdateWf(cmp, x, ix, dot, e', d);
  }

  lemma UpdatedValues<I, V>(s: seq<Entry<I, V>>, ix: nat, e': Entry<I, V>)
    requires ix < |s| && UniqueUids(s) && e'.uid == s[ix].uid
    ensures Values(Without(s[..ix], e'.uid) + [e'] + Without(s[ix + 1..], e'.uid)) == Values(s)[ix := e'.value]
  {
    WithoutNone(s[..ix], e'.uid);
    WithoutNone(s[ix + 1..], e'.uid);
    ValuesSpliced(s, ix, e');
  }

  /** The values after an entry is replaced in place. */
  lemma ValuesSpliced<I, V>(s: seq<Entry<I, V>>, ix: nat, e': Entry<I, V>)
    requires ix < |s|
    ensures Values(s[..ix] + [e'] + s[ix + 1..]) == Values(s)[ix := e'.value]
  {
    ValuesSplice(s[..ix] + [e'], s[ix + 1..]);
    ValuesSplice(s[..ix], [e']);
    assert Values([e']) == [e'.value];
    ValuesSlice(s, 0, ix);
    ValuesSlice(s, ix + 1, |s|);
    FullSlices(s, ix);
    FullSlices(s, ix + 1);
    FullSlices(Values(s), ix);
    FullSlices(Values(s), ix + 1);
    UpdateIsSplice(Values(s), ix, e'.value);
  }

  lemma UpdateKept<I(!new), V>(cmp: (I, I) -> Ordering, meta: Meta<I>, s: seq<Entry<I, V>>, ix: nat, dot: Dot<I>, e': Entry<I, V>)
    requires IsTotalOrder(cmp) && Sorted(cmp, s) && Owned(meta, s) && ix < |s|
    requires forall w, v :: w in meta && v in meta && w != v ==> PosOf(meta[w]) !! PosOf(meta[v])
    requires e'.pos == s[ix].pos && e'.uid == s[ix].uid
    ensures var repl := map[dot := map[dot := s[ix].pos]];
      Kept(s[..ix] + [e'] + s[ix + 1..], AllPos(meta[s[ix].uid := repl])) ==
        Without(s[..ix], s[ix].uid) + [e'] + Without(s[ix + 1..], s[ix].uid)
  {
    var repl := map[dot := map[dot := s[ix].pos]];
    InnerMembers(repl, dot, dot);
    assert PosOf(repl) == {e'.pos};
    ReplacedAtFacts(cmp, s, ix, e');
    var a, b := s[..ix], s[ix + 1..];
    assert forall i :: 0 <= i < |b| ==> b[i] == s[ix + 1 + i];
    KeptAround(meta, s[ix].uid, repl, a, e', b);
  }

  lemma UpdateWf<I(!new), V>(cmp: (I, I) -> Ordering, x: State<I, V>, ix: nat, dot: Dot<I>, e': Entry<I, V>, d: Ctx<I>)
    requires IsTotalOrder(cmp) && Wf(cmp, x) && dot !in x.ctx && ix < |x.store.content|
    requires e'.pos == x.store.content[ix].pos && e'.uid == x.store.content[ix].uid
    requires dot in d
    ensures var s := x.store.content;
      var repl := map[dot := map[dot := s[ix].pos]];
      var m := x.store.meta[s[ix].uid := repl];
      Wf(cmp, TypedCrdts.Causal(ArrayStore(m, Kept(s[..ix] + [e'] + s[ix + 1..], AllPos(m))), x.ctx + d))
  {
    var meta, s := x.store.meta, x.store.content;
    var u := s[ix].uid;
    var repl := map[dot := map[dot := s[ix].pos]];
    InnerMembers(repl, dot, dot);
    assert InnerDots(repl) == {dot} && PosOf(repl) == {e'.pos};
    MetaWfReplaced(meta, x.ctx, u, repl, d);
    ReplacedAtFacts(cmp, s, ix, e');
    ContentWfReplaced(cmp, meta, s, u, repl, s[..ix] + [e'] + s[ix + 1..]);
    assert Replaced(meta, u, repl) == meta[u := repl];
  }

  /** The sequence after moving the element at `ix` into the gap before
      index `t`. */
  function Moved<T>(vs: seq<T>, ix: nat, t: nat): (r: seq<T>)
    requires ix < |vs| && t <= |vs|
    ensures |r| == |vs|
  {
    if ix < t then vs[..ix] + vs[ix + 1..t] + [vs[ix]] + vs[t..]
    else vs[..t] + [vs[ix]] + vs[t..ix] + vs[ix + 1..]
  }

  /** Moving permutes the sequence. */
  lemma MovedIsPermutation<T>(vs: seq<T>, ix: nat, t: nat)
    requires ix < |vs| && t <= |vs|
    ensures multiset(Moved(vs, ix, t)) == multiset(vs)
  {
    var x := [vs[ix]];
    if ix < t {
      var a, b, c := vs[..ix], vs[ix + 1..t], vs[t..];
      assert vs == a + x + b + c;
      assert Moved(vs, ix, t) == a + b + x + c;
      SwapMiddle(a, b, x, c);
    } else {
      var a, b, c := vs[..t], vs[t..ix], vs[ix + 1..];
      assert vs == a + b + x + c;
      assert Moved(vs, ix, t) == a + x + b + c;
      SwapMiddle(a, b, x, c);
    }
  }

  lemma SwapMiddle<T>(a: seq<T>, b: seq<T>, x: seq<T>, c: seq<T>)
    ensures multiset(a + b + x + c) == multiset(a + x + b + c)
  {
  }

  /** The moved element lands just before what was at index `t`, and what
      lies before both indices stays put. */
  lemma MovedLands<T>(vs: seq<T>, ix: nat, t: nat)
    requires ix < |vs| && t <= |vs|
    ensures Moved(vs, ix, t)[if ix < t then t - 1 else t] == vs[ix]
    ensures forall i :: 0 <= i < ix && i < t ==> Moved(vs, ix, t)[i] == vs[i]
  {
  }

  /** The move test of `crdts.rs`: moving index 3 to index 8 in 0..9. */
  lemma MoveExample()
    ensures Moved([0, 1, 2, 3, 4, 5, 6, 7, 8, 9], 3, 8) == [0, 1, 2, 4, 5, 6, 7, 3, 8, 9]
  {
  }

  /** `move` joined into the state it was made from puts the element in
      the gap before the clamped index `to`, removes it from where it was,
      leaves every other element as it was, and keeps the state well
      formed; when each element sits at one identifier the values are
      those of `Moved`. */
  lemma MovePlaces<I(!new), V>(cmp: (I, I) -> Ordering, x: State<I, V>, ix: nat, to: nat, dot: Dot<I>)
    requires IsTotalOrder(cmp) && Wf(cmp, x) && dot !in x.ctx && ix < |x.store.content|
    requires Room(x.store.content, Clamp(to, |x.store.content|))
    ensures var y := Join(cmp, x, Move(x, ix, to, dot));
      var s := x.store.content;
      var e := s[ix];
      var t := Clamp(to, |s|);
      var p := Place(s, t, dot);
      Wf(cmp, y) &&
      y.store.content == Without(s[..t], e.uid) + [Entry(p, e.uid, e.value)] + Without(s[t..], e.uid) &&
      (UniqueUids(s) ==> Values(y.store.content) == Moved(Values(s), ix, t))
  {
    var s := x.store.content;
    var e := s[ix];
    var t := Clamp(to, |s|);
    var e' := Entry(Place(s, t, dot), e.uid, e.value);
    var delta := Move(x, ix, to, dot);
    assert delta.store.meta == map[e.uid := Repath(x.store.meta[e.uid], dot, e'.pos)];
    MoveJoin(cmp, x, t, dot, Move(x, ix, to, dot), e');
    if UniqueUids(s) {
      if ix < t {
        MovedValuesBefore(s, ix, t, e');
      } else {
        MovedValuesAfter(s, ix, t, e');
      }
    }
  }

  /** The join of a delta that places element `e'.uid` anew, in the gap at
      `t`, with every placing dot leading to the new identifier. */
  lemma MoveJoin<I(!new), V>(cmp: (I, I) -> Ordering, x: State<I, V>, t: nat, dot: Dot<I>, delta: State<I, V>, e': Entry<I, V>)
    requires IsTotalOrder(cmp) && Wf(cmp, x) && dot !in x.ctx && e'.uid in x.store.meta
    requires t <= |x.store.content| && Room(x.store.content, t)
    requires e'.pos == Place(x.store.content, t, dot)
    requires delta.ctx == InnerDots(x.store.meta[e'.uid]) + {dot}
    requires delta.store.content == [e']
    requires delta.store.meta == map[e'.uid := Repath(x.store.meta[e'.uid], dot, e'.pos)]
    ensures var y := Join(cmp, x, delta);
      var s := x.store.content;
      Wf(cmp, y) &&
      y.store.content == Without(s[..t], e'.uid) + [e'] + Without(s[t..], e'.uid)
  {
    var meta, s := x.store.meta, x.store.content;
    var u := e'.uid;
    var repl := Repath(meta[u], dot, e'.pos);
    var m := meta[u := repl];
    var r := s[..t] + [e'] + s[t..];
    var y := TypedCrdts.Causal(ArrayStore(m, Kept(r, AllPos(m))), x.ctx + delta.ctx);
    MoveJoinIs(cmp, x, t, dot, delta, e');
    assert Join(cmp, x, delta) == y;
    RepathSingle(meta[u], dot, e'.pos);
    assert Owned(meta, s);
    MoveKept(cmp, meta, s, t, dot, e', repl);
    assert y.store.content == Without(s[..t], u) + [e'] + Without(s[t..], u);
    MoveWf(cmp, x, t, dot, e', delta.ctx);
    assert Wf(cmp, y);
  }

  lemma MoveJoinIs<I(!new), V>(cmp: (I, I) -> Ordering, x: State<I, V>, t: nat, dot: Dot<I>, delta: State<I, V>, e': Entry<I, V>)
    requires IsTotalOrder(cmp) && Wf(cmp, x) && dot !in x.ctx && e'.uid in x.store.meta
    requires t <= |x.store.content| && Room(x.store.content, t)
    requires e'.pos == Place(x.store.content, t, dot)
    requires delta.ctx == InnerDots(x.store.meta[e'.uid]) + {dot}
    requires delta.store.content == [e']
    requires delta.store.meta == map[e'.uid := Repath(x.store.meta[e'.uid], dot, e'.pos)]
    ensures var m := x.store.meta[e'.uid := Repath(x.store.meta[e'.uid], dot, e'.pos)];
      var s := x.store.content;
      Join(cmp, x, delta) == TypedCrdts.Causal(ArrayStore(m, Kept(s[..t] + [e'] + s[t..], AllPos(m))), x.ctx + delta.ctx)
  {
    var meta, s := x.store.meta, x.store.content;
    var u := e'.uid;
    var p := e'.pos;
    var repl := Repath(meta[u], dot, p);
    var m := meta[u := repl];
    RepathSingle(meta[u], dot, p);
    MetaMembers(meta, u);
    MetaStep(meta, x.ctx, u, map[u := repl], delta.ctx);
    assert repl.Keys == meta[u].Keys;
    assert Replaced(meta, u, repl) == m;
    ExtendedOne(cmp, s, e');
    PlaceIsBetween(cmp, s, t, dot);
    PlacedFacts(cmp, s, e', t);
    JoinIs(cmp, x, delta, m, s[..t] + [e'] + s[t..]);
  }

  lemma MoveKept<I(!new), V>(cmp: (I, I) -> Ordering, meta: Meta<I>, s: seq<Entry<I, V>>, t: nat, dot: Dot<I>, e': Entry<I, V>, repl: Inner<I>)
    requires IsTotalOrder(cmp) && Sorted(cmp, s) && Owned(meta, s)
    requires forall w, v :: w in meta && v in meta && w != v ==> PosOf(meta[w]) !! PosOf(meta[v])
    requires t <= |s| && Room(s, t) && e'.pos == Place(s, t, dot)
    requires PosOf(repl) == {e'.pos}
    ensures Kept(s[..t] + [e'] + s[t..], AllPos(meta[e'.uid := repl])) ==
      Without(s[..t], e'.uid) + [e'] + Without(s[t..], e'.uid)
  {
    PlaceIsBetween(cmp, s, t, dot);
    PlacedFacts(cmp, s, e', t);
    SidesOwned(meta, s, t, e'.pos);
    KeptAround(meta, e'.uid, repl, s[..t], e', s[t..]);
  }

  lemma MoveWf<I(!new), V>(cmp: (I, I) -> Ordering, x: State<I, V>, t: nat, dot: Dot<I>, e': Entry<I, V>, d: Ctx<I>)
    requires IsTotalOrder(cmp) && Wf(cmp, x) && dot !in x.ctx && e'.uid in x.store.meta
    requires t <= |x.store.content| && Room(x.store.content, t)
    requires e'.pos == Place(x.store.content, t, dot) && dot in d
    ensures var s := x.store.content;
      var m := x.store.meta[e'.uid := Repath(x.store.meta[e'.uid], dot, e'.pos)];
      Wf(cmp, TypedCrdts.Causal(ArrayStore(m, Kept(s[..t] + [e'] + s[t..], AllPos(m))), x.ctx + d))
  {
    var meta, s := x.store.meta, x.store.content;
    var u := e'.uid;
    var p := e'.pos;
    var repl := Repath(meta[u], dot, p);
    RepathSingle(meta[u], dot, p);
    PlaceFresh(cmp, s, t, dot);
    FreshPosMetaWf(meta, x.ctx, u, repl, d, p);
    FreshPosContentWf(cmp, meta, s, t, dot, e', repl);
    assert Replaced(meta, u, repl) == meta[u := repl];
  }

  /** The metadata stays well formed when element `u` is re-placed, by dots
      the state has not seen, at one identifier no element uses. */
  lemma FreshPosMetaWf<I>(meta: Meta<I>, ctx: Ctx<I>, u: Dot<I>, repl: Inner<I>, d: Ctx<I>, p: Id<I>)
    requires MetaWf(meta, ctx) && u in ctx + d
    requires InnerDots(repl) <= d && InnerDots(repl) !! ctx && NonEmptyPaths(repl)
    requires PosOf(repl) == {p} && p !in AllPos(meta)
    ensures MetaWf(Replaced(meta, u, repl), ctx + d)
  {
    forall w | w in meta && w != u
      ensures PosOf(repl) !! PosOf(meta[w])
    {
      MetaMembers(meta, w);
    }
    MetaWfReplaced(meta, ctx, u, repl, d);
  }

  /** The content stays well formed when the entry of element `e'.uid` is
      put into the gap at `t`, at an identifier no element uses. */
  lemma FreshPosContentWf<I(!new), V>(cmp: (I, I) -> Ordering, meta: Meta<I>, s: seq<Entry<I, V>>, t: nat, dot: Dot<I>,
                                      e': Entry<I, V>, repl: Inner<I>)
    requires IsTotalOrder(cmp) && ContentWf(cmp, meta, s)
    requires forall w, v :: w in meta && v in meta && w != v ==> PosOf(meta[w]) !! PosOf(meta[v])
    requires t <= |s| && Room(s, t) && e'.pos == Place(s, t, dot)
    requires PosOf(repl) == {e'.pos} && e'.pos !in AllPos(meta)
    ensures ContentWf(cmp, Replaced(meta, e'.uid, repl), Kept(s[..t] + [e'] + s[t..], AllPos(Replaced(meta, e'.uid, repl))))
  {
    PlaceIsBetween(cmp, s, t, dot);
    PlacedFacts(cmp, s, e', t);
    forall w | w in meta && w != e'.uid
      ensures PosOf(repl) !! PosOf(meta[w])
    {
      MetaMembers(meta, w);
    }
    ContentWfReplaced(cmp, meta, s, e'.uid, repl, s[..t] + [e'] + s[t..]);
  }

  lemma MovedValuesBefore<I, V>(s: seq<Entry<I, V>>, ix: nat, t: nat, e': Entry<I, V>)
    requires ix < t <= |s| && UniqueUids(s) && e'.uid == s[ix].uid && e'.value == s[ix].value
    ensures Values(Without(s[..t], e'.uid) + [e'] + Without(s[t..], e'.uid)) == Moved(Values(s), ix, t)
  {
    WithoutInSlice(s, 0, t, ix);
    WithoutOutsideSlice(s, t, |s|, ix);
    FullSlices(s, t);
    FullSlices(s, ix);
    MovedBeforeValues(s, ix, t, e');
  }

  /** With unique uids, dropping the uid of entry `ix` from a slice that
      holds it removes just that entry; from one that does not, nothing. */
  lemma WithoutInSlice<I, V>(s: seq<Entry<I, V>>, lo: nat, hi: nat, ix: nat)
    requires lo <= ix < hi <= |s| && UniqueUids(s)
    ensures Without(s[lo..hi], s[ix].uid) == s[lo..ix] + s[ix + 1..hi]
  {
    var a := s[lo..hi];
    assert a[ix - lo] == s[ix];
    assert UniqueUids(a);
    WithoutOne(a, ix - lo);
    assert a[..ix - lo] == s[lo..ix] && a[ix - lo + 1..] == s[ix + 1..hi];
  }

  lemma WithoutOutsideSlice<I, V>(s: seq<Entry<I, V>>, lo: nat, hi: nat, ix: nat)
    requires lo <= hi <= |s| && ix < |s| && (ix < lo || hi <= ix) && UniqueUids(s)
    ensures Without(s[lo..hi], s[ix].uid) == s[lo..hi]
  {
    var a := s[lo..hi];
    assert forall i :: 0 <= i < |a| ==> a[i] == s[lo + i];
    WithoutNone(a, s[ix].uid);
  }

  lemma MovedBeforeValues<I, V>(s: seq<Entry<I, V>>, ix: nat, t: nat, e': Entry<I, V>)
    requires ix < t <= |s| && e'.value == s[ix].value
    ensures Values(s[..ix] + s[ix + 1..t] + [e'] + s[t..]) == Moved(Values(s), ix, t)
  {
    var w := s[ix := e'];
    MovedReplaced(s, ix, t, e');
    ValuesMoved(w, ix, t);
    ValuesSameValue(s, ix, e');
  }

  lemma MovedValuesAfter<I, V>(s: seq<Entry<I, V>>, ix: nat, t: nat, e': Entry<I, V>)
    requires t <= ix < |s| && UniqueUids(s) && e'.uid == s[ix].uid && e'.value == s[ix].value
    ensures Values(Without(s[..t], e'.uid) + [e'] + Without(s[t..], e'.uid)) == Moved(Values(s), ix, t)
  {
    MovedAfterShape(s, ix, t);
    MovedAfterSplit(s, ix, t, e');
  }

  lemma MovedAfterShape<I, V>(s: seq<Entry<I, V>>, ix: nat, t: nat)
    requires t <= ix < |s| && UniqueUids(s)
    ensures Without(s[..t], s[ix].uid) == s[..t]
    ensures Without(s[t..], s[ix].uid) == s[t..ix] + s[ix + 1..]
  {
    WithoutOutsideSlice(s, 0, t, ix);
    WithoutInSlice(s, t, |s|, ix);
    FullSlices(s, t);
    FullSlices(s, ix + 1);
  }

  /** Slices that start at 0 or end at the length are the prefix and suffix. */
  lemma FullSlices<T>(s: seq<T>, i: nat)
    requires i <= |s|
    ensures s[0..i] == s[..i] && s[i..|s|] == s[i..]
  {
  }

  lemma MovedAfterSplit<I, V>(s: seq<Entry<I, V>>, ix: nat, t: nat, e': Entry<I, V>)
    requires t <= ix < |s| && e'.value == s[ix].value
    requires Without(s[..t], e'.uid) == s[..t]
    requires Without(s[t..], e'.uid) == s[t..ix] + s[ix + 1..]
    ensures Values(Without(s[..t], e'.uid) + [e'] + Without(s[t..], e'.uid)) == Moved(Values(s), ix, t)
  {
    ConcatAround(s[..t], e', s[t..ix], s[ix + 1..]);
    MovedAfterValues(s, ix, t, e');
  }

  lemma ConcatAround<T>(a: seq<T>, x: T, b: seq<T>, c: seq<T>)
    ensures a + [x] + (b + c) == a + [x] + b + c
  {
  }

  lemma MovedAfterValues<I, V>(s: seq<Entry<I, V>>, ix: nat, t: nat, e': Entry<I, V>)
    requires t <= ix < |s| && e'.value == s[ix].value
    ensures Values(s[..t] + [e'] + s[t..ix] + s[ix + 1..]) == Moved(Values(s), ix, t)
  {
    var w := s[ix := e'];
    MovedReplaced(s, ix, t, e');
    ValuesMoved(w, ix, t);
    ValuesSameValue(s, ix, e');
  }

  /** Moving an element that was replaced first: the slices around it are
      those of the original sequence. */
  lemma MovedReplaced<T>(s: seq<T>, ix: nat, t: nat, x: T)
    requires ix < |s| && t <= |s|
    ensures ix < t ==> Moved(s[ix := x], ix, t) == s[..ix] + s[ix + 1..t] + [x] + s[t..]
    ensures t <= ix ==> Moved(s[ix := x], ix, t) == s[..t] + [x] + s[t..ix] + s[ix + 1..]
  {
    var w := s[ix := x];
    assert w[..ix] == s[..ix] && w[ix + 1..] == s[ix + 1..];
    if ix < t {
      assert w[ix + 1..t] == s[ix + 1..t] && w[t..] == s[t..];
    } else {
      assert w[..t] == s[..t] && w[t..ix] == s[t..ix];
    }
  }

  /** Replacing an entry by one with the same value keeps the values. */
  lemma ValuesSameValue<I, V>(s: seq<Entry<I, V>>, ix: nat, e': Entry<I, V>)
    requires ix < |s| && e'.value == s[ix].value
    ensures Values(s[ix := e']) == Values(s)
  {
    assert forall i :: 0 <= i < |s| ==> Values(s[ix := e'])[i] == Values(s)[i];
  }

  /** Where the element at index `i` of the moved sequence came from. */
  function MovedFrom(ix: nat, t: nat, i: nat): nat {
    if ix < t then (if i < ix then i else if i < t - 1 then i + 1 else if i == t - 1 then ix else i)
    else (if i < t then i else if i == t then ix else if i <= ix then i - 1 else i)
  }

  lemma MovedAt<T>(vs: seq<T>, ix: nat, t: nat, i: nat)
    requires ix < |vs| && t <= |vs| && i < |vs|
    ensures MovedFrom(ix, t, i) < |vs| && Moved(vs, ix, t)[i] == vs[MovedFrom(ix, t, i)]
  {
    var r := Moved(vs, ix, t);
    if ix < t {
      var ab, c := vs[..ix] + vs[ix + 1..t], vs[t..];
      assert r == ab + ([vs[ix]] + c);
      if i < t - 1 {
        assert r[i] == ab[i];
      } else if i >= t {
        assert r[i] == c[i - t];
      }
    } else {
      var a, bc := vs[..t], vs[t..ix] + vs[ix + 1..];
      assert r == (a + [vs[ix]]) + bc;
      if i > t {
        assert r[i] == bc[i - t - 1];
      }
    }
  }

  lemma ValuesMoved<I, V>(w: seq<Entry<I, V>>, ix: nat, t: nat)
    requires ix < |w| && t <= |w|
    ensures Values(Moved(w, ix, t)) == Moved(Values(w), ix, t)
  {
    forall i | 0 <= i < |w|
      ensures Values(Moved(w, ix, t))[i] == Moved(Values(w), ix, t)[i]
    {
      MovedAt(w, ix, t, i);
      MovedAt(Values(w), ix, t, i);
    }
  }

  // ---------------------------------------------------------------------
  // The join on the object, and its two passes over the content
  // ---------------------------------------------------------------------

  /** `BTreeMap::insert` keeps the map ordered and adds at most the new key. */
  lemma {:induction false} PutSorted<I(!new), V>(cmp: (I, I) -> Ordering, s: seq<Entry<I, V>>, e: Entry<I, V>)
    requires IsTotalOrder(cmp) && Sorted(cmp, s)
    ensures Sorted(cmp, Put(cmp, s, e))
    ensures forall i :: 0 <= i < |Put(cmp, s, e)| ==> Put(cmp, s, e)[i].pos in PosSet(s) + {e.pos}
    decreases |s|
  {
    if |s| > 0 {
      var r := Put(cmp, s, e);
      match Positions.IdCmp(cmp, e.pos, s[0].pos)
      case Less =>
        forall j | 0 < j < |s|
          ensures Positions.IdCmp(cmp, e.pos, s[j].pos) == Less
        {
          Positions.IdCmpTransitive(cmp, e.pos, s[0].pos, s[j].pos);
        }
        assert forall j :: 0 < j < |r| ==> r[j] == s[j - 1];
      case Equal =>
        assert forall j :: 0 <= j < |r| ==> r[j].pos == s[j].pos;
      case Greater =>
        PutSorted(cmp, s[1..], e);
        SortedAfterHead(cmp, s, e, Put(cmp, s[1..], e));
    }
  }

  /** The head of an ordered content stays in front of what is put into its
      tail, when the new entry comes after the head. */
  lemma SortedAfterHead<I(!new), V>(cmp: (I, I) -> Ordering, s: seq<Entry<I, V>>, e: Entry<I, V>, pt: seq<Entry<I, V>>)
    requires IsTotalOrder(cmp) && Sorted(cmp, s) && |s| > 0
    requires Positions.IdCmp(cmp, e.pos, s[0].pos) == Greater
    requires Sorted(cmp, pt) && forall i :: 0 <= i < |pt| ==> pt[i].pos in PosSet(s[1..]) + {e.pos}
    ensures Sorted(cmp, [s[0]] + pt)
    ensures forall i :: 0 <= i < |[s[0]] + pt| ==> ([s[0]] + pt)[i].pos in PosSet(s) + {e.pos}
  {
    var r := [s[0]] + pt;
    var tail := s[1..];
    Positions.IdCmpLaws(cmp, e.pos, s[0].pos);
    forall j | 0 < j < |r|
      ensures Positions.IdCmp(cmp, s[0].pos, r[j].pos) == Less
    {
      assert r[j] == pt[j - 1];
      if r[j].pos != e.pos {
        var k :| k in tail && k.pos == r[j].pos;
        var m :| 0 <= m < |tail| && tail[m] == k;
        assert s[m + 1] == k;
      }
    }
    forall i | 0 <= i < |r|
      ensures r[i].pos in PosSet(s) + {e.pos}
    {
      if i > 0 && r[i].pos != e.pos {
        var k :| k in tail && k.pos == r[i].pos;
        assert k in s;
      }
    }
  }

  /** `extend` keeps the map ordered. */
  lemma {:induction false} ExtendedSorted<I(!new), V>(cmp: (I, I) -> Ordering, s: seq<Entry<I, V>>, es: seq<Entry<I, V>>)
    requires IsTotalOrder(cmp) && Sorted(cmp, s)
    ensures Sorted(cmp, Extended(cmp, s, es))
    decreases |es|
  {
    if |es| > 0 {
      ExtendedSorted(cmp, s, es[..|es| - 1]);
      PutSorted(cmp, Extended(cmp, s, es[..|es| - 1]), es[|es| - 1]);
    }
  }

  /** The join keeps the content ordered, whatever the two sides hold. */
  lemma JoinSorted<I(!new), V>(cmp: (I, I) -> Ordering, a: ArrayStore<I, V>, ac: Ctx<I>, b: ArrayStore<I, V>, bc: Ctx<I>)
    requires IsTotalOrder(cmp) && Sorted(cmp, a.content)
    ensures Sorted(cmp, JoinStores(cmp, a, ac, b, bc).content)
  {
    var meta := MetaJoin(a.meta, ac, b.meta, bc);
    ExtendedSorted(cmp, a.content, b.content);
    KeptSorted(cmp, Extended(cmp, a.content, b.content), AllPos(meta));
  }

  /** `self.content.extend(other.content)`: each entry of `es` inserted in
      turn. */
  method Extend<I(==), V>(cmp: (I, I) -> Ordering, s: seq<Entry<I, V>>, es: seq<Entry<I, V>>) returns (r: seq<Entry<I, V>>)
    ensures r == Extended(cmp, s, es)
  {
    r := s;
    var i := 0;
    while i < |es|
      invariant i <= |es|
      invariant r == Extended(cmp, s, es[..i])
    {
      assert es[..i + 1][..i] == es[..i];
      r := Put(cmp, r, es[i]);
      i := i + 1;
    }
    assert es[..|es|] == es;
  }

  /** `self.content.retain(|p, _| all_pos.contains(p))`: the entries whose
      identifier is kept, in order. */
  method Retain<I(==), V>(s: seq<Entry<I, V>>, keep: set<Id<I>>) returns (r: seq<Entry<I, V>>)
    ensures r == Kept(s, keep)
  {
    r := [];
    var i := 0;
    while i < |s|
      invariant i <= |s|
      invariant r == Kept(s[..i], keep)
    {
      assert s[..i + 1][..i] == s[..i];
      if s[i].pos in keep {
        r := r + [s[i]];
      }
      i := i + 1;
    }
    assert s[..|s|] == s;
  }

  /** The replica's array: its metadata and its content. */
  class ORArray<I(==), V> {
    var meta: Meta<I>
    var content: seq<Entry<I, V>>

    /** `Default`: no element. */
    constructor ()
      ensures meta == map[] && content == []
    {
      meta := map[];
      content := [];
    }

    function Store(): ArrayStore<I, V>
      reads this
    {
      ArrayStore(meta, content)
    }

    /** `DotStore::join` of `ORArray`: the metadata join, then `extend`
        with the other side's content, then `retain` of what the joined
        metadata refers to. */
    method Join(cmp: (I, I) -> Ordering, ctx: Ctx<I>, other: ArrayStore<I, V>, otherCtx: Ctx<I>)
      modifies this
      ensures Store() == JoinStores(cmp, old(Store()), ctx, other, otherCtx)
    {
      meta := MetaJoin(meta, ctx, other.meta, otherCtx);
      var allPos := AllPos(meta);
      var extended := Extend(cmp, content, other.content);
      content := Retain(extended, allPos);
    }

    /** `position(ix)`: the value at index `ix` of the array. */
    function Position(ix: nat): (r: Option<V>)
      reads this
      ensures r.Some? <==> ix < |content|
      ensures r.Some? ==> r.value == Values(content)[ix]
    {
      ValueAt(Store(), ix)
    }
  }
}
