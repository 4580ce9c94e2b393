/** The dot set of crdt/src/dotset.rs: for every replica id the set of counters
    seen from it. The source keeps each set as a run-length `RangeSet2`; here it
    is the set of counters the ranges cover. Counter 0 is never stored and no id
    maps to an empty set. */
module DotSets {

  datatype Dot<I> = Dot(id: I, counter: nat)

  /** `Dot::inc` takes `&mut self`: it bumps the counter and hands back the
      value from BEFORE the bump. The pair is (returned, updated dot). */
  function Inc<I>(d: Dot<I>): (r: (Dot<I>, Dot<I>))
    ensures r.0 == d
    ensures r.1.id == d.id && r.1.counter == d.counter + 1
  {
    (d, Dot(d.id, d.counter + 1))
  }

  type Ranges<I> = map<I, set<nat>>

  /** The representation invariant `assert_invariants` checks (no empty
      range), plus "counter 0 is never stored", which every constructor keeps. */
  ghost predicate Wf<I>(m: Ranges<I>) {
    forall i | i in m :: m[i] != {} && 0 !in m[i]
  }

  function Contains<I>(m: Ranges<I>, d: Dot<I>): bool {
    d.id in m && d.counter in m[d.id]
  }

  /** The counters lo..=hi. */
  function Interval(lo: nat, hi: nat): (s: set<nat>)
    ensures forall c: nat :: c in s <==> lo <= c <= hi
    decreases hi
  {
    if hi < lo then {} else if hi == 0 then {0} else Interval(lo, hi - 1) + {hi}
  }

  lemma {:induction false} HasMax(s: set<nat>)
    requires s != {}
    ensures exists x :: x in s && forall y | y in s :: y <= x
  {
    var x :| x in s;
    if s != {x} {
      HasMax(s - {x});
      var z :| z in s - {x} && forall y | y in s - {x} :: y <= z;
      forall y | y in s ensures y <= x || y <= z {
        if y != x { assert y in s - {x}; }
      }
      if x <= z {
        assert forall y | y in s :: y <= z;
      } else {
        assert forall y | y in s :: y <= x;
      }
    } else {
      assert forall y | y in s :: y <= x;
    }
  }

  function SetMax(s: set<nat>): (x: nat)
    requires s != {}
    ensures x in s && forall y | y in s :: y <= x
  {
    HasMax(s);
    var x :| x in s && forall y | y in s :: y <= x;
    x
  }

  /** `max`: the largest counter recorded for the id, 0 if the id is absent. */
  function Max<I>(m: Ranges<I>, id: I): nat
    requires Wf(m)
  {
    if id in m then SetMax(m[id]) else 0
  }

  /** `dot`: the id paired with its maximum. */
  function DotOf<I>(m: Ranges<I>, id: I): Dot<I>
    requires Wf(m)
  {
    Dot(id, Max(m, id))
  }

  /** `next` as written: `self.dot(id).inc()` returns the dot before the bump. */
  function NextAsWritten<I>(m: Ranges<I>, id: I): Dot<I>
    requires Wf(m)
  {
    Inc(DotOf(m, id)).0
  }

  /** `next` as its documentation states it: nextᵢ(c) = (i, maxᵢ(c) + 1). */
  function Next<I>(m: Ranges<I>, id: I): (d: Dot<I>)
    requires Wf(m)
    ensures d.id == id && d.counter > 0 && !Contains(m, d)
    ensures forall c: nat | Contains(m, Dot(id, c)) :: c < d.counter
  {
    Inc(DotOf(m, id)).1
  }

  /** `insert`: counter 0 is ignored, otherwise the counter joins the id's set. */
  function Inserted<I>(m: Ranges<I>, d: Dot<I>): Ranges<I> {
    if d.counter == 0 then m
    else m[d.id := (if d.id in m then m[d.id] else {}) + {d.counter}]
  }

  function UnionOf<I>(a: Ranges<I>, b: Ranges<I>): Ranges<I> {
    map i | i in a.Keys + b.Keys ::
      (if i in a then a[i] else {}) + (if i in b then b[i] else {})
  }

  /** `intersection`: ids present on both sides whose common part is not empty. */
  function Intersection<I>(a: Ranges<I>, b: Ranges<I>): Ranges<I> {
    map i | i in a && i in b && a[i] * b[i] != {} :: a[i] * b[i]
  }

  /** `difference`: ids only in `a` keep their set; shared ids keep what `b`
      lacks, and are dropped when nothing is left. */
  function Difference<I>(a: Ranges<I>, b: Ranges<I>): Ranges<I> {
    map i | i in a && (i !in b || a[i] - b[i] != {}) :: if i in b then a[i] - b[i] else a[i]
  }

  /** `from_map`: the counters 1..=max for each id; a maximum of 0 is skipped. */
  function FromMap<I>(x: map<I, nat>): Ranges<I> {
    map i | i in x && x[i] > 0 :: Interval(1, x[i])
  }

  /** `FromIterator`: group the dots by id, skipping counter 0. */
  function IdsOf<I>(s: set<Dot<I>>): set<I> {
    set d | d in s && d.counter != 0 :: d.id
  }

  function FromDots<I>(s: set<Dot<I>>): Ranges<I> {
    map i | i in IdsOf(s) ::
      set d | d in s && d.id == i && d.counter != 0 :: d.counter
  }

  /** `is_causal`: each id's range is one run that starts at 1. */
  predicate IsCausal<I>(m: Ranges<I>)
    requires Wf(m)
  {
    forall i | i in m :: m[i] == Interval(1, SetMax(m[i]))
  }

  // ---------------------------------------------------------------------
  // Membership semantics

  lemma InsertContains<I>(m: Ranges<I>, d: Dot<I>, e: Dot<I>)
    requires Wf(m)
    ensures Wf(Inserted(m, d))
    ensures Contains(Inserted(m, d), e) <==> Contains(m, e) || (e == d && d.counter != 0)
    ensures d.counter == 0 ==> Inserted(m, d) == m
  {
  }

  lemma OpsWf<I>(a: Ranges<I>, b: Ranges<I>)
    requires Wf(a) && Wf(b)
    ensures Wf(UnionOf(a, b)) && Wf(Intersection(a, b)) && Wf(Difference(a, b))
  {
  }

  lemma UnionContains<I>(a: Ranges<I>, b: Ranges<I>, d: Dot<I>)
    ensures Contains(UnionOf(a, b), d) <==> Contains(a, d) || Contains(b, d)
  {
  }

  lemma IntersectionContains<I>(a: Ranges<I>, b: Ranges<I>, d: Dot<I>)
    ensures Contains(Intersection(a, b), d) <==> Contains(a, d) && Contains(b, d)
  {
    if Contains(a, d) && Contains(b, d) {
      assert d.counter in a[d.id] * b[d.id];
    }
  }

  lemma DifferenceContains<I>(a: Ranges<I>, b: Ranges<I>, d: Dot<I>)
    ensures Contains(Difference(a, b), d) <==> Contains(a, d) && !Contains(b, d)
  {
    if Contains(a, d) && !Contains(b, d) && d.id in b {
      assert d.counter in a[d.id] - b[d.id];
    }
  }

  /** Two well-formed dot sets with the same members are the same value. */
  lemma Extensionality<I>(a: Ranges<I>, b: Ranges<I>)
    requires Wf(a) && Wf(b)
    requires forall d: Dot<I> :: Contains(a, d) == Contains(b, d)
    ensures a == b
  {
    forall i | i in a ensures i in b && a[i] == b[i] {
      var c :| c in a[i];
      assert Contains(a, Dot(i, c));
      forall c' ensures c' in a[i] <==> c' in b[i] {
        assert Contains(a, Dot(i, c')) == Contains(b, Dot(i, c'));
      }
    }
    forall i | i in b ensures i in a {
      var c :| c in b[i];
      assert Contains(b, Dot(i, c));
    }
  }

  // ---------------------------------------------------------------------
  // Lattice laws, each reduced to membership and closed by Extensionality

  lemma UnionIdempotent<I>(a: Ranges<I>)
    requires Wf(a)
    ensures UnionOf(a, a) == a
  {
    OpsWf(a, a);
    forall d ensures Contains(UnionOf(a, a), d) == Contains(a, d) { UnionContains(a, a, d); }
    Extensionality(UnionOf(a, a), a);
  }

  lemma UnionCommutative<I>(a: Ranges<I>, b: Ranges<I>)
    requires Wf(a) && Wf(b)
    ensures UnionOf(a, b) == UnionOf(b, a)
  {
    OpsWf(a, b); OpsWf(b, a);
    forall d ensures Contains(UnionOf(a, b), d) == Contains(UnionOf(b, a), d) {
      UnionContains(a, b, d); UnionContains(b, a, d);
    }
    Extensionality(UnionOf(a, b), UnionOf(b, a));
  }

  lemma UnionAssociative<I>(a: Ranges<I>, b: Ranges<I>, c: Ranges<I>)
    requires Wf(a) && Wf(b) && Wf(c)
    ensures UnionOf(UnionOf(a, b), c) == UnionOf(a, UnionOf(b, c))
  {
    OpsWf(a, b); OpsWf(b, c);
    var l, r := UnionOf(UnionOf(a, b), c), UnionOf(a, UnionOf(b, c));
    OpsWf(UnionOf(a, b), c); OpsWf(a, UnionOf(b, c));
    forall d ensures Contains(l, d) == Contains(r, d) {
      UnionContains(a, b, d); UnionContains(b, c, d);
      UnionContains(UnionOf(a, b), c, d); UnionContains(a, UnionOf(b, c), d);
    }
    Extensionality(l, r);
  }

  lemma IntersectionIdempotent<I>(a: Ranges<I>)
    requires Wf(a)
    ensures Intersection(a, a) == a
  {
    OpsWf(a, a);
    forall d ensures Contains(Intersection(a, a), d) == Contains(a, d) { IntersectionContains(a, a, d); }
    Extensionality(Intersection(a, a), a);
  }

  lemma IntersectionCommutative<I>(a: Ranges<I>, b: Ranges<I>)
    requires Wf(a) && Wf(b)
    ensures Intersection(a, b) == Intersection(b, a)
  {
    OpsWf(a, b); OpsWf(b, a);
    forall d ensures Contains(Intersection(a, b), d) == Contains(Intersection(b, a), d) {
      IntersectionContains(a, b, d); IntersectionContains(b, a, d);
    }
    Extensionality(Intersection(a, b), Intersection(b, a));
  }

  lemma IntersectionAssociative<I>(a: Ranges<I>, b: Ranges<I>, c: Ranges<I>)
    requires Wf(a) && Wf(b) && Wf(c)
    ensures Intersection(Intersection(a, b), c) == Intersection(a, Intersection(b, c))
  {
    OpsWf(a, b); OpsWf(b, c);
    var l, r := Intersection(Intersection(a, b), c), Intersection(a, Intersection(b, c));
    OpsWf(Intersection(a, b), c); OpsWf(a, Intersection(b, c));
    forall d ensures Contains(l, d) == Contains(r, d) {
      IntersectionContains(a, b, d); IntersectionContains(b, c, d);
      IntersectionContains(Intersection(a, b), c, d); IntersectionContains(a, Intersection(b, c), d);
    }
    Extensionality(l, r);
  }

  /** a ∪ (b ∩ c) == (a ∪ b) ∩ (a ∪ c) */
  lemma UnionDistributes<I>(a: Ranges<I>, b: Ranges<I>, c: Ranges<I>)
    requires Wf(a) && Wf(b) && Wf(c)
    ensures UnionOf(a, Intersection(b, c)) == Intersection(UnionOf(a, b), UnionOf(a, c))
  {
    OpsWf(b, c); OpsWf(a, b); OpsWf(a, c);
    var l, r := UnionOf(a, Intersection(b, c)), Intersection(UnionOf(a, b), UnionOf(a, c));
    OpsWf(a, Intersection(b, c)); OpsWf(UnionOf(a, b), UnionOf(a, c));
    forall d ensures Contains(l, d) == Contains(r, d) {
      IntersectionContains(b, c, d); UnionContains(a, Intersection(b, c), d);
      UnionContains(a, b, d); UnionContains(a, c, d);
      IntersectionContains(UnionOf(a, b), UnionOf(a, c), d);
    }
    Extensionality(l, r);
  }

  /** a ∩ (b ∪ c) == (a ∩ b) ∪ (a ∩ c) */
  lemma IntersectionDistributes<I>(a: Ranges<I>, b: Ranges<I>, c: Ranges<I>)
    requires Wf(a) && Wf(b) && Wf(c)
    ensures Intersection(a, UnionOf(b, c)) == UnionOf(Intersection(a, b), Intersection(a, c))
  {
    OpsWf(b, c); OpsWf(a, b); OpsWf(a, c);
    var l, r := Intersection(a, UnionOf(b, c)), UnionOf(Intersection(a, b), Intersection(a, c));
    OpsWf(a, UnionOf(b, c)); OpsWf(Intersection(a, b), Intersection(a, c));
    forall d ensures Contains(l, d) == Contains(r, d) {
      UnionContains(b, c, d); IntersectionContains(a, UnionOf(b, c), d);
      IntersectionContains(a, b, d); IntersectionContains(a, c, d);
      UnionContains(Intersection(a, b), Intersection(a, c), d);
    }
    Extensionality(l, r);
  }

  /** (a − b) ∪ (a ∩ b) == a */
  lemma DifferenceIntersectionRestores<I>(a: Ranges<I>, b: Ranges<I>)
    requires Wf(a) && Wf(b)
    ensures UnionOf(Difference(a, b), Intersection(a, b)) == a
  {
    OpsWf(a, b);
    var l := UnionOf(Difference(a, b), Intersection(a, b));
    OpsWf(Difference(a, b), Intersection(a, b));
    forall d ensures Contains(l, d) == Contains(a, d) {
      DifferenceContains(a, b, d); IntersectionContains(a, b, d);
      UnionContains(Difference(a, b), Intersection(a, b), d);
    }
    Extensionality(l, a);
  }

  // ---------------------------------------------------------------------
  // max, dot and next

  /** max is the largest counter recorded for the id and 0 exactly when the id
      is absent; a nonzero max is itself a member. */
  lemma MaxMeaning<I>(m: Ranges<I>, id: I)
    requires Wf(m)
    ensures forall c: nat | Contains(m, Dot(id, c)) :: c <= Max(m, id)
    ensures Max(m, id) > 0 <==> id in m
    ensures Max(m, id) > 0 ==> Contains(m, DotOf(m, id))
  {
  }

  /** The dot `next` returns as written is already in the set whenever the id
      is: it is (id, max), not the (id, max + 1) of its documentation. */
  lemma NextAsWrittenIsPresent<I>(m: Ranges<I>, id: I)
    requires Wf(m) && id in m
    ensures Contains(m, NextAsWritten(m, id))
    ensures NextAsWritten(m, id).counter + 1 == Next(m, id).counter
  {
    MaxMeaning(m, id);
  }

  lemma NextAsWrittenExample(id: nat)
    ensures NextAsWritten(map[id := {1}], id) == Dot(id, 1)
    ensures Next(map[id := {1}], id) == Dot(id, 2)
  {
    var m := map[id := {1}];
    assert SetMax(m[id]) == 1;
  }

  // ---------------------------------------------------------------------
  // from_map, FromIterator and is_causal

  lemma FromMapContains<I>(x: map<I, nat>, d: Dot<I>)
    ensures Wf(FromMap(x))
    ensures Contains(FromMap(x), d) <==> d.id in x && 1 <= d.counter <= x[d.id]
  {
  }

  /** from_map builds a causal set whose maxima are the given ones (0 for
      skipped or absent ids). */
  lemma FromMapCausal<I>(x: map<I, nat>)
    ensures Wf(FromMap(x)) && IsCausal(FromMap(x))
  {
    var m := FromMap(x);
    forall j | j in m ensures m[j] == Interval(1, SetMax(m[j])) {
      assert x[j] in m[j];
      assert SetMax(m[j]) == x[j];
    }
  }

  lemma FromMapMax<I>(x: map<I, nat>, i: I)
    ensures Wf(FromMap(x)) && IsCausal(FromMap(x))
    ensures Max(FromMap(x), i) == if i in x then x[i] else 0
  {
    FromMapCausal(x);
    var m := FromMap(x);
    if i in m { assert x[i] in m[i]; }
  }

  function Maxima<I>(m: Ranges<I>): map<I, nat>
    requires Wf(m)
  {
    map i | i in m :: SetMax(m[i])
  }

  /** is_causal holds exactly of the sets from_map can build: every id's
      counters form one contiguous run starting at 1. */
  lemma CausalIffFromMap<I>(m: Ranges<I>)
    requires Wf(m)
    ensures IsCausal(m) <==> m == FromMap(Maxima(m))
  {
    var x := Maxima(m);
    if IsCausal(m) {
      forall i | i in m ensures i in FromMap(x) && m[i] == FromMap(x)[i] {
        assert SetMax(m[i]) in m[i];
        assert x[i] > 0;
      }
      assert forall i | i in FromMap(x) :: i in m;
    }
    if m == FromMap(x) {
      FromMapCausal(x);
    }
  }

  lemma FromDotsContains<I>(s: set<Dot<I>>, d: Dot<I>)
    ensures Wf(FromDots(s))
    ensures Contains(FromDots(s), d) <==> d in s && d.counter != 0
  {
    var m := FromDots(s);
    forall i | i in m ensures m[i] != {} && 0 !in m[i] {
      var e :| e in s && e.counter != 0 && e.id == i;
      assert e.counter in m[i];
    }
    if d in s && d.counter != 0 {
      assert d.id in IdsOf(s);
    }
  }

  /** The dot set in place: `insert` and `union` update the map of ranges. */
  /** The part of `other` a loop has already merged: the ids no longer in `todo`. */
  ghost function Merged<I>(other: Ranges<I>, todo: set<I>): Ranges<I> {
    map i | i in other && i !in todo :: other[i]
  }

  lemma UnionOfEmpty<I>(a: Ranges<I>)
    ensures UnionOf(a, map[]) == a
  {
    forall i | i in a ensures a[i] + {} == a[i] {}
  }

  lemma UnionOfUpdate<I>(a: Ranges<I>, b: Ranges<I>, k: I, s: set<nat>)
    requires k !in b
    ensures UnionOf(a, b[k := s]) == UnionOf(a, b)[k := (if k in a then a[k] else {}) + s]
  {
  }

  /** One step of the loop of `union`: merging the entry of `k`. */
  lemma UnionStep<I>(a: Ranges<I>, other: Ranges<I>, todo: set<I>, k: I, r: Ranges<I>)
    requires Wf(other) && Wf(r) && k in todo && todo <= other.Keys
    requires r == UnionOf(a, Merged(other, todo))
    ensures k in r ==> r[k := r[k] + other[k]] == UnionOf(a, Merged(other, todo - {k}))
    ensures k !in r ==> r[k := other[k]] == UnionOf(a, Merged(other, todo - {k}))
    ensures Wf(UnionOf(a, Merged(other, todo - {k})))
  {
    UnionOfUpdate(a, Merged(other, todo), k, other[k]);
    assert Merged(other, todo - {k}) == Merged(other, todo)[k := other[k]];
    assert k !in Merged(other, todo);
    if k in r {
      assert k in a && r[k] == a[k] + {} == a[k];
      assert Wf(r[k := r[k] + other[k]]);
    } else {
      assert k !in a;
      assert {} + other[k] == other[k];
      assert Wf(r[k := other[k]]);
    }
  }

  class DotSet<I(==)> {
    var ranges: Ranges<I>

    ghost predicate Valid() reads this { Wf(ranges) }

    constructor ()
      ensures Valid() && ranges == map[]
    {
      ranges := map[];
    }

    method Insert(d: Dot<I>)
      requires Valid()
      modifies this
      ensures Valid()
      ensures ranges == Inserted(old(ranges), d)
    {
      if d.counter == 0 {
        return;
      }
      if d.id in ranges {
        ranges := ranges[d.id := ranges[d.id] + {d.counter}];
      } else {
        assert {} + {d.counter} == {d.counter};
        ranges := ranges[d.id := {d.counter}];
      }
    }

    /** `union`: each id of `other` is merged into the entry of `self`, or
        inserted when `self` has none. */
    method Union(other: Ranges<I>)
      requires Valid() && Wf(other)
      modifies this
      ensures Valid()
      ensures ranges == UnionOf(old(ranges), other)
    {
      var todo := other.Keys;
      UnionOfEmpty(ranges);
      assert Merged(other, todo) == map[];
      while todo != {}
        invariant todo <= other.Keys
        invariant Wf(ranges)
        invariant ranges == UnionOf(old(ranges), Merged(other, todo))
        decreases todo
      {
        var k :| k in todo;
        UnionStep(old(ranges), other, todo, k, ranges);
        if k in ranges {
          ranges := ranges[k := ranges[k] + other[k]];
        } else {
          ranges := ranges[k := other[k]];
        }
        todo := todo - {k};
      }
      assert Merged(other, todo) == other;
    }
  }
}
