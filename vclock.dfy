/** The vector clock of src/clock.rs: a map from actors to counters in which
    a missing actor counts as 0. `apply` and `union` update the map in place;
    `partial_cmp`, `intersect` and `difference` build new clocks. */
module VClocks {
  import opened Wrappers
  import opened Dots

  type Counters<A> = map<A, nat>

  /** `get`: the counter of an actor, 0 when it is absent. */
  function Get<A>(m: Counters<A>, a: A): nat {
    if a in m then m[a] else 0
  }

  /** Clocks built by `apply` never store a zero counter. */
  ghost predicate NoZero<A>(m: Counters<A>) {
    forall a :: a in m ==> m[a] > 0
  }

  /** The clock-level order: `a` has seen everything `b` has seen. */
  ghost predicate Dominates<A(!new)>(a: Counters<A>, b: Counters<A>) {
    forall w :: Get(a, w) >= Get(b, w)
  }

  /** `PartialOrd::partial_cmp`, as written: equal clocks, then "every entry of
      other is covered by self", then the converse, else incomparable. */
  function PartialCmp<A(==)>(a: Counters<A>, b: Counters<A>): Option<Ordering> {
    if a == b then Some(Equal)
    else if forall w | w in b :: Get(a, w) >= b[w] then Some(Greater)
    else if forall w | w in a :: Get(b, w) >= a[w] then Some(Less)
    else None
  }

  /** `concurrent`: the clocks have diverged. */
  predicate Concurrent<A(==)>(a: Counters<A>, b: Counters<A>) {
    PartialCmp(a, b).None?
  }

  /** `intersect`: the smaller counter of every actor both clocks mention. */
  function Intersect<A>(a: Counters<A>, b: Counters<A>): Counters<A> {
    map w | w in a && w in b :: if a[w] <= b[w] then a[w] else b[w]
  }

  /** `difference`: the entries of `a` that are ahead of `b`. */
  function Difference<A>(a: Counters<A>, b: Counters<A>): Counters<A> {
    map w | w in a && a[w] > Get(b, w) :: a[w]
  }

  /** The pointwise maximum of two clocks, over the actors of either: what
      `union` leaves behind. */
  function Max<A>(a: Counters<A>, b: Counters<A>): Counters<A> {
    map w | w in a.Keys + b.Keys :: if Get(a, w) >= Get(b, w) then Get(a, w) else Get(b, w)
  }

  /** The state `apply(dot)` leaves behind. */
  function Applied<A>(m: Counters<A>, d: Dot<A>): Counters<A> {
    if Get(m, d.actor) < d.counter then m[d.actor := d.counter] else m
  }

  lemma DominatesFromKeys<A(!new)>(a: Counters<A>, b: Counters<A>)
    requires forall w | w in b :: Get(a, w) >= b[w]
    ensures Dominates(a, b)
  {
    forall w ensures Get(a, w) >= Get(b, w) {
      if w in b { assert Get(a, w) >= b[w]; }
    }
  }

  lemma MutualDominationIsEquality<A(!new)>(a: Counters<A>, b: Counters<A>)
    requires NoZero(a) && NoZero(b)
    requires Dominates(a, b) && Dominates(b, a)
    ensures a == b
  {
    forall w | w in a ensures w in b && a[w] == b[w] {
      assert Get(a, w) == Get(b, w);
    }
    forall w | w in b ensures w in a {
      assert Get(a, w) == Get(b, w);
    }
  }

  /** partial_cmp agrees with the order of clocks for clocks without zero
      entries: Greater iff self strictly dominates, Less iff it is strictly
      dominated, None iff neither dominates. */
  lemma PartialCmpMeaning<A(!new)>(a: Counters<A>, b: Counters<A>)
    requires NoZero(a) && NoZero(b)
    ensures PartialCmp(a, b) == Some(Equal) <==> a == b
    ensures PartialCmp(a, b) == Some(Greater) <==> a != b && Dominates(a, b)
    ensures PartialCmp(a, b) == Some(Less) <==> a != b && Dominates(b, a) && !Dominates(a, b)
    ensures PartialCmp(a, b) == None <==> !Dominates(a, b) && !Dominates(b, a)
  {
    if forall w | w in b :: Get(a, w) >= b[w] { DominatesFromKeys(a, b); }
    if forall w | w in a :: Get(b, w) >= a[w] { DominatesFromKeys(b, a); }
    if Dominates(a, b) && Dominates(b, a) { MutualDominationIsEquality(a, b); }
    if Dominates(a, b) {
      forall w | w in b ensures Get(a, w) >= b[w] { assert Get(a, w) >= Get(b, w); }
    }
    if Dominates(b, a) {
      forall w | w in a ensures Get(b, w) >= a[w] { assert Get(b, w) >= Get(a, w); }
    }
  }

  lemma ConcurrentMeaning<A(!new)>(a: Counters<A>, b: Counters<A>)
    requires NoZero(a) && NoZero(b)
    ensures Concurrent(a, b) <==> !Dominates(a, b) && !Dominates(b, a)
  {
    PartialCmpMeaning(a, b);
  }

  /** intersect takes the pointwise minimum, difference keeps exactly the
      counters that are strictly greater than the other's. */
  lemma IntersectGet<A>(a: Counters<A>, b: Counters<A>, w: A)
    ensures Get(Intersect(a, b), w) == if w in a && w in b then (if a[w] <= b[w] then a[w] else b[w]) else 0
    ensures NoZero(a) && NoZero(b) ==> NoZero(Intersect(a, b))
    ensures NoZero(a) ==> Get(Intersect(a, b), w) == (if Get(a, w) <= Get(b, w) then Get(a, w) else Get(b, w))
  {
  }

  lemma DifferenceGet<A>(a: Counters<A>, b: Counters<A>, w: A)
    ensures Get(Difference(a, b), w) == if Get(a, w) > Get(b, w) then Get(a, w) else 0
    ensures NoZero(Difference(a, b))
  {
  }

  /** apply only raises a counter, never lowers one, and touches one actor. */
  lemma AppliedGet<A>(m: Counters<A>, d: Dot<A>, w: A)
    ensures Get(Applied(m, d), w) == if w == d.actor && Get(m, w) < d.counter then d.counter else Get(m, w)
    ensures Get(Applied(m, d), w) >= Get(m, w)
    ensures NoZero(m) ==> NoZero(Applied(m, d))
  {
  }

  /** A clock without zero counters whose counters are the pointwise
      maxima of two such clocks is their `Max`. */
  lemma MaxOfGets<A>(a: Counters<A>, b: Counters<A>, m: Counters<A>)
    requires NoZero(a) && NoZero(b) && NoZero(m)
    requires forall w :: Get(m, w) == if Get(a, w) >= Get(b, w) then Get(a, w) else Get(b, w)
    ensures m == Max(a, b)
  {
    forall w | w in m ensures w in a || w in b {
      assert Get(m, w) > 0;
    }
    forall w | w in a || w in b ensures w in m {
      assert Get(m, w) > 0;
    }
    forall w | w in m ensures m[w] == Max(a, b)[w] {
      assert Get(m, w) == m[w];
    }
  }

  lemma MaxGet<A>(a: Counters<A>, b: Counters<A>, w: A)
    ensures Get(Max(a, b), w) == if Get(a, w) >= Get(b, w) then Get(a, w) else Get(b, w)
  {
  }

  /** `union` is a join: idempotent, commutative and associative. */
  lemma MaxIdempotent<A>(a: Counters<A>)
    ensures Max(a, a) == a
  {
  }

  lemma MaxCommutative<A>(a: Counters<A>, b: Counters<A>)
    ensures Max(a, b) == Max(b, a)
  {
  }

  lemma MaxAssociative<A>(a: Counters<A>, b: Counters<A>, c: Counters<A>)
    ensures Max(Max(a, b), c) == Max(a, Max(b, c))
  {
    var l, r := Max(Max(a, b), c), Max(a, Max(b, c));
    assert l.Keys == r.Keys;
    forall w | w in l ensures l[w] == r[w] {
      MaxGet(a, b, w);
      MaxGet(b, c, w);
      assert l[w] == Get(l, w) && r[w] == Get(r, w);
    }
  }

  /** The vector clock in place. */
  class Clock<A(==)> {
    var dots: Counters<A>

    ghost predicate Valid() reads this { NoZero(dots) }

    constructor ()
      ensures Valid() && dots == map[]
    {
      dots := map[];
    }

    function GetOf(actor: A): (c: nat)
      reads this
      ensures c == Get(dots, actor)
    {
      if actor in dots then dots[actor] else 0
    }

    /** `inc`: the dot one past the actor's counter; the clock is not changed. */
    function IncOf(actor: A): (d: Dot<A>)
      reads this
      ensures d.actor == actor && d.counter == Get(dots, actor) + 1
    {
      Dots.Inc(Dots.Dot(actor, GetOf(actor)))
    }

    method Apply(d: Dot<A>)
      requires Valid()
      modifies this
      ensures Valid()
      ensures dots == Applied(old(dots), d)
    {
      if GetOf(d.actor) < d.counter {
        dots := dots[d.actor := d.counter];
      }
    }

    /** `union`: apply every entry of `other`; afterwards each counter is the
        larger of the two. */
    method Union(other: Counters<A>)
      requires Valid() && NoZero(other)
      modifies this
      ensures Valid()
      ensures forall w :: Get(dots, w) == if Get(old(dots), w) >= Get(other, w) then Get(old(dots), w) else Get(other, w)
      ensures dots == Max(old(dots), other)
    {
      var todo := other.Keys;
      while todo != {}
        invariant todo <= other.Keys
        invariant Valid()
        invariant forall w :: w !in todo ==> Get(dots, w) == if Get(old(dots), w) >= Get(other, w) then Get(old(dots), w) else Get(other, w)
        invariant forall w :: w in todo ==> Get(dots, w) == Get(old(dots), w)
        decreases todo
      {
        var a :| a in todo;
        Apply(Dots.Dot(a, other[a]));
        todo := todo - {a};
      }
      MaxOfGets(old(dots), other, dots);
    }
  }

  /** Applying the dot returned by inc advances exactly that actor by one and
      makes the clock strictly greater than before. */
  lemma ApplyIncAdvances<A(!new)>(m: Counters<A>, actor: A)
    requires NoZero(m)
    ensures Get(Applied(m, Dots.Dot(actor, Get(m, actor) + 1)), actor) == Get(m, actor) + 1
    ensures PartialCmp(Applied(m, Dots.Dot(actor, Get(m, actor) + 1)), m) == Some(Greater)
  {
    var m' := Applied(m, Dots.Dot(actor, Get(m, actor) + 1));
    assert m' == m[actor := Get(m, actor) + 1];
    assert m' != m by { assert Get(m', actor) != Get(m, actor); }
    PartialCmpMeaning(m', m);
  }
}
