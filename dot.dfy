/** Version markers of the vector-clock crate (src/dot.rs): a dot pairs an
    actor with a counter; it is compared by actor first, then by counter. */
module Dots {

  datatype Ordering = Less | Equal | Greater {
    function Reverse(): Ordering {
      match this
      case Less => Greater
      case Equal => Equal
      case Greater => Less
    }
  }

  datatype Dot<A> = Dot(actor: A, counter: nat)

  /** `Dot::new` and `From<(A, u64)>`: both build the dot field by field. */
  function New<A>(actor: A, counter: nat): (d: Dot<A>)
    ensures d.actor == actor && d.counter == counter
  {
    Dot(actor, counter)
  }

  function FromPair<A>(p: (A, nat)): (d: Dot<A>)
    ensures (d.actor, d.counter) == p
  {
    Dot(p.0, p.1)
  }

  /** The successor of a dot: same actor, the next counter. */
  function Inc<A>(d: Dot<A>): (r: Dot<A>)
    ensures r.actor == d.actor && r.counter == d.counter + 1
  {
    Dot(d.actor, d.counter + 1)
  }

  /** `PartialEq`: two dots are equal exactly when actor and counter are. */
  predicate Eq<A(==)>(a: Dot<A>, b: Dot<A>) {
    a.actor == b.actor && a.counter == b.counter
  }

  function CmpNat(x: nat, y: nat): Ordering {
    if x < y then Less else if x == y then Equal else Greater
  }

  /** An actor comparison behaves as `Ord` does: it says Equal only of equal
      actors and is antisymmetric and transitive. */
  ghost predicate IsTotalOrder<A(!new)>(cmp: (A, A) -> Ordering) {
    (forall x: A, y: A :: cmp(x, y) == Equal <==> x == y) &&
    (forall x: A, y: A :: cmp(y, x) == cmp(x, y).Reverse()) &&
    (forall x: A, y: A, z: A :: cmp(x, y) == Less && cmp(y, z) == Less ==> cmp(x, z) == Less)
  }

  /** `Ord::cmp`: the actors decide unless they are equal, then the counters. */
  function Cmp<A>(cmp: (A, A) -> Ordering, a: Dot<A>, b: Dot<A>): Ordering {
    var c := cmp(a.actor, b.actor);
    if c == Equal then CmpNat(a.counter, b.counter) else c
  }

  lemma CmpEqualIffEq<A(!new)>(cmp: (A, A) -> Ordering, a: Dot<A>, b: Dot<A>)
    requires IsTotalOrder(cmp)
    ensures Cmp(cmp, a, b) == Equal <==> Eq(a, b)
    ensures Eq(a, b) <==> a == b
  {
  }

  lemma CmpAntisymmetric<A(!new)>(cmp: (A, A) -> Ordering, a: Dot<A>, b: Dot<A>)
    requires IsTotalOrder(cmp)
    ensures Cmp(cmp, b, a) == Cmp(cmp, a, b).Reverse()
  {
    assert cmp(b.actor, a.actor) == cmp(a.actor, b.actor).Reverse();
  }

  lemma CmpTransitive<A(!new)>(cmp: (A, A) -> Ordering, a: Dot<A>, b: Dot<A>, c: Dot<A>)
    requires IsTotalOrder(cmp)
    requires Cmp(cmp, a, b) == Less && Cmp(cmp, b, c) == Less
    ensures Cmp(cmp, a, c) == Less
  {
    if cmp(a.actor, b.actor) == Equal {
      assert a.actor == b.actor;
    } else if cmp(b.actor, c.actor) == Equal {
      assert b.actor == c.actor;
    } else {
      assert cmp(a.actor, c.actor) == Less;
    }
  }

  /** Same actor: the order is the order of the counters, so a successor is
      always greater. */
  lemma IncIsGreater<A(!new)>(cmp: (A, A) -> Ordering, d: Dot<A>)
    requires IsTotalOrder(cmp)
    ensures Cmp(cmp, d, Inc(d)) == Less
  {
    assert cmp(d.actor, d.actor) == Equal;
  }
}
