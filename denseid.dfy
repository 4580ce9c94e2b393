/** Dense identifiers: a corrected placement for the positional identifiers
    of crdt/src/pos_identifier.rs. There, `between` ignores the dot, so two
    replicas inserting into one gap make two identifiers at one position,
    and no identifier made later lies between them unless its dot happens
    to (`Positions.IdBetweenAtTie`). Here an identifier is a non-empty
    sequence of digits, each a signed position and the dot of the insert
    that made it, ordered lexicographically with a prefix before its
    extensions. Between any two identifiers, whatever their positions, a
    new one exists for every dot, which is the promise at the head of
    pos_identifier.rs. */
module DenseIds {
  import opened Wrappers
  import opened Dots
  import DotSets
  import Positions

  datatype Digit<I> = Digit(pos: int, id: DotSets.Dot<I>)

  type DenseId<I> = seq<Digit<I>>

  /** Digits order by position, the dots breaking ties. */
  function DigitCmp<I>(cmp: (I, I) -> Ordering, a: Digit<I>, b: Digit<I>): Ordering {
    var c := Positions.CmpInt(a.pos, b.pos);
    if c == Equal then Positions.DotCmp(cmp, a.id, b.id) else c
  }

  /** Lexicographic order; a proper prefix comes first. */
  function LexCmp<I>(cmp: (I, I) -> Ordering, x: DenseId<I>, y: DenseId<I>): Ordering
    decreases |x|
  {
    if |x| == 0 then (if |y| == 0 then Equal else Less)
    else if |y| == 0 then Greater
    else
      var c := DigitCmp(cmp, x[0], y[0]);
      if c != Equal then c else LexCmp(cmp, x[1..], y[1..])
  }

  predicate IsPrefix<T(==)>(x: seq<T>, y: seq<T>) {
    |x| <= |y| && y[..|x|] == x
  }

  // ---------------------------------------------------------------------
  // The order
  // ---------------------------------------------------------------------

  lemma DigitCmpLaws<I(!new)>(cmp: (I, I) -> Ordering, a: Digit<I>, b: Digit<I>)
    requires IsTotalOrder(cmp)
    ensures DigitCmp(cmp, a, b) == Equal <==> a == b
    ensures DigitCmp(cmp, b, a) == DigitCmp(cmp, a, b).Reverse()
  {
    var u, v := a.id, b.id;
    assert cmp(v.id, u.id) == cmp(u.id, v.id).Reverse();
    if cmp(u.id, v.id) == Equal {
      assert u.id == v.id;
    }
  }

  lemma DigitCmpTransitive<I(!new)>(cmp: (I, I) -> Ordering, a: Digit<I>, b: Digit<I>, c: Digit<I>)
    requires IsTotalOrder(cmp)
    requires DigitCmp(cmp, a, b) == Less && DigitCmp(cmp, b, c) == Less
    ensures DigitCmp(cmp, a, c) == Less
  {
    if a.pos == b.pos == c.pos {
      Positions.DotCmpTransitive(cmp, a.id, b.id, c.id);
    }
  }

  /** The order tells identifiers apart and reverses with its arguments. */
  lemma {:induction false} LexCmpLaws<I(!new)>(cmp: (I, I) -> Ordering, x: DenseId<I>, y: DenseId<I>)
    requires IsTotalOrder(cmp)
    ensures LexCmp(cmp, x, y) == Equal <==> x == y
    ensures LexCmp(cmp, y, x) == LexCmp(cmp, x, y).Reverse()
    decreases |x|
  {
    if |x| > 0 && |y| > 0 {
      DigitCmpLaws(cmp, x[0], y[0]);
      LexCmpLaws(cmp, x[1..], y[1..]);
      if x[0] == y[0] && x[1..] == y[1..] {
        assert x == [x[0]] + x[1..] && y == [y[0]] + y[1..];
      }
    }
  }

  /** The order is transitive. */
  lemma {:induction false} LexCmpTransitive<I(!new)>(cmp: (I, I) -> Ordering, x: DenseId<I>, y: DenseId<I>, z: DenseId<I>)
    requires IsTotalOrder(cmp)
    requires LexCmp(cmp, x, y) == Less && LexCmp(cmp, y, z) == Less
    ensures LexCmp(cmp, x, z) == Less
    decreases |x|
  {
    if |x| > 0 {
      DigitCmpLaws(cmp, x[0], y[0]);
      DigitCmpLaws(cmp, y[0], z[0]);
      var c1, c2 := DigitCmp(cmp, x[0], y[0]), DigitCmp(cmp, y[0], z[0]);
      if c1 == Less && c2 == Less {
        DigitCmpTransitive(cmp, x[0], y[0], z[0]);
      } else if c1 == Equal && c2 == Equal {
        LexCmpTransitive(cmp, x[1..], y[1..], z[1..]);
      }
    }
  }

  /** A proper prefix comes before its extension. */
  lemma {:induction false} PrefixLess<I(!new)>(cmp: (I, I) -> Ordering, x: DenseId<I>, w: DenseId<I>)
    requires IsTotalOrder(cmp) && |w| > 0
    ensures LexCmp(cmp, x, x + w) == Less
    decreases |x|
  {
    if |x| > 0 {
      DigitCmpLaws(cmp, x[0], x[0]);
      assert (x + w)[1..] == x[1..] + w;
      PrefixLess(cmp, x[1..], w);
    }
  }

  /** A common prefix does not change the order. */
  lemma {:induction false} CommonPrefix<I(!new)>(cmp: (I, I) -> Ordering, p: DenseId<I>, a: DenseId<I>, b: DenseId<I>)
    requires IsTotalOrder(cmp)
    ensures LexCmp(cmp, p + a, p + b) == LexCmp(cmp, a, b)
    decreases |p|
  {
    if |p| > 0 {
      DigitCmpLaws(cmp, p[0], p[0]);
      assert (p + a)[1..] == p[1..] + a && (p + b)[1..] == p[1..] + b;
      CommonPrefix(cmp, p[1..], a, b);
    } else {
      assert p + a == a && p + b == b;
    }
  }

  /** When `x` comes before `z` without being a prefix of it, they differ
      at a digit where `x` is smaller, so every extension of `x` still
      comes before `z`. */
  lemma {:induction false} LessExtends<I(!new)>(cmp: (I, I) -> Ordering, x: DenseId<I>, z: DenseId<I>, w: DenseId<I>)
    requires IsTotalOrder(cmp)
    requires LexCmp(cmp, x, z) == Less && !IsPrefix(x, z)
    ensures LexCmp(cmp, x + w, z) == Less
    decreases |x|
  {
    assert |x| > 0 && |z| > 0;
    DigitCmpLaws(cmp, x[0], z[0]);
    assert (x + w)[0] == x[0];
    if DigitCmp(cmp, x[0], z[0]) == Equal {
      assert (x + w)[1..] == x[1..] + w;
      PrefixCons(x, z);
      LessExtends(cmp, x[1..], z[1..], w);
    }
  }

  /** Prefixes of two sequences with one head are prefixes of their tails. */
  lemma PrefixCons<T>(x: seq<T>, z: seq<T>)
    requires |x| > 0 && |z| > 0 && x[0] == z[0]
    ensures IsPrefix(x[1..], z[1..]) ==> IsPrefix(x, z)
  {
    if IsPrefix(x[1..], z[1..]) {
      assert z[..|x|] == [z[0]] + z[1..][..|x| - 1];
      assert x == [x[0]] + x[1..];
    }
  }

  // ---------------------------------------------------------------------
  // between
  // ---------------------------------------------------------------------

  /** The identifier for the gap between `left` and `right` (a missing
      neighbour is the empty sequence on the left, nothing on the right):
      below a right neighbour that extends the left one, the left one
      followed by a digit one position below the right one's next digit;
      otherwise the left one followed by a digit at position 0. */
  function Between<I(==)>(left: Option<DenseId<I>>, right: Option<DenseId<I>>, id: DotSets.Dot<I>): (y: DenseId<I>)
    ensures |y| > 0 && y[|y| - 1].id == id
  {
    var l := if left.Some? then left.value else [];
    if right.Some? && |l| < |right.value| && right.value[..|l|] == l then
      l + [Digit(right.value[|l|].pos - 1, id)]
    else l + [Digit(0, id)]
  }

  /** Between any two identifiers in order, and beside any one, a new
      identifier exists for every dot. */
  lemma BetweenIsStrict<I(!new)>(cmp: (I, I) -> Ordering, left: Option<DenseId<I>>, right: Option<DenseId<I>>,
                                 id: DotSets.Dot<I>)
    requires IsTotalOrder(cmp)
    requires right.Some? ==> LexCmp(cmp, if left.Some? then left.value else [], right.value) == Less
    ensures var y := Between(left, right, id);
      (left.Some? ==> LexCmp(cmp, left.value, y) == Less) &&
      (right.Some? ==> LexCmp(cmp, y, right.value) == Less)
  {
    var l := if left.Some? then left.value else [];
    var y := Between(left, right, id);
    var d := y[|y| - 1];
    assert y == l + [d];
    PrefixLess(cmp, l, [d]);
    if right.Some? {
      var r := right.value;
      if |l| < |r| && r[..|l|] == l {
        assert r == l + r[|l|..];
        CommonPrefix(cmp, l, [d], r[|l|..]);
        assert DigitCmp(cmp, d, r[|l|]) == Less;
      } else {
        LexCmpLaws(cmp, l, r);
        assert !IsPrefix(l, r) by {
          if |l| == |r| {
            assert r[..|l|] == r;
          }
        }
        LessExtends(cmp, l, r, [d]);
      }
    }
  }

  /** The tie of `Positions.IdBetweenTieExample`, made of dense
      identifiers: a new identifier lands between the two. */
  lemma BetweenAtTie()
    ensures var cmp := (a: nat, b: nat) => CmpNat(a, b);
      var x: DenseId<nat> := [Digit(1, DotSets.Dot(1, 1))];
      var z: DenseId<nat> := [Digit(1, DotSets.Dot(2, 1))];
      var y := Between(Some(x), Some(z), DotSets.Dot(3, 1));
      LexCmp(cmp, x, z) == Less && LexCmp(cmp, x, y) == Less && LexCmp(cmp, y, z) == Less
  {
    var cmp := (a: nat, b: nat) => CmpNat(a, b);
    var x: DenseId<nat> := [Digit(1, DotSets.Dot(1, 1))];
    var z: DenseId<nat> := [Digit(1, DotSets.Dot(2, 1))];
    assert IsTotalOrder(cmp);
    assert LexCmp(cmp, x[1..], z[1..]) == Equal;
    BetweenIsStrict(cmp, Some(x), Some(z), DotSets.Dot(3, 1));
  }
}
