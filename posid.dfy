/** Positional identifiers (crdt/src/pos_identifier.rs): a position is the
    dyadic number mantissa / 2^exponent, and a new position can always be
    made between two others. An identifier pairs a position with the dot of
    the replica that made it. */
module Positions {
  import opened Wrappers
  import opened Dots
  import DotSets

  /** 2^128: the range of the `u128` mantissa. */
  const U128: nat := 0x1_0000_0000_0000_0000_0000_0000_0000_0000

  /** A position. The source's mantissa is a `u128`; here it is signed, so
      that a position below any other exists (see `BetweenBelowAsWritten`
      for what the unsigned subtraction does instead). */
  datatype Position = Position(mantissa: int, exponent: nat)

  function CmpInt(x: int, y: int): Ordering {
    if x < y then Less else if x == y then Equal else Greater
  }

  function Pow2(k: nat): (r: nat)
    ensures r >= 1
  {
    if k == 0 then 1 else 2 * Pow2(k - 1)
  }

  /** `Position::zero`. */
  const Zero := Position(0, 0)

  /** `value`: the mantissa scaled to the exponent `exp`, truncating when
      `exp` is below the position's own exponent. */
  function Value(p: Position, exp: nat): int {
    if exp < p.exponent then p.mantissa / Pow2(p.exponent - exp)
    else p.mantissa * Pow2(exp - p.exponent)
  }

  function MaxExp(p: Position, q: Position): nat {
    if p.exponent < q.exponent then q.exponent else p.exponent
  }

  /** `Ord::cmp`: both mantissas scaled to the larger exponent. */
  function Cmp(p: Position, q: Position): Ordering {
    var e := MaxExp(p, q);
    CmpInt(Value(p, e), Value(q, e))
  }

  // ---------------------------------------------------------------------
  // Scaling
  // ---------------------------------------------------------------------

  lemma {:induction false} Pow2Add(a: nat, b: nat)
    ensures Pow2(a + b) == Pow2(a) * Pow2(b)
    decreases a
  {
    if a > 0 {
      Pow2Add(a - 1, b);
      MulAssoc(2, Pow2(a - 1), Pow2(b));
    }
  }

  lemma MulAssoc(x: int, y: int, z: int)
    ensures x * (y * z) == (x * y) * z
  {
  }

  /** At widths holding the exponent, one more bit of width doubles the value. */
  lemma ValueScale(p: Position, e: nat, k: nat)
    requires e >= p.exponent
    ensures Value(p, e + k) == Value(p, e) * Pow2(k)
  {
    Pow2Add(e - p.exponent, k);
    assert e + k - p.exponent == (e - p.exponent) + k;
    MulAssoc(p.mantissa, Pow2(e - p.exponent), Pow2(k));
  }

  lemma ScaleKeepsOrder(x: int, y: int, k: nat)
    requires k >= 1
    ensures CmpInt(x * k, y * k) == CmpInt(x, y)
  {
    if x < y {
      assert x * k < y * k by { assert (y - x) * k >= 1; }
    } else if y < x {
      assert y * k < x * k by { assert (x - y) * k >= 1; }
    }
  }

  /** Comparing at any width holding both exponents gives `cmp`. */
  lemma CmpAtWidth(p: Position, q: Position, e: nat)
    requires e >= p.exponent && e >= q.exponent
    ensures Cmp(p, q) == CmpInt(Value(p, e), Value(q, e))
  {
    var m := MaxExp(p, q);
    ValueScale(p, m, e - m);
    ValueScale(q, m, e - m);
    ScaleKeepsOrder(Value(p, m), Value(q, m), Pow2(e - m));
  }

  /** `cmp` is a total preorder: it flips with its arguments and is
      transitive. */
  lemma CmpAntisymmetric(p: Position, q: Position)
    ensures Cmp(q, p) == Cmp(p, q).Reverse()
  {
  }

  lemma CmpTransitive(p: Position, q: Position, r: Position)
    requires Cmp(p, q) == Less && Cmp(q, r) == Less
    ensures Cmp(p, r) == Less
  {
    var e := MaxExp(MaxPos(p, q), r);
    CmpAtWidth(p, q, e);
    CmpAtWidth(q, r, e);
    CmpAtWidth(p, r, e);
  }

  function MaxPos(p: Position, q: Position): (r: Position)
    ensures r.exponent == MaxExp(p, q)
  {
    if p.exponent < q.exponent then q else p
  }

  /** `cmp` compares values, not representations: two positions can compare
      Equal and still differ as data, which the derived `PartialEq` tells
      apart. */
  lemma CmpIgnoresRepresentation()
    ensures Cmp(Position(5, 1), Position(10, 2)) == Equal
    ensures Position(5, 1) != Position(10, 2)
  {
    assert Pow2(1) == 2;
  }

  /** The orderings the unit test states. */
  lemma CmpExamples()
    ensures Cmp(Position(5, 1), Position(2, 0)) == Greater
    ensures Cmp(Position(5, 1), Position(5, 1)) == Equal
    ensures Cmp(Position(5, 1), Position(9, 0)) == Less
  {
    assert Pow2(1) == 2;
  }

  // ---------------------------------------------------------------------
  // between
  // ---------------------------------------------------------------------

  /** `between` on the positions of the neighbours. With no left neighbour
      the mantissa of the right one is decremented, with no right neighbour
      the left mantissa is incremented; with both, the result is their
      average. The mantissa being signed, the decrement always lands below
      the right neighbour. */
  function Between(left: Option<Position>, right: Option<Position>): (r: Position)
    ensures left.Some? && right.None? ==> Cmp(left.value, r) == Less
    ensures left.None? && right.Some? ==> Cmp(r, right.value) == Less
  {
    match (left, right)
    case (None, None) => Zero
    case (None, Some(rt)) => Position(rt.mantissa - 1, rt.exponent)
    case (Some(lt), None) => Position(lt.mantissa + 1, lt.exponent)
    case (Some(lt), Some(rt)) =>
      var p :=
        if lt.mantissa == 0 then rt
        else if rt.mantissa == 0 then lt
        else if lt.exponent > rt.exponent then
          Position(lt.mantissa + rt.mantissa * Pow2(lt.exponent - rt.exponent), lt.exponent)
        else if lt.exponent < rt.exponent then
          Position(rt.mantissa + lt.mantissa * Pow2(rt.exponent - lt.exponent), rt.exponent)
        else Position(lt.mantissa + rt.mantissa, lt.exponent);
      Position(p.mantissa, p.exponent + 1)
  }

  /** `between` as written for a missing left neighbour: the `u128`
      subtraction wraps when the right mantissa is 0. */
  function BetweenBelowAsWritten(right: Position): Position {
    Position((right.mantissa + U128 - 1) % U128, right.exponent)
  }

  /** `between` as written: `Between` save for the wrapping subtraction. */
  function BetweenAsWritten(left: Option<Position>, right: Option<Position>): (r: Position)
    ensures left.None? && right.Some? ==> 0 <= r.mantissa < U128 && r.exponent == right.value.exponent
    ensures (left.None? && right.Some? ==> 0 < right.value.mantissa <= U128) ==> r == Between(left, right)
  {
    if left.None? && right.Some? then BetweenBelowAsWritten(right.value) else Between(left, right)
  }

  /** Below a right neighbour at value 0, the written code yields the
      largest mantissa, far above the neighbour instead of below it. */
  lemma BetweenBelowWraps()
    ensures BetweenBelowAsWritten(Position(0, 0)) == Position(U128 - 1, 0)
    ensures Cmp(BetweenBelowAsWritten(Position(0, 0)), Position(0, 0)) == Greater
    ensures Cmp(Between(None, Some(Position(0, 0))), Position(0, 0)) == Less
  {
  }

  /** With a mantissa that fits a positive `u128`, the written code is
      `Between`. */
  lemma BetweenBelowAgrees(right: Position)
    requires 0 < right.mantissa < U128
    ensures BetweenBelowAsWritten(right) == Between(None, Some(right))
  {
  }

  /** The result of `between` with both neighbours is their exact average,
      at one bit more than the larger exponent. */
  lemma BetweenIsAverage(l: Position, r: Position)
    ensures var m, e := Between(Some(l), Some(r)), MaxExp(l, r) + 1;
      m.exponent <= e && 2 * Value(m, e) == Value(l, e) + Value(r, e)
  {
    var e := MaxExp(l, r) + 1;
    if l.mantissa == 0 {
      AverageWithZero(l, r, e);
    } else if r.mantissa == 0 {
      AverageWithZero(r, l, e);
    } else if l.exponent > r.exponent {
      AverageAtExponent(l, r);
    } else if l.exponent < r.exponent {
      AverageAtExponent(r, l);
    } else {
      assert Pow2(1) == 2;
    }
  }

  /** Halving the other neighbour averages it with a zero one. */
  lemma AverageWithZero(z: Position, p: Position, e: nat)
    requires z.mantissa == 0 && e >= z.exponent && e >= p.exponent + 1
    ensures 2 * Value(Position(p.mantissa, p.exponent + 1), e) == Value(z, e) + Value(p, e)
  {
    var k := Pow2(e - p.exponent - 1);
    assert Pow2(e - p.exponent) == 2 * k;
    MulAssoc(p.mantissa, 2, k);
  }

  /** Scaling the neighbour with the smaller exponent up to the larger one,
      adding the mantissas and adding one bit averages them. */
  lemma AverageAtExponent(hi: Position, lo: Position)
    requires hi.exponent > lo.exponent
    ensures var d := hi.exponent - lo.exponent;
      2 * Value(Position(hi.mantissa + lo.mantissa * Pow2(d), hi.exponent + 1), hi.exponent + 1)
        == Value(hi, hi.exponent + 1) + Value(lo, hi.exponent + 1)
  {
    var d := hi.exponent - lo.exponent;
    assert Pow2(d + 1) == 2 * Pow2(d);
    assert hi.exponent + 1 - lo.exponent == d + 1;
    MulAssoc(lo.mantissa, 2, Pow2(d));
  }

  /** The module's promise: between two positions that compare unequal,
      `between` makes one strictly between them, in either order. */
  lemma BetweenIsStrict(l: Position, r: Position)
    requires Cmp(l, r) != Equal
    ensures var m := Between(Some(l), Some(r));
      Cmp(l, r) == Less ==> Cmp(l, m) == Less && Cmp(m, r) == Less
    ensures var m := Between(Some(l), Some(r));
      Cmp(l, r) == Greater ==> Cmp(l, m) == Greater && Cmp(m, r) == Greater
  {
    var m, e := Between(Some(l), Some(r)), MaxExp(l, r) + 1;
    BetweenIsAverage(l, r);
    CmpAtWidth(l, r, e);
    CmpAtWidth(l, m, e);
    CmpAtWidth(m, r, e);
  }

  /** `between(None, None)` is zero, and the unit test's example. */
  lemma BetweenExamples()
    ensures Between(None, None) == Position(0, 0)
    ensures Between(Some(Position(2, 0)), Some(Position(5, 1))) == Position(9, 2)
  {
    assert Pow2(1) == 2;
  }

  // ---------------------------------------------------------------------
  // Identifiers
  // ---------------------------------------------------------------------

  datatype Identifier<I> = Identifier(val: Position, id: DotSets.Dot<I>)

  /** The derived `Ord` of the crate's dots: by replica id, then counter. */
  function DotCmp<I>(cmp: (I, I) -> Ordering, a: DotSets.Dot<I>, b: DotSets.Dot<I>): Ordering {
    var c := cmp(a.id, b.id);
    if c == Equal then CmpNat(a.counter, b.counter) else c
  }

  /** `PositionalIdentifier::cmp`: by position, the dots breaking ties. */
  function IdCmp<I>(cmp: (I, I) -> Ordering, x: Identifier<I>, y: Identifier<I>): Ordering {
    var c := Cmp(x.val, y.val);
    if c == Equal then DotCmp(cmp, x.id, y.id) else c
  }

  /** Identifiers at distinct positions order by position; at equal
      positions by dot, which tells apart identifiers of distinct dots. */
  lemma IdCmpLaws<I(!new)>(cmp: (I, I) -> Ordering, x: Identifier<I>, y: Identifier<I>)
    requires IsTotalOrder(cmp)
    ensures Cmp(x.val, y.val) != Equal ==> IdCmp(cmp, x, y) == Cmp(x.val, y.val)
    ensures IdCmp(cmp, x, y) == Equal <==> Cmp(x.val, y.val) == Equal && x.id == y.id
    ensures IdCmp(cmp, y, x) == IdCmp(cmp, x, y).Reverse()
  {
    CmpAntisymmetric(x.val, y.val);
    var a, b := x.id, y.id;
    assert cmp(b.id, a.id) == cmp(a.id, b.id).Reverse();
    if cmp(a.id, b.id) == Equal {
      assert a.id == b.id;
    }
  }

  /** Three positions compare as their values at one common width. */
  lemma CmpThree(p: Position, q: Position, r: Position)
    ensures var e := MaxExp(MaxPos(p, q), r);
      Cmp(p, q) == CmpInt(Value(p, e), Value(q, e)) &&
      Cmp(q, r) == CmpInt(Value(q, e), Value(r, e)) &&
      Cmp(p, r) == CmpInt(Value(p, e), Value(r, e))
  {
    var e := MaxExp(MaxPos(p, q), r);
    CmpAtWidth(p, q, e);
    CmpAtWidth(q, r, e);
    CmpAtWidth(p, r, e);
  }

  lemma DotCmpTransitive<I(!new)>(cmp: (I, I) -> Ordering, a: DotSets.Dot<I>, b: DotSets.Dot<I>, c: DotSets.Dot<I>)
    requires IsTotalOrder(cmp)
    requires DotCmp(cmp, a, b) == Less && DotCmp(cmp, b, c) == Less
    ensures DotCmp(cmp, a, c) == Less
  {
    if cmp(a.id, b.id) == Equal {
      assert a.id == b.id;
    } else if cmp(b.id, c.id) == Equal {
      assert b.id == c.id;
    } else {
      assert cmp(a.id, c.id) == Less;
    }
  }

  /** Identifiers are strictly ordered: the order is transitive. */
  lemma IdCmpTransitive<I(!new)>(cmp: (I, I) -> Ordering, x: Identifier<I>, y: Identifier<I>, z: Identifier<I>)
    requires IsTotalOrder(cmp)
    requires IdCmp(cmp, x, y) == Less && IdCmp(cmp, y, z) == Less
    ensures IdCmp(cmp, x, z) == Less
  {
    CmpThree(x.val, y.val, z.val);
    if Cmp(x.val, y.val) == Equal && Cmp(y.val, z.val) == Equal {
      DotCmpTransitive(cmp, x.id, y.id, z.id);
    }
  }

  /** `PositionalIdentifier::between`: the position between those of the
      neighbours, with the given dot. */
  function IdBetween<I>(left: Option<Identifier<I>>, right: Option<Identifier<I>>, id: DotSets.Dot<I>): (r: Identifier<I>)
    ensures r.id == id
    ensures r.val == Between(if left.Some? then Some(left.value.val) else None,
                             if right.Some? then Some(right.value.val) else None)
  {
    var l := if left.Some? then Some(left.value.val) else None;
    var r := if right.Some? then Some(right.value.val) else None;
    Identifier(Between(l, r), id)
  }

  /** `PositionalIdentifier::between` as written, over the wrapping
      `between`. */
  function IdBetweenAsWritten<I>(left: Option<Identifier<I>>, right: Option<Identifier<I>>, id: DotSets.Dot<I>): (r: Identifier<I>)
    ensures r.id == id
    ensures left.Some? || right.None? ==> r == IdBetween(left, right, id)
  {
    var l := if left.Some? then Some(left.value.val) else None;
    var r := if right.Some? then Some(right.value.val) else None;
    Identifier(BetweenAsWritten(l, r), id)
  }

  /** A new identifier between two whose positions differ sorts between
      them, whatever its dot. */
  lemma IdBetweenIsStrict<I(!new)>(cmp: (I, I) -> Ordering, x: Identifier<I>, y: Identifier<I>, id: DotSets.Dot<I>)
    requires IsTotalOrder(cmp) && Cmp(x.val, y.val) == Less
    ensures var z := IdBetween(Some(x), Some(y), id);
      IdCmp(cmp, x, z) == Less && IdCmp(cmp, z, y) == Less
  {
    BetweenIsStrict(x.val, y.val);
  }

  /** Between two identifiers at one position, which concurrent inserts
      into one gap produce, `between` returns that position again: the new
      identifier then lies between the two exactly when its dot lies
      between theirs. */
  lemma IdBetweenAtTie<I(!new)>(cmp: (I, I) -> Ordering, x: Identifier<I>, z: Identifier<I>, id: DotSets.Dot<I>)
    requires IsTotalOrder(cmp) && x.val == z.val
    ensures var y := IdBetween(Some(x), Some(z), id);
      Cmp(y.val, x.val) == Equal &&
      (IdCmp(cmp, x, y) == Less && IdCmp(cmp, y, z) == Less <==>
       DotCmp(cmp, x.id, id) == Less && DotCmp(cmp, id, z.id) == Less)
  {
    var y := IdBetween(Some(x), Some(z), id);
    BetweenIsAverage(x.val, z.val);
    var e := MaxExp(x.val, z.val) + 1;
    CmpAtWidth(y.val, x.val, e);
    CmpAntisymmetric(y.val, x.val);
  }

  /** Two replicas that insert into one gap get one position; a third
      insert between the two, with the dot (3, 1), sorts after both. */
  lemma IdBetweenTieExample()
    ensures var cmp := (a: nat, b: nat) => CmpNat(a, b);
      var x: Identifier<nat> := Identifier(Position(1, 0), DotSets.Dot(1, 1));
      var z: Identifier<nat> := Identifier(Position(1, 0), DotSets.Dot(2, 1));
      var y := IdBetween(Some(x), Some(z), DotSets.Dot(3, 1));
      IdCmp(cmp, x, z) == Less && IdCmp(cmp, z, y) == Less
  {
    var x: Identifier<nat> := Identifier(Position(1, 0), DotSets.Dot(1, 1));
    var z: Identifier<nat> := Identifier(Position(1, 0), DotSets.Dot(2, 1));
    assert Between(Some(x.val), Some(z.val)) == Position(2, 1);
    assert Pow2(1) == 2;
  }
}
