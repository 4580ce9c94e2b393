/** Lens lists, for any kind of lens and schema. A document's schema is
    what its lens list builds from the empty schema; `transform` moves a
    document between two lens lists by undoing the first list's own suffix,
    last lens first, and then applying the second list's own suffix. Both
    `crdt/src/lens.rs` and `cambria/src/lens.rs` implement this over their
    own lenses and schemas. */
module LensLists {
  import opened Wrappers

  /** Every lens that applies is undone by its reverse. */
  ghost predicate Reversible<L(!new), S(!new)>(step: (L, S) -> Result<S>, reverse: L -> L) {
    forall l, s | step(l, s).Ok? :: step(reverse(l), step(l, s).value) == Ok(s)
  }

  /** Applies lenses left to right, stopping at the first failure. */
  function ApplyAll<L, S>(step: (L, S) -> Result<S>, refs: seq<L>, s: S): Result<S>
    decreases |refs|
  {
    if refs == [] then Ok(s)
    else
      match step(refs[0], s)
      case Err(e) => Err(e)
      case Ok(t) => ApplyAll(step, refs[1..], t)
  }

  /** Applying a concatenation applies the first part, then the second. */
  lemma {:induction false} ApplyAllAppend<L, S>(step: (L, S) -> Result<S>, x: seq<L>, y: seq<L>, s: S)
    ensures ApplyAll(step, x + y, s) ==
      match ApplyAll(step, x, s)
      case Err(e) => Err(e)
      case Ok(t) => ApplyAll(step, y, t)
    decreases |x|
  {
    if x == [] {
      assert x + y == y;
    } else {
      assert (x + y)[0] == x[0] && (x + y)[1..] == x[1..] + y;
      match step(x[0], s)
      case Err(e) =>
      case Ok(t) => ApplyAllAppend(step, x[1..], y, t);
    }
  }

  /** A stored lens list, each lens applied forwards. */
  function Refs<X, L>(toRef: X -> L, ls: seq<X>): (r: seq<L>)
    ensures |r| == |ls| && forall i | 0 <= i < |ls| :: r[i] == toRef(ls[i])
  {
    seq(|ls|, i requires 0 <= i < |ls| => toRef(ls[i]))
  }

  /** The lenses that undo a list: each reversed, in reverse order. */
  function Undo<L>(reverse: L -> L, refs: seq<L>): (r: seq<L>)
    ensures |r| == |refs|
    ensures forall i | 0 <= i < |refs| :: r[i] == reverse(refs[|refs| - 1 - i])
    decreases |refs|
  {
    if refs == [] then [] else Undo(reverse, refs[1..]) + [reverse(refs[0])]
  }

  /** A lens list that applies is undone by `Undo` of it. */
  lemma {:induction false} UndoRestores<L(!new), S(!new)>(step: (L, S) -> Result<S>, reverse: L -> L, refs: seq<L>, s: S)
    requires Reversible(step, reverse)
    requires ApplyAll(step, refs, s).Ok?
    ensures ApplyAll(step, Undo(reverse, refs), ApplyAll(step, refs, s).value) == Ok(s)
    decreases |refs|
  {
    if refs != [] {
      var t := step(refs[0], s).value;
      var u := ApplyAll(step, refs, s).value;
      UndoRestores(step, reverse, refs[1..], t);
      ApplyAllAppend(step, Undo(reverse, refs[1..]), [reverse(refs[0])], u);
      assert [reverse(refs[0])][1..] == [];
    }
  }

  /** `to_schema`: the schema a lens list builds from the empty schema
      (its serialisation is not modelled). */
  method ToSchema<X, L, S>(toRef: X -> L, step: (L, S) -> Result<S>, lenses: seq<X>, empty: S) returns (r: Result<S>)
    ensures r == ApplyAll(step, Refs(toRef, lenses), empty)
  {
    var schema := empty;
    var i := 0;
    while i < |lenses|
      invariant 0 <= i <= |lenses|
      invariant ApplyAll(step, Refs(toRef, lenses), empty) == ApplyAll(step, Refs(toRef, lenses)[i..], schema)
    {
      var refs := Refs(toRef, lenses)[i..];
      assert refs[0] == toRef(lenses[i]) && refs[1..] == Refs(toRef, lenses)[i + 1..];
      var next := step(toRef(lenses[i]), schema);
      if next.Err? {
        return Err(next.msg);
      }
      schema := next.value;
      i := i + 1;
    }
    assert Refs(toRef, lenses)[i..] == [];
    return Ok(schema);
  }

  /** The length of the longest common prefix of two lens lists. */
  function PrefixLen<X(==)>(a: seq<X>, b: seq<X>): (p: nat)
    ensures p <= |a| && p <= |b| && a[..p] == b[..p]
    ensures p < |a| && p < |b| ==> a[p] != b[p]
    decreases |a|
  {
    if a == [] || b == [] || a[0] != b[0] then 0
    else
      var q := PrefixLen(a[1..], b[1..]);
      assert a[..q + 1] == [a[0]] + a[1..][..q];
      assert b[..q + 1] == [b[0]] + b[1..][..q];
      q + 1
  }

  /** The lenses that take a document from lens list `a` to lens list `b`. */
  function TransformOf<X(==), L>(toRef: X -> L, reverse: L -> L, a: seq<X>, b: seq<X>): seq<L> {
    var p := PrefixLen(a, b);
    Undo(reverse, Refs(toRef, a[p..])) + Refs(toRef, b[p..])
  }

  /** The first loop of `transform`: the length of the common prefix. */
  method CommonPrefix<X(==)>(a: seq<X>, b: seq<X>) returns (prefix: nat)
    ensures prefix == PrefixLen(a, b)
  {
    prefix := 0;
    while prefix < |a| && prefix < |b| && a[prefix] == b[prefix]
      invariant prefix <= |a| && prefix <= |b| && a[..prefix] == b[..prefix]
    {
      assert a[..prefix + 1] == a[..prefix] + [a[prefix]];
      assert b[..prefix + 1] == b[..prefix] + [b[prefix]];
      prefix := prefix + 1;
    }
    PrefixMonotone(a, b, prefix);
    PrefixStops(a, b, prefix);
  }

  /** The second loop of `transform`: the reversed lenses of `a` past the
      prefix, last first. */
  method UndoSuffix<X, L>(toRef: X -> L, reverse: L -> L, a: seq<X>, prefix: nat) returns (c: seq<L>)
    requires prefix <= |a|
    ensures c == Undo(reverse, Refs(toRef, a[prefix..]))
  {
    ghost var undo := Undo(reverse, Refs(toRef, a[prefix..]));
    c := [];
    var j := |a|;
    while j > prefix
      invariant prefix <= j <= |a|
      invariant c == undo[..|a| - j]
    {
      j := j - 1;
      assert undo[|a| - j - 1] == reverse(toRef(a[j]));
      assert undo[..|a| - j] == undo[..|a| - j - 1] + [undo[|a| - j - 1]];
      c := c + [reverse(toRef(a[j]))];
    }
    assert undo[..|a| - prefix] == undo;
  }

  /** `transform`: skips the common prefix, undoes the rest of `a`, then
      applies the rest of `b`. */
  method Transform<X(==), L>(toRef: X -> L, reverse: L -> L, a: seq<X>, b: seq<X>) returns (c: seq<L>)
    ensures c == TransformOf(toRef, reverse, a, b)
  {
    var prefix := CommonPrefix(a, b);
    c := UndoSuffix(toRef, reverse, a, prefix);
    ghost var undo := c;
    var k := prefix;
    while k < |b|
      invariant prefix <= k <= |b|
      invariant c == undo + Refs(toRef, b[prefix..])[..k - prefix]
    {
      assert Refs(toRef, b[prefix..])[..k + 1 - prefix] == Refs(toRef, b[prefix..])[..k - prefix] + [toRef(b[k])];
      c := c + [toRef(b[k])];
      k := k + 1;
    }
    assert Refs(toRef, b[prefix..])[..|b| - prefix] == Refs(toRef, b[prefix..]);
  }

  /** A common prefix of length `n` is no longer than the longest one. */
  lemma {:induction false} PrefixMonotone<X>(a: seq<X>, b: seq<X>, n: nat)
    requires n <= |a| && n <= |b| && a[..n] == b[..n]
    ensures PrefixLen(a, b) >= n
    decreases n
  {
    if n > 0 {
      assert a[0] == a[..n][0] && b[0] == b[..n][0];
      assert a[1..][..n - 1] == a[..n][1..] && b[1..][..n - 1] == b[..n][1..];
      PrefixMonotone(a[1..], b[1..], n - 1);
    }
  }

  /** Where the two lists first differ (or one ends), the longest common
      prefix ends. */
  lemma PrefixStops<X>(a: seq<X>, b: seq<X>, n: nat)
    requires n <= |a| && n <= |b| && PrefixLen(a, b) >= n
    requires n == |a| || n == |b| || a[n] != b[n]
    ensures PrefixLen(a, b) == n
  {
  }

  /** The references of a list are those of its two parts. */
  lemma RefsSplit<X, L>(toRef: X -> L, ls: seq<X>, p: nat)
    requires p <= |ls|
    ensures Refs(toRef, ls) == Refs(toRef, ls[..p]) + Refs(toRef, ls[p..])
  {
  }

  /** Moving between lens lists: a document whose schema was built by `a`
      ends with the schema built by `b` after the lenses of `transform`. */
  lemma TransformReachesTarget<X, L(!new), S(!new)>(toRef: X -> L, reverse: L -> L, step: (L, S) -> Result<S>,
                                             a: seq<X>, b: seq<X>, empty: S)
    requires Reversible(step, reverse)
    requires ApplyAll(step, Refs(toRef, a), empty).Ok? && ApplyAll(step, Refs(toRef, b), empty).Ok?
    ensures ApplyAll(step, TransformOf(toRef, reverse, a, b), ApplyAll(step, Refs(toRef, a), empty).value) ==
            ApplyAll(step, Refs(toRef, b), empty)
  {
    var p := PrefixLen(a, b);
    RefsSplit(toRef, a, p);
    RefsSplit(toRef, b, p);
    ApplyAllAppend(step, Refs(toRef, a[..p]), Refs(toRef, a[p..]), empty);
    ApplyAllAppend(step, Refs(toRef, b[..p]), Refs(toRef, b[p..]), empty);
    var mid := ApplyAll(step, Refs(toRef, a[..p]), empty).value;
    UndoRestores(step, reverse, Refs(toRef, a[p..]), mid);
    ApplyAllAppend(step, Undo(reverse, Refs(toRef, a[p..])), Refs(toRef, b[p..]), ApplyAll(step, Refs(toRef, a), empty).value);
  }
}
