/** Binary fractions in [0, 1) of arbitrary precision (crdt/src/fraction.rs).
    A fraction is stored as bytes, one base-128 digit per byte shifted left by
    one; the low bit of every byte but the last is a continuation bit. In the
    canonical form trailing zero digits are dropped (keeping at least one),
    which makes plain byte order agree with numeric order. */
module Fractions {
  import opened Bytes

  /** The stored bytes of a fraction. */
  type Fraction = seq<byte>

  /** `DIGIT_BITS` and the largest digit, `DIGIT_MASK`. */
  const DigitBits: nat := 7
  const DigitMask: nat := 127

  /** 128 raised to `k`: the weight of a digit `k` places from the end. */
  function Pow128(k: nat): (r: nat)
    ensures r >= 1
  {
    if k == 0 then 1 else 128 * Pow128(k - 1)
  }

  /** Every entry is a digit, below 128. */
  predicate IsDigits(ds: seq<byte>) {
    forall i | 0 <= i < |ds| :: ds[i] < 128
  }

  /** The numeric value of a digit sequence, scaled by 128 to the power of
      its length. */
  function DVal(ds: seq<byte>): nat {
    if ds == [] then 0 else DVal(ds[..|ds| - 1]) * 128 + ds[|ds| - 1] as nat
  }

  /** `n` zero digits. */
  function Zeros(n: nat): (r: seq<byte>)
    ensures |r| == n && forall i | 0 <= i < n :: r[i] == 0
  {
    seq(n, _ => 0)
  }

  /** `ds` extended with zero digits to length `n`. */
  function Pad(ds: seq<byte>, n: nat): (r: seq<byte>)
    requires |ds| <= n
    ensures |r| == n && r[..|ds|] == ds
  {
    ds + Zeros(n - |ds|)
  }

  /** `index`: the byte at `i`, or 0 past the end. */
  function At(f: Fraction, i: nat): (r: byte)
    ensures i >= |f| ==> r == 0
    ensures i < |f| ==> r == f[i]
  {
    if i < |f| then f[i] else 0
  }

  /** `digit`: the number part of the byte at `i`, or 0 past the end. */
  function Digit(f: Fraction, i: nat): (r: byte)
    ensures r < 128 && r == At(f, i) / 2
  {
    if i < |f| then f[i] / 2 else 0
  }

  /** The first `n` digits of `f`, reading zeros past its end. */
  function DigitsOf(f: Fraction, n: nat): (r: seq<byte>)
    ensures |r| == n && IsDigits(r)
  {
    seq(n, i requires 0 <= i < n => Digit(f, i))
  }

  /** The shape `from_digits` produces: at least one byte, a continuation bit
      on every byte but the last, and no trailing zero digit unless the
      fraction is the single digit 0. */
  predicate Canonical(f: Fraction) {
    |f| >= 1 &&
    (forall i | 0 <= i < |f| - 1 :: f[i] % 2 == 1) &&
    f[|f| - 1] % 2 == 0 &&
    (|f| == 1 || f[|f| - 1] / 2 != 0)
  }

  /** The first `from_digits` pass: drop trailing zero digits but one, and
      turn an empty sequence into the digit 0. */
  function StripZeros(ds: seq<byte>): (r: seq<byte>)
    ensures 1 <= |r| <= if |ds| == 0 then 1 else |ds|
    ensures |ds| >= 1 ==> r == ds[..|r|]
    ensures |r| == 1 || r[|r| - 1] != 0
    ensures |ds| == 0 ==> r == [0]
  {
    if |ds| == 0 then [0]
    else if |ds| > 1 && ds[|ds| - 1] == 0 then StripZeros(ds[..|ds| - 1])
    else ds
  }

  /** The second `from_digits` pass: shift every digit left by one and set
      the continuation bit on all but the last. */
  function SetBits(ds: seq<byte>): (r: seq<byte>)
    requires IsDigits(ds)
    ensures |r| == |ds|
  {
    seq(|ds|, i requires 0 <= i < |ds| => if i < |ds| - 1 then ds[i] * 2 + 1 else ds[i] * 2)
  }

  /** What `from_digits` returns for the digit sequence `ds`. */
  function Canon(ds: seq<byte>): Fraction
    requires IsDigits(ds)
  {
    var s := StripZeros(ds);
    assert IsDigits(s) by {
      if |ds| >= 1 {
        forall i | 0 <= i < |s| ensures s[i] < 128 {
          assert s[i] == ds[i];
        }
      }
    }
    SetBits(s)
  }

  // ---------------------------------------------------------------------
  // Digit values
  // ---------------------------------------------------------------------

  lemma {:induction false} DValBound(ds: seq<byte>)
    requires IsDigits(ds)
    ensures DVal(ds) < Pow128(|ds|)
    decreases |ds|
  {
    if ds != [] {
      DValBound(ds[..|ds| - 1]);
    }
  }

  /** The leading digit weighs 128 to the power of the length of the rest. */
  lemma {:induction false} DValCons(h: byte, t: seq<byte>)
    ensures DVal([h] + t) == h as nat * Pow128(|t|) + DVal(t)
    decreases |t|
  {
    if t != [] {
      var init := t[..|t| - 1];
      assert ([h] + t)[..|t|] == [h] + init;
      DValCons(h, init);
    }
  }

  lemma DValSnocZero(ds: seq<byte>)
    ensures DVal(ds + [0]) == 128 * DVal(ds)
  {
    assert (ds + [0])[..|ds|] == ds;
  }

  lemma {:induction false} DValPad(ds: seq<byte>, n: nat)
    requires |ds| <= n
    ensures DVal(Pad(ds, n)) == DVal(ds) * Pow128(n - |ds|)
    decreases n
  {
    if n > |ds| {
      DValPad(ds, n - 1);
      assert Pad(ds, n) == Pad(ds, n - 1) + [0];
      DValSnocZero(Pad(ds, n - 1));
      MulShift(DVal(ds), Pow128(n - 1 - |ds|));
    } else {
      assert Pad(ds, n) == ds;
    }
  }

  lemma MulShift(v: nat, w: nat)
    ensures 128 * (v * w) == v * (128 * w)
  {
  }

  lemma ScaleBoth(a1: nat, a: nat, x: nat, y: nat, w: nat, l: nat)
    requires a1 + x * w == a + y * w
    ensures a1 * 128 + l + x * (128 * w) == a * 128 + l + y * (128 * w)
  {
    assert (a1 + x * w) * 128 == (a + y * w) * 128;
  }

  /** Replacing the digit at `k` shifts the value by the difference times
      that digit's weight. */
  lemma {:induction false} DValUpdate(ds: seq<byte>, k: nat, v: byte)
    requires k < |ds|
    ensures DVal(ds[k := v]) + ds[k] as nat * Pow128(|ds| - 1 - k) == DVal(ds) + v as nat * Pow128(|ds| - 1 - k)
    decreases |ds|
  {
    var n := |ds|;
    if k == n - 1 {
      assert ds[k := v][..n - 1] == ds[..n - 1];
    } else {
      var init := ds[..n - 1];
      assert ds[k := v][..n - 1] == init[k := v];
      DValUpdate(init, k, v);
      assert ds[k := v][n - 1] == ds[n - 1];
      ScaleBoth(DVal(init[k := v]), DVal(init), ds[k] as nat, v as nat, Pow128(n - 2 - k), ds[n - 1] as nat);
    }
  }

  /** The value of the first `n + 1` digits is 128 times that of the first `n`. */
  lemma DigitsOfSnoc(f: Fraction, n: nat)
    requires n >= |f|
    ensures DVal(DigitsOf(f, n + 1)) == 128 * DVal(DigitsOf(f, n))
  {
    assert DigitsOf(f, n + 1) == DigitsOf(f, n) + [0];
    DValSnocZero(DigitsOf(f, n));
  }

  // ---------------------------------------------------------------------
  // Canonical forms
  // ---------------------------------------------------------------------

  /** `from_digits` yields a canonical fraction. */
  lemma CanonCanonical(ds: seq<byte>)
    requires IsDigits(ds)
    ensures Canonical(Canon(ds))
  {
    var s := StripZeros(ds);
    var r := Canon(ds);
    assert r == SetBits(s);
    if |s| > 1 {
      assert s[|s| - 1] != 0;
      assert r[|r| - 1] == s[|s| - 1] * 2;
    }
  }

  /** `from_digits` preserves the digits, up to trailing zeros. */
  lemma CanonDigits(ds: seq<byte>, n: nat)
    requires IsDigits(ds) && |ds| <= n && n >= 1
    ensures DigitsOf(Canon(ds), n) == Pad(ds, n)
  {
    var s := StripZeros(ds);
    var r := Canon(ds);
    assert IsDigits(s) && r == SetBits(s);
    StripZerosPad(ds);
    forall i | 0 <= i < n ensures DigitsOf(r, n)[i] == Pad(ds, n)[i] {
      if i < |s| {
        assert r[i] / 2 == s[i];
      }
    }
  }

  /** The digits `StripZeros` drops are zeros. */
  lemma {:induction false} StripZerosPad(ds: seq<byte>)
    ensures forall i | |StripZeros(ds)| <= i < |ds| :: ds[i] == 0
    ensures forall i | 0 <= i < |StripZeros(ds)| && i < |ds| :: StripZeros(ds)[i] == ds[i]
    decreases |ds|
  {
    if |ds| > 1 && ds[|ds| - 1] == 0 {
      StripZerosPad(ds[..|ds| - 1]);
    }
  }

  /** The digits of a canonical fraction end in a nonzero digit, unless it
      is the single digit 0, and are zero beyond it. */
  lemma CanonicalLength(a: Fraction, n: nat)
    requires Canonical(a) && |a| <= n
    ensures |a| == 1 || DigitsOf(a, n)[|a| - 1] != 0
    ensures forall i | |a| <= i < n :: DigitsOf(a, n)[i] == 0
    ensures DigitsOf(a, n)[0] == a[0] / 2
  {
  }

  /** A canonical fraction is determined by its digits. */
  lemma CanonicalDigitsInjective(a: Fraction, b: Fraction, n: nat)
    requires Canonical(a) && Canonical(b) && |a| <= n && |b| <= n
    requires DigitsOf(a, n) == DigitsOf(b, n)
    ensures a == b
  {
    CanonicalLength(a, n);
    CanonicalLength(b, n);
    forall i | 0 <= i < |a| ensures a[i] == b[i] {
      assert DigitsOf(a, n)[i] == a[i] / 2;
      assert DigitsOf(b, n)[i] == b[i] / 2;
    }
  }

  // ---------------------------------------------------------------------
  // Order
  // ---------------------------------------------------------------------

  /** The derived `Ord` of the byte vector: lexicographic, a proper prefix
      first. */
  predicate Less(x: seq<byte>, y: seq<byte>) {
    if y == [] then false
    else if x == [] then true
    else if x[0] != y[0] then x[0] < y[0]
    else Less(x[1..], y[1..])
  }

  /** On digit sequences of one length, lexicographic order is numeric order. */
  lemma {:induction false} LessIsValueOrder(x: seq<byte>, y: seq<byte>)
    requires |x| == |y| && IsDigits(x) && IsDigits(y)
    ensures Less(x, y) <==> DVal(x) < DVal(y)
    decreases |x|
  {
    if x != [] {
      var t, u := x[1..], y[1..];
      assert x == [x[0]] + t && y == [y[0]] + u;
      DValCons(x[0], t);
      DValCons(y[0], u);
      DValBound(t);
      DValBound(u);
      var p := Pow128(|t|);
      if x[0] < y[0] {
        LeadingDigitDecides(x[0] as nat, y[0] as nat, DVal(t), DVal(u), p);
      } else if x[0] > y[0] {
        LeadingDigitDecides(y[0] as nat, x[0] as nat, DVal(u), DVal(t), p);
      } else {
        LessIsValueOrder(t, u);
      }
    }
  }

  /** Byte order is total. */
  lemma {:induction false} LessTotal(x: seq<byte>, y: seq<byte>)
    ensures x == y || Less(x, y) || Less(y, x)
    decreases |x|
  {
    if x != [] && y != [] && x[0] == y[0] {
      LessTotal(x[1..], y[1..]);
      if x[1..] == y[1..] {
        assert x == [x[0]] + x[1..] && y == [y[0]] + y[1..];
      }
    }
  }

  lemma {:induction false} LessIrreflexive(x: seq<byte>)
    ensures !Less(x, x)
    decreases |x|
  {
    if x != [] {
      LessIrreflexive(x[1..]);
    }
  }

  /** A smaller leading digit makes a smaller number, whatever follows. */
  lemma LeadingDigitDecides(h: nat, k: nat, t: nat, u: nat, p: nat)
    requires h < k && t < p
    ensures h * p + t < k * p + u
  {
    assert (h + 1) * p == h * p + p;
    assert (h + 1) * p <= k * p;
  }

  /** Zero digits are below any sequence of the same length with a nonzero
      digit, and nothing of that length is below them. */
  lemma {:induction false} ZerosLess(y: seq<byte>, k: nat)
    requires k < |y| && y[k] != 0
    ensures Less(Zeros(|y|), y) && !Less(y, Zeros(|y|))
    decreases |y|
  {
    if y[0] == 0 {
      assert Zeros(|y|)[1..] == Zeros(|y| - 1);
      ZerosLess(y[1..], k - 1);
    }
  }

  lemma DigitsOfTail(f: Fraction, n: nat)
    requires |f| >= 1 && n >= 1
    ensures DigitsOf(f, n) == [f[0] / 2] + DigitsOf(f[1..], n - 1)
  {
  }

  /** On canonical fractions byte order is digit order. */
  lemma {:induction false} LessIsDigitOrder(a: Fraction, b: Fraction, n: nat)
    requires Canonical(a) && Canonical(b) && |a| <= n && |b| <= n
    ensures Less(a, b) <==> Less(DigitsOf(a, n), DigitsOf(b, n))
    decreases n
  {
    DigitsOfTail(a, n);
    DigitsOfTail(b, n);
    var da, db := DigitsOf(a, n), DigitsOf(b, n);
    if a[0] / 2 != b[0] / 2 {
    } else if |a| == 1 && |b| == 1 {
      assert a[0] == b[0];
      assert a == b;
      LessIrreflexive(a);
      LessIrreflexive(DigitsOf(a, n));
    } else if |a| == 1 {
      assert a[0] % 2 == 0 && b[0] % 2 == 1;
      assert DigitsOf(a[1..], n - 1) == Zeros(n - 1);
      var tb := DigitsOf(b[1..], n - 1);
      assert tb[|b| - 2] == b[|b| - 1] / 2 != 0;
      ZerosLess(tb, |b| - 2);
    } else if |b| == 1 {
      assert b[0] % 2 == 0 && a[0] % 2 == 1;
      assert DigitsOf(b[1..], n - 1) == Zeros(n - 1);
      var ta := DigitsOf(a[1..], n - 1);
      assert ta[|a| - 2] == a[|a| - 1] / 2 != 0;
      ZerosLess(ta, |a| - 2);
    } else {
      assert a[0] == b[0];
      LessIsDigitOrder(a[1..], b[1..], n - 1);
    }
  }

  /** On canonical fractions byte order is numeric order, at any width
      holding both. */
  lemma LessIsNumericOrder(a: Fraction, b: Fraction, n: nat)
    requires Canonical(a) && Canonical(b) && |a| <= n && |b| <= n
    ensures Less(a, b) <==> DVal(DigitsOf(a, n)) < DVal(DigitsOf(b, n))
  {
    LessIsDigitOrder(a, b, n);
    LessIsValueOrder(DigitsOf(a, n), DigitsOf(b, n));
  }

  // ---------------------------------------------------------------------
  // Operations
  // ---------------------------------------------------------------------

  /** `zero`: the single byte 0. */
  function Zero(): (r: Fraction)
    ensures Canonical(r) && forall n: nat | n >= 1 :: DVal(DigitsOf(r, n)) == 0
  {
    var r: Fraction := [0];
    forall n: nat | n >= 1 ensures DVal(DigitsOf(r, n)) == 0 {
      assert DigitsOf(r, n) == Pad([0], n);
      DValPad([0], n);
    }
    r
  }

  /** `half`: the single digit 64, one half. */
  function Half(): (r: Fraction)
    ensures Canonical(r) && DVal(DigitsOf(r, 1)) * 2 == Pow128(1)
  {
    var ds: seq<byte> := [64];
    CanonCanonical(ds);
    CanonDigits(ds, 1);
    Canon(ds)
  }

  /** `from_digits`: strip trailing zero digits but one, then shift in the
      continuation bits. */
  method FromDigits(digits: seq<byte>) returns (f: Fraction)
    requires IsDigits(digits)
    ensures f == Canon(digits)
    ensures Canonical(f) && |f| <= if |digits| == 0 then 1 else |digits|
    ensures forall n: nat | n >= |digits| && n >= 1 :: DigitsOf(f, n) == Pad(digits, n)
  {
    var ds := StripTrailingZeros(digits);
    f := ShiftInBits(ds);
    CanonCanonical(digits);
    forall n: nat | n >= |digits| && n >= 1 ensures DigitsOf(f, n) == Pad(digits, n) {
      CanonDigits(digits, n);
    }
  }

  /** The canonicalising loop of `from_digits`. */
  method StripTrailingZeros(digits: seq<byte>) returns (ds: seq<byte>)
    ensures ds == StripZeros(digits)
  {
    ds := digits;
    if |ds| == 0 {
      ds := [0];
    } else {
      while |ds| > 1 && ds[|ds| - 1] == 0
        invariant 1 <= |ds| && StripZeros(ds) == StripZeros(digits)
        decreases |ds|
      {
        ds := ds[..|ds| - 1];
      }
    }
  }

  /** The shifting loop of `from_digits`. */
  method ShiftInBits(digits: seq<byte>) returns (ds: seq<byte>)
    requires IsDigits(digits)
    ensures ds == SetBits(digits)
  {
    ds := digits;
    for i := 0 to |ds|
      invariant |ds| == |digits|
      invariant forall j | 0 <= j < i :: ds[j] == SetBits(digits)[j]
      invariant forall j | i <= j < |ds| :: ds[j] == digits[j]
    {
      ds := ds[i := ds[i] * 2];
      if i < |ds| - 1 {
        ds := ds[i := ds[i] + 1];
      }
    }
  }

  /** `mid`: the exact midpoint of `a` and `b`, strictly between them when
      they differ and equal to them when they agree. */
  /** The width of the wider of two fractions. */
  function Width(a: Fraction, b: Fraction): nat {
    if |a| < |b| then |b| else |a|
  }

  method Mid(a: Fraction, b: Fraction) returns (m: Fraction)
    ensures Canonical(m)
    ensures |m| <= Width(a, b) + 1
    ensures 2 * DVal(DigitsOf(m, Width(a, b) + 1)) == DVal(DigitsOf(a, Width(a, b) + 1)) + DVal(DigitsOf(b, Width(a, b) + 1))
    ensures Canonical(a) && Canonical(b) && Less(a, b) ==> Less(a, m) && Less(m, b)
    ensures Canonical(a) && a == b ==> m == a
  {
    var n := Width(a, b);
    var sum, carry := SumDigits(a, b, n);
    var halved, low := HalveDigits(sum, carry);
    var digits := if low != 0 then halved + [64] else halved;
    m := FromDigits(digits);
    assert DigitsOf(m, n + 1) == Pad(digits, n + 1);
    MidFacts(a, b, n, sum, carry, halved, low, m);
  }

  /** What `mid` computes, from the facts its loops establish. */
  lemma MidFacts(a: Fraction, b: Fraction, n: nat, sum: seq<byte>, carry: nat,
                 halved: seq<byte>, low: nat, m: Fraction)
    requires n >= |a| && n >= |b| && |sum| == n && low <= 1
    requires DVal(sum) + (if carry == 0 then 0 else Pow128(n)) == DVal(DigitsOf(a, n)) + DVal(DigitsOf(b, n))
    requires 2 * DVal(halved) + low == (if carry == 0 then 0 else Pow128(|sum|)) + DVal(sum)
    requires |halved| == n && Canonical(m) && |m| <= n + 1
    requires DigitsOf(m, n + 1) == Pad(if low != 0 then halved + [64] else halved, n + 1)
    ensures 2 * DVal(DigitsOf(m, n + 1)) == DVal(DigitsOf(a, n + 1)) + DVal(DigitsOf(b, n + 1))
    ensures Canonical(a) && Canonical(b) && Less(a, b) ==> Less(a, m) && Less(m, b)
    ensures Canonical(a) && a == b ==> m == a
  {
    PadHalved(halved, low);
    MidDigits(a, b, n, sum, carry, halved, low, DigitsOf(m, n + 1));
    MidOrder(a, b, m, n + 1);
  }

  /** The halved digits, with the half digit `low` appended when it is set,
      padded one place wider. */
  lemma PadHalved(halved: seq<byte>, low: nat)
    requires low <= 1
    ensures var digits := if low != 0 then halved + [64] else halved;
      Pad(digits, |halved| + 1) == halved + [(64 * low) as byte]
  {
    var digits := if low != 0 then halved + [64] else halved;
    var r := Pad(digits, |halved| + 1);
    assert r[..|halved|] == halved by {
      assert r[..|digits|] == digits;
      assert digits[..|halved|] == halved;
    }
    assert r == r[..|halved|] + [r[|halved|]];
  }

  /** The digits of the midpoint, one place wider than its inputs, have half
      their summed value. */
  lemma MidDigits(a: Fraction, b: Fraction, n: nat, sum: seq<byte>, carry: nat,
                  halved: seq<byte>, low: nat, md: seq<byte>)
    requires n >= |a| && n >= |b| && |sum| == n && low <= 1
    requires DVal(sum) + (if carry == 0 then 0 else Pow128(n)) == DVal(DigitsOf(a, n)) + DVal(DigitsOf(b, n))
    requires 2 * DVal(halved) + low == (if carry == 0 then 0 else Pow128(|sum|)) + DVal(sum)
    requires md == halved + [(64 * low) as byte]
    ensures 2 * DVal(md) == DVal(DigitsOf(a, n + 1)) + DVal(DigitsOf(b, n + 1))
  {
    HalfValue(halved, low);
    DigitsOfSnoc(a, n);
    DigitsOfSnoc(b, n);
  }

  /** Appending half a digit to a halved sequence doubles back to the whole. */
  lemma HalfValue(hs: seq<byte>, low: nat)
    requires low <= 1
    ensures 2 * DVal(hs + [(64 * low) as byte]) == 128 * (2 * DVal(hs) + low)
  {
    assert (hs + [(64 * low) as byte])[..|hs|] == hs;
  }

  /** A canonical number whose double is the sum of two others lies
      between them. */
  lemma MidOrder(a: Fraction, b: Fraction, m: Fraction, w: nat)
    requires |a| <= w && |b| <= w && Canonical(m) && |m| <= w
    requires 2 * DVal(DigitsOf(m, w)) == DVal(DigitsOf(a, w)) + DVal(DigitsOf(b, w))
    ensures Canonical(a) && Canonical(b) && Less(a, b) ==> Less(a, m) && Less(m, b)
    ensures Canonical(a) && a == b ==> m == a
  {
    if Canonical(a) && Canonical(b) && Less(a, b) {
      LessIsNumericOrder(a, b, w);
      LessIsNumericOrder(a, m, w);
      LessIsNumericOrder(m, b, w);
    }
    if Canonical(a) && a == b {
      LessIsNumericOrder(a, m, w);
      LessIsNumericOrder(m, a, w);
      LessTotal(a, m);
    }
  }

  /** The adding loop of `mid`: the digit-wise sum of `a` and `b` over `n`
      digits, from the last digit to the first, with the carry out. The
      digits are prepended rather than pushed and reversed at the end. */
  method SumDigits(a: Fraction, b: Fraction, n: nat) returns (ds: seq<byte>, carry: nat)
    ensures |ds| == n && IsDigits(ds) && carry <= 1
    ensures DVal(ds) + (if carry == 0 then 0 else Pow128(n)) == DVal(DigitsOf(a, n)) + DVal(DigitsOf(b, n))
  {
    ghost var xs, ys := DigitsOf(a, n), DigitsOf(b, n);
    var i := n;
    ds, carry := [], 0;
    while i > 0
      invariant 0 <= i <= n && |ds| == n - i && IsDigits(ds) && carry <= 1
      invariant DVal(ds) + carry * Pow128(|ds|) == DVal(xs[i..]) + DVal(ys[i..])
      decreases i
    {
      i := i - 1;
      var da, db := Digit(a, i), Digit(b, i);
      var c := carry + da as nat + db as nat;
      var next := [(c % 128) as byte] + ds;
      SumStep2(xs, ys, i, da, db, ds, carry, c, next);
      ds, carry := next, c / 128;
    }
    assert xs[0..] == xs && ys[0..] == ys;
    CarryTerm(DVal(ds), Pow128(|ds|), carry, DVal(xs) + DVal(ys));
  }

  /** The carry of the finished adding loop is 0 or 1. */
  lemma CarryTerm(v: nat, p: nat, carry: nat, total: nat)
    requires carry <= 1 && v + carry * p == total
    ensures v + (if carry == 0 then 0 else p) == total
  {
  }



  /** One step of the adding loop keeps its invariant. */
  lemma SumStep2(xs: seq<byte>, ys: seq<byte>, i: nat, da: byte, db: byte, ds: seq<byte>, carry: nat, c: nat,
                 next: seq<byte>)
    requires |xs| == |ys| && i < |xs| && xs[i] == da && ys[i] == db
    requires |ds| == |xs| - i - 1 && c == carry + da as nat + db as nat
    requires IsDigits(ds) && carry <= 1 && da < 128 && db < 128
    requires DVal(ds) + carry * Pow128(|ds|) == DVal(xs[i + 1..]) + DVal(ys[i + 1..])
    requires next == [(c % 128) as byte] + ds
    ensures |next| == |xs| - i && IsDigits(next) && c / 128 <= 1
    ensures DVal(next) + (c / 128) * Pow128(|next|) == DVal(xs[i..]) + DVal(ys[i..])
  {
    var p := Pow128(|ds|);
    assert xs[i..] == [da] + xs[i + 1..];
    assert ys[i..] == [db] + ys[i + 1..];
    DValCons(da, xs[i + 1..]);
    DValCons(db, ys[i + 1..]);
    DValCons((c % 128) as byte, ds);
    var lo, hi := c % 128, c / 128;
    assert lo + 128 * hi == c;
    assert Pow128(|ds| + 1) == 128 * p;
    SplitProduct(lo, hi, p, c, carry, da as nat, db as nat);
  }

  lemma SplitProduct(lo: nat, hi: nat, p: nat, c: nat, carry: nat, da: nat, db: nat)
    requires lo + 128 * hi == c && c == carry + da + db
    ensures lo * p + hi * (128 * p) == da * p + db * p + carry * p
  {
    assert hi * (128 * p) == (128 * hi) * p;
    assert lo * p + (128 * hi) * p == c * p;
    assert c * p == carry * p + da * p + db * p;
  }

  /** The halving loop of `mid`: `carry` followed by the digits `ds`,
      divided by two digit by digit, with the bit shifted out. */
  method HalveDigits(ds: seq<byte>, carry: nat) returns (hs: seq<byte>, low: nat)
    requires IsDigits(ds) && carry <= 1
    ensures |hs| == |ds| && IsDigits(hs) && low <= 1
    ensures 2 * DVal(hs) + low == (if carry == 0 then 0 else Pow128(|ds|)) + DVal(ds)
  {
    hs, low := [], carry;
    for i := 0 to |ds|
      invariant |hs| == i && IsDigits(hs) && low <= 1
      invariant 2 * DVal(hs) + low == carry * Pow128(i) + DVal(ds[..i])
    {
      var r := ds[i];
      assert ds[..i + 1][..i] == ds[..i];
      assert (hs + [r / 2 + (low * 64) as byte])[..i] == hs;
      hs := hs + [r / 2 + (low * 64) as byte];
      low := (r % 2) as nat;
    }
    assert ds[..|ds|] == ds;
  }

  /** Every digit is the largest one. */
  predicate AllMax(ds: seq<byte>) {
    forall i | 0 <= i < |ds| :: ds[i] == DigitMask as byte
  }

  /** The width `succ` works at: the digits of `f`, extended by as many
      zeros again (at least one) when every digit is the largest. */
  function SuccWidth(f: Fraction): nat {
    var ds := DigitsOf(f, |f|);
    if AllMax(ds) then |f| + (if |f| < 1 then 1 else |f|) else |f|
  }

  /** `succ`: a fraction one unit of the last digit larger, adding digits
      first when every digit is the largest. */
  method Succ(f: Fraction) returns (s: Fraction)
    ensures Canonical(s) && |s| <= SuccWidth(f)
    ensures DVal(DigitsOf(s, SuccWidth(f))) == DVal(DigitsOf(f, SuccWidth(f))) + 1
    ensures Canonical(f) ==> Less(f, s)
  {
    var digits := DigitsOf(f, |f|);
    if AllMax(digits) {
      var n := if |digits| < 1 then 1 else |digits|;
      digits := digits + Zeros(n);
      assert digits[|digits| - 1] != DigitMask as byte;
    }
    assert digits == DigitsOf(f, SuccWidth(f));
    var incremented := Increment(digits);
    s := FromDigits(incremented);
    assert DigitsOf(s, SuccWidth(f)) == Pad(incremented, SuccWidth(f)) == incremented;
    if Canonical(f) {
      LessIsNumericOrder(f, s, SuccWidth(f));
    }
  }

  /** The increment loop of `succ`: add 1 to the last digit, carrying
      leftwards over largest digits. */
  method Increment(ds: seq<byte>) returns (r: seq<byte>)
    requires IsDigits(ds) && !AllMax(ds)
    ensures |r| == |ds| && IsDigits(r)
    ensures DVal(r) == DVal(ds) + 1
  {
    r := ds;
    var i := |ds|;
    var done := false;
    while i > 0 && !done
      invariant 0 <= i <= |ds| && |r| == |ds| && IsDigits(r)
      invariant !done ==> forall j | i <= j < |ds| :: ds[j] == DigitMask as byte && r[j] == 0
      invariant !done ==> r[..i] == ds[..i]
      invariant DVal(r) + (if done then 0 else Pow128(|ds| - i)) == DVal(ds) + 1
      decreases i, if done then 0 else 1
    {
      IncrementStep(ds, r, i);
      i := i - 1;
      var b := ((r[i] as nat + 1) % 128) as byte;
      r := r[i := b];
      if b != 0 {
        done := true;
      }
    }
  }

  lemma CarryUp(v1: nat, v: nat, x: nat, w: nat)
    requires v1 + x * w == v + (x + 1) * w
    ensures v1 == v + w
  {
    assert (x + 1) * w == x * w + w;
  }

  /** One step of the increment loop: the digit `i - 1` gains one, wrapping
      to 0 and passing the carry on when it was the largest. */
  lemma IncrementStep(ds: seq<byte>, r: seq<byte>, i: nat)
    requires 0 < i <= |ds| && |r| == |ds| && IsDigits(r)
    requires DVal(r) + Pow128(|ds| - i) == DVal(ds) + 1
    ensures var b := ((r[i - 1] as nat + 1) % 128) as byte;
      DVal(r[i - 1 := b]) + (if b != 0 then 0 else Pow128(|ds| - i + 1)) == DVal(ds) + 1
  {
    var x := r[i - 1] as nat;
    var b := ((x + 1) % 128) as byte;
    var w := Pow128(|ds| - i);
    DValUpdate(r, i - 1, b);
    if x < 127 {
      assert b as nat == x + 1;
      CarryUp(DVal(r[i - 1 := b]), DVal(r), x, w);
    } else {
      assert b == 0;
      assert Pow128(|ds| - i + 1) == 128 * w;
    }
  }

  // ---------------------------------------------------------------------
  // Concatenated encodings
  // ---------------------------------------------------------------------

  /** The bytes of a sequence of fractions, one after another. */
  function Concat(fs: seq<Fraction>): seq<byte> {
    if fs == [] then [] else fs[0] + Concat(fs[1..])
  }

  /** The derived `Ord` of a vector of fractions: lexicographic over `Less`. */
  predicate VecLess(fs: seq<Fraction>, gs: seq<Fraction>) {
    if gs == [] then false
    else if fs == [] then true
    else if fs[0] != gs[0] then Less(fs[0], gs[0])
    else VecLess(fs[1..], gs[1..])
  }

  predicate AllCanonical(fs: seq<Fraction>) {
    forall i | 0 <= i < |fs| :: Canonical(fs[i])
  }

  /** A common prefix does not change the order. */
  lemma {:induction false} LessCommonPrefix(p: seq<byte>, x: seq<byte>, y: seq<byte>)
    ensures Less(p + x, p + y) <==> Less(x, y)
    decreases |p|
  {
    if p != [] {
      assert (p + x)[1..] == p[1..] + x;
      assert (p + y)[1..] == p[1..] + y;
      LessCommonPrefix(p[1..], x, y);
    } else {
      assert p + x == x && p + y == y;
    }
  }

  /** Distinct canonical fractions differ before either ends, so whatever
      follows them does not change their order. */
  lemma {:induction false} LessIgnoresSuffix(a: Fraction, b: Fraction, x: seq<byte>, y: seq<byte>)
    requires Canonical(a) && Canonical(b) && a != b
    ensures Less(a + x, b + y) <==> Less(a, b)
    decreases |a|
  {
    if a[0] == b[0] {
      assert |a| >= 2 && |b| >= 2;
      assert (a + x)[1..] == a[1..] + x;
      assert (b + y)[1..] == b[1..] + y;
      LessIgnoresSuffix(a[1..], b[1..], x, y);
    }
  }

  /** The `ord` property: comparing vectors of canonical fractions is
      comparing their concatenated bytes. */
  lemma {:induction false} ConcatOrder(fs: seq<Fraction>, gs: seq<Fraction>)
    requires AllCanonical(fs) && AllCanonical(gs)
    ensures VecLess(fs, gs) <==> Less(Concat(fs), Concat(gs))
    decreases |fs|
  {
    if fs != [] && gs != [] {
      if fs[0] != gs[0] {
        LessIgnoresSuffix(fs[0], gs[0], Concat(fs[1..]), Concat(gs[1..]));
      } else {
        LessCommonPrefix(fs[0], Concat(fs[1..]), Concat(gs[1..]));
        ConcatOrder(fs[1..], gs[1..]);
      }
    } else if gs != [] {
      assert |Concat(gs)| >= 1;
    }
  }
}
