/** The schema compiler of `tlfsc/src/lib.rs`. A schema file lists, per
    version, rules over paths (`.todos.{}.title: MVReg<String>`,
    `.tasks.{}.attrs.remove()`); each rule becomes one or two lenses, every
    lens is wrapped in the path that leads to it and applied to the schema
    built so far, and each schema becomes a package holding its lens list.

    Parsing the text into rules is not part of this model: rules arrive as
    segment lists and type identifiers. Identifiers are the UTF-8 bytes of
    their text, which is also how property names are stored in lenses. A
    panic of the compiler (`unwrap`, `panic!`, `unreachable!`) is an `Err`. */
module SchemaCompiler {
  import opened Wrappers
  import S = Schemas
  import L = Lenses
  import LL = LensLists

  type Ident = S.Prop

  const RemoveWord: Ident := [114, 101, 109, 111, 118, 101]  // remove
  const HoistWord: Ident := [104, 111, 105, 115, 116]        // hoist
  const RenameWord: Ident := [114, 101, 110, 97, 109, 101]   // rename
  const PlungeWord: Ident := [112, 108, 117, 110, 103, 101]  // plunge
  const BoolWord: Ident := [98, 111, 111, 108]               // bool
  const U64Word: Ident := [117, 54, 52]                      // u64
  const I64Word: Ident := [105, 54, 52]                      // i64
  const StringWord: Ident := [83, 116, 114, 105, 110, 103]   // String
  const FlagWord: Ident := [69, 87, 70, 108, 97, 103]        // EWFlag
  const StructWord: Ident := [83, 116, 114, 117, 99, 116]    // Struct
  const ArrayWord: Ident := [65, 114, 114, 97, 121]          // Array
  const RegWord: Ident := [77, 86, 82, 101, 103]             // MVReg
  const TableWord: Ident := [84, 97, 98, 108, 101]           // Table

  /** The width of the lens counts stored in versions and packages (`as u32`). */
  const U32Bound: nat := 0x1_0000_0000

  /** One segment of a rule's path: `[]`, `{}`, a field name, or the
      operation a rule ends with. */
  datatype Segment =
    | LensMap
    | LensMapValue
    | Field(name: Ident)
    | Remove
    | Rename(to: Ident)
    | Hoist
    | Plunge(host: Ident)

  // ---------------------------------------------------------------------
  // Walking a schema along a path

  /** The schema at the end of `segs`, walking as `kind_of` does: a field of
      a struct, the elements of an array, the values of a table. */
  function Navigate(s: S.Schema, segs: seq<Segment>): Result<S.Schema>
    decreases |segs|
  {
    if segs == [] then Ok(s)
    else if segs[0].Field? && s.Struct? then
      if segs[0].name in s.fields then Navigate(s.fields[segs[0].name], segs[1..])
      else Err("missing field")
    else if segs[0].LensMap? && s.Array? then Navigate(s.elem, segs[1..])
    else if segs[0].LensMapValue? && s.Table? then Navigate(s.value, segs[1..])
    else Err("invalid segment")
  }

  /** `s` with the schema at the end of `segs` replaced by `x` (unchanged
      where the walk does not reach). */
  function Replace(s: S.Schema, segs: seq<Segment>, x: S.Schema): S.Schema
    decreases |segs|
  {
    if segs == [] then x
    else if segs[0].Field? && s.Struct? && segs[0].name in s.fields then
      S.Struct(s.fields[segs[0].name := Replace(s.fields[segs[0].name], segs[1..], x)])
    else if segs[0].LensMap? && s.Array? then S.Array(Replace(s.elem, segs[1..], x))
    else if segs[0].LensMapValue? && s.Table? then S.Table(s.key, Replace(s.value, segs[1..], x))
    else s
  }

  /** Replacing the node a walk reaches and walking again finds the new node;
      replacing twice keeps only the second. */
  lemma {:induction false} ReplaceThenNavigate(s: S.Schema, segs: seq<Segment>, x: S.Schema, y: S.Schema)
    requires Navigate(s, segs).Ok?
    ensures Navigate(Replace(s, segs, x), segs) == Ok(x)
    ensures Replace(Replace(s, segs, x), segs, y) == Replace(s, segs, y)
    ensures Replace(s, segs, Navigate(s, segs).value) == s
    decreases |segs|
  {
    if segs != [] {
      if segs[0].Field? {
        ReplaceThenNavigate(s.fields[segs[0].name], segs[1..], x, y);
        assert s.fields[segs[0].name := s.fields[segs[0].name]] == s.fields;
      } else if segs[0].LensMap? {
        ReplaceThenNavigate(s.elem, segs[1..], x, y);
      } else {
        ReplaceThenNavigate(s.value, segs[1..], x, y);
      }
    }
  }

  /** A walk one segment longer takes one more step from where the shorter
      walk ends. */
  lemma {:induction false} NavigateSnoc(s: S.Schema, segs: seq<Segment>, seg: Segment)
    ensures Navigate(s, segs + [seg]) ==
      match Navigate(s, segs)
      case Err(e) => Err(e)
      case Ok(n) => Navigate(n, [seg])
    decreases |segs|
  {
    if segs == [] {
      assert segs + [seg] == [seg];
    } else {
      assert (segs + [seg])[0] == segs[0] && (segs + [seg])[1..] == segs[1..] + [seg];
      if segs[0].Field? && s.Struct? && segs[0].name in s.fields {
        NavigateSnoc(s.fields[segs[0].name], segs[1..], seg);
      } else if segs[0].LensMap? && s.Array? {
        NavigateSnoc(s.elem, segs[1..], seg);
      } else if segs[0].LensMapValue? && s.Table? {
        NavigateSnoc(s.value, segs[1..], seg);
      }
    }
  }

  /** Replacing at a longer walk is replacing, at the shorter one, inside the
      node it reaches. */
  lemma {:induction false} ReplaceSnoc(s: S.Schema, segs: seq<Segment>, seg: Segment, x: S.Schema)
    requires Navigate(s, segs).Ok?
    ensures Replace(s, segs + [seg], x) == Replace(s, segs, Replace(Navigate(s, segs).value, [seg], x))
    decreases |segs|
  {
    if segs == [] {
      assert segs + [seg] == [seg];
    } else {
      assert (segs + [seg])[0] == segs[0] && (segs + [seg])[1..] == segs[1..] + [seg];
      if segs[0].Field? {
        ReplaceSnoc(s.fields[segs[0].name], segs[1..], seg, x);
      } else if segs[0].LensMap? {
        ReplaceSnoc(s.elem, segs[1..], seg, x);
      } else {
        ReplaceSnoc(s.value, segs[1..], seg, x);
      }
    }
  }

  // ---------------------------------------------------------------------
  // add_lens

  /** Wraps a lens in one path segment. `[]` has no lens over array elements
      in `crdt/src/lens.rs`, and an operation segment never wraps a lens. */
  function WrapOne(seg: Segment, lens: L.Lens): Result<L.Lens> {
    match seg
    case LensMapValue => Ok(L.Lens.LensMapValue(lens))
    case Field(f) => Ok(L.Lens.LensIn(f, lens))
    case LensMap => Err("no lens maps over array elements")
    case _ => Err("unreachable")
  }

  /** The lens `add_lens` builds: the last segment innermost, the first
      outermost. */
  function Wrap(segs: seq<Segment>, lens: L.Lens): Result<L.Lens>
    decreases |segs|
  {
    if segs == [] then Ok(lens)
    else
      match Wrap(segs[1..], lens)
      case Err(e) => Err(e)
      case Ok(inner) => WrapOne(segs[0], inner)
  }

  /** Every segment of `segs` can wrap a lens. */
  predicate Wrappable(segs: seq<Segment>) {
    forall i | 0 <= i < |segs| :: segs[i].Field? || segs[i].LensMapValue?
  }

  /** Wrapping succeeds exactly on paths of fields and `{}`, and a longer path
      wraps the lens in one more layer, innermost. */
  lemma {:induction false} WrapShape(segs: seq<Segment>, seg: Segment, lens: L.Lens)
    ensures Wrap(segs, lens).Ok? <==> Wrappable(segs)
    ensures Wrap(segs + [seg], lens) ==
      match WrapOne(seg, lens)
      case Err(e) => Err(e)
      case Ok(w) => Wrap(segs, w)
    decreases |segs|
  {
    if segs == [] {
      assert segs + [seg] == [seg];
      assert [seg][1..] == [];
    } else {
      assert (segs + [seg])[0] == segs[0] && (segs + [seg])[1..] == segs[1..] + [seg];
      WrapShape(segs[1..], seg, lens);
      match WrapOne(seg, lens)
      case Err(e) =>
      case Ok(w) => WrapShape(segs[1..], seg, w);
      assert Wrappable(segs) <==> (segs[0].Field? || segs[0].LensMapValue?) && Wrappable(segs[1..]) by {
        if (segs[0].Field? || segs[0].LensMapValue?) && Wrappable(segs[1..]) {
          forall i | 0 <= i < |segs| ensures segs[i].Field? || segs[i].LensMapValue? {
            if i > 0 { assert segs[i] == segs[1..][i - 1]; }
          }
        }
      }
    }
  }

  /** When a suffix already fails to wrap, the whole path fails the same way. */
  lemma {:induction false} WrapSuffixFails(segs: seq<Segment>, i: nat, lens: L.Lens)
    requires i <= |segs| && Wrap(segs[i..], lens).Err?
    ensures Wrap(segs, lens) == Wrap(segs[i..], lens)
    decreases i
  {
    if i > 0 {
      assert segs[1..][i - 1..] == segs[i..];
      WrapSuffixFails(segs[1..], i - 1, lens);
    }
  }

  /** Applying a lens wrapped in a path applies the lens to the node the path
      reaches and puts the result back in its place, and nothing else. */
  lemma {:induction false} WrapAppliesAt(segs: seq<Segment>, lens: L.Lens, s: S.Schema)
    requires Wrap(segs, lens).Ok?
    ensures L.TransformSchema(L.ToRef(Wrap(segs, lens).value), s).Ok? <==>
      Navigate(s, segs).Ok? && L.TransformSchema(L.ToRef(lens), Navigate(s, segs).value).Ok?
    ensures L.TransformSchema(L.ToRef(Wrap(segs, lens).value), s).Ok? ==>
      L.TransformSchema(L.ToRef(Wrap(segs, lens).value), s).value ==
      Replace(s, segs, L.TransformSchema(L.ToRef(lens), Navigate(s, segs).value).value)
    decreases |segs|
  {
    if segs != [] {
      var inner := Wrap(segs[1..], lens).value;
      match segs[0]
      case Field(f) =>
        assert Wrap(segs, lens) == Ok(L.Lens.LensIn(f, inner));
        if s.Struct? && f in s.fields {
          WrapAppliesAt(segs[1..], lens, s.fields[f]);
          FieldLayer(f, inner, s);
        }
      case LensMapValue =>
        assert Wrap(segs, lens) == Ok(L.Lens.LensMapValue(inner));
        if s.Table? {
          WrapAppliesAt(segs[1..], lens, s.value);
          ValueLayer(inner, s);
        }
    }
  }

  /** `LensIn(f, inner)` applies `inner` to field `f` of a struct. */
  lemma FieldLayer(f: Ident, inner: L.Lens, s: S.Schema)
    requires s.Struct? && f in s.fields
    ensures L.TransformSchema(L.ToRef(L.Lens.LensIn(f, inner)), s).Ok? <==>
      L.TransformSchema(L.ToRef(inner), s.fields[f]).Ok?
    ensures L.TransformSchema(L.ToRef(inner), s.fields[f]).Ok? ==>
      L.TransformSchema(L.ToRef(L.Lens.LensIn(f, inner)), s).value ==
      S.Struct(s.fields[f := L.TransformSchema(L.ToRef(inner), s.fields[f]).value])
  {
    assert L.MaybeReverse(L.ToRef(inner), false) == L.ToRef(inner);
  }

  /** `LensMapValue(inner)` applies `inner` to the value schema of a table. */
  lemma ValueLayer(inner: L.Lens, s: S.Schema)
    requires s.Table?
    ensures L.TransformSchema(L.ToRef(L.Lens.LensMapValue(inner)), s).Ok? <==>
      L.TransformSchema(L.ToRef(inner), s.value).Ok?
    ensures L.TransformSchema(L.ToRef(inner), s.value).Ok? ==>
      L.TransformSchema(L.ToRef(L.Lens.LensMapValue(inner)), s).value ==
      S.Table(s.key, L.TransformSchema(L.ToRef(inner), s.value).value)
  {
    assert L.MaybeReverse(L.ToRef(inner), false) == L.ToRef(inner);
  }

  /** `add_lens`: the schema after the wrapped lens, and the lens as stored. */
  function AddLensOf(s: S.Schema, segs: seq<Segment>, lens: L.Lens): Result<(S.Schema, L.Lens)> {
    match Wrap(segs, lens)
    case Err(e) => Err(e)
    case Ok(w) =>
      match L.TransformSchema(L.ToRef(w), s)
      case Err(e) => Err(e)
      case Ok(t) => Ok((t, w))
  }

  // ---------------------------------------------------------------------
  // kind_of

  /** A node that `Destroy` of its own kind turns back into `Null`. */
  predicate Emptied(n: S.Schema) {
    n.Flag? || n.Reg? || (n.Table? && n.value == S.Null) || (n.Struct? && n.fields == map[])
  }

  /** The kind of a schema node; `Kind` has no array variant in
      `crdt/src/lens.rs`, and a `Null` node panics. */
  function KindOfSchema(n: S.Schema): Result<L.Kind> {
    match n
    case Null => Err("unexpected schema null")
    case Flag => Ok(L.Kind.Flag)
    case Reg(k) => Ok(L.Kind.Reg(k))
    case Table(k, _) => Ok(L.Kind.Table(k))
    case Struct(_) => Ok(L.Kind.Struct)
    case Array(_) => Err("no lens kind for arrays")
  }

  /** `kind_of`: the kind of the node at the end of the path. */
  function KindAt(s: S.Schema, segs: seq<Segment>): (r: Result<L.Kind>)
    ensures r.Ok? <==> Navigate(s, segs).Ok? && !Navigate(s, segs).value.Null? && !Navigate(s, segs).value.Array?
  {
    match Navigate(s, segs)
    case Err(e) => Err(e)
    case Ok(n) => KindOfSchema(n)
  }

  /** The schema `Make(k)` builds from `Null`. */
  function Made(k: L.Kind): S.Schema {
    match k
    case Null => S.Null
    case Flag => S.Flag
    case Reg(p) => S.Reg(p)
    case Table(p) => S.Table(p, S.Null)
    case Struct => S.Struct(map[])
  }

  /** The kind `kind_of` reports is the one `Destroy` needs: destroying the
      node succeeds exactly when it is emptied, and `Make` of that kind
      rebuilds it. */
  lemma KindAtDestroys(s: S.Schema, segs: seq<Segment>)
    requires KindAt(s, segs).Ok?
    ensures var n := Navigate(s, segs).value;
      var k := KindAt(s, segs).value;
      (L.TransformSchema(L.LensRef.Destroy(k), n).Ok? <==> Emptied(n)) &&
      (Emptied(n) ==>
        L.TransformSchema(L.LensRef.Destroy(k), n) == Ok(S.Null) &&
        L.TransformSchema(L.LensRef.Make(k), S.Null) == Ok(n) && Made(k) == n)
  {
  }

  // ---------------------------------------------------------------------
  // rule

  /** A lens a rule adds, before wrapping, and the path it is wrapped in. */
  datatype Emit = Emit(at: seq<Segment>, lens: L.Lens)

  /** The lenses `rule` adds, in order, for a path and an optional type;
      `kind_of` runs on the schema before the rule. */
  function RulePlan(s: S.Schema, segs: seq<Segment>, kind: Option<L.Kind>): (r: Result<seq<Emit>>)
    ensures r.Ok? ==> 1 <= |r.value| <= 2 && forall i | 0 <= i < |r.value| :: r.value[i].at <= segs
    ensures kind.Some? ==> r.Ok? && r.value[|r.value| - 1] == Emit(segs, L.Lens.Make(kind.value))
    ensures kind.None? && r.Ok? ==> |segs| > 0 && !segs[|segs| - 1].Field? && !segs[|segs| - 1].LensMapValue?
  {
    if kind.Some? then
      if |segs| > 0 && segs[|segs| - 1].Field? then
        Ok([Emit(segs[..|segs| - 1], L.Lens.AddProperty(segs[|segs| - 1].name)),
            Emit(segs, L.Lens.Make(kind.value))])
      else Ok([Emit(segs, L.Lens.Make(kind.value))])
    else if segs == [] then Err("expected segment")
    else
      var rest := segs[..|segs| - 1];
      var n := |rest|;
      match segs[|segs| - 1]
      case Remove =>
        (match KindAt(s, rest)
         case Err(e) => Err(e)
         case Ok(k) =>
           if n > 0 && rest[n - 1].Field? then
             Ok([Emit(rest, L.Lens.Destroy(k)), Emit(rest[..n - 1], L.Lens.RemoveProperty(rest[n - 1].name))])
           else Ok([Emit(rest, L.Lens.Destroy(k))]))
      case Rename(to) =>
        if n > 0 && rest[n - 1].Field? then
          Ok([Emit(rest[..n - 1], L.Lens.RenameProperty(rest[n - 1].name, to))])
        else Err("invalid rename operation")
      case Hoist =>
        if n > 1 && rest[n - 2].Field? && rest[n - 1].Field? then
          Ok([Emit(rest[..n - 2], L.Lens.HoistProperty(rest[n - 2].name, rest[n - 1].name))])
        else Err("invalid hoist operation")
      case Plunge(host) =>
        if n > 0 && rest[n - 1].Field? then
          Ok([Emit(rest[..n - 1], L.Lens.PlungeProperty(host, rest[n - 1].name))])
        else Err("invalid plunge operation")
      case _ => Err("unexpected segment")
  }

  /** A compilation result with lenses `done` pushed before the rest. */
  function Then(done: seq<L.Lens>, r: Result<(S.Schema, seq<L.Lens>)>): Result<(S.Schema, seq<L.Lens>)> {
    match r
    case Err(e) => Err(e)
    case Ok(q) => Ok((q.0, done + q.1))
  }

  lemma ThenThen(a: seq<L.Lens>, b: seq<L.Lens>, r: Result<(S.Schema, seq<L.Lens>)>)
    ensures Then(a, Then(b, r)) == Then(a + b, r)
  {
    if r.Ok? {
      assert a + (b + r.value.1) == (a + b) + r.value.1;
    }
  }

  /** Adds the planned lenses one after another: the final schema and the
      wrapped lenses in the order they are pushed. */
  function RunPlan(s: S.Schema, plan: seq<Emit>): Result<(S.Schema, seq<L.Lens>)>
    decreases |plan|
  {
    if plan == [] then Ok((s, []))
    else
      match AddLensOf(s, plan[0].at, plan[0].lens)
      case Err(e) => Err(e)
      case Ok(p) => Then([p.1], RunPlan(p.0, plan[1..]))
  }

  /** A plan of two lenses adds the first, then the second. */
  lemma RunTwo(s: S.Schema, e1: Emit, e2: Emit)
    ensures RunPlan(s, [e1, e2]) ==
      match AddLensOf(s, e1.at, e1.lens)
      case Err(e) => Err(e)
      case Ok(p) =>
        match AddLensOf(p.0, e2.at, e2.lens)
        case Err(e) => Err(e)
        case Ok(q) => Ok((q.0, [p.1, q.1]))
  {
    assert [e1, e2][1..] == [e2];
    assert [e2][1..] == [];
    match AddLensOf(s, e1.at, e1.lens)
    case Err(e) =>
    case Ok(p) =>
      match AddLensOf(p.0, e2.at, e2.lens)
      case Err(e) =>
      case Ok(q) =>
        assert RunPlan(q.0, []) == Ok((q.0, []));
        assert [q.1] + [] == [q.1];
        assert RunPlan(p.0, [e2]) == Ok((q.0, [q.1]));
        assert [p.1] + [q.1] == [p.1, q.1];
  }

  lemma ThenNothing(r: Result<(S.Schema, seq<L.Lens>)>)
    ensures Then([], r) == r
  {
    if r.Ok? {
      assert [] + r.value.1 == r.value.1;
    }
  }

  /** One step of `RunPlan` from position `i` of a plan. */
  lemma RunPlanStep(s: S.Schema, plan: seq<Emit>, i: nat)
    requires i < |plan|
    ensures AddLensOf(s, plan[i].at, plan[i].lens).Err? ==> RunPlan(s, plan[i..]).Err?
    ensures AddLensOf(s, plan[i].at, plan[i].lens).Ok? ==>
      var p := AddLensOf(s, plan[i].at, plan[i].lens).value;
      RunPlan(s, plan[i..]) == Then([p.1], RunPlan(p.0, plan[i + 1..]))
  {
    assert plan[i..][0] == plan[i] && plan[i..][1..] == plan[i + 1..];
  }

  /** `rule`: the schema after the rule and the lenses it adds. */
  function RuleOf(s: S.Schema, segs: seq<Segment>, kind: Option<L.Kind>): Result<(S.Schema, seq<L.Lens>)> {
    match RulePlan(s, segs, kind)
    case Err(e) => Err(e)
    case Ok(plan) => RunPlan(s, plan)
  }

  /** The wrapped lenses a plan pushes build, from the schema before it, the
      schema after it. */
  lemma {:induction false} RunPlanReplays(s: S.Schema, plan: seq<Emit>)
    requires RunPlan(s, plan).Ok?
    ensures LL.ApplyAll(L.TransformSchema, LL.Refs(L.ToRef, RunPlan(s, plan).value.1), s) == Ok(RunPlan(s, plan).value.0)
    decreases |plan|
  {
    if plan != [] {
      var p := AddLensOf(s, plan[0].at, plan[0].lens).value;
      RunPlanReplays(p.0, plan[1..]);
      var rest := RunPlan(p.0, plan[1..]).value.1;
      assert LL.Refs(L.ToRef, [p.1] + rest)[0] == L.ToRef(p.1);
      assert LL.Refs(L.ToRef, [p.1] + rest)[1..] == LL.Refs(L.ToRef, rest);
    }
  }

  /** Adding a lens at a path of fields and `{}` applies it to the node the
      path reaches and puts the result back. */
  lemma AddLensAt(s: S.Schema, segs: seq<Segment>, lens: L.Lens)
    requires Wrappable(segs)
    ensures AddLensOf(s, segs, lens).Ok? <==>
      Navigate(s, segs).Ok? && L.TransformSchema(L.ToRef(lens), Navigate(s, segs).value).Ok?
    ensures AddLensOf(s, segs, lens).Ok? ==>
      AddLensOf(s, segs, lens).value.0 ==
      Replace(s, segs, L.TransformSchema(L.ToRef(lens), Navigate(s, segs).value).value)
  {
    WrapShape(segs, LensMapValue, lens);
    WrapAppliesAt(segs, lens, s);
  }

  lemma WrappableSnoc(segs: seq<Segment>, f: Ident)
    requires Wrappable(segs)
    ensures Wrappable(segs + [Field(f)])
  {
    forall i | 0 <= i < |segs| + 1
      ensures (segs + [Field(f)])[i].Field? || (segs + [Field(f)])[i].LensMapValue?
    {
      if i < |segs| {
        assert (segs + [Field(f)])[i] == segs[i];
      }
    }
  }

  /** Field `f` of the struct at `rest`, after it was set to `v`, is reached
      by the path one field longer, and replacing there sets the field. */
  lemma FieldSlot(s: S.Schema, rest: seq<Segment>, fields: map<S.Prop, S.Schema>, f: Ident, v: S.Schema, x: S.Schema)
    requires Navigate(s, rest) == Ok(S.Struct(fields))
    ensures Navigate(Replace(s, rest, S.Struct(fields[f := v])), rest + [Field(f)]) == Ok(v)
    ensures Replace(Replace(s, rest, S.Struct(fields[f := v])), rest + [Field(f)], x) ==
      Replace(s, rest, S.Struct(fields[f := x]))
  {
    var t := Replace(s, rest, S.Struct(fields[f := v]));
    ReplaceThenNavigate(s, rest, S.Struct(fields[f := v]), S.Struct(fields[f := x]));
    NavigateSnoc(t, rest, Field(f));
    ReplaceSnoc(t, rest, Field(f), x);
    assert [Field(f)][1..] == [];
    assert Replace(S.Struct(fields[f := v]), [Field(f)], x) == S.Struct(fields[f := v][f := x]);
    assert fields[f := v][f := x] == fields[f := x];
  }

  /** A typed rule ending in a field, `.a.b.f: K`, declares `f` in the struct
      at `.a.b` with the empty schema of kind `K`; it applies exactly when
      that struct exists and lacks `f`, and `K` is not `Null`. */
  lemma FieldRuleDeclares(s: S.Schema, rest: seq<Segment>, f: Ident, k: L.Kind)
    requires Wrappable(rest)
    ensures RuleOf(s, rest + [Field(f)], Some(k)).Ok? <==>
      Navigate(s, rest).Ok? && Navigate(s, rest).value.Struct? &&
      f !in Navigate(s, rest).value.fields && !k.Null?
    ensures RuleOf(s, rest + [Field(f)], Some(k)).Ok? ==>
      RuleOf(s, rest + [Field(f)], Some(k)).value.0 ==
      Replace(s, rest, S.Struct(Navigate(s, rest).value.fields[f := Made(k)])) &&
      |RuleOf(s, rest + [Field(f)], Some(k)).value.1| == 2 &&
      Wrap(rest, L.Lens.AddProperty(f)) == Ok(RuleOf(s, rest + [Field(f)], Some(k)).value.1[0]) &&
      Wrap(rest + [Field(f)], L.Lens.Make(k)) == Ok(RuleOf(s, rest + [Field(f)], Some(k)).value.1[1])
  {
    var segs := rest + [Field(f)];
    var e1 := Emit(rest, L.Lens.AddProperty(f));
    var e2 := Emit(segs, L.Lens.Make(k));
    FieldRulePlan(s, rest, f, k);
    RunTwo(s, e1, e2);
    AddPropertyAt(s, rest, f);
    if Navigate(s, rest).Ok? && Navigate(s, rest).value.Struct? && f !in Navigate(s, rest).value.fields {
      MakeAtField(s, rest, Navigate(s, rest).value.fields, f, k);
    }
  }

  /** A typed rule ending in a field plans `AddProperty` at the parent, then
      `Make` at the field. */
  lemma FieldRulePlan(s: S.Schema, rest: seq<Segment>, f: Ident, k: L.Kind)
    ensures RuleOf(s, rest + [Field(f)], Some(k)) ==
      RunPlan(s, [Emit(rest, L.Lens.AddProperty(f)), Emit(rest + [Field(f)], L.Lens.Make(k))])
  {
    var segs := rest + [Field(f)];
    assert segs[..|segs| - 1] == rest && segs[|segs| - 1] == Field(f);
  }

  /** `AddProperty(f)` at `rest` applies exactly to a struct there without
      `f`, and gives it `f` as `Null`. */
  lemma AddPropertyAt(s: S.Schema, rest: seq<Segment>, f: Ident)
    requires Wrappable(rest)
    ensures AddLensOf(s, rest, L.Lens.AddProperty(f)).Ok? <==>
      Navigate(s, rest).Ok? && Navigate(s, rest).value.Struct? && f !in Navigate(s, rest).value.fields
    ensures AddLensOf(s, rest, L.Lens.AddProperty(f)).Ok? ==>
      AddLensOf(s, rest, L.Lens.AddProperty(f)).value ==
      (Replace(s, rest, S.Struct(Navigate(s, rest).value.fields[f := S.Null])), Wrap(rest, L.Lens.AddProperty(f)).value)
  {
    AddLensAt(s, rest, L.Lens.AddProperty(f));
  }

  /** After `AddProperty(f)`, `Make(k)` at the new field applies exactly when
      `k` is not `Null`, and puts the made node there. */
  lemma MakeAtField(s: S.Schema, rest: seq<Segment>, fields: map<S.Prop, S.Schema>, f: Ident, k: L.Kind)
    requires Wrappable(rest) && Navigate(s, rest) == Ok(S.Struct(fields)) && f !in fields
    ensures var t := Replace(s, rest, S.Struct(fields[f := S.Null]));
      (AddLensOf(t, rest + [Field(f)], L.Lens.Make(k)).Ok? <==> !k.Null?) &&
      (!k.Null? ==>
        AddLensOf(t, rest + [Field(f)], L.Lens.Make(k)).value ==
        (Replace(s, rest, S.Struct(fields[f := Made(k)])), Wrap(rest + [Field(f)], L.Lens.Make(k)).value))
  {
    FieldSlot(s, rest, fields, f, S.Null, Made(k));
    WrappableSnoc(rest, f);
    AddLensAt(Replace(s, rest, S.Struct(fields[f := S.Null])), rest + [Field(f)], L.Lens.Make(k));
  }

  /** The lenses of `.a.b.f.remove()`: `Destroy` of the kind at `.a.b.f`,
      then `RemoveProperty(f)` at `.a.b`. */
  lemma RemovePlan(s: S.Schema, rest: seq<Segment>, f: Ident)
    ensures KindAt(s, rest + [Field(f)]).Err? ==> RuleOf(s, rest + [Field(f), Remove], None).Err?
    ensures KindAt(s, rest + [Field(f)]).Ok? ==>
      RuleOf(s, rest + [Field(f), Remove], None) ==
      RunPlan(s, [Emit(rest + [Field(f)], L.Lens.Destroy(KindAt(s, rest + [Field(f)]).value)),
                  Emit(rest, L.Lens.RemoveProperty(f))])
  {
    var path := rest + [Field(f)];
    var segs := path + [Remove];
    assert segs == rest + [Field(f), Remove];
    assert segs[..|segs| - 1] == path && segs[|segs| - 1] == Remove;
    assert path[..|path| - 1] == rest && path[|path| - 1] == Field(f);
  }

  /** Running the two lenses of a remove rule on a struct holding `f`. */
  lemma RemoveSteps(s: S.Schema, rest: seq<Segment>, fields: map<S.Prop, S.Schema>, f: Ident, k: L.Kind)
    requires Wrappable(rest) && Navigate(s, rest) == Ok(S.Struct(fields)) && f in fields
    requires KindAt(s, rest + [Field(f)]) == Ok(k)
    ensures var plan := [Emit(rest + [Field(f)], L.Lens.Destroy(k)), Emit(rest, L.Lens.RemoveProperty(f))];
      (RunPlan(s, plan).Ok? <==> Emptied(fields[f])) &&
      (RunPlan(s, plan).Ok? ==> RunPlan(s, plan).value.0 == Replace(s, rest, S.Struct(fields - {f})))
  {
    var path := rest + [Field(f)];
    var n := fields[f];
    var e1 := Emit(path, L.Lens.Destroy(k));
    var e2 := Emit(rest, L.Lens.RemoveProperty(f));
    NavigateSnoc(s, rest, Field(f));
    assert [Field(f)][1..] == [];
    assert Navigate(s, path) == Ok(n);
    RunTwo(s, e1, e2);
    KindAtDestroys(s, path);
    WrappableSnoc(rest, f);
    AddLensAt(s, path, e1.lens);
    if Emptied(n) {
      ReplaceThenNavigate(s, rest, S.Struct(fields[f := S.Null]), S.Struct(fields - {f}));
      assert fields[f := n] == fields;
      assert Replace(s, rest, S.Struct(fields[f := n])) == s;
      FieldSlot(s, rest, fields, f, n, S.Null);
      var t := Replace(s, rest, S.Struct(fields[f := S.Null]));
      assert AddLensOf(s, path, e1.lens).value.0 == t;
      AddLensAt(t, rest, e2.lens);
      assert fields[f := S.Null] - {f} == fields - {f};
    }
  }

  /** `.a.b.f.remove()` takes out field `f` of the struct at `.a.b`: it
      applies exactly when that field holds an emptied node, and the struct
      loses `f` and nothing else changes. */
  lemma RemoveRuleDrops(s: S.Schema, rest: seq<Segment>, f: Ident)
    requires Wrappable(rest)
    ensures RuleOf(s, rest + [Field(f), Remove], None).Ok? <==>
      Navigate(s, rest).Ok? && Navigate(s, rest).value.Struct? &&
      f in Navigate(s, rest).value.fields && Emptied(Navigate(s, rest).value.fields[f])
    ensures RuleOf(s, rest + [Field(f), Remove], None).Ok? ==>
      RuleOf(s, rest + [Field(f), Remove], None).value.0 ==
      Replace(s, rest, S.Struct(Navigate(s, rest).value.fields - {f}))
  {
    RemovePlan(s, rest, f);
    NavigateSnoc(s, rest, Field(f));
    assert [Field(f)][1..] == [];
    if Navigate(s, rest).Ok? && Navigate(s, rest).value.Struct? && f in Navigate(s, rest).value.fields {
      var fields := Navigate(s, rest).value.fields;
      if KindAt(s, rest + [Field(f)]).Ok? {
        RemoveSteps(s, rest, fields, f, KindAt(s, rest + [Field(f)]).value);
      } else {
        assert Navigate(s, rest + [Field(f)]) == Ok(fields[f]);
        assert !Emptied(fields[f]);
      }
    } else {
      assert KindAt(s, rest + [Field(f)]).Err?;
    }
  }

  // ---------------------------------------------------------------------
  // ty

  /** What a type identifier names while `ty` reads it: a lens kind, or an
      array, which has no lens kind in `crdt/src/lens.rs`. */
  datatype Declared = Lens(kind: L.Kind) | ArrayKind

  /** The identifier of a primitive kind. */
  function PrimWord(p: S.PrimitiveKind): Ident {
    match p
    case Bool => BoolWord
    case U64 => U64Word
    case I64 => I64Word
    case Str => StringWord
  }

  /** One identifier of a type, read from the last to the first: a primitive
      name, a kind without parameter, or a kind applied to the primitive read
      before it. */
  function TyStep(prim: Option<S.PrimitiveKind>, kind: Option<Declared>, id: Ident):
    Result<(Option<S.PrimitiveKind>, Option<Declared>)>
  {
    if prim.None? && id == BoolWord then Ok((Some(S.Bool), kind))
    else if prim.None? && id == U64Word then Ok((Some(S.U64), kind))
    else if prim.None? && id == I64Word then Ok((Some(S.I64), kind))
    else if prim.None? && id == StringWord then Ok((Some(S.Str), kind))
    else if prim.None? && id == FlagWord then Ok((prim, Some(Lens(L.Kind.Flag))))
    else if prim.None? && id == StructWord then Ok((prim, Some(Lens(L.Kind.Struct))))
    else if prim.None? && id == ArrayWord then Ok((prim, Some(ArrayKind)))
    else if prim.Some? && id == RegWord then Ok((prim, Some(Lens(L.Kind.Reg(prim.value)))))
    else if prim.Some? && id == TableWord then Ok((prim, Some(Lens(L.Kind.Table(prim.value)))))
    else Err("unexpected type")
  }

  /** The state after reading `ids` from the last to the first. */
  function TyFold(prim: Option<S.PrimitiveKind>, kind: Option<Declared>, ids: seq<Ident>):
    Result<(Option<S.PrimitiveKind>, Option<Declared>)>
    decreases |ids|
  {
    if ids == [] then Ok((prim, kind))
    else
      match TyStep(prim, kind, ids[|ids| - 1])
      case Err(e) => Err(e)
      case Ok(st) => TyFold(st.0, st.1, ids[..|ids| - 1])
  }

  /** `ty`: the kind a type's identifiers name. */
  function TyOf(ids: seq<Ident>): Result<L.Kind> {
    match TyFold(None, None, ids)
    case Err(e) => Err(e)
    case Ok(st) =>
      if st.1 == None then Err("no type")
      else if st.1 == Some(ArrayKind) then Err("no lens kind for arrays")
      else Ok(st.1.value.kind)
  }

  /** `ty` reads identifiers from the last to the first. */
  method Ty(ids: seq<Ident>) returns (r: Result<L.Kind>)
    ensures r == TyOf(ids)
  {
    var prim: Option<S.PrimitiveKind> := None;
    var kind: Option<Declared> := None;
    var i := |ids|;
    assert ids[..i] == ids;
    while i > 0
      invariant 0 <= i <= |ids|
      invariant TyFold(None, None, ids) == TyFold(prim, kind, ids[..i])
      decreases i
    {
      var step := TyStep(prim, kind, ids[i - 1]);
      if step.Err? {
        return Err(step.msg);
      }
      assert ids[..i][..i - 1] == ids[..i - 1];
      prim, kind := step.value.0, step.value.1;
      i := i - 1;
    }
    if kind == None {
      return Err("no type");
    }
    if kind == Some(ArrayKind) {
      return Err("no lens kind for arrays");
    }
    r := Ok(kind.value.kind);
  }

  /** How the schema language writes a kind: `EWFlag`, `Struct`,
      `MVReg<k>`, `Table<k>`. */
  function TypeName(k: L.Kind): seq<Ident> {
    match k
    case Null => []
    case Flag => [FlagWord]
    case Struct => [StructWord]
    case Reg(p) => [RegWord, PrimWord(p)]
    case Table(p) => [TableWord, PrimWord(p)]
  }

  /** `ty` reads every kind back from its written name, and a `Null` kind has
      no name. */
  lemma TyReadsTypeName(k: L.Kind)
    ensures k.Null? ==> TyOf(TypeName(k)).Err?
    ensures !k.Null? ==> TyOf(TypeName(k)) == Ok(k)
  {
    match k
    case Null =>
    case Flag =>
      assert FlagWord[0] != StringWord[0] && [FlagWord][..0] == [];
      assert TyStep(None, None, FlagWord) == Ok((None, Some(Lens(k))));
      assert TyFold(None, Some(Lens(k)), []) == Ok((None, Some(Lens(k))));
      assert TyFold(None, None, [FlagWord]) == Ok((None, Some(Lens(k))));
    case Struct =>
      assert StructWord[3] != StringWord[3] && [StructWord][..0] == [];
      assert StructWord[0] != FlagWord[0];
      assert TyStep(None, None, StructWord) == Ok((None, Some(Lens(k))));
      assert TyFold(None, Some(Lens(k)), []) == Ok((None, Some(Lens(k))));
      assert TyFold(None, None, [StructWord]) == Ok((None, Some(Lens(k))));
    case Reg(p) =>
      assert TypeName(k)[..1] == [RegWord] && [RegWord][..0] == [];
      assert TyStep(None, None, PrimWord(p)) == Ok((Some(p), None));
      assert TyFold(Some(p), None, [RegWord]) == Ok((Some(p), Some(Lens(k))));
      match p {
        case Bool =>
        case U64 =>
        case I64 =>
        case Str =>
      }
    case Table(p) =>
      assert TypeName(k)[..1] == [TableWord] && [TableWord][..0] == [];
      assert TyStep(None, None, PrimWord(p)) == Ok((Some(p), None));
      assert TyFold(Some(p), None, [TableWord]) == Ok((Some(p), Some(Lens(k))));
      match p {
        case Bool =>
        case U64 =>
        case I64 =>
        case Str =>
      }
  }

  // ---------------------------------------------------------------------
  // invocation

  /** One identifier of an operation call: the operation name first, then
      the argument of `rename` or `plunge` (a later argument replaces an
      earlier one). */
  function InvocationStep(m: Option<Ident>, seg: Option<Segment>, id: Ident): Result<(Option<Ident>, Option<Segment>)> {
    if m.None? && id == RemoveWord then Ok((Some(RemoveWord), Some(Remove)))
    else if m.None? && id == HoistWord then Ok((Some(HoistWord), Some(Hoist)))
    else if m.None? && id == RenameWord then Ok((Some(RenameWord), seg))
    else if m.None? && id == PlungeWord then Ok((Some(PlungeWord), seg))
    else if m == Some(RenameWord) then Ok((m, Some(Rename(id))))
    else if m == Some(PlungeWord) then Ok((m, Some(Plunge(id))))
    else Err("unexpected lens")
  }

  /** The state after reading `ids` in order. */
  function InvocationFold(m: Option<Ident>, seg: Option<Segment>, ids: seq<Ident>): Result<(Option<Ident>, Option<Segment>)>
    decreases |ids|
  {
    if ids == [] then Ok((m, seg))
    else
      match InvocationStep(m, seg, ids[0])
      case Err(e) => Err(e)
      case Ok(st) => InvocationFold(st.0, st.1, ids[1..])
  }

  /** `invocation`: the operation segment a call names. */
  function InvocationOf(ids: seq<Ident>): Result<Segment> {
    match InvocationFold(None, None, ids)
    case Err(e) => Err(e)
    case Ok(st) => if st.1.None? then Err("no operation") else Ok(st.1.value)
  }

  /** `invocation` reads the identifiers in order. */
  method Invocation(ids: seq<Ident>) returns (r: Result<Segment>)
    ensures r == InvocationOf(ids)
  {
    var m: Option<Ident> := None;
    var seg: Option<Segment> := None;
    var i := 0;
    while i < |ids|
      invariant 0 <= i <= |ids|
      invariant InvocationFold(None, None, ids) == InvocationFold(m, seg, ids[i..])
      decreases |ids| - i
    {
      var step := InvocationStep(m, seg, ids[i]);
      if step.Err? {
        return Err(step.msg);
      }
      assert ids[i..][1..] == ids[i + 1..];
      m, seg := step.value.0, step.value.1;
      i := i + 1;
    }
    if seg.None? {
      return Err("no operation");
    }
    r := Ok(seg.value);
  }

  /** How the schema language writes an operation: `remove()`, `hoist()`,
      `rename(to)`, `plunge(host)`. */
  function Spell(seg: Segment): seq<Ident> {
    match seg
    case Remove => [RemoveWord]
    case Hoist => [HoistWord]
    case Rename(to) => [RenameWord, to]
    case Plunge(host) => [PlungeWord, host]
    case _ => []
  }

  /** `invocation` reads every operation back from its call, whatever the
      argument is, and nothing else reads as an operation. */
  lemma InvocationReadsSpelling(seg: Segment)
    ensures seg.Remove? || seg.Hoist? || seg.Rename? || seg.Plunge? ==> InvocationOf(Spell(seg)) == Ok(seg)
    ensures seg.Field? || seg.LensMap? || seg.LensMapValue? ==> InvocationOf(Spell(seg)).Err?
  {
    match seg
    case Rename(to) =>
      assert Spell(seg)[1..] == [to] && [to][1..] == [];
      assert InvocationFold(Some(RenameWord), Some(seg), []) == Ok((Some(RenameWord), Some(seg)));
      assert InvocationFold(Some(RenameWord), None, [to]) == Ok((Some(RenameWord), Some(seg)));
    case Plunge(host) =>
      assert Spell(seg)[1..] == [host] && [host][1..] == [];
      assert InvocationFold(Some(PlungeWord), Some(seg), []) == Ok((Some(PlungeWord), Some(seg)));
      assert InvocationFold(Some(PlungeWord), None, [host]) == Ok((Some(PlungeWord), Some(seg)));
    case Remove =>
      assert Spell(seg)[1..] == [];
      assert InvocationFold(Some(RemoveWord), Some(seg), []) == Ok((Some(RemoveWord), Some(seg)));
    case Hoist =>
      assert Spell(seg)[1..] == [];
      assert InvocationFold(Some(HoistWord), Some(seg), []) == Ok((Some(HoistWord), Some(seg)));
    case _ =>
  }

  // ---------------------------------------------------------------------
  // The builder and the interpreter

  /** One rule: its path, and the identifiers of its type if it has one. */
  datatype RuleInput = RuleInput(path: seq<Segment>, ty: Option<seq<Ident>>)

  /** The kind a rule's type names, if it has one. */
  function RuleKind(rule: RuleInput): Result<Option<L.Kind>> {
    if rule.ty.None? then Ok(None)
    else
      match TyOf(rule.ty.value)
      case Err(e) => Err(e)
      case Ok(k) => Ok(Some(k))
  }

  /** One rule: its kind read from its type, then `RuleOf`. */
  function RuleStep(s: S.Schema, rule: RuleInput): Result<(S.Schema, seq<L.Lens>)> {
    match RuleKind(rule)
    case Err(e) => Err(e)
    case Ok(kind) => RuleOf(s, rule.path, kind)
  }

  /** The rules of one version, in order: the final schema and the lenses
      they add. */
  function VersionOf(s: S.Schema, rules: seq<RuleInput>): Result<(S.Schema, seq<L.Lens>)>
    decreases |rules|
  {
    if rules == [] then Ok((s, []))
    else
      match RuleStep(s, rules[0])
      case Err(e) => Err(e)
      case Ok(p) => Then(p.1, VersionOf(p.0, rules[1..]))
  }

  /** The version clauses of one schema, in order: the final schema and
      all the lenses they add. */
  function VersionsOf(s: S.Schema, vs: seq<(Ident, seq<RuleInput>)>): Result<(S.Schema, seq<L.Lens>)>
    decreases |vs|
  {
    if vs == [] then Ok((s, []))
    else
      match VersionOf(s, vs[0].1)
      case Err(e) => Err(e)
      case Ok(p) => Then(p.1, VersionsOf(p.0, vs[1..]))
  }

  /** After the versions before `i` have added `added`, version `i`
      succeeding adds its lenses and moves on to the schema it leaves. */
  lemma VersionsAdvance(s0: S.Schema, vs: seq<(Ident, seq<RuleInput>)>, i: nat, added: seq<L.Lens>, pre: S.Schema)
    requires i < |vs| && VersionOf(pre, vs[i].1).Ok?
    requires VersionsOf(s0, vs) == Then(added, VersionsOf(pre, vs[i..]))
    ensures VersionsOf(s0, vs) ==
      Then(added + VersionOf(pre, vs[i].1).value.1, VersionsOf(VersionOf(pre, vs[i].1).value.0, vs[i + 1..]))
  {
    assert vs[i..][0] == vs[i] && vs[i..][1..] == vs[i + 1..];
    var p := VersionOf(pre, vs[i].1).value;
    ThenThen(added, p.1, VersionsOf(p.0, vs[i + 1..]));
  }

  /** After the versions before `i`, version `i` failing fails them all. */
  lemma VersionsFail(s0: S.Schema, vs: seq<(Ident, seq<RuleInput>)>, i: nat, added: seq<L.Lens>, pre: S.Schema)
    requires i < |vs| && VersionOf(pre, vs[i].1).Err?
    requires VersionsOf(s0, vs) == Then(added, VersionsOf(pre, vs[i..]))
    ensures VersionsOf(s0, vs).Err?
  {
    assert vs[i..][0] == vs[i];
  }

  /** After the rules before `i` have added `added`, rule `i` succeeding
      adds its lenses and moves on to the schema it leaves. */
  lemma VersionAdvance(s0: S.Schema, rules: seq<RuleInput>, i: nat, added: seq<L.Lens>, pre: S.Schema)
    requires i < |rules| && RuleStep(pre, rules[i]).Ok?
    requires VersionOf(s0, rules) == Then(added, VersionOf(pre, rules[i..]))
    ensures VersionOf(s0, rules) ==
      Then(added + RuleStep(pre, rules[i]).value.1, VersionOf(RuleStep(pre, rules[i]).value.0, rules[i + 1..]))
  {
    assert rules[i..][0] == rules[i] && rules[i..][1..] == rules[i + 1..];
    var p := RuleStep(pre, rules[i]).value;
    ThenThen(added, p.1, VersionOf(p.0, rules[i + 1..]));
  }

  /** After the rules before `i`, rule `i` failing fails the version. */
  lemma VersionFails(s0: S.Schema, rules: seq<RuleInput>, i: nat, added: seq<L.Lens>, pre: S.Schema)
    requires i < |rules| && RuleStep(pre, rules[i]).Err?
    requires VersionOf(s0, rules) == Then(added, VersionOf(pre, rules[i..]))
    ensures VersionOf(s0, rules).Err?
  {
    assert rules[i..][0] == rules[i];
  }

  lemma LensesAssoc(a: seq<L.Lens>, b: seq<L.Lens>, c: seq<L.Lens>)
    ensures (a + b) + c == a + (b + c)
  {
  }

  /** A schema's lenses are kept together with the schema they build. */
  class SchemaBuilder {
    var version: Option<Ident>
    var schema: S.Schema
    var lenses: seq<L.Lens>
    var versions: seq<(Ident, nat)>

    /** The schema is what the lens list builds from `Null`, and every
        recorded version points into the lens list. */
    ghost predicate Valid()
      reads this
    {
      LL.ApplyAll(L.TransformSchema, LL.Refs(L.ToRef, lenses), S.Null) == Ok(schema)
    }

    constructor ()
      ensures Valid()
      ensures version == None && schema == S.Null && lenses == [] && versions == []
    {
      version := None;
      schema := S.Null;
      lenses := [];
      versions := [];
    }

    /** `start_version`. */
    method StartVersion(v: Ident)
      modifies this
      ensures version == Some(v)
      ensures schema == old(schema) && lenses == old(lenses) && versions == old(versions)
    {
      version := Some(v);
    }

    /** `end_version`: records the open version with the number of lenses so
        far, as a `u32`; with no open version it panics. */
    method EndVersion() returns (r: Result<()>)
      modifies this
      ensures r.Ok? <==> old(version).Some?
      ensures r.Ok? ==> version == None && versions == old(versions) + [(old(version).value, |lenses| % U32Bound)]
      ensures r.Err? ==> version == old(version) && versions == old(versions)
      ensures schema == old(schema) && lenses == old(lenses)
    {
      if version.None? {
        return Err("no version");
      }
      versions := versions + [(version.value, |lenses| % U32Bound)];
      version := None;
      r := Ok(());
    }

    /** Adding one more lens keeps the schema equal to what the list builds. */
    lemma PushKeepsValid(t: S.Schema, w: L.Lens)
      requires Valid() && L.TransformSchema(L.ToRef(w), schema) == Ok(t)
      ensures LL.ApplyAll(L.TransformSchema, LL.Refs(L.ToRef, lenses + [w]), S.Null) == Ok(t)
    {
      assert LL.Refs(L.ToRef, lenses + [w]) == LL.Refs(L.ToRef, lenses) + [L.ToRef(w)];
      LL.ApplyAllAppend(L.TransformSchema, LL.Refs(L.ToRef, lenses), [L.ToRef(w)], S.Null);
      assert [L.ToRef(w)][1..] == [];
    }

    /** `add_lens`: wraps the lens in the path (last segment innermost),
        applies it to the schema and pushes it; a lens that does not apply
        panics. */
    method AddLens(segments: seq<Segment>, lens: L.Lens) returns (r: Result<()>)
      requires Valid()
      modifies this
      ensures Valid()
      ensures r.Ok? <==> AddLensOf(old(schema), segments, lens).Ok?
      ensures r.Ok? ==>
        schema == AddLensOf(old(schema), segments, lens).value.0 &&
        lenses == old(lenses) + [AddLensOf(old(schema), segments, lens).value.1]
      ensures r.Err? ==> schema == old(schema) && lenses == old(lenses)
      ensures version == old(version) && versions == old(versions)
    {
      var wrapped: Result<L.Lens> := Ok(lens);
      var i := |segments|;
      while i > 0 && wrapped.Ok?
        invariant 0 <= i <= |segments|
        invariant wrapped == Wrap(segments[i..], lens)
        decreases i
      {
        i := i - 1;
        assert segments[i..][1..] == segments[i + 1..];
        match segments[i]
        case LensMap =>
          wrapped := Err("no lens maps over array elements");
        case LensMapValue =>
          wrapped := Ok(L.Lens.LensMapValue(wrapped.value));
        case Field(f) =>
          wrapped := Ok(L.Lens.LensIn(f, wrapped.value));
        case _ =>
          wrapped := Err("unreachable");
      }
      if wrapped.Err? {
        WrapSuffixFails(segments, i, lens);
        return Err(wrapped.msg);
      }
      assert segments[0..] == segments;
      var t := L.TransformSchema(L.ToRef(wrapped.value), schema);
      if t.Err? {
        return Err(t.msg);
      }
      PushKeepsValid(t.value, wrapped.value);
      schema := t.value;
      lenses := lenses + [wrapped.value];
      r := Ok(());
    }

    /** `kind_of`: walks the schema along the path and names the kind found
        there; a missing field, a mismatched segment or a `Null` node
        panics. */
    method KindOf(segments: seq<Segment>) returns (r: Result<L.Kind>)
      ensures r == KindAt(schema, segments)
    {
      var at := schema;
      var i := 0;
      while i < |segments|
        invariant 0 <= i <= |segments|
        invariant Navigate(schema, segments) == Navigate(at, segments[i..])
        decreases |segments| - i
      {
        var seg := segments[i];
        assert segments[i..][1..] == segments[i + 1..];
        if seg.Field? && at.Struct? {
          if seg.name !in at.fields {
            return Err("missing field");
          }
          at := at.fields[seg.name];
        } else if seg.LensMap? && at.Array? {
          at := at.elem;
        } else if seg.LensMapValue? && at.Table? {
          at := at.value;
        } else {
          return Err("invalid segment");
        }
        i := i + 1;
      }
      r := KindOfSchema(at);
    }

    /** The loop of `schema` over its version clauses, each compiled in
        turn on this builder. */
    method SchemaVersions(vs: seq<(Ident, seq<RuleInput>)>) returns (r: Result<()>)
      requires Valid() && version == None
      modifies this
      ensures Valid()
      ensures r.Ok? ==> version == None
      ensures r.Ok? ==> |versions| == |old(versions)| + |vs|
      ensures r.Ok? ==> forall i | 0 <= i < |vs| :: versions[|old(versions)| + i].0 == vs[i].0
      ensures r.Ok? <==> VersionsOf(old(schema), vs).Ok?
      ensures r.Ok? ==>
        schema == VersionsOf(old(schema), vs).value.0 &&
        lenses == old(lenses) + VersionsOf(old(schema), vs).value.1
    {
      var i := 0;
      ghost var added: seq<L.Lens> := [];
      assert vs[0..] == vs;
      ThenNothing(VersionsOf(schema, vs));
      while i < |vs|
        invariant 0 <= i <= |vs|
        invariant Valid() && version == None
        invariant |versions| == |old(versions)| + i
        invariant forall j | 0 <= j < i :: versions[|old(versions)| + j].0 == vs[j].0
        invariant lenses == old(lenses) + added
        invariant VersionsOf(old(schema), vs) == Then(added, VersionsOf(schema, vs[i..]))
        decreases |vs| - i
      {
        ghost var before, pre, had := versions, schema, lenses;
        var done := SchemaVersion(vs[i].0, vs[i].1);
        if done.Err? {
          VersionsFail(old(schema), vs, i, added, pre);
          return Err(done.msg);
        }
        assert versions == before + [(vs[i].0, |lenses| % U32Bound)];
        VersionsAdvance(old(schema), vs, i, added, pre);
        LensesAssoc(old(lenses), added, VersionOf(pre, vs[i].1).value.1);
        added := added + VersionOf(pre, vs[i].1).value.1;
        i := i + 1;
      }
      assert vs[i..] == [];
      r := Ok(());
    }

    /** Adds the lenses of a plan in order. */
    method AddAll(plan: seq<Emit>) returns (r: Result<()>)
      requires Valid()
      modifies this
      ensures Valid()
      ensures r.Ok? <==> RunPlan(old(schema), plan).Ok?
      ensures r.Ok? ==>
        schema == RunPlan(old(schema), plan).value.0 &&
        lenses == old(lenses) + RunPlan(old(schema), plan).value.1
      ensures version == old(version) && versions == old(versions)
    {
      var i := 0;
      ghost var added: seq<L.Lens> := [];
      assert plan[0..] == plan;
      ThenNothing(RunPlan(schema, plan));
      while i < |plan|
        invariant 0 <= i <= |plan| && Valid()
        invariant version == old(version) && versions == old(versions)
        invariant lenses == old(lenses) + added
        invariant RunPlan(old(schema), plan) == Then(added, RunPlan(schema, plan[i..]))
        decreases |plan| - i
      {
        RunPlanStep(schema, plan, i);
        var pushed := AddLens(plan[i].at, plan[i].lens);
        if pushed.Err? {
          return Err(pushed.msg);
        }
        ThenThen(added, [lenses[|lenses| - 1]], RunPlan(schema, plan[i + 1..]));
        added := added + [lenses[|lenses| - 1]];
        i := i + 1;
      }
      assert plan[|plan|..] == [];
      r := Ok(());
    }

    /** `rule`: the lenses of one rule. A typed path ending in a field
        declares the field, then makes its kind; a typed path ending
        otherwise makes its kind; `remove()` destroys the node, then removes
        its field; `rename`, `hoist` and `plunge` move fields. */
    method Rule(segments: seq<Segment>, kind: Option<L.Kind>) returns (r: Result<()>)
      requires Valid()
      modifies this
      ensures Valid()
      ensures r.Ok? <==> RuleOf(old(schema), segments, kind).Ok?
      ensures r.Ok? ==>
        schema == RuleOf(old(schema), segments, kind).value.0 &&
        lenses == old(lenses) + RuleOf(old(schema), segments, kind).value.1
      ensures version == old(version) && versions == old(versions)
    {
      var segs := segments;
      var plan: seq<Emit>;
      if kind.Some? {
        if |segs| > 0 && segs[|segs| - 1].Field? {
          var field := segs[|segs| - 1];
          segs := segs[..|segs| - 1];
          plan := [Emit(segs, L.Lens.AddProperty(field.name))];
          segs := segs + [field];
          assert segs == segments;
          plan := plan + [Emit(segs, L.Lens.Make(kind.value))];
          assert plan == [Emit(segments[..|segments| - 1], L.Lens.AddProperty(segments[|segments| - 1].name)),
                          Emit(segments, L.Lens.Make(kind.value))];
          assert RulePlan(schema, segments, kind) == Ok(plan);
        } else {
          plan := [Emit(segs, L.Lens.Make(kind.value))];
          assert RulePlan(schema, segments, kind) == Ok(plan);
        }
      } else {
        if segs == [] {
          return Err("expected segment");
        }
        var last := segs[|segs| - 1];
        segs := segs[..|segs| - 1];
        var n := |segs|;
        assert segs == segments[..|segments| - 1] && last == segments[|segments| - 1];
        match last
        case Remove =>
          var k := KindOf(segs);
          if k.Err? {
            return Err(k.msg);
          }
          if n > 0 && segs[n - 1].Field? {
            plan := [Emit(segs, L.Lens.Destroy(k.value)), Emit(segs[..n - 1], L.Lens.RemoveProperty(segs[n - 1].name))];
          } else {
            plan := [Emit(segs, L.Lens.Destroy(k.value))];
          }
          assert RulePlan(schema, segments, kind) == Ok(plan);
        case Rename(to) =>
          if !(n > 0 && segs[n - 1].Field?) {
            return Err("invalid rename operation");
          }
          plan := [Emit(segs[..n - 1], L.Lens.RenameProperty(segs[n - 1].name, to))];
          assert RulePlan(schema, segments, kind) == Ok(plan);
        case Hoist =>
          if !(n > 1 && segs[n - 2].Field? && segs[n - 1].Field?) {
            return Err("invalid hoist operation");
          }
          plan := [Emit(segs[..n - 2], L.Lens.HoistProperty(segs[n - 2].name, segs[n - 1].name))];
          assert RulePlan(schema, segments, kind) == Ok(plan);
        case Plunge(host) =>
          if !(n > 0 && segs[n - 1].Field?) {
            return Err("invalid plunge operation");
          }
          plan := [Emit(segs[..n - 1], L.Lens.PlungeProperty(host, segs[n - 1].name))];
          assert RulePlan(schema, segments, kind) == Ok(plan);
        case _ =>
          return Err("unexpected segment");
      }
      assert RulePlan(schema, segments, kind) == Ok(plan);
      r := AddAll(plan);
    }

    /** `rule` from its parsed parts: the optional type is resolved first,
        and a type that does not resolve panics before any lens is added. */
    method ParsedRule(rule: RuleInput) returns (r: Result<()>)
      requires Valid()
      modifies this
      ensures Valid()
      ensures r.Ok? <==> RuleStep(old(schema), rule).Ok?
      ensures r.Ok? ==>
        schema == RuleStep(old(schema), rule).value.0 &&
        lenses == old(lenses) + RuleStep(old(schema), rule).value.1
      ensures version == old(version) && versions == old(versions)
    {
      var kind: Option<L.Kind> := None;
      if rule.ty.Some? {
        var k := Ty(rule.ty.value);
        if k.Err? {
          return Err(k.msg);
        }
        kind := Some(k.value);
      }
      assert RuleKind(rule) == Ok(kind);
      r := Rule(rule.path, kind);
    }

    /** `schema_version`: opens the version, runs its rules in order and
        records the version with the lens count reached. */
    method SchemaVersion(v: Ident, rules: seq<RuleInput>) returns (r: Result<()>)
      requires Valid()
      modifies this
      ensures Valid()
      ensures r.Ok? <==> VersionOf(old(schema), rules).Ok?
      ensures r.Ok? ==>
        schema == VersionOf(old(schema), rules).value.0 &&
        lenses == old(lenses) + VersionOf(old(schema), rules).value.1 &&
        version == None &&
        versions == old(versions) + [(v, |lenses| % U32Bound)]
    {
      StartVersion(v);
      var i := 0;
      ghost var added: seq<L.Lens> := [];
      assert rules[0..] == rules;
      ThenNothing(VersionOf(schema, rules));
      while i < |rules|
        invariant 0 <= i <= |rules| && Valid()
        invariant version == Some(v) && versions == old(versions)
        invariant lenses == old(lenses) + added
        invariant VersionOf(old(schema), rules) == Then(added, VersionOf(schema, rules[i..]))
        decreases |rules| - i
      {
        ghost var pre := schema;
        var done := ParsedRule(rules[i]);
        if done.Err? {
          VersionFails(old(schema), rules, i, added, pre);
          return Err(done.msg);
        }
        ghost var step := RuleStep(pre, rules[i]).value.1;
        VersionAdvance(old(schema), rules, i, added, pre);
        LensesAssoc(old(lenses), added, step);
        added := added + step;
        i := i + 1;
      }
      assert rules[|rules|..] == [];
      r := EndVersion();
    }
  }

  /** A compiled schema: its name, its lens count as a `u32`, its lenses. */
  datatype Package = Package(name: Ident, count: nat, lenses: seq<L.Lens>)

  class Interpreter {
    var name: Option<Ident>
    var builder: Option<SchemaBuilder>
    var schemas: map<Ident, SchemaBuilder>

    /** Every finished schema's builder keeps its schema equal to what its
        lenses build. */
    ghost predicate Valid()
      reads this, schemas.Values
    {
      forall b | b in schemas.Values :: b.Valid()
    }

    constructor ()
      ensures Valid()
      ensures name == None && builder == None && schemas == map[]
    {
      name := None;
      builder := None;
      schemas := map[];
    }

    /** `start_schema`: opens a schema with a fresh builder. */
    method StartSchema(n: Ident)
      modifies this
      ensures name == Some(n) && builder.Some? && fresh(builder.value)
      ensures builder.value.Valid() && builder.value.lenses == [] && builder.value.versions == []
      ensures builder.value.version == None && builder.value.schema == S.Null
      ensures schemas == old(schemas)
    {
      var b := new SchemaBuilder();
      name := Some(n);
      builder := Some(b);
    }

    /** `end_schema`: stores the open schema under its name; it panics with
        no open schema and on a name already taken. */
    method EndSchema() returns (r: Result<()>)
      modifies this
      ensures r.Ok? <==> old(name).Some? && old(builder).Some? && old(name).value !in old(schemas)
      ensures r.Ok? ==> schemas == old(schemas)[old(name).value := old(builder).value]
      ensures r.Ok? ==> name == None && builder == None
      ensures r.Err? ==> schemas == old(schemas)
    {
      if name.None? {
        return Err("no schema name");
      }
      var n := name.value;
      name := None;
      if builder.None? {
        return Err("no schema builder");
      }
      var b := builder.value;
      builder := None;
      if n in schemas {
        return Err("schema with name already exists");
      }
      schemas := schemas[n := b];
      r := Ok(());
    }

    /** `schema`: compiles one named schema, version by version, and stores
        it; the stored builder's lenses are the versions' lenses in order. */
    method Schema(n: Ident, versions: seq<(Ident, seq<RuleInput>)>) returns (r: Result<()>)
      requires Valid()
      modifies this
      ensures Valid()
      ensures r.Ok? ==> n !in old(schemas) && n in schemas && schemas - {n} == old(schemas) && fresh(schemas[n])
      ensures r.Ok? ==> |schemas[n].versions| == |versions|
      ensures r.Ok? ==> forall i | 0 <= i < |versions| :: schemas[n].versions[i].0 == versions[i].0
      ensures r.Ok? <==> n !in old(schemas) && VersionsOf(S.Null, versions).Ok?
      ensures r.Ok? ==>
        schemas[n].schema == VersionsOf(S.Null, versions).value.0 &&
        schemas[n].lenses == VersionsOf(S.Null, versions).value.1
      ensures r.Err? ==> schemas == old(schemas)
    {
      StartSchema(n);
      var b := builder.value;
      var done := b.SchemaVersions(versions);
      if done.Err? {
        return Err(done.msg);
      }
      r := EndSchema();
    }

    /** `into_packages`: one package per schema, in the listing order of the
        map (`order`, which lists every stored name once), each with its
        lens count as a `u32` and its lenses;
        every package's lenses build its schema from `Null`. */
    method IntoPackages(order: seq<Ident>) returns (packages: seq<Package>)
      requires Valid()
      requires forall i | 0 <= i < |order| :: order[i] in schemas
      requires forall n | n in schemas :: n in order
      requires forall i, j | 0 <= i < j < |order| :: order[i] != order[j]
      ensures |packages| == |order|
      ensures forall n | n in schemas :: exists i | 0 <= i < |packages| :: packages[i].name == n
      ensures forall i, j | 0 <= i < j < |packages| :: packages[i].name != packages[j].name
      ensures forall i | 0 <= i < |order| ::
        packages[i].name == order[i] &&
        packages[i].lenses == schemas[order[i]].lenses &&
        packages[i].count == |schemas[order[i]].lenses| % U32Bound
      ensures forall i | 0 <= i < |order| ::
        LL.ApplyAll(L.TransformSchema, LL.Refs(L.ToRef, packages[i].lenses), S.Null) == Ok(schemas[order[i]].schema)
    {
      packages := [];
      var i := 0;
      while i < |order|
        invariant 0 <= i <= |order| && |packages| == i
        invariant forall j | 0 <= j < i ::
          packages[j].name == order[j] &&
          packages[j].lenses == schemas[order[j]].lenses &&
          packages[j].count == |schemas[order[j]].lenses| % U32Bound
        decreases |order| - i
      {
        var b := schemas[order[i]];
        packages := packages + [Package(order[i], |b.lenses| % U32Bound, b.lenses)];
        i := i + 1;
      }
      forall i | 0 <= i < |order|
        ensures LL.ApplyAll(L.TransformSchema, LL.Refs(L.ToRef, packages[i].lenses), S.Null) == Ok(schemas[order[i]].schema)
      {
        assert schemas[order[i]] in schemas.Values;
      }
    }
  }
}
