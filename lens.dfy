/** Bidirectional schema lenses of `crdt/src/lens.rs`. A document's schema is
    the result of applying its lens list to `Null`; moving between two lens
    lists undoes the first list's own suffix in reverse and then applies the
    second's. */
module Lenses {
  import opened Wrappers
  import S = Schemas
  import LL = LensLists

  /** The kind a `Make` or `Destroy` lens creates or removes. */
  datatype Kind = Null | Flag | Reg(kind: S.PrimitiveKind) | Table(kind: S.PrimitiveKind) | Struct

  /** A lens as stored in a lens list. */
  datatype Lens =
    | Make(make: Kind)
    | Destroy(destroy: Kind)
    | AddProperty(add: S.Prop)
    | RemoveProperty(remove: S.Prop)
    | RenameProperty(from: S.Prop, to: S.Prop)
    | HoistProperty(host: S.Prop, target: S.Prop)
    | PlungeProperty(host: S.Prop, target: S.Prop)
    | LensIn(key: S.Prop, lens: Lens)
    | LensMapValue(lens: Lens)

  /** `LensRef`: a lens together with the direction of its nested lens. */
  datatype LensRef =
    | Make(make: Kind)
    | Destroy(destroy: Kind)
    | AddProperty(add: S.Prop)
    | RemoveProperty(remove: S.Prop)
    | RenameProperty(from: S.Prop, to: S.Prop)
    | HoistProperty(host: S.Prop, target: S.Prop)
    | PlungeProperty(host: S.Prop, target: S.Prop)
    | LensIn(rev: bool, key: S.Prop, lens: Lens)
    | LensMapValue(rev: bool, lens: Lens)

  /** `to_ref`: a stored lens, applied forwards. */
  function ToRef(l: Lens): LensRef {
    match l
    case Make(k) => LensRef.Make(k)
    case Destroy(k) => LensRef.Destroy(k)
    case AddProperty(p) => LensRef.AddProperty(p)
    case RemoveProperty(p) => LensRef.RemoveProperty(p)
    case RenameProperty(p1, p2) => LensRef.RenameProperty(p1, p2)
    case HoistProperty(h, t) => LensRef.HoistProperty(h, t)
    case PlungeProperty(h, t) => LensRef.PlungeProperty(h, t)
    case LensIn(k, l) => LensRef.LensIn(false, k, l)
    case LensMapValue(l) => LensRef.LensMapValue(false, l)
  }

  /** `reverse`: the lens that undoes this one. */
  function Reverse(l: LensRef): LensRef {
    match l
    case Make(k) => LensRef.Destroy(k)
    case Destroy(k) => LensRef.Make(k)
    case AddProperty(key) => LensRef.RemoveProperty(key)
    case RemoveProperty(key) => LensRef.AddProperty(key)
    case RenameProperty(from, to) => LensRef.RenameProperty(to, from)
    case HoistProperty(host, target) => LensRef.PlungeProperty(host, target)
    case PlungeProperty(host, target) => LensRef.HoistProperty(host, target)
    case LensIn(rev, key, lens) => LensRef.LensIn(!rev, key, lens)
    case LensMapValue(rev, lens) => LensRef.LensMapValue(!rev, lens)
  }

  /** `maybe_reverse`. */
  function MaybeReverse(l: LensRef, rev: bool): LensRef {
    if rev then Reverse(l) else l
  }

  /** Reversing twice gives back the lens, so flipping the direction flag of
      a nested lens reverses it. */
  lemma ReverseInvolutive(l: LensRef, rev: bool)
    ensures Reverse(Reverse(l)) == l
    ensures MaybeReverse(l, !rev) == Reverse(MaybeReverse(l, rev))
  {
  }

  /** `transform_schema`: the schema after the lens, or the reason it does not
      apply. */
  function TransformSchema(l: LensRef, s: S.Schema): Result<S.Schema>
    decreases s
  {
    match l
    case Make(k) =>
      if s != S.Null then Err("cannot make schema")
      else
        (match k
         case Null => Err("cannot make a null schema")
         case Flag => Ok(S.Flag)
         case Reg(kind) => Ok(S.Reg(kind))
         case Table(kind) => Ok(S.Table(kind, S.Null))
         case Struct => Ok(S.Struct(map[])))
    case Destroy(k) =>
      (match k
       case Null => Err("can't apply destroy")
       case Flag => if s.Flag? then Ok(S.Null) else Err("can't apply destroy")
       case Reg(k1) =>
         if !s.Reg? then Err("can't apply destroy")
         else if k1 != s.kind then Err("can't destroy different kind")
         else Ok(S.Null)
       case Table(k1) =>
         if !s.Table? then Err("can't apply destroy")
         else if k1 != s.key then Err("can't destroy different kind")
         else if s.value != S.Null then Err("can't destroy table with non null schema")
         else Ok(S.Null)
       case Struct =>
         if !s.Struct? then Err("can't apply destroy")
         else if s.fields != map[] then Err("can't destroy non empty object")
         else Ok(S.Null))
    case AddProperty(key) =>
      if !s.Struct? then Err("invalid lens for schema")
      else if key in s.fields then Err("property already exists in schema")
      else Ok(S.Struct(s.fields[key := S.Null]))
    case RemoveProperty(key) =>
      if !s.Struct? then Err("invalid lens for schema")
      else if key !in s.fields then Err("property doesn't exist in schema")
      else if s.fields[key] != S.Null then Err("property cannot be removed")
      else Ok(S.Struct(s.fields - {key}))
    case RenameProperty(from, to) =>
      if !s.Struct? then Err("invalid lens for schema")
      else if to in s.fields then Err("trying to rename to existing property")
      else if from !in s.fields then Err("cannot rename property that doesn't exist")
      else Ok(S.Struct((s.fields - {from})[to := s.fields[from]]))
    case HoistProperty(host, target) =>
      if !s.Struct? then Err("invalid lens for schema")
      else if target in s.fields then Err("target property already exists")
      else if host !in s.fields || !s.fields[host].Struct? then Err("host property doesn't exist")
      else if target !in s.fields[host].fields then Err("target property doesn't exist")
      else
        var inner := s.fields[host].fields;
        Ok(S.Struct(s.fields[host := S.Struct(inner - {target})][target := inner[target]]))
    case PlungeProperty(host, target) =>
      if !s.Struct? then Err("invalid lens for schema")
      else if host == target then Err("host and target property are the same")
      else if target !in s.fields then Err("target property doesn't exist")
      else
        var rest := s.fields - {target};
        if host !in rest || !rest[host].Struct? then Err("host property doesn't exist")
        else if target in rest[host].fields then Err("host already contains target property")
        else Ok(S.Struct(rest[host := S.Struct(rest[host].fields[target := s.fields[target]])]))
    case LensIn(rev, key, lens) =>
      if s.Struct? && key in s.fields then
        match TransformSchema(MaybeReverse(ToRef(lens), rev), s.fields[key])
        case Err(e) => Err(e)
        case Ok(inner) => Ok(S.Struct(s.fields[key := inner]))
      else Err("invalid lens for schema")
    case LensMapValue(rev, lens) =>
      if s.Table? then
        match TransformSchema(MaybeReverse(ToRef(lens), rev), s.value)
        case Err(e) => Err(e)
        case Ok(inner) => Ok(S.Table(s.key, inner))
      else Err("invalid lens for schema")
  }

  /** `Make` applies only to the empty schema and builds a non-empty one;
      `Destroy` applies only to a non-empty schema and leaves the empty one. */
  lemma MakeDestroyShape(l: LensRef, s: S.Schema)
    requires l.Make? || l.Destroy?
    ensures var r := TransformSchema(l, s);
      r.Ok? ==> (l.Make? ==> s == S.Null && r.value != S.Null) && (l.Destroy? ==> s != S.Null && r.value == S.Null)
  {
  }

  /** Every lens is undone by its reverse: when the lens applies, its reverse
      applies to the result and restores the schema exactly. */
  lemma {:induction false} Reversible(l: LensRef, s: S.Schema)
    requires TransformSchema(l, s).Ok?
    ensures TransformSchema(Reverse(l), TransformSchema(l, s).value) == Ok(s)
    decreases s
  {
    var t := TransformSchema(l, s).value;
    match l
    case Make(k) =>
    case Destroy(k) =>
    case AddProperty(key) =>
      assert t.fields - {key} == s.fields;
    case RemoveProperty(key) =>
      assert t.fields[key := S.Null] == s.fields;
    case RenameProperty(from, to) =>
      assert (t.fields - {to})[from := t.fields[to]] == s.fields;
    case HoistProperty(host, target) =>
      MoveReversible(l, s);
    case PlungeProperty(host, target) =>
      MoveReversible(l, s);
    case LensIn(rev, key, lens) =>
      var nested := MaybeReverse(ToRef(lens), rev);
      ReverseInvolutive(ToRef(lens), rev);
      Reversible(nested, s.fields[key]);
      assert t.fields[key := s.fields[key]] == s.fields;
    case LensMapValue(rev, lens) =>
      ReverseInvolutive(ToRef(lens), rev);
      Reversible(MaybeReverse(ToRef(lens), rev), s.value);
  }

  /** The case of `Reversible` for hoisting and plunging a property. */
  lemma MoveReversible(l: LensRef, s: S.Schema)
    requires l.HoistProperty? || l.PlungeProperty?
    requires TransformSchema(l, s).Ok?
    ensures TransformSchema(Reverse(l), TransformSchema(l, s).value) == Ok(s)
  {
    var t := TransformSchema(l, s).value;
    var host, target := l.host, l.target;
    if l.HoistProperty? {
      var inner := s.fields[host].fields;
      assert host != target && t.fields[target] == inner[target];
      var rest := t.fields - {target};
      assert rest == s.fields[host := S.Struct(inner - {target})];
      assert rest[host] == S.Struct(inner - {target});
      assert (inner - {target})[target := inner[target]] == inner;
      assert rest[host := S.Struct(inner)] == s.fields;
      assert TransformSchema(Reverse(l), t) == Ok(S.Struct(rest[host := S.Struct(rest[host].fields[target := t.fields[target]])]));
    } else {
      var rest := s.fields - {target};
      var inner := rest[host].fields[target := s.fields[target]];
      assert t.fields[host].fields - {target} == rest[host].fields;
      assert t.fields[host := S.Struct(rest[host].fields)] == rest;
      assert rest[target := s.fields[target]] == s.fields;
    }
  }

  /** When each lens fails: `Make` needs a `Null` schema and a non-null kind,
      `AddProperty` a struct without the key, `RemoveProperty` a struct whose
      key holds `Null`, and `RenameProperty` a struct with the source and
      without the target. */
  lemma Failures(s: S.Schema, k: Kind, key: S.Prop, from: S.Prop, to: S.Prop)
    ensures TransformSchema(LensRef.Make(k), s).Ok? <==> s == S.Null && !k.Null?
    ensures TransformSchema(LensRef.AddProperty(key), s).Ok? <==> s.Struct? && key !in s.fields
    ensures TransformSchema(LensRef.RemoveProperty(key), s).Ok? <==>
      s.Struct? && key in s.fields && s.fields[key] == S.Null
    ensures TransformSchema(LensRef.RenameProperty(from, to), s).Ok? <==>
      s.Struct? && to !in s.fields && from in s.fields
  {
  }

  /** Every lens of this kind is undone by its reverse. */
  lemma AllReversible()
    ensures LL.Reversible(TransformSchema, Reverse)
  {
    forall l, s | TransformSchema(l, s).Ok?
      ensures TransformSchema(Reverse(l), TransformSchema(l, s).value) == Ok(s)
    {
      Reversible(l, s);
    }
  }

  /** `ArchivedLenses::to_schema`: the schema a lens list builds from
      `Null`, or the first failure. */
  method ToSchema(lenses: seq<Lens>) returns (r: Result<S.Schema>)
    ensures r == LL.ApplyAll(TransformSchema, LL.Refs(ToRef, lenses), S.Null)
  {
    r := LL.ToSchema(ToRef, TransformSchema, lenses, S.Null);
  }

  /** `ArchivedLenses::transform`: the lenses from lens list `a` to `b`. */
  method Transform(a: seq<Lens>, b: seq<Lens>) returns (c: seq<LensRef>)
    ensures c == LL.TransformOf(ToRef, Reverse, a, b)
  {
    c := LL.Transform(ToRef, Reverse, a, b);
  }

  /** A document whose schema was built by lens list `a` has the schema
      built by `b` after the lenses of `transform`. */
  lemma TransformReachesTarget(a: seq<Lens>, b: seq<Lens>)
    requires LL.ApplyAll(TransformSchema, LL.Refs(ToRef, a), S.Null).Ok?
    requires LL.ApplyAll(TransformSchema, LL.Refs(ToRef, b), S.Null).Ok?
    ensures LL.ApplyAll(TransformSchema, LL.TransformOf(ToRef, Reverse, a, b),
                        LL.ApplyAll(TransformSchema, LL.Refs(ToRef, a), S.Null).value) ==
            LL.ApplyAll(TransformSchema, LL.Refs(ToRef, b), S.Null)
  {
    AllReversible();
    LL.TransformReachesTarget(ToRef, Reverse, TransformSchema, a, b, S.Null);
  }
}
