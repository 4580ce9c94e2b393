/** The value lenses of `cambria/src/lens.rs`. A schema describes JSON-like
    values (null, booleans, numbers, text, arrays, objects); a lens changes
    a schema and, alongside, every value valid for it, so that the value
    stays valid for the changed schema. */
module CambriaLenses {
  import opened Wrappers
  import LL = LensLists

  type Prop = string

  /** `PrimitiveKind`. */
  datatype PrimitiveKind = BooleanKind | NumberKind | TextKind

  /** `Kind`: what `Make` creates and `Destroy` removes. */
  datatype Kind = NullKind | PrimKind(prim: PrimitiveKind) | ArrayKind | ObjectKind

  /** `PrimitiveValue`; a number is an `i64` (its range is not modelled). */
  datatype PrimitiveValue = Boolean(b: bool) | Number(n: int) | Text(t: string)

  /** `Value`. */
  datatype Value =
    | Null
    | Prim(p: PrimitiveValue)
    | Array(items: seq<Value>)
    | Object(props: map<Prop, Value>)

  /** `Schema`. An array schema says whether the array may be empty and
      what schema its items have. */
  datatype Schema =
    | NullSchema
    | BooleanSchema
    | NumberSchema
    | TextSchema
    | ArraySchema(mayBeEmpty: bool, item: Schema)
    | ObjectSchema(fields: map<Prop, Schema>)

  /** `PrimitiveValue::kind_of`. */
  function KindOf(p: PrimitiveValue): PrimitiveKind {
    match p
    case Boolean(_) => BooleanKind
    case Number(_) => NumberKind
    case Text(_) => TextKind
  }

  /** The schema of a primitive kind. */
  function PrimSchema(k: PrimitiveKind): (s: Schema)
    ensures s.BooleanSchema? || s.NumberSchema? || s.TextSchema?
  {
    match k
    case BooleanKind => BooleanSchema
    case NumberKind => NumberSchema
    case TextKind => TextSchema
  }

  /** The value a lens creates for a primitive kind: `false`, `0` or `""`. */
  function DefaultPrim(k: PrimitiveKind): (p: PrimitiveValue)
    ensures KindOf(p) == k
  {
    match k
    case BooleanKind => Boolean(false)
    case NumberKind => Number(0)
    case TextKind => Text("")
  }

  // ---------------------------------------------------------------------
  // Validation
  // ---------------------------------------------------------------------

  /** What `ArchivedSchema::validate` accepts: a primitive of the schema's
      kind; an array that is non-empty with valid items, or empty where the
      schema allows it; an object with exactly the schema's fields, each
      valid. */
  predicate Valid(s: Schema, v: Value) {
    match (s, v)
    case (NullSchema, Null) => true
    case (BooleanSchema, Prim(Boolean(_))) => true
    case (NumberSchema, Prim(Number(_))) => true
    case (TextSchema, Prim(Text(_))) => true
    case (ArraySchema(e, item), Array(vs)) =>
      if vs == [] then e else forall i | 0 <= i < |vs| :: Valid(item, vs[i])
    case (ObjectSchema(fs), Object(m)) =>
      fs.Keys == m.Keys && forall k | k in m :: Valid(fs[k], m[k])
    case _ => false
  }

  /** A primitive is valid for a schema exactly when the schema is its
      kind's. */
  lemma PrimValid(s: Schema, p: PrimitiveValue)
    ensures Valid(s, Prim(p)) <==> s == PrimSchema(KindOf(p))
  {
  }

  /** `ArchivedSchema::validate`, item by item and field by field,
      stopping at the first failure. */
  method Validate(s: Schema, v: Value) returns (ok: bool)
    ensures ok <==> Valid(s, v)
  {
    match (s, v)
    case (NullSchema, Null) => return true;
    case (BooleanSchema, Prim(Boolean(_))) => return true;
    case (NumberSchema, Prim(Number(_))) => return true;
    case (TextSchema, Prim(Text(_))) => return true;
    case (ArraySchema(e, item), Array(vs)) =>
      if vs == [] {
        return e;
      }
      var i := 0;
      while i < |vs|
        invariant 0 <= i <= |vs|
        invariant forall j | 0 <= j < i :: Valid(item, vs[j])
      {
        var valid := Validate(item, vs[i]);
        if !valid {
          return false;
        }
        i := i + 1;
      }
      return true;
    case (ObjectSchema(fs), Object(m)) =>
      var declared := fs.Keys;
      while declared != {}
        invariant declared <= fs.Keys
        invariant fs.Keys - declared <= m.Keys
        decreases declared
      {
        var k :| k in declared;
        if k !in m {
          return false;
        }
        declared := declared - {k};
      }
      var todo := m.Keys;
      while todo != {}
        invariant todo <= m.Keys
        invariant forall k | k in m.Keys - todo :: k in fs && Valid(fs[k], m[k])
        decreases todo
      {
        var k :| k in todo;
        if k !in fs {
          return false;
        }
        var valid := Validate(fs[k], m[k]);
        if !valid {
          return false;
        }
        todo := todo - {k};
      }
      return true;
    case _ => return false;
  }

  // ---------------------------------------------------------------------
  // Lenses
  // ---------------------------------------------------------------------

  /** `Lens`, as stored. `Convert` maps primitives of one kind to another
      through a list of value pairs. */
  datatype Lens =
    | Make(make: Kind)
    | Destroy(destroy: Kind)
    | AddProperty(add: Prop)
    | RemoveProperty(remove: Prop)
    | RenameProperty(from: Prop, to: Prop)
    | HoistProperty(host: Prop, target: Prop)
    | PlungeProperty(host: Prop, target: Prop)
    | Wrap
    | Head
    | LensIn(key: Prop, lens: Lens)
    | LensMap(lens: Lens)
    | Convert(fromKind: PrimitiveKind, toKind: PrimitiveKind, pairs: seq<(PrimitiveValue, PrimitiveValue)>)

  /** `LensRef`: a lens with the direction of its nested lens, or of its
      conversion. */
  datatype LensRef =
    | Make(make: Kind)
    | Destroy(destroy: Kind)
    | AddProperty(add: Prop)
    | RemoveProperty(remove: Prop)
    | RenameProperty(from: Prop, to: Prop)
    | HoistProperty(host: Prop, target: Prop)
    | PlungeProperty(host: Prop, target: Prop)
    | Wrap
    | Head
    | LensIn(rev: bool, key: Prop, lens: Lens)
    | LensMap(rev: bool, lens: Lens)
    | Convert(rev: bool, fromKind: PrimitiveKind, toKind: PrimitiveKind, pairs: seq<(PrimitiveValue, PrimitiveValue)>)

  /** `to_ref`: a stored lens, applied forwards. */
  function ToRef(l: Lens): LensRef {
    match l
    case Make(k) => LensRef.Make(k)
    case Destroy(k) => LensRef.Destroy(k)
    case AddProperty(p) => LensRef.AddProperty(p)
    case RemoveProperty(p) => LensRef.RemoveProperty(p)
    case RenameProperty(p1, p2) => LensRef.RenameProperty(p1, p2)
    case HoistProperty(h, t) => LensRef.HoistProperty(h, t)
    case PlungeProperty(h, t) => LensRef.PlungeProperty(h, t)
    case Wrap => LensRef.Wrap
    case Head => LensRef.Head
    case LensIn(k, l) => LensRef.LensIn(false, k, l)
    case LensMap(l) => LensRef.LensMap(false, l)
    case Convert(k1, k2, m) => LensRef.Convert(false, k1, k2, m)
  }

  /** `reverse`: the lens that undoes this one. `Wrap` and `Head` swap, and
      a conversion runs the other way. */
  function Reverse(l: LensRef): LensRef {
    match l
    case Make(k) => LensRef.Destroy(k)
    case Destroy(k) => LensRef.Make(k)
    case AddProperty(key) => LensRef.RemoveProperty(key)
    case RemoveProperty(key) => LensRef.AddProperty(key)
    case RenameProperty(from, to) => LensRef.RenameProperty(to, from)
    case HoistProperty(host, target) => LensRef.PlungeProperty(host, target)
    case PlungeProperty(host, target) => LensRef.HoistProperty(host, target)
    case Wrap => LensRef.Head
    case Head => LensRef.Wrap
    case LensIn(rev, key, lens) => LensRef.LensIn(!rev, key, lens)
    case LensMap(rev, lens) => LensRef.LensMap(!rev, lens)
    case Convert(rev, from, to, m) => LensRef.Convert(!rev, from, to, m)
  }

  /** `maybe_reverse`. */
  function MaybeReverse(l: LensRef, rev: bool): LensRef {
    if rev then Reverse(l) else l
  }

  /** Reversing twice gives back the lens, so flipping the direction flag
      of a nested lens reverses it. */
  lemma ReverseInvolutive(l: LensRef, rev: bool)
    ensures Reverse(Reverse(l)) == l
    ensures MaybeReverse(l, !rev) == Reverse(MaybeReverse(l, rev))
  {
  }

  /** Every pair of a conversion maps a `from` primitive to a `to` one. */
  predicate PairsOfKinds(pairs: seq<(PrimitiveValue, PrimitiveValue)>, from: PrimitiveKind, to: PrimitiveKind) {
    forall i | 0 <= i < |pairs| :: KindOf(pairs[i].0) == from && KindOf(pairs[i].1) == to
  }

  /** `transform_schema`: the schema after the lens, or the reason it does
      not apply. */
  function TransformSchema(l: LensRef, s: Schema): Result<Schema>
    decreases s
  {
    match l
    case Make(k) =>
      if s != NullSchema then Err("cannot make schema")
      else
        (match k
         case NullKind => Err("cannot make a null schema")
         case PrimKind(p) => Ok(PrimSchema(p))
         case ArrayKind => Ok(ArraySchema(true, NullSchema))
         case ObjectKind => Ok(ObjectSchema(map[])))
    case Destroy(k) =>
      (match (k, s)
       case (PrimKind(BooleanKind), BooleanSchema) => Ok(NullSchema)
       case (PrimKind(NumberKind), NumberSchema) => Ok(NullSchema)
       case (PrimKind(TextKind), TextSchema) => Ok(NullSchema)
       case (ArrayKind, ArraySchema(true, item)) =>
         if item != NullSchema then Err("can't destroy non empty array") else Ok(NullSchema)
       case (ObjectKind, ObjectSchema(m)) =>
         if m != map[] then Err("can't destroy non empty object") else Ok(NullSchema)
       case _ => Err("can't apply destroy"))
    case AddProperty(key) =>
      if !s.ObjectSchema? then Err("invalid lens for schema")
      else if key in s.fields then Err("property already exists in schema")
      else Ok(ObjectSchema(s.fields[key := NullSchema]))
    case RemoveProperty(key) =>
      if !s.ObjectSchema? then Err("invalid lens for schema")
      else if key !in s.fields then Err("property doesn't exist in schema")
      else if s.fields[key] != NullSchema then Err("property cannot be removed")
      else Ok(ObjectSchema(s.fields - {key}))
    case RenameProperty(from, to) =>
      if !s.ObjectSchema? then Err("invalid lens for schema")
      else if to in s.fields then Err("trying to rename to existing property")
      else if from !in s.fields then Err("cannot rename property that doesn't exist")
      else Ok(ObjectSchema((s.fields - {from})[to := s.fields[from]]))
    case HoistProperty(host, target) =>
      if !s.ObjectSchema? then Err("invalid lens for schema")
      else if target in s.fields then Err("target property already exists")
      else if host !in s.fields || !s.fields[host].ObjectSchema? then Err("host property doesn't exist")
      else if target !in s.fields[host].fields then Err("target property doesn't exist")
      else
        var inner := s.fields[host].fields;
        Ok(ObjectSchema(s.fields[host := ObjectSchema(inner - {target})][target := inner[target]]))
    case PlungeProperty(host, target) =>
      if !s.ObjectSchema? then Err("invalid lens for schema")
      else if host == target then Err("host and target property are the same")
      else if target !in s.fields then Err("target property doesn't exist")
      else
        var rest := s.fields - {target};
        if host !in rest || !rest[host].ObjectSchema? then Err("host property doesn't exist")
        else if target in rest[host].fields then Err("host already contains target property")
        else Ok(ObjectSchema(rest[host := ObjectSchema(rest[host].fields[target := s.fields[target]])]))
    case Wrap => Ok(ArraySchema(false, s))
    case Head =>
      if s.ArraySchema? && !s.mayBeEmpty then Ok(s.item) else Err("cannot apply head")
    case LensIn(rev, key, lens) =>
      if s.ObjectSchema? && key in s.fields then
        match TransformSchema(MaybeReverse(ToRef(lens), rev), s.fields[key])
        case Err(e) => Err(e)
        case Ok(inner) => Ok(ObjectSchema(s.fields[key := inner]))
      else Err("invalid lens for schema")
    case LensMap(rev, lens) =>
      if s.ArraySchema? then
        match TransformSchema(MaybeReverse(ToRef(lens), rev), s.item)
        case Err(e) => Err(e)
        case Ok(inner) => Ok(ArraySchema(s.mayBeEmpty, inner))
      else Err("invalid lens for schema")
    case Convert(rev, from, to, pairs) =>
      if !PairsOfKinds(pairs, from, to) then Err("invalid map")
      else
        var (src, dst) := if rev then (to, from) else (from, to);
        if s != PrimSchema(src) then Err("kind doesn't match schema")
        else Ok(PrimSchema(dst))
  }

  /** `Make` applies only to the empty schema and builds a non-empty one;
      `Destroy` applies only to a non-empty schema and leaves the empty one. */
  lemma MakeDestroyShape(l: LensRef, s: Schema)
    requires l.Make? || l.Destroy?
    ensures var r := TransformSchema(l, s);
      r.Ok? ==> (l.Make? ==> s == NullSchema && r.value != NullSchema) && (l.Destroy? ==> s != NullSchema && r.value == NullSchema)
  {
  }

  /** Every lens is undone by its reverse: when the lens applies, its
      reverse applies to the result and restores the schema exactly. */
  lemma {:induction false} Reversible(l: LensRef, s: Schema)
    requires TransformSchema(l, s).Ok?
    ensures TransformSchema(Reverse(l), TransformSchema(l, s).value) == Ok(s)
    decreases s
  {
    var t := TransformSchema(l, s).value;
    match l
    case Make(k) =>
    case Destroy(k) =>
    case AddProperty(key) =>
      assert t.fields - {key} == s.fields;
    case RemoveProperty(key) =>
      assert t.fields[key := NullSchema] == s.fields;
    case RenameProperty(from, to) =>
      assert (t.fields - {to})[from := t.fields[to]] == s.fields;
    case HoistProperty(host, target) =>
      MoveReversible(l, s);
    case PlungeProperty(host, target) =>
      MoveReversible(l, s);
    case Wrap =>
    case Head =>
    case LensIn(rev, key, lens) =>
      ReverseInvolutive(ToRef(lens), rev);
      Reversible(MaybeReverse(ToRef(lens), rev), s.fields[key]);
      assert t.fields[key := s.fields[key]] == s.fields;
    case LensMap(rev, lens) =>
      ReverseInvolutive(ToRef(lens), rev);
      Reversible(MaybeReverse(ToRef(lens), rev), s.item);
    case Convert(rev, from, to, pairs) =>
  }

  /** The case of `Reversible` for hoisting and plunging a property. */
  lemma MoveReversible(l: LensRef, s: Schema)
    requires l.HoistProperty? || l.PlungeProperty?
    requires TransformSchema(l, s).Ok?
    ensures TransformSchema(Reverse(l), TransformSchema(l, s).value) == Ok(s)
  {
    var t := TransformSchema(l, s).value;
    var host, target := l.host, l.target;
    if l.HoistProperty? {
      var inner := s.fields[host].fields;
      assert host != target && t.fields[target] == inner[target];
      var rest := t.fields - {target};
      assert rest == s.fields[host := ObjectSchema(inner - {target})];
      assert rest[host] == ObjectSchema(inner - {target});
      assert (inner - {target})[target := inner[target]] == inner;
      assert rest[host := ObjectSchema(inner)] == s.fields;
      assert TransformSchema(Reverse(l), t) ==
        Ok(ObjectSchema(rest[host := ObjectSchema(rest[host].fields[target := t.fields[target]])]));
    } else {
      var rest := s.fields - {target};
      assert t.fields[host].fields - {target} == rest[host].fields;
      assert t.fields[host := ObjectSchema(rest[host].fields)] == rest;
      assert rest[target := s.fields[target]] == s.fields;
    }
  }

  /** When `Make`, `Wrap`, `Head` and `Convert` apply: `Make` needs a
      `Null` schema and a non-null kind; `Wrap` always applies; `Head` needs
      an array that may not be empty; a conversion needs pairs of its two
      kinds and a schema of its source kind. */
  lemma Failures(s: Schema, k: Kind, rev: bool, from: PrimitiveKind, to: PrimitiveKind,
                 pairs: seq<(PrimitiveValue, PrimitiveValue)>)
    ensures TransformSchema(LensRef.Make(k), s).Ok? <==> s == NullSchema && !k.NullKind?
    ensures TransformSchema(LensRef.Wrap, s) == Ok(ArraySchema(false, s))
    ensures TransformSchema(LensRef.Head, s).Ok? <==> s.ArraySchema? && !s.mayBeEmpty
    ensures TransformSchema(LensRef.Convert(rev, from, to, pairs), s).Ok? <==>
      PairsOfKinds(pairs, from, to) && s == PrimSchema(if rev then to else from)
    ensures TransformSchema(LensRef.Convert(rev, from, to, pairs), s).Ok? ==>
      TransformSchema(LensRef.Convert(rev, from, to, pairs), s).value == PrimSchema(if rev then from else to)
  {
  }

  // ---------------------------------------------------------------------
  // Values
  // ---------------------------------------------------------------------

  /** Two readings of `transform_value`. `AsWritten` is the code of
      lens.rs:406-419: a conversion looks its primitive up among the pairs,
      then overwrites whatever it found with the default primitive of the
      source kind (`from`, or `to` when reversed). `Intended` keeps the
      pair's other side when the lookup succeeds (the first side when
      reversed) and otherwise writes the default of the target kind. */
  datatype Mode = AsWritten | Intended

  /** The first pair whose `key` side (the first side, or the second when
      `rev`) is `p`, read from the other side. */
  function Lookup(pairs: seq<(PrimitiveValue, PrimitiveValue)>, p: PrimitiveValue, rev: bool): (r: Option<PrimitiveValue>)
    ensures r.Some? ==> exists i | 0 <= i < |pairs| :: r.value == (if rev then pairs[i].0 else pairs[i].1)
    ensures r.None? ==> forall i | 0 <= i < |pairs| :: (if rev then pairs[i].1 else pairs[i].0) != p
  {
    if pairs == [] then None
    else if (if rev then pairs[0].1 else pairs[0].0) == p then Some(if rev then pairs[0].0 else pairs[0].1)
    else
      var r := Lookup(pairs[1..], p, rev);
      assert forall i | 1 <= i < |pairs| :: pairs[i] == pairs[1..][i - 1];
      r
  }

  /** The primitive a conversion leaves, in each reading. */
  function Converted(mode: Mode, rev: bool, from: PrimitiveKind, to: PrimitiveKind,
                     pairs: seq<(PrimitiveValue, PrimitiveValue)>, p: PrimitiveValue): PrimitiveValue
  {
    match mode
    case AsWritten => DefaultPrim(if rev then to else from)
    case Intended =>
      match Lookup(pairs, p, rev)
      case Some(q) => q
      case None => DefaultPrim(if rev then from else to)
  }

  /** The value created by `Make`. */
  function MakeValue(k: Kind): Value {
    match k
    case NullKind => Null
    case PrimKind(p) => Prim(DefaultPrim(p))
    case ArrayKind => Array([])
    case ObjectKind => Object(map[])
  }

  /** `transform_value`: the value after the lens. A lens that does not fit
      the value leaves it alone. */
  function ValueAfter(mode: Mode, l: LensRef, v: Value): Value
    decreases v
  {
    match (l, v)
    case (Make(k), _) => MakeValue(k)
    case (Destroy(_), _) => Null
    case (AddProperty(key), Object(m)) => Object(m[key := Null])
    case (RemoveProperty(key), Object(m)) => Object(m - {key})
    case (RenameProperty(from, to), Object(m)) =>
      if from in m then Object((m - {from})[to := m[from]]) else v
    case (HoistProperty(host, target), Object(m)) =>
      if host in m && m[host].Object? && target in m[host].props then
        var inner := m[host].props;
        Object(m[host := Object(inner - {target})][target := inner[target]])
      else v
    case (PlungeProperty(host, target), Object(m)) =>
      if target in m then
        var rest := m - {target};
        if host in rest && rest[host].Object? then
          Object(rest[host := Object(rest[host].props[target := m[target]])])
        else Object(rest[target := m[target]])
      else v
    case (Wrap, _) => Array([v])
    case (Head, Array(vs)) => if vs != [] then vs[0] else v
    case (LensIn(rev, key, lens), Object(m)) =>
      if key in m then Object(m[key := ValueAfter(mode, MaybeReverse(ToRef(lens), rev), m[key])]) else v
    case (LensMap(rev, lens), Array(vs)) =>
      Array(seq(|vs|, i requires 0 <= i < |vs| => ValueAfter(mode, MaybeReverse(ToRef(lens), rev), vs[i])))
    case (Convert(rev, from, to, pairs), Prim(p)) => Prim(Converted(mode, rev, from, to, pairs, p))
    case _ => v
  }

  /** `transform_value`, in place: the items of an array one by one, and
      the conversion pairs one by one until the primitive is found. */
  method TransformValue(mode: Mode, l: LensRef, v: Value) returns (r: Value)
    ensures r == ValueAfter(mode, l, v)
    decreases v
  {
    match (l, v)
    case (LensIn(rev, key, lens), Object(m)) =>
      if key in m {
        var inner := TransformValue(mode, MaybeReverse(ToRef(lens), rev), m[key]);
        r := Object(m[key := inner]);
      } else {
        r := v;
      }
    case (LensMap(rev, lens), Array(vs)) =>
      var nested := MaybeReverse(ToRef(lens), rev);
      var items := [];
      var i := 0;
      while i < |vs|
        invariant 0 <= i <= |vs|
        invariant |items| == i
        invariant forall j | 0 <= j < i :: items[j] == ValueAfter(mode, nested, vs[j])
      {
        var item := TransformValue(mode, nested, vs[i]);
        items := items + [item];
        i := i + 1;
      }
      r := Array(items);
    case (Convert(rev, from, to, pairs), Prim(p)) =>
      var found := ConvertLookup(pairs, p, rev);
      if mode.AsWritten? {
        r := Prim(DefaultPrim(if rev then to else from));
      } else if found.Some? {
        r := Prim(found.value);
      } else {
        r := Prim(DefaultPrim(if rev then from else to));
      }
    case _ =>
      r := ValueAfter(mode, l, v);
  }

  /** The lookup loop of a conversion: the pairs in order, stopping at the
      first whose key side is the primitive. */
  method ConvertLookup(pairs: seq<(PrimitiveValue, PrimitiveValue)>, p: PrimitiveValue, rev: bool)
    returns (found: Option<PrimitiveValue>)
    ensures found == Lookup(pairs, p, rev)
  {
    var i := 0;
    while i < |pairs|
      invariant 0 <= i <= |pairs|
      invariant Lookup(pairs, p, rev) == Lookup(pairs[i..], p, rev)
    {
      assert pairs[i..][1..] == pairs[i + 1..];
      if (if rev then pairs[i].1 else pairs[i].0) == p {
        return Some(if rev then pairs[i].0 else pairs[i].1);
      }
      i := i + 1;
    }
    return None;
  }

  /** The intended conversion leaves a primitive of the target kind. */
  lemma ConvertedKind(rev: bool, from: PrimitiveKind, to: PrimitiveKind,
                      pairs: seq<(PrimitiveValue, PrimitiveValue)>, p: PrimitiveValue)
    requires PairsOfKinds(pairs, from, to)
    ensures KindOf(Converted(Intended, rev, from, to, pairs, p)) == (if rev then from else to)
  {
    match Lookup(pairs, p, rev)
    case Some(q) =>
      var i :| 0 <= i < |pairs| && q == (if rev then pairs[i].0 else pairs[i].1);
    case None =>
  }

  /** Applying a lens keeps values valid: a value valid for a schema is,
      after the intended `transform_value`, valid for the schema the lens
      makes of it. */
  lemma {:induction false} TransformPreservesValidity(l: LensRef, s: Schema, v: Value)
    requires Valid(s, v) && TransformSchema(l, s).Ok?
    ensures Valid(TransformSchema(l, s).value, ValueAfter(Intended, l, v))
    decreases v
  {
    var t := TransformSchema(l, s).value;
    var w := ValueAfter(Intended, l, v);
    match l
    case Make(k) =>
    case Destroy(k) =>
    case AddProperty(key) =>
      PropertyLensPreservesValidity(l, s, v);
    case RemoveProperty(key) =>
      PropertyLensPreservesValidity(l, s, v);
    case RenameProperty(from, to) =>
      PropertyLensPreservesValidity(l, s, v);
    case HoistProperty(host, target) =>
      MovePropertyPreservesValidity(l, s, v);
    case PlungeProperty(host, target) =>
      MovePropertyPreservesValidity(l, s, v);
    case Wrap =>
    case Head =>
    case LensIn(rev, key, lens) =>
      var nested := MaybeReverse(ToRef(lens), rev);
      TransformPreservesValidity(nested, s.fields[key], v.props[key]);
      assert w.props.Keys == t.fields.Keys;
    case LensMap(rev, lens) =>
      var nested := MaybeReverse(ToRef(lens), rev);
      forall i | 0 <= i < |v.items| ensures Valid(t.item, w.items[i]) {
        TransformPreservesValidity(nested, s.item, v.items[i]);
      }
    case Convert(rev, from, to, pairs) =>
      ConvertedKind(rev, from, to, pairs, v.p);
      PrimValid(t, w.p);
  }

  /** The case of `TransformPreservesValidity` for adding, removing and
      renaming a property. */
  lemma PropertyLensPreservesValidity(l: LensRef, s: Schema, v: Value)
    requires l.AddProperty? || l.RemoveProperty? || l.RenameProperty?
    requires Valid(s, v) && TransformSchema(l, s).Ok?
    ensures Valid(TransformSchema(l, s).value, ValueAfter(Intended, l, v))
  {
    var t := TransformSchema(l, s).value;
    var w := ValueAfter(Intended, l, v);
    assert w.props.Keys == t.fields.Keys;
  }

  /** The case of `TransformPreservesValidity` for hoisting and plunging a
      property. */
  lemma MovePropertyPreservesValidity(l: LensRef, s: Schema, v: Value)
    requires l.HoistProperty? || l.PlungeProperty?
    requires Valid(s, v) && TransformSchema(l, s).Ok?
    ensures Valid(TransformSchema(l, s).value, ValueAfter(Intended, l, v))
  {
    var t := TransformSchema(l, s).value;
    var w := ValueAfter(Intended, l, v);
    var host := l.host;
    assert w.props.Keys == t.fields.Keys;
    assert w.props[host].props.Keys == t.fields[host].fields.Keys;
    assert Valid(t.fields[host], w.props[host]);
  }

  /** As written, a conversion breaks validity: a boolean converted to a
      number becomes the boolean `false` while the schema says number, and
      a pair that maps `true` to `1` is ignored. The intended conversion
      gives `1`. */
  lemma ConvertAsWrittenBreaksValidity()
    ensures var l := LensRef.Convert(false, BooleanKind, NumberKind, [(Boolean(true), Number(1))]);
      Valid(BooleanSchema, Prim(Boolean(true))) &&
      TransformSchema(l, BooleanSchema) == Ok(NumberSchema) &&
      ValueAfter(AsWritten, l, Prim(Boolean(true))) == Prim(Boolean(false)) &&
      !Valid(NumberSchema, ValueAfter(AsWritten, l, Prim(Boolean(true)))) &&
      ValueAfter(Intended, l, Prim(Boolean(true))) == Prim(Number(1))
  {
  }

  /** `Head` undoes `Wrap`, on schemas and on values. */
  lemma HeadUndoesWrap(mode: Mode, s: Schema, v: Value)
    ensures TransformSchema(LensRef.Head, TransformSchema(LensRef.Wrap, s).value) == Ok(s)
    ensures ValueAfter(mode, LensRef.Head, ValueAfter(mode, LensRef.Wrap, v)) == v
  {
  }

  // ---------------------------------------------------------------------
  // The readings differ only on conversions
  // ---------------------------------------------------------------------

  /** A lens with no conversion anywhere inside it. */
  predicate ConvertFree(l: Lens) {
    match l
    case Convert(_, _, _) => false
    case LensIn(_, inner) => ConvertFree(inner)
    case LensMap(inner) => ConvertFree(inner)
    case _ => true
  }

  predicate RefConvertFree(l: LensRef) {
    match l
    case Convert(_, _, _, _) => false
    case LensIn(_, _, inner) => ConvertFree(inner)
    case LensMap(_, inner) => ConvertFree(inner)
    case _ => true
  }

  /** Reversing and stored-to-applied keep a lens free of conversions. */
  lemma ConvertFreeRef(l: Lens, rev: bool)
    requires ConvertFree(l)
    ensures RefConvertFree(MaybeReverse(ToRef(l), rev))
  {
  }

  /** Without conversions, the code as written does what is intended. */
  lemma {:induction false} ReadingsAgree(l: LensRef, v: Value)
    requires RefConvertFree(l)
    ensures ValueAfter(AsWritten, l, v) == ValueAfter(Intended, l, v)
    decreases v
  {
    match (l, v)
    case (LensIn(rev, key, lens), Object(m)) =>
      if key in m {
        ConvertFreeRef(lens, rev);
        ReadingsAgree(MaybeReverse(ToRef(lens), rev), m[key]);
      }
    case (LensMap(rev, lens), Array(vs)) =>
      ConvertFreeRef(lens, rev);
      forall i | 0 <= i < |vs|
        ensures ValueAfter(AsWritten, MaybeReverse(ToRef(lens), rev), vs[i]) ==
                ValueAfter(Intended, MaybeReverse(ToRef(lens), rev), vs[i])
      {
        ReadingsAgree(MaybeReverse(ToRef(lens), rev), vs[i]);
      }
      assert ValueAfter(AsWritten, l, v).items == ValueAfter(Intended, l, v).items;
    case _ =>
  }

  // ---------------------------------------------------------------------
  // Lens lists
  // ---------------------------------------------------------------------

  /** Every lens is undone by its reverse. */
  lemma AllReversible()
    ensures LL.Reversible(TransformSchema, Reverse)
  {
    forall l, s | TransformSchema(l, s).Ok?
      ensures TransformSchema(Reverse(l), TransformSchema(l, s).value) == Ok(s)
    {
      Reversible(l, s);
    }
  }

  /** `ArchivedLenses::to_schema`: the schema a lens list builds from
      `Null`, or the first failure. */
  method ToSchema(lenses: seq<Lens>) returns (r: Result<Schema>)
    ensures r == LL.ApplyAll(TransformSchema, LL.Refs(ToRef, lenses), NullSchema)
  {
    r := LL.ToSchema(ToRef, TransformSchema, lenses, NullSchema);
  }

  /** `ArchivedLenses::transform`: the lenses from lens list `a` to `b`. */
  method Transform(a: seq<Lens>, b: seq<Lens>) returns (c: seq<LensRef>)
    ensures c == LL.TransformOf(ToRef, Reverse, a, b)
  {
    c := LL.Transform(ToRef, Reverse, a, b);
  }

  /** A document whose schema was built by lens list `a` has the schema
      built by `b` after the lenses of `transform`. */
  lemma TransformReachesTarget(a: seq<Lens>, b: seq<Lens>)
    requires LL.ApplyAll(TransformSchema, LL.Refs(ToRef, a), NullSchema).Ok?
    requires LL.ApplyAll(TransformSchema, LL.Refs(ToRef, b), NullSchema).Ok?
    ensures LL.ApplyAll(TransformSchema, LL.TransformOf(ToRef, Reverse, a, b),
                        LL.ApplyAll(TransformSchema, LL.Refs(ToRef, a), NullSchema).value) ==
            LL.ApplyAll(TransformSchema, LL.Refs(ToRef, b), NullSchema)
  {
    AllReversible();
    LL.TransformReachesTarget(ToRef, Reverse, TransformSchema, a, b, NullSchema);
  }

  /** The values after a lens list, lens by lens. */
  function ValuesAfter(mode: Mode, refs: seq<LensRef>, v: Value): Value
    decreases |refs|
  {
    if refs == [] then v else ValuesAfter(mode, refs[1..], ValueAfter(mode, refs[0], v))
  }

  /** A lens list that applies to a schema keeps every valid value valid:
      after the lenses of `transform`, a document valid for lens list `a`
      is valid for lens list `b`. */
  lemma {:induction false} ListPreservesValidity(refs: seq<LensRef>, s: Schema, v: Value)
    requires Valid(s, v) && LL.ApplyAll(TransformSchema, refs, s).Ok?
    ensures Valid(LL.ApplyAll(TransformSchema, refs, s).value, ValuesAfter(Intended, refs, v))
    decreases |refs|
  {
    if refs != [] {
      TransformPreservesValidity(refs[0], s, v);
      ListPreservesValidity(refs[1..], TransformSchema(refs[0], s).value, ValueAfter(Intended, refs[0], v));
    }
  }
}
