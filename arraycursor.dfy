/** The array cursor of `crdt/src/cursor.rs`. Below an array at path `a`,
    an element with identifier `uid` at position `pos` (a `Fraction`) keeps
    its values under `a.VALUES.pos.uid.peer.nonce[.value]`, and its position
    records under `a.META.uid.last_update.last_move.pos.peer.nonce`. Where
    the source iterates over a scan, the model takes `order`, a listing of
    the scanned set in the order the store yields it; random nonces are
    parameters. */
module ArrayCursors {
  import opened Wrappers
  import Bytes
  import P = Paths
  import F = Fractions
  import S = Schemas
  import A = DocAcl
  import C = DocCursor

  /** `ARRAY_VALUES`, the bytes of "VALUES". */
  const ValuesName: seq<Bytes.byte> := [86, 65, 76, 85, 69, 83]

  /** `ARRAY_META`, the bytes of "META". */
  const MetaName: seq<Bytes.byte> := [77, 69, 84, 65]

  /** `ArrayValue`: what a value path says about its element. */
  datatype ArrayValue = ArrayValue(uid: nat, pos: F.Fraction, value: P.Segment)

  /** `ArrayMeta`: what a position record says about its element. */
  datatype ArrayMeta = ArrayMeta(lastUpdate: nat, lastMove: nat, uid: nat, pos: F.Fraction)

  // ---------------------------------------------------------------------
  // Layout parsers
  // ---------------------------------------------------------------------

  /** `ArrayValue::from_path`, on a path relative to the array: "VALUES", a
      position, a `u64` uid, two segments it skips (the peer and nonce), and
      the value. Later segments are ignored. */
  function ValueFromPath(rel: C.Key): (r: Result<ArrayValue>)
    ensures r.Ok? <==> |rel| >= 6 && rel[0] == P.Segment.Str(ValuesName) &&
                       rel[1].Position? && rel[2].U64?
    ensures r.Ok? ==> r.value == ArrayValue(rel[2].u, rel[1].position, rel[5])
    ensures r.Err? ==> r.msg == "Unexpected layout"
  {
    if |rel| == 0 || rel[0] != P.Segment.Str(ValuesName) then Err("Unexpected layout")
    else if |rel| < 2 || !rel[1].Position? then Err("Unexpected layout")
    else if |rel| < 3 || !rel[2].U64? then Err("Unexpected layout")
    else if |rel| < 6 then Err("Unexpected layout")
    else Ok(ArrayValue(rel[2].u, rel[1].position, rel[5]))
  }

  /** `ArrayMeta::from_path`, on a path relative to the array: "META", the
      uid, the last update, the last move and the position. Later segments
      are ignored. */
  function MetaFromPath(rel: C.Key): (r: Result<ArrayMeta>)
    ensures r.Ok? <==> |rel| >= 5 && rel[0] == P.Segment.Str(MetaName) &&
                       rel[1].U64? && rel[2].U64? && rel[3].U64? && rel[4].Position?
    ensures r.Ok? ==> r.value == ArrayMeta(rel[2].u, rel[3].u, rel[1].u, rel[4].position)
    ensures r.Err? ==> r.msg == "Unexpected layout"
  {
    if |rel| == 0 || rel[0] != P.Segment.Str(MetaName) then Err("Unexpected layout")
    else if |rel| < 2 || !rel[1].U64? then Err("Unexpected layout")
    else if |rel| < 3 || !rel[2].U64? then Err("Unexpected layout")
    else if |rel| < 4 || !rel[3].U64? then Err("Unexpected layout")
    else if |rel| < 5 || !rel[4].Position? then Err("Unexpected layout")
    else Ok(ArrayMeta(rel[2].u, rel[3].u, rel[1].u, rel[4].position))
  }

  /** The position and uid of the element a value path belongs to: the
      part of `from_path` that locating an element needs. */
  function Locate(rel: C.Key): (r: Result<(F.Fraction, nat)>)
    ensures r.Ok? <==> |rel| >= 3 && rel[0] == P.Segment.Str(ValuesName) &&
                       rel[1].Position? && rel[2].U64?
    ensures r.Ok? ==> r.value == (rel[1].position, rel[2].u)
  {
    if |rel| >= 3 && rel[0] == P.Segment.Str(ValuesName) && rel[1].Position? && rel[2].U64?
    then Ok((rel[1].position, rel[2].u))
    else Err("Unexpected layout")
  }

  /** `Locate` accepts every path `from_path` accepts, and agrees with it
      on the element. */
  lemma LocateExtendsFromPath(rel: C.Key)
    ensures ValueFromPath(rel).Ok? ==>
      Locate(rel) == Ok((ValueFromPath(rel).value.pos, ValueFromPath(rel).value.uid))
  {
  }

  // ---------------------------------------------------------------------
  // The cursor and its paths
  // ---------------------------------------------------------------------

  /** `ArrayCursor`: the cursor it was made from (moved to the element
      schema), the path of the array, and the element's position and uid. */
  datatype ArrayCursor = ArrayCursor(cursor: C.Cursor, arrayPath: C.Key, pos: F.Fraction, uid: nat)

  predicate Wf(a: ArrayCursor) {
    C.Wf(a.cursor) && P.AllWf(a.arrayPath) && A.RootOf(a.arrayPath).Some? &&
    P.WfSegment(P.Segment.Position(a.pos)) && P.WfSegment(P.Segment.U64(a.uid))
  }

  /** `value_path` followed by a position and the uid. */
  function ValuePathAt(a: ArrayCursor, pos: F.Fraction): C.Key {
    a.arrayPath + [P.Segment.Str(ValuesName), P.Segment.Position(pos), P.Segment.U64(a.uid)]
  }

  /** `value`: where the element's values live. */
  function ValuePath(a: ArrayCursor): C.Key {
    ValuePathAt(a, a.pos)
  }

  /** `meta`: where the element's position records live. */
  function MetaPath(a: ArrayCursor): C.Key {
    a.arrayPath + [P.Segment.Str(MetaName), P.Segment.U64(a.uid)]
  }

  /** `value_path` followed by the position only, as `move` scans it. */
  function OldValuePath(a: ArrayCursor): C.Key {
    a.arrayPath + [P.Segment.Str(ValuesName), P.Segment.Position(a.pos)]
  }

  /** The cursor every element read and write delegates to: the array
      cursor's cursor moved to `value`. */
  function Inner(a: ArrayCursor): (c: C.Cursor)
    requires Wf(a)
    ensures C.Wf(c) && c.path == ValuePath(a) && c.store == a.cursor.store
    ensures c.peer == a.cursor.peer && c.schema == a.cursor.schema
  {
    Bytes.Pow256Values();
    P.AllWfAppend(a.arrayPath, [P.Segment.Str(ValuesName), P.Segment.Position(a.pos), P.Segment.U64(a.uid)]);
    a.cursor.(path := ValuePath(a))
  }

  /** The cursor at `meta`, for scanning the position records. */
  function MetaCursor(a: ArrayCursor): C.Cursor {
    a.cursor.(path := MetaPath(a))
  }

  /** A path at `prefix + rest` seen from the array. */
  lemma Relative(a: ArrayCursor, rest: C.Key, k: C.Key)
    requires k == a.arrayPath + rest
    ensures a.arrayPath <= k && k[|a.arrayPath|..] == rest
  {
  }

  /** Every path written below `value` locates the element again. */
  lemma LocateReadsElement(a: ArrayCursor, tail: C.Key)
    ensures a.arrayPath <= ValuePath(a) + tail
    ensures Locate((ValuePath(a) + tail)[|a.arrayPath|..]) == Ok((a.pos, a.uid))
  {
    var rest := [P.Segment.Str(ValuesName), P.Segment.Position(a.pos), P.Segment.U64(a.uid)] + tail;
    assert ValuePath(a) + tail == a.arrayPath + rest;
    Relative(a, rest, ValuePath(a) + tail);
  }

  /** A position record of the element. */
  function MetaRecord(a: ArrayCursor, lastUpdate: nat, lastMove: nat, pos: F.Fraction, nonce: nat): (k: C.Key)
    ensures a.arrayPath <= k && MetaPath(a) <= k
    ensures MetaFromPath(k[|a.arrayPath|..]) == Ok(ArrayMeta(lastUpdate, lastMove, a.uid, pos))
  {
    var rest := [P.Segment.Str(MetaName), P.Segment.U64(a.uid), P.Segment.U64(lastUpdate),
                 P.Segment.U64(lastMove), P.Segment.Position(pos), P.Segment.Peer(a.cursor.peer),
                 P.Segment.Nonce(nonce)];
    var k := MetaPath(a) + rest[2..];
    assert k == a.arrayPath + rest;
    Relative(a, rest, k);
    k
  }

  /** A value path of the element at `pos` holding `value`. */
  function ValueEntry(a: ArrayCursor, pos: F.Fraction, nonce: nat, value: P.Segment): (k: C.Key)
    ensures a.arrayPath <= k && ValuePathAt(a, pos) <= k
    ensures ValueFromPath(k[|a.arrayPath|..]) == Ok(ArrayValue(a.uid, pos, value))
  {
    var rest := [P.Segment.Str(ValuesName), P.Segment.Position(pos), P.Segment.U64(a.uid),
                 P.Segment.Peer(a.cursor.peer), P.Segment.Nonce(nonce), value];
    var k := ValuePathAt(a, pos) + rest[3..];
    assert k == a.arrayPath + rest;
    Relative(a, rest, k);
    k
  }

  /** The element's paths are apart: no value path is a position record. */
  lemma ValuesApartFromMeta(a: ArrayCursor, k: C.Key)
    requires ValuePath(a) <= k
    ensures !(MetaPath(a) <= k)
  {
    assert k[|a.arrayPath|] == P.Segment.Str(ValuesName);
  }

  // ---------------------------------------------------------------------
  // Finding: flags in an array cannot be located by `from_path`
  // ---------------------------------------------------------------------

  /** As written, `new` locates an existing element with `from_path`, which
      demands a value segment after the nonce. An enabled flag element's
      path ends at the nonce, so indexing it fails, although the path
      names the element. */
  lemma FlagElementUnreadable(a: ArrayCursor, nonce: C.U64)
    requires Wf(a)
    ensures var e := C.Entry(Inner(a), [P.Segment.Nonce(nonce)]);
      a.arrayPath <= e && ValueFromPath(e[|a.arrayPath|..]).Err? &&
      Locate(e[|a.arrayPath|..]) == Ok((a.pos, a.uid))
  {
    var e := C.Entry(Inner(a), [P.Segment.Nonce(nonce)]);
    assert e == ValuePath(a) + [P.Segment.Peer(a.cursor.peer), P.Segment.Nonce(nonce)];
    LocateReadsElement(a, [P.Segment.Peer(a.cursor.peer), P.Segment.Nonce(nonce)]);
    assert |e[|a.arrayPath|..]| == 5;
  }

  // ---------------------------------------------------------------------
  // Positions: `new` and the first part of `move`
  // ---------------------------------------------------------------------

  /** `order` lists the set `s`, each path once. */
  ghost predicate Lists(order: seq<C.Key>, s: set<C.Key>) {
    (forall i, j | 0 <= i < j < |order| :: order[i] != order[j]) &&
    (forall k :: k in s <==> k in order)
  }

  /** The value paths of the array at `base` in the store of `c`. */
  function ValuesBelow(c: C.Cursor, base: C.Key): set<C.Key> {
    C.Scan(c.(path := base + [P.Segment.Str(ValuesName)]))
  }

  /** Every listed value path extends the array's path. */
  lemma ListedBelow(order: seq<C.Key>, c: C.Cursor, base: C.Key)
    requires Lists(order, ValuesBelow(c, base))
    ensures forall i | 0 <= i < |order| :: base <= order[i]
  {
    forall i | 0 <= i < |order| ensures base <= order[i] {
      assert order[i] in ValuesBelow(c, base);
      assert base == (base + [P.Segment.Str(ValuesName)])[..|base|];
    }
  }

  /** The element of the `i`th listed value path. */
  function Located(order: seq<C.Key>, i: nat, base: C.Key): Result<(F.Fraction, nat)>
    requires i < |order| && base <= order[i]
  {
    Locate(order[i][|base|..])
  }

  /** The position left of index `t`: that of entry `t - 1`, or zero. */
  function LeftOf(order: seq<C.Key>, t: nat, base: C.Key): Result<F.Fraction>
    requires t <= |order| && forall i | 0 <= i < |order| :: base <= order[i]
  {
    if t == 0 then Ok(F.Zero())
    else
      match Located(order, t - 1, base)
      case Err(e) => Err(e)
      case Ok(v) => Ok(v.0)
  }

  /** `ix.min(len)`. */
  function Clamp(ix: nat, len: nat): (t: nat)
    ensures t <= len && (ix <= len ==> t == ix)
  {
    if ix < len then ix else len
  }

  /** `index` and `ArrayCursor::new`: on an array, index `ix` (capped at the
      number of value paths) names the element of that value path; past the
      end, a new element with uid `nonce` goes after the last one. */
  method Index(c: C.Cursor, ix: nat, order: seq<C.Key>, nonce: C.U64) returns (r: Result<ArrayCursor>)
    requires Lists(order, ValuesBelow(c, c.path))
    ensures !c.schema.Array? <==> r == Err("not an Array<_>")
    ensures r.Ok? ==> r.value.cursor == c.(schema := c.schema.elem) && r.value.arrayPath == c.path
    ensures c.schema.Array? && ix < |order| ==>
      (forall i | 0 <= i < |order| :: c.path <= order[i]) &&
      (r.Ok? <==> Located(order, ix, c.path).Ok?) &&
      (r.Ok? ==> (r.value.pos, r.value.uid) == Located(order, ix, c.path).value)
    ensures c.schema.Array? && ix >= |order| ==>
      (forall i | 0 <= i < |order| :: c.path <= order[i]) &&
      (r.Ok? <==> LeftOf(order, |order|, c.path).Ok?) &&
      (r.Ok? ==> r.value.uid == nonce && F.Canonical(r.value.pos) &&
                 (F.Canonical(LeftOf(order, |order|, c.path).value) ==>
                    F.Less(LeftOf(order, |order|, c.path).value, r.value.pos)))
  {
    if !c.schema.Array? {
      return Err("not an Array<_>");
    }
    ListedBelow(order, c, c.path);
    var cur := c.(schema := c.schema.elem);
    var i := Clamp(ix, |order|);
    if i < |order| {
      var data := Locate(order[i][|c.path|..]);
      if data.Err? {
        return Err("Reading array data");
      }
      return Ok(ArrayCursor(cur, c.path, data.value.0, data.value.1));
    }
    var left := F.Zero();
    if i > 0 {
      var prev := Locate(order[i - 1][|c.path|..]);
      if prev.Err? {
        return Err(prev.msg);
      }
      left := prev.value.0;
    }
    var pos := F.Succ(left);
    return Ok(ArrayCursor(cur, c.path, pos, nonce));
  }

  /** The position `move` gives an element moved to index `to` (capped at
      the number of value paths): between the positions at `to - 1` (or
      zero) and `to`, or after the first when there is no entry at `to`. */
  method MovePosition(a: ArrayCursor, to: nat, order: seq<C.Key>) returns (r: Result<F.Fraction>)
    requires Lists(order, ValuesBelow(a.cursor, a.arrayPath))
    ensures forall i | 0 <= i < |order| :: a.arrayPath <= order[i]
    ensures var t := Clamp(to, |order|);
      r.Ok? <==> LeftOf(order, t, a.arrayPath).Ok? && (t < |order| ==> Located(order, t, a.arrayPath).Ok?)
    ensures r.Ok? ==> F.Canonical(r.value)
    ensures var t := Clamp(to, |order|);
      r.Ok? && t < |order| ==>
        var left := LeftOf(order, t, a.arrayPath).value;
        var right := Located(order, t, a.arrayPath).value.0;
        F.Canonical(left) && F.Canonical(right) && F.Less(left, right) ==>
          F.Less(left, r.value) && F.Less(r.value, right)
    ensures var t := Clamp(to, |order|);
      r.Ok? && t == |order| && F.Canonical(LeftOf(order, t, a.arrayPath).value) ==>
        F.Less(LeftOf(order, t, a.arrayPath).value, r.value)
  {
    ListedBelow(order, a.cursor, a.arrayPath);
    var t := Clamp(to, |order|);
    var left := F.Zero();
    if t > 0 {
      var l := Locate(order[t - 1][|a.arrayPath|..]);
      if l.Err? {
        return Err(l.msg);
      }
      left := l.value.0;
    }
    if t < |order| {
      var right := Locate(order[t][|a.arrayPath|..]);
      if right.Err? {
        return Err(right.msg);
      }
      var m := F.Mid(left, right.value.0);
      return Ok(m);
    }
    var s := F.Succ(left);
    return Ok(s);
  }

  // ---------------------------------------------------------------------
  // Committing the position: `insert`, `update`, `augment_causal`
  // ---------------------------------------------------------------------

  /** The three nonces a position record draws: the last update, the last
      move, and the record's own nonce. */
  datatype Stamp = Stamp(lastUpdate: C.U64, lastMove: C.U64, nonce: C.U64)

  /** The position record `insert` and `update` commit. */
  function Record(a: ArrayCursor, s: Stamp): C.Key {
    MetaRecord(a, s.lastUpdate, s.lastMove, a.pos, s.nonce)
  }

  /** `insert`: adds a record of the element's position to the delta. */
  function Insert(a: ArrayCursor, inner: C.Causal, s: Stamp): C.Causal {
    inner.(store := inner.store + {Record(a, s)})
  }

  /** `update`: expires the element's value paths and position records,
      and adds a record of its current position. */
  function Update(a: ArrayCursor, inner: C.Causal, s: Stamp): C.Causal
    requires Wf(a)
  {
    C.Causal(inner.store + {Record(a, s)},
             inner.expired + C.Scan(Inner(a)) + C.Scan(MetaCursor(a)))
  }

  /** `update`, by its two loops over the scans. */
  method UpdateLoops(a: ArrayCursor, inner: C.Causal, s: Stamp) returns (r: C.Causal)
    requires Wf(a)
    ensures r == Update(a, inner, s)
  {
    var values := C.ScanWhere(Inner(a), C.AnyPath);
    var metas := C.ScanWhere(MetaCursor(a), C.AnyPath);
    assert values == C.Scan(Inner(a));
    assert metas == C.Scan(MetaCursor(a));
    r := C.Causal(inner.store + {Record(a, s)}, inner.expired + values + metas);
  }

  /** `augment_causal`: an update when the element already has a value
      path, an insert otherwise. */
  function Augment(a: ArrayCursor, inner: C.Causal, s: Stamp): C.Causal
    requires Wf(a)
  {
    if C.Scan(Inner(a)) != {} then Update(a, inner, s) else Insert(a, inner, s)
  }

  /** The array cursor after a delta is applied to its store. */
  function Applied(a: ArrayCursor, d: C.Causal): (b: ArrayCursor)
    ensures Wf(a) ==> Wf(b)
  {
    a.(cursor := a.cursor.(store := C.Apply(a.cursor.store, d)))
  }

  /** The delta an element write makes below `value`. */
  predicate BelowValue(a: ArrayCursor, inner: C.Causal) {
    forall k | k in inner.store :: ValuePath(a) <= k
  }

  /** After `augment_causal`, the new record is in force and reads back the
      element and its position; the inner delta is kept whole; when the
      element existed, its older records and value paths are gone, so its
      only record is the new one and its values are the inner delta's. */
  lemma AugmentCommits(a: ArrayCursor, inner: C.Causal, s: Stamp)
    requires Wf(a) && BelowValue(a, inner)
    requires Record(a, s) !in a.cursor.store && Record(a, s) !in inner.expired
    ensures var d := Augment(a, inner, s);
      inner.store <= d.store && inner.expired <= d.expired &&
      Record(a, s) in C.Scan(MetaCursor(Applied(a, d))) &&
      MetaFromPath(Record(a, s)[|a.arrayPath|..]) == Ok(ArrayMeta(s.lastUpdate, s.lastMove, a.uid, a.pos))
    ensures C.Scan(Inner(a)) != {} ==>
      var b := Applied(a, Augment(a, inner, s));
      C.Scan(MetaCursor(b)) == {Record(a, s)} && C.Scan(Inner(b)) <= inner.store
    ensures C.Scan(Inner(a)) == {} ==>
      var b := Applied(a, Augment(a, inner, s));
      C.Scan(MetaCursor(a)) - inner.expired <= C.Scan(MetaCursor(b))
  {
    var d := Augment(a, inner, s);
    var b := Applied(a, d);
    var rec := Record(a, s);
    assert rec in C.Apply(a.cursor.store, d);
    if C.Scan(Inner(a)) != {} {
      forall k | k in C.Scan(MetaCursor(b)) ensures k == rec {
        if k in inner.store {
          ValuesApartFromMeta(a, k);
        }
      }
    }
  }

  // ---------------------------------------------------------------------
  // Element writes
  // ---------------------------------------------------------------------

  /** The writes an element delegates to the cursor at `value`. */
  datatype Op =
    | Enable(nonce: C.U64)
    | Disable
    | Remove
    | Say(policy: A.Policy, archived: seq<Bytes.byte>, sig: seq<Bytes.byte>)

  /** The inner cursor's delta for an element write. */
  function InnerDelta(a: ArrayCursor, op: Op): (r: Result<C.Causal>)
    requires Wf(a)
  {
    match op
    case Enable(n) => C.EnableDelta(Inner(a), n)
    case Disable => C.DisableDelta(Inner(a))
    case Remove => C.RemoveDelta(Inner(a))
    case Say(p, bs, sig) => C.SaySigned(Inner(a), p, bs, sig)
  }

  /** `enable`, `disable`, `remove`, `say` (and so `say_can`, `say_can_if`,
      `revoke`): the inner cursor's delta, with the position committed. */
  function Mutate(a: ArrayCursor, op: Op, s: Stamp): (r: Result<C.Causal>)
    requires Wf(a)
    ensures r.Ok? <==> InnerDelta(a, op).Ok?
    ensures r.Err? ==> r.msg == InnerDelta(a, op).msg
    ensures r.Ok? ==>
      Record(a, s) in r.value.store &&
      InnerDelta(a, op).value.store <= r.value.store &&
      InnerDelta(a, op).value.expired <= r.value.expired
  {
    match InnerDelta(a, op)
    case Err(e) => Err(e)
    case Ok(inner) => Ok(Augment(a, inner, s))
  }

  /** Every inner delta writes below `value` only. */
  lemma InnerBelowValue(a: ArrayCursor, op: Op)
    requires Wf(a) && InnerDelta(a, op).Ok?
    ensures BelowValue(a, InnerDelta(a, op).value)
  {
    var c := Inner(a);
    forall k | k in InnerDelta(a, op).value.store ensures ValuePath(a) <= k {
      match op
      case Enable(n) =>
        assert k == C.Entry(c, [P.Segment.Nonce(n)]);
      case Say(p, bs, sig) =>
        assert k == C.Statement(c, bs, sig);
    }
  }

  /** An element write through the array cursor takes effect at `value`
      and commits the element's position. */
  lemma MutateCommits(a: ArrayCursor, op: Op, s: Stamp)
    requires Wf(a) && Mutate(a, op, s).Ok?
    requires Record(a, s) !in a.cursor.store && Record(a, s) !in InnerDelta(a, op).value.expired
    ensures var b := Applied(a, Mutate(a, op, s).value);
      Record(a, s) in C.Scan(MetaCursor(b)) &&
      (C.Scan(Inner(a)) != {} ==> C.Scan(MetaCursor(b)) == {Record(a, s)})
  {
    InnerBelowValue(a, op);
    AugmentCommits(a, InnerDelta(a, op).value, s);
  }

  /** `enable` on an element with a fresh nonce: the flag reads enabled
      afterwards. */
  lemma EnableElement(a: ArrayCursor, nonce: C.U64, s: Stamp)
    requires Wf(a) && Mutate(a, Enable(nonce), s).Ok?
    requires C.Entry(Inner(a), [P.Segment.Nonce(nonce)]) !in a.cursor.store
    ensures C.Enabled(Inner(Applied(a, Mutate(a, Enable(nonce), s).value))) == Ok(true)
  {
    var c := Inner(a);
    var e := C.Entry(c, [P.Segment.Nonce(nonce)]);
    var d := Mutate(a, Enable(nonce), s).value;
    var b := Applied(a, d);
    assert e in d.store;
    assert e == ValuePath(a) + [P.Segment.Peer(a.cursor.peer), P.Segment.Nonce(nonce)];
    ValuesApartFromMeta(a, e);
    assert e in C.Scan(Inner(b)) && C.NonceEnded(e);
  }

  /** `assign_*` on an element: the inner cursor's assignment, without a
      position record. */
  function Assign(a: ArrayCursor, v: P.Segment, nonce: C.U64): (r: Result<C.Causal>)
    requires Wf(a) && C.IsPrimitive(v)
    ensures r.Ok? <==> C.Can(Inner(a), a.cursor.peer, A.Write) &&
                       a.cursor.schema.Reg? && S.KindValidates(a.cursor.schema.kind, v)
    ensures r.Ok? ==> forall k | k in r.value.store ::
      a.arrayPath <= k && ValueFromPath(k[|a.arrayPath|..]) == Ok(ArrayValue(a.uid, a.pos, v))
  {
    var k := ValueEntry(a, a.pos, nonce, v);
    assert C.Entry(Inner(a), [P.Segment.Nonce(nonce), v]) == k;
    C.AssignDelta(Inner(a), v, nonce)
  }

  /** `delete`: expires the element's value paths and position records. */
  function Delete(a: ArrayCursor): (d: C.Causal)
    requires Wf(a)
  {
    C.Causal({}, C.Scan(Inner(a)) + C.Scan(MetaCursor(a)))
  }

  /** `delete`, by its loop over the two chained scans. */
  method DeleteLoop(a: ArrayCursor) returns (d: C.Causal)
    requires Wf(a)
    ensures d == Delete(a)
  {
    var values := C.ScanWhere(Inner(a), C.AnyPath);
    var metas := C.ScanWhere(MetaCursor(a), C.AnyPath);
    assert values == C.Scan(Inner(a));
    assert metas == C.Scan(MetaCursor(a));
    d := C.Causal({}, values + metas);
  }

  /** After `delete` the element has neither values nor position records,
      and nothing outside it changes. */
  lemma DeleteTakesEffect(a: ArrayCursor)
    requires Wf(a)
    ensures var b := Applied(a, Delete(a));
      C.Scan(Inner(b)) == {} && C.Scan(MetaCursor(b)) == {} &&
      forall k | k in a.cursor.store && !(ValuePath(a) <= k) && !(MetaPath(a) <= k) ::
        k in b.cursor.store
  {
  }

  // ---------------------------------------------------------------------
  // `move`
  // ---------------------------------------------------------------------

  /** Every path of the element's records or values names the element at
      position `pos`. */
  predicate AtPosition(a: ArrayCursor, k: C.Key, pos: F.Fraction) {
    a.arrayPath <= k &&
    (Locate(k[|a.arrayPath|..]) == Ok((pos, a.uid)) ||
     (MetaFromPath(k[|a.arrayPath|..]).Ok? &&
      MetaFromPath(k[|a.arrayPath|..]).value.uid == a.uid &&
      MetaFromPath(k[|a.arrayPath|..]).value.pos == pos))
  }

  /** A position record rewritten by `move` as written: it keeps the old
      record's position. */
  function MovedRecordAsWritten(a: ArrayCursor, m: ArrayMeta, moveOp: C.U64, nonce: C.U64): (k: C.Key)
    ensures a.arrayPath <= k
    ensures MetaFromPath(k[|a.arrayPath|..]) == Ok(ArrayMeta(m.lastUpdate, moveOp, a.uid, m.pos))
  {
    MetaRecord(a, m.lastUpdate, moveOp, m.pos, nonce)
  }

  /** As written, the moved element's rewritten record still names its old
      position while its value path names the new one. */
  lemma MoveAsWrittenRecordsOldPosition(a: ArrayCursor, m: ArrayMeta, moveOp: C.U64, nonce: C.U64,
                                        newPos: F.Fraction)
    requires m.pos != newPos
    ensures !AtPosition(a, MovedRecordAsWritten(a, m, moveOp, nonce), newPos)
    ensures AtPosition(a, ValueEntry(a, newPos, nonce, P.Segment.Bool(true)), newPos)
  {
    var k := MovedRecordAsWritten(a, m, moveOp, nonce);
    assert k[|a.arrayPath|..][0] == P.Segment.Str(MetaName);
    assert ValuesName[0] != MetaName[0];
  }

  /** A position record rewritten by `move`, naming the new position as
      the ORArray `move` of `crdt/src/crdts.rs` does. */
  function MovedRecord(a: ArrayCursor, m: ArrayMeta, moveOp: C.U64, newPos: F.Fraction, nonce: C.U64): (k: C.Key)
    ensures AtPosition(a, k, newPos)
    ensures MetaFromPath(k[|a.arrayPath|..]) == Ok(ArrayMeta(m.lastUpdate, moveOp, a.uid, newPos))
  {
    MetaRecord(a, m.lastUpdate, moveOp, newPos, nonce)
  }

  /** Every listed record extends the array's path. */
  lemma ListedRecords(a: ArrayCursor, metas: seq<C.Key>)
    requires Lists(metas, C.Scan(MetaCursor(a)))
    ensures forall i | 0 <= i < |metas| :: a.arrayPath <= metas[i]
  {
    forall i | 0 <= i < |metas| ensures a.arrayPath <= metas[i] {
      assert metas[i] in C.Scan(MetaCursor(a));
      assert a.arrayPath == MetaPath(a)[..|a.arrayPath|];
    }
  }

  /** `move`: expires every position record of the element and the first
      value path at its old position, and writes the records again and the
      value at the new position. `order` lists the array's value paths,
      `metas` the element's records, `olds` the value paths at the old
      position; `nonces` are the records' fresh nonces. The source panics
      when there is no value path at the old position; the model answers
      an error. */
  method Move(a: ArrayCursor, to: nat, order: seq<C.Key>, metas: seq<C.Key>, olds: seq<C.Key>,
              moveOp: C.U64, nonces: seq<C.U64>, valueNonce: C.U64)
    returns (r: Result<C.Causal>, newPos: F.Fraction)
    requires Lists(order, ValuesBelow(a.cursor, a.arrayPath))
    requires Lists(metas, C.Scan(MetaCursor(a)))
    requires Lists(olds, C.Scan(a.cursor.(path := OldValuePath(a))))
    requires |nonces| == |metas|
    ensures r.Ok? ==> F.Canonical(newPos)
    ensures r.Ok? ==> |metas| > 0 && |olds| > 0
    ensures metas == [] ==> r.Err?
    ensures r.Ok? ==> r.value.expired == C.Scan(MetaCursor(a)) + {olds[0]}
    ensures r.Ok? ==> forall k | k in r.value.store :: AtPosition(a, k, newPos)
    ensures r.Ok? ==> forall i | 0 <= i < |metas| ::
      a.arrayPath <= metas[i] && MetaFromPath(metas[i][|a.arrayPath|..]).Ok? &&
      MovedRecord(a, MetaFromPath(metas[i][|a.arrayPath|..]).value, moveOp, newPos, nonces[i]) in r.value.store
    ensures r.Ok? ==>
      a.arrayPath <= olds[0] && ValueFromPath(olds[0][|a.arrayPath|..]).Ok? &&
      ValueEntry(a, newPos, valueNonce, ValueFromPath(olds[0][|a.arrayPath|..]).value.value) in r.value.store
  {
    var p := MovePosition(a, to, order);
    if p.Err? {
      return Err(p.msg), [];
    }
    newPos := p.value;
    if |metas| == 0 {
      return Err("Value does not exist!"), newPos;
    }
    ListedRecords(a, metas);
    var store: set<C.Key> := {};
    var expired: set<C.Key> := {};
    var i := 0;
    while i < |metas|
      invariant 0 <= i <= |metas|
      invariant expired == set j | 0 <= j < i :: metas[j]
      invariant forall k | k in store :: AtPosition(a, k, newPos)
      invariant forall j | 0 <= j < i ::
        MetaFromPath(metas[j][|a.arrayPath|..]).Ok? &&
        MovedRecord(a, MetaFromPath(metas[j][|a.arrayPath|..]).value, moveOp, newPos, nonces[j]) in store
    {
      expired := expired + {metas[i]};
      var meta := MetaFromPath(metas[i][|a.arrayPath|..]);
      if meta.Err? {
        return Err(meta.msg), newPos;
      }
      store := store + {MovedRecord(a, meta.value, moveOp, newPos, nonces[i])};
      i := i + 1;
    }
    assert expired == C.Scan(MetaCursor(a));
    if |olds| == 0 {
      return Err("non empty"), newPos;
    }
    assert olds[0] in C.Scan(a.cursor.(path := OldValuePath(a)));
    assert a.arrayPath == OldValuePath(a)[..|a.arrayPath|];
    expired := expired + {olds[0]};
    var v := ValueFromPath(olds[0][|a.arrayPath|..]);
    if v.Err? {
      return Err(v.msg), newPos;
    }
    var entry := ValueEntry(a, newPos, valueNonce, v.value.value);
    assert AtPosition(a, entry, newPos) by {
      LocateExtendsFromPath(entry[|a.arrayPath|..]);
    }
    store := store + {entry};
    return Ok(C.Causal(store, expired)), newPos;
  }
}
