/** The binary path encoding of `crdt/src/path.rs`: a path is a concatenation
    of segments, each written as its content bytes, then (for variable-length
    segments) a big-endian `u16` length, then a one-byte type tag. Paths are
    decoded from the end, which is why the tag comes last. */
module Paths {
  import opened Wrappers
  import opened Bytes

  datatype SegmentType =
    | Doc | Peer | Nonce | Bool | U64 | I64 | Str | Policy | Dot | Position | Sig

  /** The `repr(u8)` discriminant of a segment type. */
  function Tag(ty: SegmentType): byte {
    match ty
    case Doc => 0 case Peer => 1 case Nonce => 2 case Bool => 3
    case U64 => 4 case I64 => 5 case Str => 6 case Policy => 7
    case Dot => 8 case Position => 9 case Sig => 10
  }

  /** `SegmentType::new`: the type whose discriminant is `u`. The source
      panics on an unknown discriminant; the model answers `None`. */
  function TypeOfTag(u: byte): (r: Option<SegmentType>)
    ensures r.Some? <==> u < 11
    ensures r.Some? ==> Tag(r.value) == u
  {
    if u == 0 then Some(SegmentType.Doc) else if u == 1 then Some(SegmentType.Peer)
    else if u == 2 then Some(SegmentType.Nonce) else if u == 3 then Some(SegmentType.Bool)
    else if u == 4 then Some(SegmentType.U64) else if u == 5 then Some(SegmentType.I64)
    else if u == 6 then Some(SegmentType.Str) else if u == 7 then Some(SegmentType.Policy)
    else if u == 8 then Some(SegmentType.Dot) else if u == 9 then Some(SegmentType.Position)
    else if u == 10 then Some(SegmentType.Sig) else None
  }

  lemma TagRoundTrip(ty: SegmentType)
    ensures TypeOfTag(Tag(ty)) == Some(ty)
  {
  }

  /** Str, Position and Policy segments carry a length field. */
  predicate IsVariableLength(ty: SegmentType) {
    ty == SegmentType.Str || ty == SegmentType.Position || ty == SegmentType.Policy
  }

  /** `size_of` the content of a fixed-length segment: ids, path dots (a
      blake3 hash) are 32 bytes, integers 8, a bool 1, a signature 64. */
  function FixedSize(ty: SegmentType): nat
    requires !IsVariableLength(ty)
  {
    match ty
    case Doc => 32 case Peer => 32 case Nonce => 8 case Bool => 1
    case U64 => 8 case I64 => 8 case Dot => 32 case Sig => 64
  }

  /** A decoded element: its type, its total encoded length and its content. */
  datatype Element = Element(ty: SegmentType, len: nat, content: seq<byte>)

  /** The shape `last_element` guarantees: a fixed-size content and tag, or a
      content of at most `u16::MAX` bytes, its length field and tag. */
  predicate Shaped(e: Element) {
    if IsVariableLength(e.ty) then |e.content| <= U16Max && e.len == 3 + |e.content|
    else |e.content| == FixedSize(e.ty) && e.len == 1 + |e.content|
  }

  /** `SegmentType::last_element`: decodes the segment at the end of `data`.
      `None` for an empty buffer, a variable-length segment without room for
      its length field, or a buffer shorter than the decoded length. */
  function LastElement(data: seq<byte>): (r: Option<Element>)
    ensures r.Some? ==> 1 <= r.value.len <= |data| && Shaped(r.value)
    ensures r.Some? ==> data[|data| - 1] == Tag(r.value.ty)
    ensures r.Some? && !IsVariableLength(r.value.ty) ==>
      r.value.len == 1 + FixedSize(r.value.ty) &&
      r.value.content == data[|data| - r.value.len..|data| - 1]
    ensures r.Some? && IsVariableLength(r.value.ty) ==>
      3 <= r.value.len &&
      r.value.len == 3 + FromBe(data[|data| - 3..|data| - 1]) &&
      r.value.content == data[|data| - r.value.len..|data| - 3]
  {
    if |data| == 0 then None
    else match TypeOfTag(data[|data| - 1])
      case None => None
      case Some(ty) =>
        if IsVariableLength(ty) then
          if |data| < 3 then None
          else
            var len := 1 + 2 + FromBe(data[|data| - 3..|data| - 1]);
            if |data| < len then None
            else Some(Element(ty, len, data[|data| - len..|data| - 3]))
        else
          var len := 1 + FixedSize(ty);
          if |data| < len then None
          else Some(Element(ty, len, data[|data| - len..|data| - 1]))
  }

  /** `SegmentType::first_element` as a specification: strip whole elements
      off the end until one spans the rest of the buffer. */
  function FirstElementOf(data: seq<byte>): (r: Option<Element>)
    ensures r.Some? ==> 1 <= r.value.len <= |data| && Shaped(r.value)
    decreases |data|
  {
    match LastElement(data)
    case None => None
    case Some(e) =>
      if e.len == |data| then Some(e) else FirstElementOf(data[..|data| - e.len])
  }

  /** `SegmentType::first_element`, the loop of the source. */
  method FirstElement(data: seq<byte>) returns (r: Option<Element>)
    ensures r == FirstElementOf(data)
  {
    var rest := data;
    while true
      invariant FirstElementOf(rest) == FirstElementOf(data)
      decreases |rest|
    {
      var last := LastElement(rest);
      if last.None? {
        return None;
      }
      var e := last.value;
      if e.len == |rest| {
        return Some(e);
      }
      rest := rest[..|rest| - e.len];
    }
  }

  /** A segment of a path. Ids, hashes, signatures, strings, archived
      policies and fractions are kept as their bytes. */
  datatype Segment =
    | Doc(doc: seq<byte>)
    | Peer(peer: seq<byte>)
    | Nonce(nonce: nat)
    | Bool(b: bool)
    | U64(u: nat)
    | I64(i: int)
    | Str(s: seq<byte>)
    | Policy(policy: seq<byte>)
    | Dot(dot: seq<byte>)
    | Position(position: seq<byte>)
    | Sig(sig: seq<byte>)

  /** The Rust types bound every segment: fixed-width ids and integers, and at
      most `u16::MAX` bytes for a variable-length one. */
  predicate WfSegment(s: Segment) {
    match s
    case Doc(d) => |d| == 32
    case Peer(p) => |p| == 32
    case Nonce(n) => n < Pow256(8)
    case Bool(_) => true
    case U64(u) => u < Pow256(8)
    case I64(i) => -(Pow256(8) as int) / 2 <= i < Pow256(8) / 2
    case Str(b) => |b| <= U16Max
    case Policy(b) => |b| <= U16Max
    case Dot(h) => |h| == 32
    case Position(f) => |f| <= U16Max
    case Sig(g) => |g| == 64
  }

  function TypeOf(s: Segment): SegmentType {
    match s
    case Doc(_) => SegmentType.Doc case Peer(_) => SegmentType.Peer
    case Nonce(_) => SegmentType.Nonce case Bool(_) => SegmentType.Bool
    case U64(_) => SegmentType.U64 case I64(_) => SegmentType.I64
    case Str(_) => SegmentType.Str case Policy(_) => SegmentType.Policy
    case Dot(_) => SegmentType.Dot case Position(_) => SegmentType.Position
    case Sig(_) => SegmentType.Sig
  }

  /** The number of content bytes of a segment: the fixed size of its type,
      or at most `u16::MAX` for a variable-length one. */
  function ContentSize(s: Segment): (n: nat)
    requires WfSegment(s)
    ensures IsVariableLength(TypeOf(s)) ==> n <= U16Max
    ensures !IsVariableLength(TypeOf(s)) ==> n == FixedSize(TypeOf(s))
  {
    match s
    case Doc(_) => 32 case Peer(_) => 32 case Nonce(_) => 8 case Bool(_) => 1
    case U64(_) => 8 case I64(_) => 8 case Str(b) => |b| case Policy(b) => |b|
    case Dot(_) => 32 case Position(f) => |f| case Sig(_) => 64
  }

  /** The bytes each pusher hands to `push`: integers big-endian, a bool as a
      single 1 or 0. */
  function Content(s: Segment): (r: seq<byte>)
    requires WfSegment(s)
    ensures |r| == ContentSize(s)
  {
    match s
    case Doc(d) => d
    case Peer(p) => p
    case Nonce(n) => ToBe(n, 8)
    case Bool(b) => if b then [1] else [0]
    case U64(u) => ToBe(u, 8)
    case I64(i) => ToBe(Unsigned(i, 8), 8)
    case Str(b) => b
    case Policy(b) => b
    case Dot(h) => h
    case Position(f) => f
    case Sig(g) => g
  }

  /** `Segment::new`: rebuilds a segment from its type and content bytes. */
  function SegmentNew(ty: SegmentType, data: seq<byte>): (r: Segment)
    requires IsVariableLength(ty) || |data| == FixedSize(ty)
    ensures TypeOf(r) == ty
  {
    match ty
    case Doc => Segment.Doc(data)
    case Peer => Segment.Peer(data)
    case Nonce => Segment.Nonce(FromBe(data))
    case Bool => Segment.Bool(data[0] > 0)
    case U64 => Segment.U64(FromBe(data))
    case I64 => Segment.I64(Signed(FromBe(data), 8))
    case Str => Segment.Str(data)
    case Policy => Segment.Policy(data)
    case Dot => Segment.Dot(data)
    case Position => Segment.Position(data)
    case Sig => Segment.Sig(data)
  }

  /** Every segment decoded from an element satisfies the Rust type bounds. */
  lemma SegmentNewWf(e: Element)
    requires Shaped(e)
    ensures WfSegment(SegmentNew(e.ty, e.content))
  {
    Pow256Values();
  }

  /** Decoding the content of a segment gives the segment back. */
  lemma SegmentNewContent(s: Segment)
    requires WfSegment(s)
    ensures SegmentNew(TypeOf(s), Content(s)) == s
  {
    Pow256Values();
    match s
    case Nonce(n) => FromBeToBe(n, 8);
    case U64(u) => FromBeToBe(u, 8);
    case I64(i) => FromBeToBe(Unsigned(i, 8), 8);
    case _ =>
  }

  /** `PathBuf::push`: content, then the length for variable-length types,
      then the type tag last. */
  function Pushed(ty: SegmentType, bytes: seq<byte>): seq<byte>
    requires IsVariableLength(ty) ==> |bytes| <= U16Max
  {
    Pow256Values();
    bytes + (if IsVariableLength(ty) then ToBe(|bytes|, 2) else []) + [Tag(ty)]
  }

  /** The encoding of one segment. */
  function EncodeSegment(s: Segment): (r: seq<byte>)
    requires WfSegment(s)
    ensures |r| >= 1
  {
    Pushed(TypeOf(s), Content(s))
  }

  predicate AllWf(segs: seq<Segment>) {
    forall i | 0 <= i < |segs| :: WfSegment(segs[i])
  }

  /** The path built by pushing `segs` in order (`FromIterator<Segment>`). */
  function Encode(segs: seq<Segment>): seq<byte>
    requires AllWf(segs)
  {
    if segs == [] then [] else Encode(segs[..|segs| - 1]) + EncodeSegment(segs[|segs| - 1])
  }

  /** The element `last_element` finds at the end of an encoded segment. */
  function ElementOf(s: Segment): Element
    requires WfSegment(s)
  {
    Element(TypeOf(s), |EncodeSegment(s)|, Content(s))
  }

  /** Whatever precedes it, an encoded segment is decoded back from the end. */
  lemma LastOfPushed(prefix: seq<byte>, s: Segment)
    requires WfSegment(s)
    ensures LastElement(prefix + EncodeSegment(s)) == Some(ElementOf(s))
  {
    if IsVariableLength(TypeOf(s)) {
      LastOfVariable(prefix, TypeOf(s), Content(s));
    } else {
      LastOfFixed(prefix, TypeOf(s), Content(s));
    }
  }

  lemma LastOfVariable(prefix: seq<byte>, ty: SegmentType, c: seq<byte>)
    requires IsVariableLength(ty) && |c| <= U16Max
    ensures |Pushed(ty, c)| == 3 + |c|
    ensures LastElement(prefix + Pushed(ty, c)) == Some(Element(ty, 3 + |c|, c))
  {
    Pow256Values();
    var data := prefix + Pushed(ty, c);
    var m := |data|;
    assert data[m - 3..m - 1] == ToBe(|c|, 2);
    assert data[m - (3 + |c|)..m - 3] == c;
    LastOfVariableData(data, ty, c);
  }

  lemma LastOfVariableData(data: seq<byte>, ty: SegmentType, c: seq<byte>)
    requires IsVariableLength(ty) && |c| <= U16Max && |data| >= 3 + |c|
    requires data[|data| - 1] == Tag(ty)
    requires data[|data| - 3..|data| - 1] == ToBe(|c|, 2)
    requires data[|data| - (3 + |c|)..|data| - 3] == c
    ensures LastElement(data) == Some(Element(ty, 3 + |c|, c))
  {
    TagRoundTrip(ty);
    FromBeToBe(|c|, 2);
  }

  lemma LastOfFixed(prefix: seq<byte>, ty: SegmentType, c: seq<byte>)
    requires !IsVariableLength(ty) && |c| == FixedSize(ty)
    ensures |Pushed(ty, c)| == 1 + |c|
    ensures LastElement(prefix + Pushed(ty, c)) == Some(Element(ty, 1 + |c|, c))
  {
    TagRoundTrip(ty);
    var data := prefix + Pushed(ty, c);
    assert data[|data| - (1 + |c|)..|data| - 1] == c;
  }

  lemma AllWfAppend(a: seq<Segment>, b: seq<Segment>)
    requires AllWf(a) && AllWf(b)
    ensures AllWf(a + b)
  {
    forall i | 0 <= i < |a + b| ensures WfSegment((a + b)[i]) {
      if i >= |a| { assert (a + b)[i] == b[i - |a|]; }
    }
  }

  lemma {:induction false} EncodeAppend(a: seq<Segment>, b: seq<Segment>)
    requires AllWf(a) && AllWf(b)
    ensures AllWf(a + b) && Encode(a + b) == Encode(a) + Encode(b)
    decreases |b|
  {
    AllWfAppend(a, b);
    if b == [] {
      assert a + b == a;
    } else {
      AllWfAppend(a, b[..|b| - 1]);
      EncodeAppend(a, b[..|b| - 1]);
      EncodeAppendStep(a, b);
    }
  }

  /** The inductive step of `EncodeAppend`: pushing the last segment of `b`
      onto `a + b` without it. */
  lemma EncodeAppendStep(a: seq<Segment>, b: seq<Segment>)
    requires AllWf(a) && AllWf(b) && AllWf(a + b) && b != []
    requires AllWf(a + b[..|b| - 1])
    requires Encode(a + b[..|b| - 1]) == Encode(a) + Encode(b[..|b| - 1])
    ensures Encode(a + b) == Encode(a) + Encode(b)
  {
    var ab := a + b;
    assert ab[..|ab| - 1] == a + b[..|b| - 1];
    assert ab[|ab| - 1] == b[|b| - 1];
    EncodeLast(ab);
    EncodeLast(b);
    ConcatAssoc(Encode(a), Encode(b[..|b| - 1]), EncodeSegment(b[|b| - 1]));
  }

  lemma ConcatAssoc(x: seq<byte>, y: seq<byte>, z: seq<byte>)
    ensures (x + y) + z == x + (y + z)
  {
  }

  /** One unfolding of `Encode`: the last segment is pushed last. */
  lemma EncodeLast(segs: seq<Segment>)
    requires AllWf(segs) && segs != []
    ensures AllWf(segs[..|segs| - 1])
    ensures Encode(segs) == Encode(segs[..|segs| - 1]) + EncodeSegment(segs[|segs| - 1])
  {
  }

  lemma EncodeCons(s: Segment, rest: seq<Segment>)
    requires WfSegment(s) && AllWf(rest)
    ensures AllWf([s] + rest) && Encode([s] + rest) == EncodeSegment(s) + Encode(rest)
  {
    EncodeAppend([s], rest);
    EncodeSingle(s);
  }

  lemma EncodeSingle(s: Segment)
    requires WfSegment(s)
    ensures AllWf([s]) && Encode([s]) == EncodeSegment(s)
  {
    assert [s][..0] == [];
    EncodeLast([s]);
    ConcatAssoc([], [], EncodeSegment(s));
  }

  lemma {:induction false} EncodeEmptyIff(segs: seq<Segment>)
    requires AllWf(segs)
    ensures Encode(segs) == [] <==> segs == []
  {
  }

  // ---- Path accessors ----------------------------------------------------

  predicate IsEmpty(p: seq<byte>) {
    p == []
  }

  /** `is_ancestor`: `other` starts with the bytes of `p`. */
  predicate IsAncestor(p: seq<byte>, other: seq<byte>) {
    p <= other
  }

  /** A path built from a prefix of the segments is an ancestor. */
  lemma AncestorOfExtension(a: seq<Segment>, b: seq<Segment>)
    requires AllWf(a) && AllWf(b)
    ensures AllWf(a + b) && IsAncestor(Encode(a), Encode(a + b))
  {
    EncodeAppend(a, b);
  }

  /** `last`: the decoded last segment. */
  function Last(p: seq<byte>): (r: Option<Segment>)
    ensures r.Some? ==> LastElement(p).Some? && TypeOf(r.value) == LastElement(p).value.ty
  {
    match LastElement(p)
    case None => None
    case Some(e) => Some(SegmentNew(e.ty, e.content))
  }

  /** `parent`: the path without its last segment. */
  function Parent(p: seq<byte>): (r: Option<seq<byte>>)
    ensures r.Some? ==> r.value < p
    ensures r.None? <==> LastElement(p).None?
  {
    match LastElement(p)
    case None => None
    case Some(e) => Some(p[..|p| - e.len])
  }

  /** `first`: the decoded first segment. */
  function First(p: seq<byte>): (r: Option<Segment>)
    ensures r.Some? ==> FirstElementOf(p).Some? && TypeOf(r.value) == FirstElementOf(p).value.ty
  {
    match FirstElementOf(p)
    case None => None
    case Some(e) => Some(SegmentNew(e.ty, e.content))
  }

  /** `child`: the path without its first segment. */
  function Child(p: seq<byte>): (r: Option<seq<byte>>)
    ensures r.Some? ==> |r.value| < |p| && p[|p| - |r.value|..] == r.value
    ensures r.None? <==> FirstElementOf(p).None?
  {
    match FirstElementOf(p)
    case None => None
    case Some(e) => Some(p[e.len..])
  }

  /** `split_first`. */
  function SplitFirst(p: seq<byte>): (r: Option<(Segment, seq<byte>)>)
    ensures r.Some? <==> First(p).Some?
    ensures r.Some? ==> r.value.0 == First(p).value && Child(p) == Some(r.value.1)
  {
    match First(p)
    case None => None
    case Some(first) =>
      match Child(p)
      case None => None
      case Some(child) => Some((first, child))
  }

  /** `split_last`. */
  function SplitLast(p: seq<byte>): (r: Option<(seq<byte>, Segment)>)
    ensures r.Some? <==> Parent(p).Some?
    ensures r.Some? ==> r.value.1 == Last(p).value && Parent(p) == Some(r.value.0)
  {
    match Parent(p)
    case None => None
    case Some(parent) =>
      match Last(p)
      case None => None
      case Some(last) => Some((parent, last))
  }

  /** The segments a `PathIter` yields, in order. */
  function Segments(p: seq<byte>): seq<Segment>
    decreases |p|
  {
    match SplitFirst(p)
    case None => []
    case Some((s, rest)) => [s] + Segments(rest)
  }

  /** `dot`: the path identifier. The blake3 hash is modelled as an injective
      map from the path bytes. */
  datatype PathDot = PathDot(path: seq<byte>)

  function DotOf(p: seq<byte>): PathDot {
    PathDot(p)
  }

  lemma DotInjective(p: seq<byte>, q: seq<byte>)
    ensures DotOf(p) == DotOf(q) <==> p == q
  {
  }

  // ---- What decoding gives on encoded paths --------------------------------

  lemma ParentOfEncode(segs: seq<Segment>)
    requires AllWf(segs) && segs != []
    ensures Parent(Encode(segs)) == Some(Encode(segs[..|segs| - 1]))
    ensures Last(Encode(segs)) == Some(segs[|segs| - 1])
  {
    var s := segs[|segs| - 1];
    LastOfPushed(Encode(segs[..|segs| - 1]), s);
    SegmentNewContent(s);
  }

  lemma EmptyPath()
    ensures Parent([]) == None && Last([]) == None
    ensures First([]) == None && Child([]) == None && Segments([]) == []
  {
  }

  /** The first element of an encoded path is that of its first segment. */
  lemma {:induction false} FirstOfEncode(segs: seq<Segment>)
    requires AllWf(segs) && segs != []
    ensures FirstElementOf(Encode(segs)) == Some(ElementOf(segs[0]))
    decreases |segs|
  {
    var init := segs[..|segs| - 1];
    var data := Encode(segs);
    LastOfPushed(Encode(init), segs[|segs| - 1]);
    if init == [] {
      assert data == EncodeSegment(segs[0]);
    } else {
      EncodeEmptyIff(init);
      assert data[..|data| - |EncodeSegment(segs[|segs| - 1])|] == Encode(init);
      FirstOfEncode(init);
    }
  }

  lemma ChildOfEncode(segs: seq<Segment>)
    requires AllWf(segs) && segs != []
    ensures AllWf(segs[1..])
    ensures First(Encode(segs)) == Some(segs[0])
    ensures Child(Encode(segs)) == Some(Encode(segs[1..]))
  {
    var s, rest := segs[0], segs[1..];
    assert [s] + rest == segs;
    var p := Encode(segs);
    FirstOfEncode(segs);
    SegmentNewContent(s);
    EncodeCons(s, rest);
    assert p[|EncodeSegment(s)|..] == Encode(rest);
  }

  /** Iterating a built path yields exactly the pushed segments, in order. */
  lemma {:induction false} SegmentsOfEncode(segs: seq<Segment>)
    requires AllWf(segs)
    ensures Segments(Encode(segs)) == segs
    decreases |segs|
  {
    if segs != [] {
      ChildOfEncode(segs);
      SegmentsOfEncode(segs[1..]);
      SegmentsOfSplit(Encode(segs), segs[0], Encode(segs[1..]));
      assert [segs[0]] + segs[1..] == segs;
    }
  }

  lemma SegmentsOfSplit(p: seq<byte>, s: Segment, rest: seq<byte>)
    requires First(p) == Some(s) && Child(p) == Some(rest)
    ensures Segments(p) == [s] + Segments(rest)
  {
  }

  /** Every segment a path yields can be pushed again. */
  lemma {:induction false} SegmentsWf(p: seq<byte>)
    ensures AllWf(Segments(p))
    decreases |p|
  {
    match FirstElementOf(p)
    case None =>
    case Some(e) =>
      SegmentNewWf(e);
      var rest := p[e.len..];
      SegmentsWf(rest);
      assert Segments(p) == [SegmentNew(e.ty, e.content)] + Segments(rest);
  }

  // ---- strip_prefix ---------------------------------------------------------

  /** `iter_after`, with each iterator given as the segments it has left:
      advances over `prefix` while the items agree. */
  method IterAfter(iter: seq<Segment>, prefix: seq<Segment>) returns (r: Option<seq<Segment>>)
    ensures r.Some? <==> prefix <= iter
    ensures r.Some? ==> r.value == iter[|prefix|..]
  {
    var i := 0;
    while true
      invariant 0 <= i <= |iter| && i <= |prefix|
      invariant iter[..i] == prefix[..i]
      decreases |iter| - i
    {
      if i < |iter| && i < |prefix| {
        if iter[i] != prefix[i] {
          assert !(prefix <= iter) by { assert prefix[i] != iter[i]; }
          return None;
        }
      } else if i < |iter| || i == |prefix| {
        assert i == |prefix|;
        return Some(iter[i..]);
      } else {
        assert !(prefix <= iter);
        return None;
      }
      i := i + 1;
    }
  }

  /** `strip_prefix` as a specification: the encoding of what is left after
      the segments of `base`, or an error when `base` is not a segment prefix. */
  function Stripped(p: seq<byte>, base: seq<byte>): (r: Result<seq<byte>>)
  {
    var segs := Segments(p);
    var pre := Segments(base);
    SegmentsWf(p);
    if pre <= segs then Ok(Encode(segs[|pre|..])) else Err("StripPrefixError")
  }

  /** Joining the stripped path onto `base`'s segments gives back the path. */
  lemma StrippedOfEncode(base: seq<Segment>, rest: seq<Segment>)
    requires AllWf(base) && AllWf(rest)
    ensures AllWf(base + rest)
    ensures Stripped(Encode(base + rest), Encode(base)) == Ok(Encode(rest))
  {
    EncodeAppend(base, rest);
    SegmentsOfEncode(base + rest);
    SegmentsOfEncode(base);
    assert (base + rest)[|base|..] == rest;
  }

  /** A path whose segments do not start with those of `base` is refused. */
  lemma StrippedRefuses(p: seq<Segment>, base: seq<Segment>)
    requires AllWf(p) && AllWf(base) && !(base <= p)
    ensures Stripped(Encode(p), Encode(base)).Err?
  {
    SegmentsOfEncode(p);
    SegmentsOfEncode(base);
  }

  /** `strip_prefix`. */
  method StripPrefix(p: seq<byte>, base: seq<byte>) returns (r: Result<seq<byte>>)
    ensures r == Stripped(p, base)
  {
    var after := IterAfter(Segments(p), Segments(base));
    if after.None? {
      return Err("StripPrefixError");
    }
    SegmentsWf(p);
    var rest := FromSegments(after.value);
    r := Ok(rest.buf);
  }

  /** `FromIterator<Segment> for PathBuf`. */
  method FromSegments(segs: seq<Segment>) returns (p: PathBuf)
    requires AllWf(segs)
    ensures fresh(p) && p.buf == Encode(segs)
  {
    p := new PathBuf();
    for i := 0 to |segs|
      invariant p.buf == Encode(segs[..i])
    {
      assert segs[..i + 1][..i] == segs[..i];
      p.PushSegment(segs[i]);
    }
    assert segs[..|segs|] == segs;
  }

  // ---- PathBuf ----------------------------------------------------------------

  /** An owned, growable encoded path. */
  class PathBuf {
    var buf: seq<byte>

    constructor()
      ensures buf == []
    {
      buf := [];
    }

    /** `push_len`: a length that does not fit a `u16` is refused by an
        assertion in the source, so callers must stay below it. */
    method PushLen(len: nat)
      requires len <= U16Max
      modifies this
      ensures buf == old(buf) + ToBe(len, 2)
    {
      Pow256Values();
      buf := buf + ToBe(len, 2);
    }

    /** `push`: content, optional big-endian length, type tag last. */
    method Push(ty: SegmentType, bytes: seq<byte>)
      requires IsVariableLength(ty) ==> |bytes| <= U16Max
      modifies this
      ensures buf == old(buf) + Pushed(ty, bytes)
    {
      buf := buf + bytes;
      if IsVariableLength(ty) {
        PushLen(|bytes|);
      }
      buf := buf + [Tag(ty)];
    }

    /** `push_segment`: dispatches to the pusher of the segment's type. */
    method PushSegment(s: Segment)
      requires WfSegment(s)
      modifies this
      ensures buf == old(buf) + EncodeSegment(s)
    {
      match s
      case Doc(d) => PushDoc(d);
      case Peer(d) => PushPeer(d);
      case Nonce(n) => PushNonce(n);
      case Bool(b) => PushBool(b);
      case U64(u) => PushU64(u);
      case I64(i) => PushI64(i);
      case Str(b) => PushStr(b);
      case Policy(b) => PushPolicy(b);
      case Dot(h) => PushDot(h);
      case Position(f) => PushPosition(f);
      case Sig(g) => PushSig(g);
    }

    method PushDoc(doc: seq<byte>)
      requires |doc| == 32
      modifies this
      ensures buf == old(buf) + EncodeSegment(Segment.Doc(doc))
    {
      Push(SegmentType.Doc, doc);
    }

    method PushPeer(peer: seq<byte>)
      requires |peer| == 32
      modifies this
      ensures buf == old(buf) + EncodeSegment(Segment.Peer(peer))
    {
      Push(SegmentType.Peer, peer);
    }

    method PushNonce(nonce: nat)
      requires nonce < Pow256(8)
      modifies this
      ensures buf == old(buf) + EncodeSegment(Segment.Nonce(nonce))
    {
      Push(SegmentType.Nonce, ToBe(nonce, 8));
    }

    method PushBool(b: bool)
      modifies this
      ensures buf == old(buf) + EncodeSegment(Segment.Bool(b))
    {
      var v: byte := if b then 1 else 0;
      Push(SegmentType.Bool, [v]);
    }

    method PushU64(u: nat)
      requires u < Pow256(8)
      modifies this
      ensures buf == old(buf) + EncodeSegment(Segment.U64(u))
    {
      Push(SegmentType.U64, ToBe(u, 8));
    }

    method PushI64(i: int)
      requires -(Pow256(8) as int) / 2 <= i < Pow256(8) / 2
      modifies this
      ensures buf == old(buf) + EncodeSegment(Segment.I64(i))
    {
      Push(SegmentType.I64, ToBe(Unsigned(i, 8), 8));
    }

    method PushStr(s: seq<byte>)
      requires |s| <= U16Max
      modifies this
      ensures buf == old(buf) + EncodeSegment(Segment.Str(s))
    {
      Push(SegmentType.Str, s);
    }

    method PushPolicy(policy: seq<byte>)
      requires |policy| <= U16Max
      modifies this
      ensures buf == old(buf) + EncodeSegment(Segment.Policy(policy))
    {
      Push(SegmentType.Policy, policy);
    }

    method PushDot(dot: seq<byte>)
      requires |dot| == 32
      modifies this
      ensures buf == old(buf) + EncodeSegment(Segment.Dot(dot))
    {
      Push(SegmentType.Dot, dot);
    }

    method PushPosition(position: seq<byte>)
      requires |position| <= U16Max
      modifies this
      ensures buf == old(buf) + EncodeSegment(Segment.Position(position))
    {
      Push(SegmentType.Position, position);
    }

    method PushSig(sig: seq<byte>)
      requires |sig| == 64
      modifies this
      ensures buf == old(buf) + EncodeSegment(Segment.Sig(sig))
    {
      Push(SegmentType.Sig, sig);
    }

    /** `pop`: truncates to the parent; a buffer without a decodable last
        segment (in particular an empty one) is left unchanged. */
    method Pop()
      modifies this
      ensures Parent(old(buf)).Some? ==> buf == Parent(old(buf)).value
      ensures Parent(old(buf)).None? ==> buf == old(buf)
    {
      var parent := Parent(buf);
      if parent.Some? {
        buf := buf[..|parent.value|];
      }
    }

    /** `extend`: appends the bytes of another path. */
    method Extend(p: seq<byte>)
      modifies this
      ensures buf == old(buf) + p
    {
      buf := buf + p;
    }
  }

  /** Popping a built path drops exactly its last segment; popping an empty
      path changes nothing. */
  lemma PopOfEncode(segs: seq<Segment>)
    requires AllWf(segs)
    ensures segs != [] ==> Parent(Encode(segs)) == Some(Encode(segs[..|segs| - 1]))
    ensures segs == [] ==> Parent(Encode(segs)).None?
  {
    if segs != [] {
      ParentOfEncode(segs);
    }
  }

  /** Extending a built path by another gives the path of all the segments. */
  lemma ExtendOfEncode(a: seq<Segment>, b: seq<Segment>)
    requires AllWf(a) && AllWf(b)
    ensures AllWf(a + b) && Segments(Encode(a) + Encode(b)) == a + b
  {
    EncodeAppend(a, b);
    SegmentsOfEncode(a + b);
  }
}
