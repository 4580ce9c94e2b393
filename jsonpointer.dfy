/** The JSON pointers of `wasm-ffi/src/api.rs`: `JsonPointer::new` splits a
    pointer into reference tokens and unescapes them as section 4 of RFC 6901
    prescribes ("~1" to "/" first, then "~0" to "~"), and `goto` walks the
    tokens down a document schema. Pointers are byte strings; '/' and '~'
    never occur inside a multi-byte UTF-8 sequence, so splitting and
    replacing bytes is splitting and replacing characters. */
module JsonPointers {
  import opened Wrappers
  import opened Bytes
  import P = Paths
  import S = Schemas

  const Slash: byte := 47
  const Tilde: byte := 126
  const Zero: byte := 48
  const One: byte := 49
  const Plus: byte := 43
  const Minus: byte := 45

  // ---------------------------------------------------------------------
  // JsonPointer::new
  // ---------------------------------------------------------------------

  /** `str::replace` of the two-byte pattern `[a, b]` by the byte `c`: the
      non-overlapping matches, left to right. */
  function ReplacePair(s: seq<byte>, a: byte, b: byte, c: byte): seq<byte>
    decreases |s|
  {
    if |s| < 2 then s
    else if s[0] == a && s[1] == b then [c] + ReplacePair(s[2..], a, b, c)
    else [s[0]] + ReplacePair(s[1..], a, b, c)
  }

  /** The unescaping of a reference token: "~1" becomes "/", then "~0"
      becomes "~". */
  function Unescape(t: seq<byte>): seq<byte> {
    ReplacePair(ReplacePair(t, Tilde, One, Slash), Tilde, Zero, Tilde)
  }

  /** `str::split('/')`: the pieces between slashes, at least one. */
  function Split(s: seq<byte>): (r: seq<seq<byte>>)
    ensures |r| >= 1
    ensures forall i | 0 <= i < |r| :: Slash !in r[i]
    decreases |s|
  {
    if s == [] then [[]]
    else
      var rest := Split(s[1..]);
      if s[0] == Slash then [[]] + rest
      else [[s[0]] + rest[0]] + rest[1..]
  }

  /** Unescapes every token. */
  function UnescapeAll(ts: seq<seq<byte>>): (r: seq<seq<byte>>)
    ensures |r| == |ts| && forall i | 0 <= i < |ts| :: r[i] == Unescape(ts[i])
  {
    seq(|ts|, i requires 0 <= i < |ts| => Unescape(ts[i]))
  }

  /** `JsonPointer::new`: the empty pointer has no tokens; any other must
      start with '/', and its tokens are the unescaped pieces after it. */
  function New(s: seq<byte>): (r: Result<seq<seq<byte>>>)
    ensures r.Ok? <==> s == [] || s[0] == Slash
    ensures s == [] ==> r == Ok([])
    ensures r.Err? ==> r.msg == "Invalid pointer"
  {
    if s == [] then Ok([])
    else if s[0] != Slash then Err("Invalid pointer")
    else Ok(UnescapeAll(Split(s)[1..]))
  }

  /** The escaping of a reference token: "~" becomes "~0", "/" becomes "~1". */
  function Escape(t: seq<byte>): (e: seq<byte>)
    ensures Slash !in e
    decreases |t|
  {
    if t == [] then []
    else
      (if t[0] == Tilde then [Tilde, Zero]
       else if t[0] == Slash then [Tilde, One]
       else [t[0]]) + Escape(t[1..])
  }

  /** Escapes every token. */
  function EscapeAll(ts: seq<seq<byte>>): (r: seq<seq<byte>>)
    ensures |r| == |ts| && forall i | 0 <= i < |ts| :: r[i] == Escape(ts[i])
    decreases |ts|
  {
    if ts == [] then [] else [Escape(ts[0])] + EscapeAll(ts[1..])
  }

  /** The pointer that names `ts`: each token escaped, behind a '/'. */
  function Format(ts: seq<seq<byte>>): (s: seq<byte>)
    ensures s == [] <==> ts == []
    ensures s != [] ==> s[0] == Slash
    decreases |ts|
  {
    if ts == [] then [] else [Slash] + Escape(ts[0]) + Format(ts[1..])
  }

  /** Replacing starts past a byte that does not begin the pattern. */
  lemma ReplaceSkips(x: byte, y: seq<byte>, a: byte, b: byte, c: byte)
    requires x != a
    ensures ReplacePair([x] + y, a, b, c) == [x] + ReplacePair(y, a, b, c)
  {
    if y != [] {
      assert ([x] + y)[1..] == y;
    }
  }

  /** A pattern byte followed by a different byte is kept. */
  lemma ReplaceKeeps(x: byte, y: seq<byte>, a: byte, b: byte, c: byte)
    requires x != b && x != a
    ensures ReplacePair([a, x] + y, a, b, c) == [a, x] + ReplacePair(y, a, b, c)
  {
    assert ([a, x] + y)[1..] == [x] + y;
    ReplaceSkips(x, y, a, b, c);
  }

  /** A match is replaced. */
  lemma ReplaceMatches(y: seq<byte>, a: byte, b: byte, c: byte)
    ensures ReplacePair([a, b] + y, a, b, c) == [c] + ReplacePair(y, a, b, c)
  {
    assert ([a, b] + y)[2..] == y;
  }

  /** A token with every "~" written "~0" and its slashes as they are. */
  function Half(t: seq<byte>): seq<byte>
    decreases |t|
  {
    if t == [] then [] else (if t[0] == Tilde then [Tilde, Zero] else [t[0]]) + Half(t[1..])
  }

  /** The first pass of unescaping restores the slashes of an escaped
      token. */
  lemma {:induction false} FirstPass(t: seq<byte>)
    ensures ReplacePair(Escape(t), Tilde, One, Slash) == Half(t)
    decreases |t|
  {
    if t != [] {
      var rest := Escape(t[1..]);
      FirstPass(t[1..]);
      if t[0] == Tilde {
        assert Escape(t) == [Tilde, Zero] + rest;
        ReplaceKeeps(Zero, rest, Tilde, One, Slash);
      } else if t[0] == Slash {
        assert Escape(t) == [Tilde, One] + rest;
        ReplaceMatches(rest, Tilde, One, Slash);
      } else {
        assert Escape(t) == [t[0]] + rest;
        ReplaceSkips(t[0], rest, Tilde, One, Slash);
      }
    }
  }

  /** The second pass restores the tildes. */
  lemma {:induction false} SecondPass(t: seq<byte>)
    ensures ReplacePair(Half(t), Tilde, Zero, Tilde) == t
    decreases |t|
  {
    if t != [] {
      var rest := Half(t[1..]);
      SecondPass(t[1..]);
      if t[0] == Tilde {
        assert Half(t) == [Tilde, Zero] + rest;
        ReplaceMatches(rest, Tilde, Zero, Tilde);
      } else {
        assert Half(t) == [t[0]] + rest;
        ReplaceSkips(t[0], rest, Tilde, Zero, Tilde);
      }
      assert t == [t[0]] + t[1..];
    }
  }

  /** Unescaping undoes escaping. */
  lemma UnescapeEscape(t: seq<byte>)
    ensures Unescape(Escape(t)) == t
  {
    FirstPass(t);
    SecondPass(t);
  }

  /** Splitting a slash-free piece followed by the rest. */
  lemma {:induction false} SplitPrefix(x: seq<byte>, rest: seq<byte>)
    requires Slash !in x
    ensures Split(x + rest) == [x + Split(rest)[0]] + Split(rest)[1..]
    decreases |x|
  {
    var r := Split(rest);
    if x != [] {
      assert (x + rest)[0] == x[0] && x[0] != Slash;
      assert (x + rest)[1..] == x[1..] + rest;
      SplitPrefix(x[1..], rest);
      assert [x[0]] + (x[1..] + r[0]) == x + r[0];
    } else {
      assert x + rest == rest && x + r[0] == r[0];
      assert r == [r[0]] + r[1..];
    }
  }

  /** The pieces of a formatted pointer past its leading '/' are the escaped
      tokens. */
  lemma {:induction false} SplitFormat(ts: seq<seq<byte>>)
    requires ts != []
    ensures Split(Format(ts)[1..]) == EscapeAll(ts)
    decreases |ts|
  {
    var tail := Format(ts[1..]);
    assert Format(ts)[1..] == Escape(ts[0]) + tail;
    SplitPrefix(Escape(ts[0]), tail);
    assert Escape(ts[0]) + [] == Escape(ts[0]);
    if ts[1..] == [] {
      assert tail == [];
      assert Split(tail) == [[]];
    } else {
      SplitFormat(ts[1..]);
      assert tail[0] == Slash;
      assert Split(tail) == [[]] + Split(tail[1..]);
    }
  }

  /** `new` reads back the tokens of every pointer formatted from tokens. */
  lemma NewFormat(ts: seq<seq<byte>>)
    ensures New(Format(ts)) == Ok(ts)
  {
    if ts != [] {
      var s := Format(ts);
      SplitFormat(ts);
      assert Split(s) == [[]] + Split(s[1..]);
      var tokens := UnescapeAll(Split(s)[1..]);
      forall i | 0 <= i < |ts| ensures tokens[i] == ts[i] {
        UnescapeEscape(ts[i]);
      }
      assert tokens == ts;
    }
  }

  // ---------------------------------------------------------------------
  // Numbers in tokens, as `str::parse` reads them
  // ---------------------------------------------------------------------

  predicate IsDigit(b: byte) {
    Zero <= b <= Zero + 9
  }

  /** The value of a string of decimal digits. */
  function DigitsValue(ds: seq<byte>): nat
    requires forall i | 0 <= i < |ds| :: IsDigit(ds[i])
    decreases |ds|
  {
    if ds == [] then 0
    else
      var d := ds[|ds| - 1];
      assert IsDigit(d);
      10 * DigitsValue(ds[..|ds| - 1]) + (d - Zero) as nat
  }

  /** The decimal digits of `n`, without leading zeros. */
  function Decimal(n: nat): (ds: seq<byte>)
    ensures ds != [] && forall i | 0 <= i < |ds| :: IsDigit(ds[i])
    ensures ds[0] != Plus && ds[0] != Minus
    decreases n
  {
    if n < 10 then [Zero + n as byte] else Decimal(n / 10) + [Zero + (n % 10) as byte]
  }

  /** Decimal digits read back as the number. */
  lemma {:induction false} DecimalValue(n: nat)
    ensures DigitsValue(Decimal(n)) == n
    decreases n
  {
    if n >= 10 {
      DecimalValue(n / 10);
      assert Decimal(n)[..|Decimal(n)| - 1] == Decimal(n / 10);
    }
  }

  /** `u64::from_str` and `usize::from_str` below `bound`: an optional '+'
      and at least one digit, within range. */
  function ParseUnsigned(s: seq<byte>, bound: nat): (r: Option<nat>)
    ensures r.Some? ==> r.value < bound
  {
    var ds := if s != [] && s[0] == Plus then s[1..] else s;
    if ds == [] || exists i | 0 <= i < |ds| :: !IsDigit(ds[i]) then None
    else if DigitsValue(ds) < bound then Some(DigitsValue(ds))
    else None
  }

  /** `i64::from_str`: an optional sign and at least one digit, within
      range. */
  function ParseI64(s: seq<byte>): (r: Option<int>)
    ensures r.Some? ==> -0x8000_0000_0000_0000 <= r.value < 0x8000_0000_0000_0000
  {
    if s != [] && s[0] == Minus then
      var ds := s[1..];
      if ds == [] || exists i | 0 <= i < |ds| :: !IsDigit(ds[i]) then None
      else if DigitsValue(ds) <= 0x8000_0000_0000_0000 then Some(0 - DigitsValue(ds))
      else None
    else
      match ParseUnsigned(s, 0x8000_0000_0000_0000)
      case None => None
      case Some(v) => Some(v)
  }

  /** `bool::from_str`: exactly "true" or "false". */
  function ParseBool(s: seq<byte>): Option<bool> {
    if s == [116, 114, 117, 101] then Some(true)
    else if s == [102, 97, 108, 115, 101] then Some(false)
    else None
  }

  /** The decimal rendering of an `i64`. */
  function RenderI64(i: int): seq<byte> {
    if i < 0 then [Minus] + Decimal(-i) else Decimal(i)
  }

  /** Numbers render to tokens that parse back. */
  lemma ParseRendered(n: nat, bound: nat, i: int)
    ensures n < bound ==> ParseUnsigned(Decimal(n), bound) == Some(n)
    ensures -0x8000_0000_0000_0000 <= i < 0x8000_0000_0000_0000 ==> ParseI64(RenderI64(i)) == Some(i)
  {
    DecimalValue(n);
    if i < 0 {
      DecimalValue(-i);
      assert RenderI64(i)[1..] == Decimal(-i);
    } else {
      DecimalValue(i);
    }
  }

  // ---------------------------------------------------------------------
  // JsonPointer::goto
  // ---------------------------------------------------------------------

  /** One move of the cursor `goto` drives: a table key, a struct field or
      an array index. */
  datatype Step = Key(key: P.Segment) | Field(name: seq<byte>) | Index(ix: nat)

  /** The schema a step leads to, when the schema has the step. */
  function Down(schema: S.Schema, step: Step): Option<S.Schema> {
    match step
    case Key(k) =>
      if schema.Table? && S.KindValidates(schema.key, k) then Some(schema.value) else None
    case Field(name) =>
      if schema.Struct? && name in schema.fields then Some(schema.fields[name]) else None
    case Index(_) =>
      if schema.Array? then Some(schema.elem) else None
  }

  /** `usize` on the 32-bit WebAssembly target. */
  const UsizeBound: nat := 0x1_0000_0000

  /** What `goto` does with one token at `schema`: `len` is the length of
      the array the cursor is at, which "-" names. */
  function TokenStep(schema: S.Schema, token: seq<byte>, len: nat): (r: Result<(Step, S.Schema)>)
    ensures r.Ok? ==> Down(schema, r.value.0) == Some(r.value.1)
    ensures !(schema.Table? || schema.Array? || schema.Struct?) ==> r == Err("Hit a leaf")
    ensures schema.Array? && token == [Minus] ==> r == Ok((Index(len), schema.elem))
  {
    match schema
    case Table(kind, value) =>
      (match kind
       case Bool =>
         (match ParseBool(token)
          case None => Err("invalid bool")
          case Some(b) => Ok((Key(P.Segment.Bool(b)), value)))
       case U64 =>
         (match ParseUnsigned(token, 0x1_0000_0000_0000_0000)
          case None => Err("invalid integer")
          case Some(n) => Ok((Key(P.Segment.U64(n)), value)))
       case I64 =>
         (match ParseI64(token)
          case None => Err("invalid integer")
          case Some(i) => Ok((Key(P.Segment.I64(i)), value)))
       case Str => Ok((Key(P.Segment.Str(token)), value)))
    case Array(elem) =>
      if token == [Minus] then Ok((Index(len), elem))
      else
        (match ParseUnsigned(token, UsizeBound)
         case None => Err("invalid integer")
         case Some(n) => Ok((Index(n), elem)))
    case Struct(fields) =>
      if token in fields then Ok((Field(token), fields[token])) else Err("field doesn't exist")
    case _ => Err("Hit a leaf")
  }

  /** The steps `goto` takes for `tokens` from `schema`, stopping at the
      first failure. `lens[i]` is the array length "-" names at token `i`. */
  function GotoOf(schema: S.Schema, tokens: seq<seq<byte>>, lens: seq<nat>): Result<seq<Step>>
    requires |lens| == |tokens|
    decreases |tokens|
  {
    if tokens == [] then Ok([])
    else
      match TokenStep(schema, tokens[0], lens[0])
      case Err(e) => Err(e)
      case Ok((step, next)) =>
        match GotoOf(next, tokens[1..], lens[1..])
        case Err(e) => Err(e)
        case Ok(rest) => Ok([step] + rest)
  }

  /** `steps` prefixed to the steps of a successful walk. */
  function Then(steps: seq<Step>, r: Result<seq<Step>>): Result<seq<Step>> {
    match r
    case Err(e) => Err(e)
    case Ok(rest) => Ok(steps + rest)
  }

  /** `goto`: moves the cursor token by token; the model records the moves
      and the schema the cursor is at. */
  method Goto(schema: S.Schema, tokens: seq<seq<byte>>, lens: seq<nat>) returns (r: Result<seq<Step>>)
    requires |lens| == |tokens|
    ensures r == GotoOf(schema, tokens, lens)
  {
    var at := schema;
    var steps: seq<Step> := [];
    var i := 0;
    assert tokens[0..] == tokens && lens[0..] == lens;
    if GotoOf(schema, tokens, lens).Ok? {
      assert [] + GotoOf(schema, tokens, lens).value == GotoOf(schema, tokens, lens).value;
    }
    while i < |tokens|
      invariant 0 <= i <= |tokens|
      invariant GotoOf(schema, tokens, lens) == Then(steps, GotoOf(at, tokens[i..], lens[i..]))
    {
      assert tokens[i..][1..] == tokens[i + 1..] && lens[i..][1..] == lens[i + 1..];
      var next := TokenStep(at, tokens[i], lens[i]);
      if next.Err? {
        return Err(next.msg);
      }
      assert steps + [next.value.0] + [] == steps + [next.value.0];
      ThenAssoc(steps, next.value.0, GotoOf(next.value.1, tokens[i + 1..], lens[i + 1..]));
      steps := steps + [next.value.0];
      at := next.value.1;
      i := i + 1;
    }
    assert tokens[i..] == [];
    assert steps + [] == steps;
    r := Ok(steps);
  }

  lemma ThenAssoc(steps: seq<Step>, step: Step, r: Result<seq<Step>>)
    ensures Then(steps, Then([step], r)) == Then(steps + [step], r)
  {
    if r.Ok? {
      assert steps + ([step] + r.value) == steps + [step] + r.value;
    }
  }

  /** The steps are a walk down `schema`. */
  predicate Follows(schema: S.Schema, steps: seq<Step>)
    decreases |steps|
  {
    steps == [] ||
    (Down(schema, steps[0]).Some? && Follows(Down(schema, steps[0]).value, steps[1..]))
  }

  predicate InRange(step: Step) {
    match step
    case Key(k) => P.WfSegment(k)
    case Field(_) => true
    case Index(n) => n < UsizeBound
  }

  /** The reference token of a step. */
  function Render(step: Step): seq<byte> {
    match step
    case Key(k) =>
      (match k
       case Bool(b) => if b then [116, 114, 117, 101] else [102, 97, 108, 115, 101]
       case U64(n) => Decimal(n)
       case I64(i) => RenderI64(i)
       case Str(s) => s
       case _ => [])
    case Field(name) => name
    case Index(n) => Decimal(n)
  }

  function RenderAll(steps: seq<Step>): (ts: seq<seq<byte>>)
    ensures |ts| == |steps| && forall i | 0 <= i < |steps| :: ts[i] == Render(steps[i])
  {
    seq(|steps|, i requires 0 <= i < |steps| => Render(steps[i]))
  }

  /** A single step is read back from its token. */
  lemma TokenStepRender(schema: S.Schema, step: Step, len: nat)
    requires Down(schema, step).Some? && InRange(step)
    ensures TokenStep(schema, Render(step), len) == Ok((step, Down(schema, step).value))
  {
    Pow256Values();
    match step
    case Key(k) =>
      match k {
        case U64(n) => ParseRendered(n, 0x1_0000_0000_0000_0000, 0);
        case I64(i) => ParseRendered(0, 1, i);
        case Bool(b) =>
        case Str(s) =>
      }
    case Field(_) =>
    case Index(n) =>
      ParseRendered(n, UsizeBound, 0);
      assert Decimal(n) != [Minus];
  }

  /** `goto` retraces every walk from the tokens that render it: a pointer
      names the place it was made from. */
  lemma {:induction false} GotoRender(schema: S.Schema, steps: seq<Step>, lens: seq<nat>)
    requires Follows(schema, steps) && |lens| == |steps|
    requires forall i | 0 <= i < |steps| :: InRange(steps[i])
    ensures GotoOf(schema, RenderAll(steps), lens) == Ok(steps)
    decreases |steps|
  {
    if steps != [] {
      var ts := RenderAll(steps);
      TokenStepRender(schema, steps[0], lens[0]);
      assert ts[0] == Render(steps[0]);
      assert ts[1..] == RenderAll(steps[1..]);
      GotoRender(Down(schema, steps[0]).value, steps[1..], lens[1..]);
      assert [steps[0]] + steps[1..] == steps;
    }
  }

  /** A successful `goto` takes one step per token along the schema. */
  lemma {:induction false} GotoWalks(schema: S.Schema, tokens: seq<seq<byte>>, lens: seq<nat>)
    requires |lens| == |tokens| && GotoOf(schema, tokens, lens).Ok?
    ensures |GotoOf(schema, tokens, lens).value| == |tokens|
    ensures Follows(schema, GotoOf(schema, tokens, lens).value)
    decreases |tokens|
  {
    if tokens != [] {
      var next := TokenStep(schema, tokens[0], lens[0]).value;
      GotoWalks(next.1, tokens[1..], lens[1..]);
      assert GotoOf(schema, tokens, lens).value[1..] == GotoOf(next.1, tokens[1..], lens[1..]).value;
    }
  }
}
