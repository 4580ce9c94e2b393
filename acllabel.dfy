/** Labels of `acl/src/data.rs`: the name of a place in a document, built
    from the document root by struct fields and table keys. */
module AclLabels {
  import opened Bytes

  type DocId = seq<byte>
  type PeerId = seq<byte>

  /** `Primitive`: the values a register holds and a table is keyed by. */
  datatype Primitive = Bool(b: bool) | U64(u: nat) | I64(i: int) | Str(s: string)

  /** `Label`. */
  datatype Label = Root(doc: DocId) | Field(parent: Label, name: string) | Key(parent: Label, key: Primitive)

  /** `b` is `a` or lies below it. */
  predicate IsAncestor(a: Label, b: Label)
    decreases b
  {
    a == b || (!b.Root? && IsAncestor(a, b.parent))
  }

  /** `Label::root`: the document at the base of the chain, whose root label
      is an ancestor of every label of the document. */
  function RootOf(l: Label): (d: DocId)
    ensures IsAncestor(Root(d), l)
  {
    match l
    case Root(id) => id
    case Field(p, _) => RootOf(p)
    case Key(p, _) => RootOf(p)
  }

  /** The number of steps from the root. */
  function Depth(l: Label): nat {
    if l.Root? then 0 else Depth(l.parent) + 1
  }

  /** An ancestor is no deeper, and shares the root. */
  lemma {:induction false} AncestorShape(a: Label, b: Label)
    requires IsAncestor(a, b)
    ensures Depth(a) <= Depth(b) && RootOf(a) == RootOf(b)
    ensures Depth(a) == Depth(b) ==> a == b
    decreases b
  {
    if a != b {
      AncestorShape(a, b.parent);
    }
  }

  /** Ancestry is a partial order. */
  lemma {:induction false} AncestorTransitive(a: Label, b: Label, c: Label)
    requires IsAncestor(a, b) && IsAncestor(b, c)
    ensures IsAncestor(a, c)
    decreases c
  {
    if b != c {
      AncestorTransitive(a, b, c.parent);
    }
  }

  lemma AncestorAntisymmetric(a: Label, b: Label)
    requires IsAncestor(a, b) && IsAncestor(b, a)
    ensures a == b
  {
    AncestorShape(a, b);
    AncestorShape(b, a);
  }

  /** The `Display` rendering: the root document, then `.` and each field
      name or each key's debug rendering. Both renderings of the leaves are
      parameters (the document id's rendering is not part of this model). */
  function Render(l: Label, docText: DocId -> string, debug: Primitive -> string): string {
    match l
    case Root(id) => docText(id)
    case Field(p, s) => Render(p, docText, debug) + "." + s
    case Key(p, k) => Render(p, docText, debug) + "." + debug(k)
  }

  /** `LabelCow::is_ancestor` as written: the rendering of `b` starts with
      the rendering of `a`. */
  predicate IsAncestorAsWritten(a: Label, b: Label, docText: DocId -> string, debug: Primitive -> string) {
    var s := Render(a, docText, debug);
    var t := Render(b, docText, debug);
    |s| <= |t| && t[..|s|] == s
  }

  /** Every real ancestor passes the rendered check. */
  lemma {:induction false} AncestorRendersPrefix(a: Label, b: Label, docText: DocId -> string, debug: Primitive -> string)
    requires IsAncestor(a, b)
    ensures IsAncestorAsWritten(a, b, docText, debug)
    decreases b
  {
    if a != b {
      AncestorRendersPrefix(a, b.parent, docText, debug);
      var s := Render(a, docText, debug);
      var t := Render(b.parent, docText, debug);
      assert Render(b, docText, debug)[..|t|] == t;
    }
  }

  /** But the rendered check also accepts a sibling whose name extends
      another's: field `b` "is an ancestor" of field `bc`, whatever the
      renderings. */
  lemma SiblingPassesAsWritten(d: DocId, docText: DocId -> string, debug: Primitive -> string)
    ensures IsAncestorAsWritten(Field(Root(d), "b"), Field(Root(d), "bc"), docText, debug)
    ensures !IsAncestor(Field(Root(d), "b"), Field(Root(d), "bc"))
  {
    var r := docText(d);
    assert Render(Field(Root(d), "b"), docText, debug) == r + "." + "b";
    assert Render(Field(Root(d), "bc"), docText, debug) == r + "." + "bc";
    assert (r + "." + "bc")[..|r + "." + "b"|] == r + "." + "b";
  }
}
