/** The todo-app schema that the test of `tlfsc/src/lib.rs` compiles: version
    0.1.0 declares a table of todos with a title and a completion flag;
    version 0.1.1 renames the table, moves the title into a nested struct and
    back out, and removes the helper structs again. Both versions compile,
    and each ends at the schema stated here. */
module SchemaCompilerExample {
  import opened Wrappers
  import S = Schemas
  import L = Lenses
  import opened SchemaCompiler

  const Todos: Ident := [116, 111, 100, 111, 115]               // todos
  const Tasks: Ident := [116, 97, 115, 107, 115]                // tasks
  const Title: Ident := [116, 105, 116, 108, 101]               // title
  const Complete: Ident := [99, 111, 109, 112, 108, 101, 116, 101]  // complete
  const Attrs: Ident := [97, 116, 116, 114, 115]                // attrs
  const Obsolete: Ident := [111, 98, 115, 111, 108, 101, 116, 101]  // obsolete

  /** A rule with a type, written as the schema language names it. */
  function Typed(path: seq<Segment>, k: L.Kind): RuleInput {
    RuleInput(path, Some(TypeName(k)))
  }

  /** A rule without a type. */
  function Untyped(path: seq<Segment>): RuleInput {
    RuleInput(path, None)
  }

  /** Version 0.1.0. */
  function First(): seq<RuleInput> {
    [ Typed([], L.Kind.Struct),
      Typed([Field(Todos)], L.Kind.Table(S.U64)),
      Typed([Field(Todos), LensMapValue], L.Kind.Struct),
      Typed([Field(Todos), LensMapValue, Field(Title)], L.Kind.Reg(S.Str)),
      Typed([Field(Todos), LensMapValue, Field(Complete)], L.Kind.Flag) ]
  }

  /** Version 0.1.1. */
  function Second(): seq<RuleInput> {
    [ Untyped([Field(Todos), Rename(Tasks)]),
      Typed([Field(Tasks), LensMapValue, Field(Attrs)], L.Kind.Struct),
      Untyped([Field(Tasks), LensMapValue, Field(Title), Plunge(Attrs)]),
      Untyped([Field(Tasks), LensMapValue, Field(Attrs), Field(Title), Hoist]),
      Typed([Field(Tasks), LensMapValue, Field(Attrs), Field(Obsolete)], L.Kind.Struct),
      Untyped([Field(Tasks), LensMapValue, Field(Attrs), Field(Obsolete), Remove]),
      Untyped([Field(Tasks), LensMapValue, Field(Attrs), Remove]) ]
  }

  /** A todo: its title and completion flag. */
  function Item(): map<Ident, S.Schema> {
    map[Title := S.Reg(S.Str), Complete := S.Flag]
  }

  /** The document: a table of todos under `table`, keyed by `u64`. */
  function Doc(table: Ident, item: map<Ident, S.Schema>): S.Schema {
    S.Struct(map[table := S.Table(S.U64, S.Struct(item))])
  }

  /** The path to one item of the table. */
  function ItemPath(table: Ident): seq<Segment> {
    [Field(table), LensMapValue]
  }

  lemma ItemAt(table: Ident, item: map<Ident, S.Schema>, x: S.Schema)
    ensures Wrappable(ItemPath(table))
    ensures Navigate(Doc(table, item), ItemPath(table)) == Ok(S.Struct(item))
    ensures Replace(Doc(table, item), ItemPath(table), x) ==
      S.Struct(map[table := S.Table(S.U64, x)])
  {
    assert ItemPath(table)[1..] == [LensMapValue];
    assert ItemPath(table)[1..][1..] == [];
    assert Navigate(S.Table(S.U64, S.Struct(item)), [LensMapValue]) == Ok(S.Struct(item));
    assert Replace(S.Table(S.U64, S.Struct(item)), [LensMapValue], x) == S.Table(S.U64, x);
    assert Doc(table, item).fields[table := S.Table(S.U64, x)] == map[table := S.Table(S.U64, x)];
  }

  /** A rule whose kind is read from its written type adds the lenses of
      `RuleOf`, and the rest of the version follows from there. */
  lemma VersionCons(s: S.Schema, r: RuleInput, kind: Option<L.Kind>, rest: seq<RuleInput>, t: S.Schema)
    requires r.ty == (if kind.Some? then Some(TypeName(kind.value)) else None)
    requires kind.Some? ==> !kind.value.Null?
    requires RuleOf(s, r.path, kind).Ok? && RuleOf(s, r.path, kind).value.0 == t
    ensures VersionOf(s, [r] + rest).Ok? <==> VersionOf(t, rest).Ok?
    ensures VersionOf(s, [r] + rest).Ok? ==> VersionOf(s, [r] + rest).value.0 == VersionOf(t, rest).value.0
  {
    if kind.Some? {
      TyReadsTypeName(kind.value);
    }
    assert RuleKind(r) == Ok(kind);
    assert RuleStep(s, r) == RuleOf(s, r.path, kind);
    assert ([r] + rest)[0] == r && ([r] + rest)[1..] == rest;
  }

  lemma RunOne(s: S.Schema, e: Emit)
    ensures RunPlan(s, [e]) ==
      match AddLensOf(s, e.at, e.lens)
      case Err(x) => Err(x)
      case Ok(p) => Ok((p.0, [p.1]))
  {
    assert [e][1..] == [];
    if AddLensOf(s, e.at, e.lens).Ok? {
      var p := AddLensOf(s, e.at, e.lens).value;
      assert [p.1] + [] == [p.1];
    }
  }

  // Version 0.1.0, rule by rule.

  lemma DeclareRoot()
    ensures RuleOf(S.Null, [], Some(L.Kind.Struct)) == Ok((S.Struct(map[]), [L.Lens.Make(L.Kind.Struct)]))
  {
    RunOne(S.Null, Emit([], L.Lens.Make(L.Kind.Struct)));
  }

  lemma DeclareTable()
    ensures RuleOf(S.Struct(map[]), [Field(Todos)], Some(L.Kind.Table(S.U64))).Ok?
    ensures RuleOf(S.Struct(map[]), [Field(Todos)], Some(L.Kind.Table(S.U64))).value.0 ==
      S.Struct(map[Todos := S.Table(S.U64, S.Null)])
  {
    assert [] + [Field(Todos)] == [Field(Todos)];
    FieldRuleDeclares(S.Struct(map[]), [], Todos, L.Kind.Table(S.U64));
  }

  lemma DeclareItem()
    ensures RuleOf(S.Struct(map[Todos := S.Table(S.U64, S.Null)]), ItemPath(Todos), Some(L.Kind.Struct)).Ok?
    ensures RuleOf(S.Struct(map[Todos := S.Table(S.U64, S.Null)]), ItemPath(Todos), Some(L.Kind.Struct)).value.0 ==
      Doc(Todos, map[])
  {
    var s := S.Struct(map[Todos := S.Table(S.U64, S.Null)]);
    var e := Emit(ItemPath(Todos), L.Lens.Make(L.Kind.Struct));
    assert RulePlan(s, ItemPath(Todos), Some(L.Kind.Struct)) == Ok([e]);
    RunOne(s, e);
    assert ItemPath(Todos)[1..] == [LensMapValue] && ItemPath(Todos)[1..][1..] == [];
    AddLensAt(s, ItemPath(Todos), e.lens);
    assert Navigate(s, ItemPath(Todos)) == Ok(S.Null);
    assert s.fields[Todos := S.Table(S.U64, S.Struct(map[]))] == map[Todos := S.Table(S.U64, S.Struct(map[]))];
  }

  /** Declaring a field of an item of the table. */
  lemma DeclareItemField(table: Ident, item: map<Ident, S.Schema>, f: Ident, k: L.Kind)
    requires f !in item && !k.Null?
    ensures RuleOf(Doc(table, item), ItemPath(table) + [Field(f)], Some(k)).Ok?
    ensures RuleOf(Doc(table, item), ItemPath(table) + [Field(f)], Some(k)).value.0 == Doc(table, item[f := Made(k)])
  {
    ItemAt(table, item, S.Struct(item[f := Made(k)]));
    FieldRuleDeclares(Doc(table, item), ItemPath(table), f, k);
  }

  /** One rule of a version: the version from rule `i` on reaches `final`
      when rule `i` leads to `t` and the rest reaches `final` from `t`. */
  lemma Step(s: S.Schema, rs: seq<RuleInput>, i: nat, kind: Option<L.Kind>, t: S.Schema, final: S.Schema)
    requires i < |rs|
    requires rs[i].ty == (if kind.Some? then Some(TypeName(kind.value)) else None)
    requires kind.Some? ==> !kind.value.Null?
    requires RuleOf(s, rs[i].path, kind).Ok? && RuleOf(s, rs[i].path, kind).value.0 == t
    requires VersionOf(t, rs[i + 1..]).Ok? && VersionOf(t, rs[i + 1..]).value.0 == final
    ensures VersionOf(s, rs[i..]).Ok? && VersionOf(s, rs[i..]).value.0 == final
  {
    assert rs[i..] == [rs[i]] + rs[i + 1..];
    VersionCons(s, rs[i], kind, rs[i + 1..], t);
  }

  lemma FirstLast()
    ensures VersionOf(Doc(Todos, map[Title := S.Reg(S.Str)]), First()[4..]).Ok?
    ensures VersionOf(Doc(Todos, map[Title := S.Reg(S.Str)]), First()[4..]).value.0 == Doc(Todos, Item())
  {
    var rs := First();
    assert ItemPath(Todos) + [Field(Complete)] == rs[4].path;
    DeclareItemField(Todos, map[Title := S.Reg(S.Str)], Complete, L.Kind.Flag);
    assert map[Title := S.Reg(S.Str)][Complete := Made(L.Kind.Flag)] == Item();
    assert rs[5..] == [];
    Step(Doc(Todos, map[Title := S.Reg(S.Str)]), rs, 4, Some(L.Kind.Flag), Doc(Todos, Item()), Doc(Todos, Item()));
  }

  lemma FirstFromItem()
    ensures VersionOf(Doc(Todos, map[]), First()[3..]).Ok?
    ensures VersionOf(Doc(Todos, map[]), First()[3..]).value.0 == Doc(Todos, Item())
  {
    var rs := First();
    assert ItemPath(Todos) + [Field(Title)] == rs[3].path;
    DeclareItemField(Todos, map[], Title, L.Kind.Reg(S.Str));
    assert map[][Title := Made(L.Kind.Reg(S.Str))] == map[Title := S.Reg(S.Str)];
    FirstLast();
    Step(Doc(Todos, map[]), rs, 3, Some(L.Kind.Reg(S.Str)), Doc(Todos, map[Title := S.Reg(S.Str)]), Doc(Todos, Item()));
  }

  lemma FirstFromTable()
    ensures VersionOf(S.Struct(map[Todos := S.Table(S.U64, S.Null)]), First()[2..]).Ok?
    ensures VersionOf(S.Struct(map[Todos := S.Table(S.U64, S.Null)]), First()[2..]).value.0 == Doc(Todos, Item())
  {
    var rs := First();
    DeclareItem();
    FirstFromItem();
    assert rs[2].path == ItemPath(Todos);
    Step(S.Struct(map[Todos := S.Table(S.U64, S.Null)]), rs, 2, Some(L.Kind.Struct), Doc(Todos, map[]), Doc(Todos, Item()));
  }

  /** Version 0.1.0 compiles from the empty schema to a table of todos, each
      with a string title and a completion flag. */
  lemma FirstCompiles()
    ensures VersionOf(S.Null, First()[0..]).Ok?
    ensures VersionOf(S.Null, First()[0..]).value.0 == Doc(Todos, Item())
  {
    DeclareRoot();
    FirstFromRoot();
    Step(S.Null, First(), 0, Some(L.Kind.Struct), S.Struct(map[]), Doc(Todos, Item()));
  }

  lemma FirstFromRoot()
    ensures VersionOf(S.Struct(map[]), First()[1..]).Ok?
    ensures VersionOf(S.Struct(map[]), First()[1..]).value.0 == Doc(Todos, Item())
  {
    var table := S.Struct(map[Todos := S.Table(S.U64, S.Null)]);
    DeclareTable();
    FirstFromTable();
    Step(S.Struct(map[]), First(), 1, Some(L.Kind.Table(S.U64)), table, Doc(Todos, Item()));
  }

  // Version 0.1.1, rule by rule.

  /** The item after `attrs` was declared, and while `title` sits in it. */
  function WithAttrs(attrs: map<Ident, S.Schema>): map<Ident, S.Schema> {
    Item()[Attrs := S.Struct(attrs)]
  }

  function AttrsPath(): seq<Segment> {
    ItemPath(Tasks) + [Field(Attrs)]
  }

  lemma AttrsAt(item: map<Ident, S.Schema>, x: S.Schema)
    requires Attrs in item
    ensures Wrappable(AttrsPath())
    ensures Navigate(Doc(Tasks, item), AttrsPath()) == Ok(item[Attrs])
    ensures Replace(Doc(Tasks, item), AttrsPath(), x) == Doc(Tasks, item[Attrs := x])
  {
    ItemAt(Tasks, item, S.Struct(item[Attrs := x]));
    WrappableSnoc(ItemPath(Tasks), Attrs);
    NavigateSnoc(Doc(Tasks, item), ItemPath(Tasks), Field(Attrs));
    ReplaceSnoc(Doc(Tasks, item), ItemPath(Tasks), Field(Attrs), x);
    assert [Field(Attrs)][1..] == [];
  }

  lemma RenameTable()
    ensures RuleOf(Doc(Todos, Item()), Second()[0].path, None).Ok?
    ensures RuleOf(Doc(Todos, Item()), Second()[0].path, None).value.0 == Doc(Tasks, Item())
  {
    var s := Doc(Todos, Item());
    var e := Emit([], L.Lens.RenameProperty(Todos, Tasks));
    assert [Field(Todos), Rename(Tasks)][..1] == [Field(Todos)];
    assert RulePlan(s, Second()[0].path, None) == Ok([e]);
    RunOne(s, e);
    AddLensAt(s, [], e.lens);
    assert Tasks[1] != Todos[1];
    assert (s.fields - {Todos})[Tasks := s.fields[Todos]] == Doc(Tasks, Item()).fields;
  }

  lemma DeclareAttrs()
    ensures RuleOf(Doc(Tasks, Item()), Second()[1].path, Some(L.Kind.Struct)).Ok?
    ensures RuleOf(Doc(Tasks, Item()), Second()[1].path, Some(L.Kind.Struct)).value.0 == Doc(Tasks, WithAttrs(map[]))
  {
    assert Attrs[0] != Title[0];
    assert ItemPath(Tasks) + [Field(Attrs)] == Second()[1].path;
    DeclareItemField(Tasks, Item(), Attrs, L.Kind.Struct);
  }

  /** `title` moved into `attrs`: the item the plunge leaves. */
  function Nested(): map<Ident, S.Schema> {
    map[Complete := S.Flag, Attrs := S.Struct(map[Title := S.Reg(S.Str)])]
  }

  /** The plunge of `title` into `attrs`, on one item. */
  lemma PlungeOnItem()
    ensures L.TransformSchema(L.ToRef(L.Lens.PlungeProperty(Attrs, Title)), S.Struct(WithAttrs(map[]))) ==
      Ok(S.Struct(Nested()))
  {
    assert Attrs[0] != Title[0];
    var rest := WithAttrs(map[]) - {Title};
    assert rest == map[Complete := S.Flag, Attrs := S.Struct(map[])];
    assert rest[Attrs := S.Struct(rest[Attrs].fields[Title := S.Reg(S.Str)])] == Nested();
  }

  /** The hoist of `title` out of `attrs`, on one item. */
  lemma HoistOnItem()
    ensures L.TransformSchema(L.ToRef(L.Lens.HoistProperty(Attrs, Title)), S.Struct(Nested())) ==
      Ok(S.Struct(WithAttrs(map[])))
  {
    assert Attrs[0] != Title[0] && Complete[0] != Title[0];
    var inner := map[Title := S.Reg(S.Str)];
    assert inner - {Title} == map[];
    assert Nested()[Attrs := S.Struct(inner - {Title})][Title := inner[Title]] == WithAttrs(map[]);
  }

  lemma PlungeTitle()
    ensures RuleOf(Doc(Tasks, WithAttrs(map[])), Second()[2].path, None).Ok?
    ensures RuleOf(Doc(Tasks, WithAttrs(map[])), Second()[2].path, None).value.0 == Doc(Tasks, Nested())
  {
    var s := Doc(Tasks, WithAttrs(map[]));
    var path := Second()[2].path;
    var e := Emit(ItemPath(Tasks), L.Lens.PlungeProperty(Attrs, Title));
    assert path[..3][..2] == ItemPath(Tasks);
    assert RulePlan(s, path, None) == Ok([e]);
    RunOne(s, e);
    ItemAt(Tasks, WithAttrs(map[]), S.Struct(Nested()));
    AddLensAt(s, ItemPath(Tasks), e.lens);
    PlungeOnItem();
  }

  lemma HoistTitle()
    ensures RuleOf(Doc(Tasks, Nested()), Second()[3].path, None).Ok?
    ensures RuleOf(Doc(Tasks, Nested()), Second()[3].path, None).value.0 == Doc(Tasks, WithAttrs(map[]))
  {
    var s := Doc(Tasks, Nested());
    var path := Second()[3].path;
    var e := Emit(ItemPath(Tasks), L.Lens.HoistProperty(Attrs, Title));
    assert path[..4][..2] == ItemPath(Tasks);
    assert RulePlan(s, path, None) == Ok([e]);
    RunOne(s, e);
    ItemAt(Tasks, Nested(), S.Struct(WithAttrs(map[])));
    AddLensAt(s, ItemPath(Tasks), e.lens);
    HoistOnItem();
  }

  lemma DeclareObsolete()
    ensures RuleOf(Doc(Tasks, WithAttrs(map[])), Second()[4].path, Some(L.Kind.Struct)).Ok?
    ensures RuleOf(Doc(Tasks, WithAttrs(map[])), Second()[4].path, Some(L.Kind.Struct)).value.0 ==
      Doc(Tasks, WithAttrs(map[Obsolete := S.Struct(map[])]))
  {
    assert AttrsPath() + [Field(Obsolete)] == Second()[4].path;
    AttrsAt(WithAttrs(map[]), S.Struct(map[Obsolete := S.Struct(map[])]));
    FieldRuleDeclares(Doc(Tasks, WithAttrs(map[])), AttrsPath(), Obsolete, L.Kind.Struct);
    assert map[][Obsolete := Made(L.Kind.Struct)] == map[Obsolete := S.Struct(map[])];
    assert WithAttrs(map[])[Attrs := S.Struct(map[Obsolete := S.Struct(map[])])] == WithAttrs(map[Obsolete := S.Struct(map[])]);
  }

  lemma RemoveObsolete()
    ensures RuleOf(Doc(Tasks, WithAttrs(map[Obsolete := S.Struct(map[])])), Second()[5].path, None).Ok?
    ensures RuleOf(Doc(Tasks, WithAttrs(map[Obsolete := S.Struct(map[])])), Second()[5].path, None).value.0 ==
      Doc(Tasks, WithAttrs(map[]))
  {
    var item := WithAttrs(map[Obsolete := S.Struct(map[])]);
    assert AttrsPath() + [Field(Obsolete), Remove] == Second()[5].path;
    AttrsAt(item, S.Struct(map[]));
    RemoveRuleDrops(Doc(Tasks, item), AttrsPath(), Obsolete);
    assert map[Obsolete := S.Struct(map[])] - {Obsolete} == map[];
    assert item[Attrs := S.Struct(map[])] == WithAttrs(map[]);
  }

  lemma RemoveAttrs()
    ensures RuleOf(Doc(Tasks, WithAttrs(map[])), Second()[6].path, None).Ok?
    ensures RuleOf(Doc(Tasks, WithAttrs(map[])), Second()[6].path, None).value.0 == Doc(Tasks, Item())
  {
    assert ItemPath(Tasks) + [Field(Attrs), Remove] == Second()[6].path;
    ItemAt(Tasks, WithAttrs(map[]), S.Struct(Item()));
    RemoveRuleDrops(Doc(Tasks, WithAttrs(map[])), ItemPath(Tasks), Attrs);
    assert Attrs[0] != Title[0];
    assert WithAttrs(map[]) - {Attrs} == Item();
  }

  lemma SecondTail()
    ensures VersionOf(Doc(Tasks, WithAttrs(map[])), Second()[4..]).Ok?
    ensures VersionOf(Doc(Tasks, WithAttrs(map[])), Second()[4..]).value.0 == Doc(Tasks, Item())
  {
    var rs := Second();
    var final := Doc(Tasks, Item());
    var bare := Doc(Tasks, WithAttrs(map[]));
    RemoveAttrs();
    RemoveObsolete();
    DeclareObsolete();
    assert rs[7..] == [];
    Step(bare, rs, 6, None, final, final);
    Step(Doc(Tasks, WithAttrs(map[Obsolete := S.Struct(map[])])), rs, 5, None, bare, final);
    Step(bare, rs, 4, Some(L.Kind.Struct), Doc(Tasks, WithAttrs(map[Obsolete := S.Struct(map[])])), final);
  }

  lemma SecondFromNested()
    ensures VersionOf(Doc(Tasks, Nested()), Second()[3..]).Ok?
    ensures VersionOf(Doc(Tasks, Nested()), Second()[3..]).value.0 ==
      Doc(Tasks, Item())
  {
    var nested := Doc(Tasks, Nested());
    SecondTail();
    HoistTitle();
    Step(nested, Second(), 3, None, Doc(Tasks, WithAttrs(map[])), Doc(Tasks, Item()));
  }

  lemma SecondFromBare()
    ensures VersionOf(Doc(Tasks, WithAttrs(map[])), Second()[2..]).Ok?
    ensures VersionOf(Doc(Tasks, WithAttrs(map[])), Second()[2..]).value.0 == Doc(Tasks, Item())
  {
    SecondFromNested();
    PlungeTitle();
    Step(Doc(Tasks, WithAttrs(map[])), Second(), 2, None, Doc(Tasks, Nested()), Doc(Tasks, Item()));
  }

  lemma SecondFromRenamed()
    ensures VersionOf(Doc(Tasks, Item()), Second()[1..]).Ok?
    ensures VersionOf(Doc(Tasks, Item()), Second()[1..]).value.0 == Doc(Tasks, Item())
  {
    SecondFromBare();
    DeclareAttrs();
    Step(Doc(Tasks, Item()), Second(), 1, Some(L.Kind.Struct), Doc(Tasks, WithAttrs(map[])), Doc(Tasks, Item()));
  }

  /** Version 0.1.1 compiles from where 0.1.0 ends: the table is renamed to
      `tasks`, and after the title's round trip through `attrs` and the
      removal of the helper structs each item has its title and flag again. */
  lemma SecondCompiles()
    ensures VersionOf(Doc(Todos, Item()), Second()[0..]).Ok?
    ensures VersionOf(Doc(Todos, Item()), Second()[0..]).value.0 == Doc(Tasks, Item())
  {
    var rs := Second();
    SecondFromRenamed();
    RenameTable();
    Step(Doc(Todos, Item()), rs, 0, None, Doc(Tasks, Item()), Doc(Tasks, Item()));
  }
}
