/** The on-disk schema of `lance/format/schema.h`: a tree of `Field`s, each with an id,
    a parent id, a name, a logical type, an Arrow type id and child fields, and a
    `Schema` holding the top-level fields.

    Only the declarations and doc comments of schema.h are part of this model (schema.cc
    is not), so the queries below are the reading of those doc comments given in the
    README. Fields and schemas are values here: an operation that changes a Field or a
    Schema in place returns the changed value instead. */
module LanceSchema {
  import opened Wrappers
  import opened ArrowType

  /** Id and parent id of a field whose ids have not been assigned (schema.h:201-202). */
  const UnassignedId: int := -1

  datatype Field = Field(
    id: int,
    parentId: int,
    name: string,
    logicalType: string,
    typeId: TypeId,
    children: seq<Field>)

  datatype Schema = Schema(fields: seq<Field>)

  // ---------------------------------------------------------------------------
  // The tree read in pre-order: a field, then its children's subtrees in order.

  function Preorder(f: Field): seq<Field>
    decreases f, 1
  {
    [f] + PreorderAll(f.children)
  }

  function PreorderAll(fs: seq<Field>): seq<Field>
    decreases fs, 0
  {
    if fs == [] then [] else Preorder(fs[0]) + PreorderAll(fs[1..])
  }

  lemma {:induction false} PreorderAllAppend(a: seq<Field>, b: seq<Field>)
    ensures PreorderAll(a + b) == PreorderAll(a) + PreorderAll(b)
  {
    if a == [] {
      assert a + b == b;
    } else {
      assert (a + b)[1..] == a[1..] + b;
      PreorderAllAppend(a[1..], b);
    }
  }

  lemma PreorderAllSingle(f: Field)
    ensures PreorderAll([f]) == Preorder(f)
  {
    assert [f][1..] == [];
  }

  /** The ids of a sequence of fields, in order. */
  function Ids(fs: seq<Field>): (r: seq<int>)
    ensures |r| == |fs|
    ensures forall i :: 0 <= i < |fs| ==> r[i] == fs[i].id
  {
    seq(|fs|, i requires 0 <= i < |fs| => fs[i].id)
  }

  lemma {:induction false} IdsAppend(a: seq<Field>, b: seq<Field>)
    ensures Ids(a + b) == Ids(a) + Ids(b)
  {
    assert |Ids(a + b)| == |Ids(a) + Ids(b)|;
    forall i | 0 <= i < |a + b|
      ensures Ids(a + b)[i] == (Ids(a) + Ids(b))[i]
    {
    }
  }

  // ---------------------------------------------------------------------------
  // Counting (schema.h:78-79, 196).

  /** `Field::GetFieldsCount`: the number of fields below `f`. */
  function FieldCount(f: Field): nat
    decreases f, 1
  {
    CountAll(f.children)
  }

  /** The number of fields in the subtrees rooted at `fs`. */
  function CountAll(fs: seq<Field>): nat
    decreases fs, 0
  {
    if fs == [] then 0 else 1 + FieldCount(fs[0]) + CountAll(fs[1..])
  }

  lemma {:induction false} CountAllIsPreorderLength(fs: seq<Field>)
    ensures CountAll(fs) == |PreorderAll(fs)|
    decreases fs
  {
    if fs != [] {
      CountAllIsPreorderLength(fs[0].children);
      CountAllIsPreorderLength(fs[1..]);
    }
  }

  /** `Schema::GetFieldsCount`: every field of the tree, nested ones included. */
  function GetFieldsCount(s: Schema): (n: nat)
    ensures n == |PreorderAll(s.fields)|
  {
    CountAllIsPreorderLength(s.fields);
    CountAll(s.fields)
  }

  // ---------------------------------------------------------------------------
  // Lookup by id (schema.h:72-73, 124).

  /** The first field of `fs` with the given id. */
  function FirstWithId(fs: seq<Field>, id: int): Option<Field> {
    if fs == [] then None
    else if fs[0].id == id then Some(fs[0])
    else FirstWithId(fs[1..], id)
  }

  lemma {:induction false} FirstWithIdAppend(a: seq<Field>, b: seq<Field>, id: int)
    ensures FirstWithId(a + b, id) == if FirstWithId(a, id).Some? then FirstWithId(a, id) else FirstWithId(b, id)
  {
    if a == [] {
      assert a + b == b;
    } else {
      assert (a + b)[1..] == a[1..] + b;
      FirstWithIdAppend(a[1..], b, id);
    }
  }

  lemma {:induction false} FirstWithIdFound(fs: seq<Field>, id: int)
    ensures FirstWithId(fs, id).Some? <==> id in Ids(fs)
    ensures FirstWithId(fs, id).Some? ==> FirstWithId(fs, id).value in fs && FirstWithId(fs, id).value.id == id
  {
    if fs != [] {
      FirstWithIdFound(fs[1..], id);
      assert Ids(fs) == [fs[0].id] + Ids(fs[1..]);
    }
  }

  /** The position of the first field of `fs` with the id, or `|fs|` when none has it. */
  function FirstIndexWithId(fs: seq<Field>, id: int): (k: nat)
    ensures k <= |fs|
    ensures k < |fs| ==> fs[k].id == id
    ensures forall i :: 0 <= i < k ==> fs[i].id != id
    ensures FirstWithId(fs, id) == if k < |fs| then Some(fs[k]) else None
  {
    if fs == [] then 0
    else if fs[0].id == id then 0
    else
      var k := FirstIndexWithId(fs[1..], id);
      assert forall i :: 1 <= i < |fs| ==> fs[i] == fs[1..][i - 1];
      1 + k
  }

  lemma FirstIndexWithIdAppend(a: seq<Field>, b: seq<Field>, id: int)
    ensures FirstIndexWithId(a + b, id) ==
      if FirstIndexWithId(a, id) < |a| then FirstIndexWithId(a, id) else |a| + FirstIndexWithId(b, id)
  {
    var k := FirstIndexWithId(a, id);
    var ab := a + b;
    if k < |a| {
      assert ab[k] == a[k];
    } else {
      var j := FirstIndexWithId(b, id);
      if j < |b| {
        assert ab[|a| + j] == b[j];
      }
    }
  }

  /** `Field::Get(int32_t id)`: the first field with that id below `f`, in pre-order. */
  function FieldGetById(f: Field, id: int): (r: Option<Field>)
    ensures r == FirstWithId(PreorderAll(f.children), id)
    decreases f, 1
  {
    GetByIdAll(f.children, id)
  }

  /** Search of the subtrees `fs` in pre-order: each field is compared before its children. */
  function GetByIdAll(fs: seq<Field>, id: int): (r: Option<Field>)
    ensures r == FirstWithId(PreorderAll(fs), id)
    decreases fs, 0
  {
    if fs == [] then None
    else
      FirstWithIdAppend(Preorder(fs[0]), PreorderAll(fs[1..]), id);
      if fs[0].id == id then Some(fs[0])
      else
        var sub := FieldGetById(fs[0], id);
        if sub.Some? then sub else GetByIdAll(fs[1..], id)
  }

  /** `Schema::GetField(int32_t id)`: any field of the tree, not only a top-level one.
      The result is the field with that id, and there is one exactly when some field of
      the tree carries the id. */
  function GetFieldById(s: Schema, id: int): (r: Option<Field>)
    ensures r == FirstWithId(PreorderAll(s.fields), id)
    ensures r.Some? <==> id in Ids(PreorderAll(s.fields))
    ensures r.Some? ==> r.value in PreorderAll(s.fields) && r.value.id == id
  {
    FirstWithIdFound(PreorderAll(s.fields), id);
    GetByIdAll(s.fields, id)
  }

  // ---------------------------------------------------------------------------
  // Equality with and without ids (schema.h:89-91, 166-175).

  /** `Field::Equals(other, check_id)`. */
  predicate FieldEquals(a: Field, b: Field, checkId: bool)
    decreases a, 1
  {
    && (checkId ==> a.id == b.id && a.parentId == b.parentId)
    && a.name == b.name
    && a.logicalType == b.logicalType
    && a.typeId == b.typeId
    && ForestEquals(a.children, b.children, checkId)
  }

  predicate ForestEquals(a: seq<Field>, b: seq<Field>, checkId: bool)
    decreases a, 0
  {
    |a| == |b| && (a == [] || (FieldEquals(a[0], b[0], checkId) && ForestEquals(a[1..], b[1..], checkId)))
  }

  /** `Schema::Equals(other, check_id)`. */
  predicate SchemaEquals(s: Schema, other: Schema, checkId: bool) {
    ForestEquals(s.fields, other.fields, checkId)
  }

  /** The field with every id and parent id cleared: what equality without ids compares. */
  function Strip(f: Field): Field
    decreases f, 1
  {
    f.(id := UnassignedId, parentId := UnassignedId, children := StripAll(f.children))
  }

  function StripAll(fs: seq<Field>): (r: seq<Field>)
    ensures |r| == |fs|
    decreases fs, 0
  {
    if fs == [] then [] else [Strip(fs[0])] + StripAll(fs[1..])
  }

  lemma {:induction false} StripAllAppend(a: seq<Field>, b: seq<Field>)
    ensures StripAll(a + b) == StripAll(a) + StripAll(b)
  {
    if a == [] {
      assert a + b == b;
    } else {
      assert (a + b)[1..] == a[1..] + b;
      StripAllAppend(a[1..], b);
    }
  }

  /** Equality with ids is structural equality of the trees. */
  lemma {:induction false} EqualsWithIdsIsIdentity(a: seq<Field>, b: seq<Field>)
    ensures ForestEquals(a, b, true) <==> a == b
    decreases a
  {
    if |a| == |b| && a != [] {
      EqualsWithIdsIsIdentity(a[0].children, b[0].children);
      EqualsWithIdsIsIdentity(a[1..], b[1..]);
      if a[0] == b[0] && a[1..] == b[1..] {
        assert a == [a[0]] + a[1..] && b == [b[0]] + b[1..];
      }
    }
  }

  /** Equality without ids ignores ids and parent ids and nothing else. */
  lemma {:induction false} EqualsWithoutIdsIgnoresIds(a: seq<Field>, b: seq<Field>)
    ensures ForestEquals(a, b, false) <==> StripAll(a) == StripAll(b)
    decreases a
  {
    if |a| == |b| && a != [] {
      EqualsWithoutIdsIgnoresIds(a[0].children, b[0].children);
      EqualsWithoutIdsIgnoresIds(a[1..], b[1..]);
      assert StripAll(a) == [Strip(a[0])] + StripAll(a[1..]);
      assert StripAll(b) == [Strip(b[0])] + StripAll(b[1..]);
      if StripAll(a) == StripAll(b) {
        assert StripAll(a)[0] == StripAll(b)[0];
        assert StripAll(a)[1..] == StripAll(b)[1..];
      }
    } else if |a| != |b| {
      assert |StripAll(a)| != |StripAll(b)|;
    }
  }

  /** `Schema::Equals(other, check_id)`: with ids it is equality of the schemas; without
      them, equality of the schemas once every id and parent id is cleared. */
  lemma SchemaEqualsSpec(s: Schema, other: Schema)
    ensures SchemaEquals(s, other, true) <==> s == other
    ensures SchemaEquals(s, other, false) <==> StripAll(s.fields) == StripAll(other.fields)
  {
    EqualsWithIdsIsIdentity(s.fields, other.fields);
    EqualsWithoutIdsIgnoresIds(s.fields, other.fields);
  }

  /** Two schemas equal with ids are also equal without them. */
  lemma SchemaEqualsWithIdsImpliesWithout(s: Schema, other: Schema)
    requires SchemaEquals(s, other, true)
    ensures SchemaEquals(s, other, false)
  {
    EqualsWithIdsIsIdentity(s.fields, other.fields);
    EqualsWithoutIdsIgnoresIds(s.fields, other.fields);
  }

  // ---------------------------------------------------------------------------
  // Building a schema (schema.h:70, 112, 122, 201-202).

  /** A new field, as the `Field` constructors leave it: ids not yet assigned, no children. */
  function NewField(name: string, logicalType: string, typeId: TypeId): (f: Field)
    ensures f.id == UnassignedId && f.parentId == UnassignedId
    ensures f.name == name && f.logicalType == logicalType && f.typeId == typeId
    ensures f.children == []
    ensures Unassigned([f])
  {
    PreorderAllSingle(Field(UnassignedId, UnassignedId, name, logicalType, typeId, []));
    Field(UnassignedId, UnassignedId, name, logicalType, typeId, [])
  }

  /** `Field::AddChild`: `child` becomes the last child of `f`. */
  function AddChild(f: Field, child: Field): (r: Field)
    ensures r.children == f.children + [child]
    ensures r.(children := f.children) == f
  {
    f.(children := f.children + [child])
  }

  /** `Schema::AddField`: `f` becomes the last top-level field. */
  function AddField(s: Schema, f: Field): (r: Schema)
    ensures r.fields == s.fields + [f]
  {
    Schema(s.fields + [f])
  }

  /** Every field of the subtrees `fs` still has the unassigned id and parent id. */
  ghost predicate Unassigned(fs: seq<Field>) {
    forall g :: g in PreorderAll(fs) ==> g.id == UnassignedId && g.parentId == UnassignedId
  }

  /** Ids stay -1 while a tree is built from new fields with AddChild and AddField. */
  lemma UnassignedPreserved(s: Schema, f: Field, child: Field)
    requires Unassigned(s.fields) && Unassigned([f]) && Unassigned([child])
    ensures Unassigned([AddChild(f, child)])
    ensures Unassigned(AddField(s, f).fields)
  {
    PreorderAllSingle(f);
    PreorderAllSingle(child);
    PreorderAllSingle(AddChild(f, child));
    PreorderAllAppend(f.children, [child]);
    PreorderAllAppend(s.fields, [f]);
  }

  /** Adding a field adds it and everything below it to the count. */
  lemma AddFieldCount(s: Schema, f: Field)
    ensures GetFieldsCount(AddField(s, f)) == GetFieldsCount(s) + 1 + FieldCount(f)
  {
    PreorderAllAppend(s.fields, [f]);
    PreorderAllSingle(f);
    CountAllIsPreorderLength(f.children);
  }

  // ---------------------------------------------------------------------------
  // Removing a field by id (schema.h:103, 194).

  /** `Field::RemoveChild(id)`: remove the first field below `f`, in pre-order, that has
      the id; the flag says whether one was removed. */
  function RemoveChild(f: Field, id: int): (Field, bool)
    decreases f, 1
  {
    var (kids, removed) := RemoveFromForest(f.children, id);
    (f.(children := kids), removed)
  }

  /** The removal loop of `Schema::RemoveField` and `Field::RemoveChild` over the siblings `fs`:
      a sibling with the id is erased, otherwise its own subtree is searched. */
  function RemoveFromForest(fs: seq<Field>, id: int): (seq<Field>, bool)
    decreases fs, 0
  {
    if fs == [] then ([], false)
    else if fs[0].id == id then (fs[1..], true)
    else
      var (g, removed) := RemoveChild(fs[0], id);
      if removed then ([g] + fs[1..], true)
      else
        var (rest, removedRest) := RemoveFromForest(fs[1..], id);
        ([fs[0]] + rest, removedRest)
  }

  /** `Schema::RemoveField(id)`. */
  function RemoveField(s: Schema, id: int): (Schema, bool) {
    var (fs, removed) := RemoveFromForest(s.fields, id);
    (Schema(fs), removed)
  }

  /** A field is removed exactly when the tree has one with that id, and the removal takes
      away that field's whole subtree: the one `GetField(id)` finds. */
  lemma {:induction false} RemoveFromForestSpec(fs: seq<Field>, id: int)
    ensures RemoveFromForest(fs, id).1 <==> id in Ids(PreorderAll(fs))
    ensures RemoveFromForest(fs, id).1 ==>
      (GetByIdAll(fs, id).Some? &&
       |PreorderAll(RemoveFromForest(fs, id).0)| == |PreorderAll(fs)| - |Preorder(GetByIdAll(fs, id).value)|)
    ensures !RemoveFromForest(fs, id).1 ==> RemoveFromForest(fs, id).0 == fs
    decreases fs
  {
    if fs != [] {
      var f := fs[0];
      FirstWithIdFound(PreorderAll(fs), id);
      FirstWithIdFound(PreorderAll(f.children), id);
      FirstWithIdFound(PreorderAll(fs[1..]), id);
      PreorderAllAppend([f], fs[1..]);
      PreorderAllSingle(f);
      assert [f] + fs[1..] == fs;
      IdsAppend(Preorder(f), PreorderAll(fs[1..]));
      IdsAppend([f], PreorderAll(f.children));
      if f.id != id {
        RemoveFromForestSpec(f.children, id);
        var (g, removed) := RemoveChild(f, id);
        if removed {
          PreorderAllAppend([g], fs[1..]);
          PreorderAllSingle(g);
        } else {
          RemoveFromForestSpec(fs[1..], id);
          var rest := RemoveFromForest(fs[1..], id).0;
          PreorderAllAppend([f], rest);
        }
      }
    }
  }

  /** Cutting `m` elements at position `a` of the middle part of `p + y + z`. */
  lemma CutMiddle<T>(p: seq<T>, y: seq<T>, z: seq<T>, a: int, m: int)
    requires 0 <= a && 0 <= m && a + m <= |y|
    ensures (p + y + z)[..|p| + a] + (p + y + z)[|p| + a + m..] == p + (y[..a] + y[a + m..]) + z
    ensures (p + y + z)[|p| + a..|p| + a + m] == y[a..a + m]
  {
  }

  /** Cutting `m` elements at position `a` of the last part of `p + y + z`. */
  lemma CutLast<T>(p: seq<T>, y: seq<T>, z: seq<T>, a: int, m: int)
    requires 0 <= a && 0 <= m && a + m <= |z|
    ensures (p + y + z)[..|p| + |y| + a] + (p + y + z)[|p| + |y| + a + m..] == p + y + (z[..a] + z[a + m..])
    ensures (p + y + z)[|p| + |y| + a..|p| + |y| + a + m] == z[a..a + m]
  {
  }

  /** The pre-order listing of `fs` split at its first field: that field, its
      descendants, then the subtrees of the later siblings. */
  lemma PreorderAllSplit(fs: seq<Field>)
    requires fs != []
    ensures PreorderAll(fs) == [fs[0]] + PreorderAll(fs[0].children) + PreorderAll(fs[1..])
    ensures Ids(PreorderAll(fs)) == [fs[0].id] + Ids(PreorderAll(fs[0].children)) + Ids(PreorderAll(fs[1..]))
  {
    IdsAppend([fs[0]] + PreorderAll(fs[0].children), PreorderAll(fs[1..]));
    IdsAppend([fs[0]], PreorderAll(fs[0].children));
  }

  /** What a removal of `id` from `fs` takes away: the first field in pre-order with the
      id sits at position `k` (the one `GetField(id)` finds); its subtree is the block of
      the pre-order listing that starts there; and the ids of the tree after the removal
      are the ids before it with exactly that block cut out, all others kept in order. */
  ghost predicate CutsSubtree(fs: seq<Field>, id: int) {
    var all := PreorderAll(fs);
    var k := FirstIndexWithId(all, id);
    && k < |all|
    && k + |Preorder(all[k])| <= |all|
    && all[k..k + |Preorder(all[k])|] == Preorder(all[k])
    && Ids(PreorderAll(RemoveFromForest(fs, id).0)) == Ids(all)[..k] + Ids(all)[k + |Preorder(all[k])|..]
  }

  /** A removal cuts out exactly the subtree of the first field with the id. */
  lemma {:induction false} RemoveCutsSubtree(fs: seq<Field>, id: int)
    requires id in Ids(PreorderAll(fs))
    ensures CutsSubtree(fs, id)
    decreases fs
  {
    var f := fs[0];
    var c := PreorderAll(f.children);
    var rs := PreorderAll(fs[1..]);
    PreorderAllSplit(fs);
    IdsAppend([f] + c, rs);
    IdsAppend([f], c);
    if f.id == id {
      RemoveAtHead(fs, id);
    } else if id in Ids(c) {
      RemoveCutsSubtree(f.children, id);
      RemoveInChild(fs, id);
    } else {
      RemoveCutsSubtree(fs[1..], id);
      RemoveInSiblings(fs, id);
    }
  }

  /** `Schema::RemoveField(id)`: a field is removed exactly when `GetField(id)` finds one;
      then the removed fields are exactly that field and its descendants, the rest of the
      tree keeping its ids in pre-order; otherwise the schema is unchanged. */
  lemma RemoveFieldSpec(s: Schema, id: int)
    ensures RemoveField(s, id).1 <==> GetFieldById(s, id).Some?
    ensures !RemoveField(s, id).1 ==> RemoveField(s, id).0 == s
    ensures RemoveField(s, id).1 ==>
      var all := PreorderAll(s.fields);
      var k := FirstIndexWithId(all, id);
      var m := |Preorder(GetFieldById(s, id).value)|;
      && k < |all| && GetFieldById(s, id) == Some(all[k])
      && k + m <= |all| && all[k..k + m] == Preorder(all[k])
      && Ids(PreorderAll(RemoveField(s, id).0.fields)) == Ids(all)[..k] + Ids(all)[k + m..]
  {
    RemoveFromForestSpec(s.fields, id);
    if RemoveField(s, id).1 {
      RemoveCutsSubtree(s.fields, id);
    }
  }

  lemma RemoveAtHead(fs: seq<Field>, id: int)
    requires fs != [] && fs[0].id == id
    ensures CutsSubtree(fs, id)
  {
    var f := fs[0];
    var all := PreorderAll(fs);
    PreorderAllSplit(fs);
    assert FirstIndexWithId(all, id) == 0;
    assert all[0..|Preorder(f)|] == Preorder(f);
    assert Ids(all)[|Preorder(f)|..] == Ids(PreorderAll(fs[1..]));
  }

  lemma RemoveInChild(fs: seq<Field>, id: int)
    requires fs != [] && fs[0].id != id
    requires id in Ids(PreorderAll(fs[0].children))
    requires CutsSubtree(fs[0].children, id)
    ensures CutsSubtree(fs, id)
  {
    var f := fs[0];
    var c := PreorderAll(f.children);
    var kids := RemoveFromForest(f.children, id).0;
    var a := FirstIndexWithId(c, id);
    var m := |Preorder(c[a])|;
    assert a < |c| && a + m <= |c| && c[a..a + m] == Preorder(c[a]);
    assert Ids(PreorderAll(kids)) == Ids(c)[..a] + Ids(c)[a + m..];
    InChildStep(fs, id, c, kids, a, m);
  }

  /** The facts of `RemoveInChild` over named sequences. */
  lemma InChildStep(fs: seq<Field>, id: int, c: seq<Field>, kids: seq<Field>, a: nat, m: nat)
    requires fs != [] && fs[0].id != id
    requires c == PreorderAll(fs[0].children) && kids == RemoveFromForest(fs[0].children, id).0
    requires a == FirstIndexWithId(c, id) && a < |c| && m == |Preorder(c[a])|
    requires a + m <= |c| && c[a..a + m] == Preorder(c[a])
    requires Ids(PreorderAll(kids)) == Ids(c)[..a] + Ids(c)[a + m..]
    ensures CutsSubtree(fs, id)
  {
    var rs := PreorderAll(fs[1..]);
    InChildPosition(fs, id, c, rs, a, m);
    InChildAfter(fs, id, c, kids, rs, a, m);
    CutsAt(fs, id, 1 + a, m);
  }

  /** Where the first field with the id sits when it is below `fs[0]`. */
  lemma InChildPosition(fs: seq<Field>, id: int, c: seq<Field>, rs: seq<Field>, a: nat, m: nat)
    requires fs != [] && fs[0].id != id
    requires c == PreorderAll(fs[0].children) && rs == PreorderAll(fs[1..])
    requires a == FirstIndexWithId(c, id) && a < |c| && m == |Preorder(c[a])|
    requires a + m <= |c| && c[a..a + m] == Preorder(c[a])
    ensures SubtreeAt(fs, id, 1 + a, m)
  {
    PreorderAllSplit(fs);
    CutInMiddle(fs[0], c, rs, id, a, m);
  }

  /** What is left when the first field with the id is below `fs[0]`. */
  lemma InChildAfter(fs: seq<Field>, id: int, c: seq<Field>, kids: seq<Field>, rs: seq<Field>, a: nat, m: nat)
    requires fs != [] && fs[0].id != id
    requires c == PreorderAll(fs[0].children) && kids == RemoveFromForest(fs[0].children, id).0
    requires rs == PreorderAll(fs[1..])
    requires a == FirstIndexWithId(c, id) && a < |c| && a + m <= |c|
    requires Ids(PreorderAll(kids)) == Ids(c)[..a] + Ids(c)[a + m..]
    ensures IdsCutAt(fs, id, 1 + a, m)
  {
    ChildRemoved(fs, id, c, kids);
    PreorderIdsSplit(fs);
    CutMiddle([fs[0].id], Ids(c), Ids(rs), a, m);
  }

  /** The ids of `fs` after the removal, when the id is below `fs[0]`. */
  lemma ChildRemoved(fs: seq<Field>, id: int, c: seq<Field>, kids: seq<Field>)
    requires fs != [] && fs[0].id != id
    requires c == PreorderAll(fs[0].children) && kids == RemoveFromForest(fs[0].children, id).0
    requires FirstIndexWithId(c, id) < |c|
    ensures Ids(PreorderAll(RemoveFromForest(fs, id).0)) == [fs[0].id] + Ids(PreorderAll(kids)) + Ids(PreorderAll(fs[1..]))
  {
    var after := [fs[0].(children := kids)] + fs[1..];
    assert RemoveFromForest(fs, id).0 == after by {
      RemoveFromForestSpec(fs[0].children, id);
      FirstWithIdFound(c, id);
    }
    PreorderIdsSplit(after);
    assert after[0].children == kids && after[1..] == fs[1..];
  }

  /** The first field with the id, when it lies in the middle part `c` of `[f] + c + rs`. */
  lemma CutInMiddle(f: Field, c: seq<Field>, rs: seq<Field>, id: int, a: nat, m: nat)
    requires f.id != id && a == FirstIndexWithId(c, id) && a < |c| && a + m <= |c|
    ensures FirstIndexWithId([f] + c + rs, id) == 1 + a
    ensures ([f] + c + rs)[1 + a] == c[a] && ([f] + c + rs)[1 + a..1 + a + m] == c[a..a + m]
  {
    FirstIndexWithIdAppend([f] + c, rs, id);
    FirstIndexWithIdAppend([f], c, id);
    CutMiddle([f], c, rs, a, m);
  }

  /** The first field with the id, when it lies in the last part `rs` of `[f] + c + rs`. */
  lemma CutInLast(f: Field, c: seq<Field>, rs: seq<Field>, id: int, a: nat, m: nat)
    requires f.id != id && FirstIndexWithId(c, id) == |c|
    requires a == FirstIndexWithId(rs, id) && a < |rs| && a + m <= |rs|
    ensures FirstIndexWithId([f] + c + rs, id) == 1 + |c| + a
    ensures ([f] + c + rs)[1 + |c| + a] == rs[a]
    ensures ([f] + c + rs)[1 + |c| + a..1 + |c| + a + m] == rs[a..a + m]
  {
    FirstIndexWithIdAppend([f] + c, rs, id);
    FirstIndexWithIdAppend([f], c, id);
    CutLast([f], c, rs, a, m);
  }

  /** The first field with the id is at position `k` of the pre-order listing, and its
      subtree is the block of `m` fields that starts there. */
  ghost predicate SubtreeAt(fs: seq<Field>, id: int, k: nat, m: nat) {
    && FirstIndexWithId(PreorderAll(fs), id) == k && k < |PreorderAll(fs)| && k + m <= |PreorderAll(fs)|
    && m == |Preorder(PreorderAll(fs)[k])|
    && PreorderAll(fs)[k..k + m] == Preorder(PreorderAll(fs)[k])
  }

  /** The ids after the removal are those before it without the block `k .. k + m`. */
  ghost predicate IdsCutAt(fs: seq<Field>, id: int, k: nat, m: nat) {
    && k + m <= |PreorderAll(fs)|
    && Ids(PreorderAll(RemoveFromForest(fs, id).0)) == Ids(PreorderAll(fs))[..k] + Ids(PreorderAll(fs))[k + m..]
  }

  /** `CutsSubtree` from its two halves. */
  lemma CutsAt(fs: seq<Field>, id: int, k: nat, m: nat)
    requires SubtreeAt(fs, id, k, m) && IdsCutAt(fs, id, k, m)
    ensures CutsSubtree(fs, id)
  {
  }

  lemma RemoveInSiblings(fs: seq<Field>, id: int)
    requires fs != [] && fs[0].id != id
    requires id !in Ids(PreorderAll(fs[0].children))
    requires id in Ids(PreorderAll(fs[1..]))
    requires CutsSubtree(fs[1..], id)
    ensures CutsSubtree(fs, id)
  {
    var rs := PreorderAll(fs[1..]);
    var rest := RemoveFromForest(fs[1..], id).0;
    var a := FirstIndexWithId(rs, id);
    var m := |Preorder(rs[a])|;
    assert a < |rs| && a + m <= |rs| && rs[a..a + m] == Preorder(rs[a]);
    assert Ids(PreorderAll(rest)) == Ids(rs)[..a] + Ids(rs)[a + m..];
    InSiblingsStep(fs, id, rs, rest, a, m);
  }

  /** The facts of `RemoveInSiblings` over named sequences. */
  lemma InSiblingsStep(fs: seq<Field>, id: int, rs: seq<Field>, rest: seq<Field>, a: nat, m: nat)
    requires fs != [] && fs[0].id != id
    requires id !in Ids(PreorderAll(fs[0].children))
    requires rs == PreorderAll(fs[1..]) && rest == RemoveFromForest(fs[1..], id).0
    requires a == FirstIndexWithId(rs, id) && a < |rs| && m == |Preorder(rs[a])|
    requires a + m <= |rs| && rs[a..a + m] == Preorder(rs[a])
    requires Ids(PreorderAll(rest)) == Ids(rs)[..a] + Ids(rs)[a + m..]
    ensures CutsSubtree(fs, id)
  {
    var c := PreorderAll(fs[0].children);
    InSiblingsPosition(fs, id, c, rs, a, m);
    InSiblingsAfter(fs, id, c, rs, rest, a, m);
    CutsAt(fs, id, 1 + |c| + a, m);
  }

  /** Where the first field with the id sits when it is in a later sibling's subtree. */
  lemma InSiblingsPosition(fs: seq<Field>, id: int, c: seq<Field>, rs: seq<Field>, a: nat, m: nat)
    requires fs != [] && fs[0].id != id
    requires c == PreorderAll(fs[0].children) && id !in Ids(c) && rs == PreorderAll(fs[1..])
    requires a == FirstIndexWithId(rs, id) && a < |rs| && m == |Preorder(rs[a])|
    requires a + m <= |rs| && rs[a..a + m] == Preorder(rs[a])
    ensures SubtreeAt(fs, id, 1 + |c| + a, m)
  {
    PreorderAllSplit(fs);
    FirstWithIdFound(c, id);
    CutInLast(fs[0], c, rs, id, a, m);
  }

  /** What is left when the first field with the id is in a later sibling's subtree. */
  lemma InSiblingsAfter(fs: seq<Field>, id: int, c: seq<Field>, rs: seq<Field>, rest: seq<Field>, a: nat, m: nat)
    requires fs != [] && fs[0].id != id
    requires c == PreorderAll(fs[0].children) && id !in Ids(c)
    requires rs == PreorderAll(fs[1..]) && rest == RemoveFromForest(fs[1..], id).0
    requires 0 <= a && a + m <= |rs|
    requires Ids(PreorderAll(rest)) == Ids(rs)[..a] + Ids(rs)[a + m..]
    ensures IdsCutAt(fs, id, 1 + |c| + a, m)
  {
    SiblingsRemoved(fs, id, c, rest);
    PreorderIdsSplit(fs);
    CutLast([fs[0].id], Ids(c), Ids(rs), a, m);
  }

  /** The ids of `fs` after the removal, when the id is not at or below `fs[0]`. */
  lemma SiblingsRemoved(fs: seq<Field>, id: int, c: seq<Field>, rest: seq<Field>)
    requires fs != [] && fs[0].id != id
    requires c == PreorderAll(fs[0].children) && id !in Ids(c)
    requires rest == RemoveFromForest(fs[1..], id).0
    ensures Ids(PreorderAll(RemoveFromForest(fs, id).0)) == [fs[0].id] + Ids(c) + Ids(PreorderAll(rest))
  {
    var after := [fs[0]] + rest;
    assert RemoveFromForest(fs, id).0 == after by {
      RemoveFromForestSpec(fs[0].children, id);
    }
    PreorderIdsSplit(after);
    assert after[0] == fs[0] && after[1..] == rest;
  }

  /** The ids of the pre-order listing of `fs`, split at its first field. */
  lemma PreorderIdsSplit(fs: seq<Field>)
    requires fs != []
    ensures |PreorderAll(fs)| == 1 + |PreorderAll(fs[0].children)| + |PreorderAll(fs[1..])|
    ensures Ids(PreorderAll(fs)) == [fs[0].id] + Ids(PreorderAll(fs[0].children)) + Ids(PreorderAll(fs[1..]))
  {
    PreorderAllSplit(fs);
  }

  // ---------------------------------------------------------------------------
  // Assigning ids (schema.h:97-98, 192).

  /** The consecutive integers `lo, lo + 1, ..., hi - 1`. */
  function Range(lo: int, hi: int): (r: seq<int>)
    requires lo <= hi
    ensures |r| == hi - lo
    ensures forall i :: 0 <= i < hi - lo ==> r[i] == lo + i
  {
    seq(hi - lo, i => lo + i)
  }

  /** Every field below `f` names its parent's id as its parent id. */
  ghost predicate Linked(f: Field)
    decreases f, 1
  {
    ForestLinked(f.children, f.id)
  }

  /** Every field of `fs` has parent id `parent`, and the subtrees are linked. */
  ghost predicate ForestLinked(fs: seq<Field>, parent: int)
    decreases fs, 0
  {
    fs == [] || (fs[0].parentId == parent && Linked(fs[0]) && ForestLinked(fs[1..], parent))
  }

  lemma {:induction false} ForestLinkedAppend(a: seq<Field>, b: seq<Field>, parent: int)
    requires ForestLinked(a, parent) && ForestLinked(b, parent)
    ensures ForestLinked(a + b, parent)
  {
    if a != [] {
      assert (a + b)[0] == a[0];
      assert (a + b)[1..] == a[1..] + b;
      ForestLinkedAppend(a[1..], b, parent);
    } else {
      assert a + b == b;
    }
  }

  lemma ForestLinkedSingle(f: Field, parent: int)
    requires f.parentId == parent && Linked(f)
    ensures ForestLinked([f], parent)
  {
    assert [f][1..] == [];
  }

  lemma RangeAppend(lo: int, mid: int, hi: int)
    requires lo <= mid <= hi
    ensures Range(lo, mid) + Range(mid, hi) == Range(lo, hi)
  {
  }

  /** One step of the numbering loops: appending the numbered subtree `c` of `orig` to the
      numbered siblings `kids` of `prefix` keeps them numbered consecutively from `start`. */
  lemma NumberedStep(kids: seq<Field>, prefix: seq<Field>, c: Field, orig: Field,
                     parent: int, start: int, counter: int, n: int)
    requires StripAll(kids) == StripAll(prefix)
    requires ForestLinked(kids, parent)
    requires counter == start + |PreorderAll(prefix)|
    requires Ids(PreorderAll(kids)) == Range(start, counter)
    requires Strip(c) == Strip(orig) && c.parentId == parent && Linked(c)
    requires n == counter + |Preorder(orig)|
    requires Ids(Preorder(c)) == Range(counter, n)
    ensures StripAll(kids + [c]) == StripAll(prefix + [orig])
    ensures ForestLinked(kids + [c], parent)
    ensures n == start + |PreorderAll(prefix + [orig])|
    ensures Ids(PreorderAll(kids + [c])) == Range(start, n)
  {
    ForestLinkedSingle(c, parent);
    ForestLinkedAppend(kids, [c], parent);
    StripAllAppend(kids, [c]);
    StripAllAppend(prefix, [orig]);
    assert StripAll([c]) == [Strip(c)];
    assert StripAll([orig]) == [Strip(orig)];
    PreorderAllAppend(kids, [c]);
    PreorderAllAppend(prefix, [orig]);
    PreorderAllSingle(c);
    PreorderAllSingle(orig);
    IdsAppend(PreorderAll(kids), Preorder(c));
    RangeAppend(start, counter, n);
  }

  /** `Field::SetId(parent_id, current_id)`: number `f` with `*current_id`, then its
      subtrees in order with the following ids; `next` is the counter afterwards. */
  method SetId(f: Field, parentId: int, current: int) returns (g: Field, next: int)
    ensures Strip(g) == Strip(f)
    ensures g.id == current && g.parentId == parentId && Linked(g)
    ensures next == current + |Preorder(f)|
    ensures Ids(Preorder(g)) == Range(current, next)
    decreases f
  {
    var id := current;
    var counter := current + 1;
    var kids: seq<Field> := [];
    for j := 0 to |f.children|
      invariant StripAll(kids) == StripAll(f.children[..j])
      invariant ForestLinked(kids, id)
      invariant counter == current + 1 + |PreorderAll(f.children[..j])|
      invariant Ids(PreorderAll(kids)) == Range(current + 1, counter)
    {
      var c, n := SetId(f.children[j], id, counter);
      NumberedStep(kids, f.children[..j], c, f.children[j], id, current + 1, counter, n);
      assert f.children[..j + 1] == f.children[..j] + [f.children[j]];
      kids := kids + [c];
      counter := n;
    }
    assert f.children[..|f.children|] == f.children;
    g := f.(id := id, parentId := parentId, children := kids);
    next := counter;
    NumberedField(f, g, parentId, current, next);
  }

  /** A field given id `current` over its children numbered from `current + 1` up to
      `next` is numbered from `current` up to `next`. */
  lemma NumberedField(f: Field, g: Field, parentId: int, current: int, next: int)
    requires g == f.(id := current, parentId := parentId, children := g.children)
    requires StripAll(g.children) == StripAll(f.children)
    requires ForestLinked(g.children, current)
    requires next == current + 1 + |PreorderAll(f.children)|
    requires Ids(PreorderAll(g.children)) == Range(current + 1, next)
    ensures Strip(g) == Strip(f)
    ensures g.id == current && g.parentId == parentId && Linked(g)
    ensures next == current + |Preorder(f)|
    ensures Ids(Preorder(g)) == Range(current, next)
  {
    IdsAppend([g], PreorderAll(g.children));
    RangeAppend(current, current + 1, next);
  }

  /** `Schema::AssignIds`: number the whole tree in pre-order from 0, top-level fields
      having parent -1. Names and types stay as they were. */
  method AssignIds(s: Schema) returns (r: Schema)
    ensures StripAll(r.fields) == StripAll(s.fields)
    ensures ForestLinked(r.fields, UnassignedId)
    ensures Ids(PreorderAll(r.fields)) == Range(0, GetFieldsCount(s))
  {
    var counter := 0;
    var done: seq<Field> := [];
    for i := 0 to |s.fields|
      invariant StripAll(done) == StripAll(s.fields[..i])
      invariant ForestLinked(done, UnassignedId)
      invariant counter == |PreorderAll(s.fields[..i])|
      invariant Ids(PreorderAll(done)) == Range(0, counter)
    {
      var g, n := SetId(s.fields[i], UnassignedId, counter);
      NumberedStep(done, s.fields[..i], g, s.fields[i], UnassignedId, 0, counter, n);
      assert s.fields[..i + 1] == s.fields[..i] + [s.fields[i]];
      done := done + [g];
      counter := n;
    }
    assert s.fields[..|s.fields|] == s.fields;
    r := Schema(done);
  }

  lemma {:induction false} FirstWithIdAt(fs: seq<Field>, k: int)
    requires 0 <= k < |fs| && fs[k].id == k
    requires forall i :: 0 <= i < k ==> fs[i].id != k
    ensures FirstWithId(fs, k) == Some(fs[k])
  {
    if k > 0 {
      var t := fs[1..];
      assert forall i :: 0 <= i < k - 1 ==> t[i].id != k by {
        forall i | 0 <= i < k - 1 ensures t[i].id != k {
          assert t[i] == fs[i + 1];
        }
      }
      FirstWithIdAtShift(t, k - 1, k);
    }
  }

  lemma {:induction false} FirstWithIdAtShift(fs: seq<Field>, j: int, id: int)
    requires 0 <= j < |fs| && fs[j].id == id
    requires forall i :: 0 <= i < j ==> fs[i].id != id
    ensures FirstWithId(fs, id) == Some(fs[j])
  {
    if j > 0 {
      var t := fs[1..];
      assert forall i :: 0 <= i < j - 1 ==> t[i].id != id by {
        forall i | 0 <= i < j - 1 ensures t[i].id != id {
          assert t[i] == fs[i + 1];
        }
      }
      FirstWithIdAtShift(t, j - 1, id);
    }
  }

  /** Once ids are assigned, `GetField(k)` finds the k-th field of the tree in pre-order. */
  lemma AssignedIdsResolve(s: Schema, k: int)
    requires Ids(PreorderAll(s.fields)) == Range(0, |PreorderAll(s.fields)|)
    requires 0 <= k < |PreorderAll(s.fields)|
    ensures GetFieldById(s, k) == Some(PreorderAll(s.fields)[k])
  {
    var all := PreorderAll(s.fields);
    assert forall i :: 0 <= i < |all| ==> all[i].id == i by {
      forall i | 0 <= i < |all| ensures all[i].id == i {
        assert Ids(all)[i] == all[i].id;
      }
    }
    FirstWithIdAtShift(all, k, k);
  }

  // ---------------------------------------------------------------------------
  // Conversion to Arrow (schema.h:47, 126, 135).

  /** `Field::type()`: the field's type id with its children's Arrow fields. */
  function TypeOf(f: Field): (t: DataType)
    ensures t.id == f.typeId && |t.children| == |f.children|
    decreases f, 1
  {
    DataType(f.typeId, ToArrowFields(f.children))
  }

  /** `Field::ToArrow`. */
  function ToArrowField(f: Field): (af: ArrowField)
    ensures af.name == f.name && af.dtype.id == f.typeId && |af.dtype.children| == |f.children|
    decreases f, 2
  {
    ArrowField(f.name, TypeOf(f))
  }

  function ToArrowFields(fs: seq<Field>): (r: seq<ArrowField>)
    ensures |r| == |fs|
    ensures forall i :: 0 <= i < |fs| ==> r[i].name == fs[i].name
    decreases fs, 0
  {
    if fs == [] then [] else [ToArrowField(fs[0])] + ToArrowFields(fs[1..])
  }

  lemma {:induction false} ToArrowFieldsAt(fs: seq<Field>, i: int)
    requires 0 <= i < |fs|
    ensures ToArrowFields(fs)[i] == ToArrowField(fs[i])
  {
    assert ToArrowFields(fs) == [ToArrowField(fs[0])] + ToArrowFields(fs[1..]);
    if i > 0 {
      ToArrowFieldsAt(fs[1..], i - 1);
    }
  }

  /** `Schema::ToArrow`: one Arrow field per top-level field, in order. */
  function ToArrow(s: Schema): (a: ArrowSchema)
    ensures |a.fields| == |s.fields|
    ensures forall i :: 0 <= i < |s.fields| ==> a.fields[i] == ToArrowField(s.fields[i])
  {
    forall i | 0 <= i < |s.fields| ensures ToArrowFields(s.fields)[i] == ToArrowField(s.fields[i]) {
      ToArrowFieldsAt(s.fields, i);
    }
    ArrowSchema(ToArrowFields(s.fields))
  }
}
