/** Name lookup, projection and exclusion on the schema tree of `lance/format/schema.h`
    (lines 52-67, 81-85, 163-164, 180-181). A field's path is the list of names from its
    top-level ancestor down to it; a fully qualified column name is that path joined
    with dots. */
module SchemaProjection {
  import opened Wrappers
  import opened ArrowType
  import opened LanceSchema

  // ---------------------------------------------------------------------------
  // Dotted names.

  /** The index of the first '.' in `s`, or -1. */
  function IndexOfDot(s: string): (r: int)
    ensures -1 <= r < |s|
    ensures r == -1 <==> '.' !in s
    ensures r >= 0 ==> s[r] == '.' && '.' !in s[..r]
  {
    if s == [] then -1
    else if s[0] == '.' then 0
    else
      var r := IndexOfDot(s[1..]);
      assert s == [s[0]] + s[1..];
      if r == -1 then -1
      else
        assert s[..r + 1] == [s[0]] + s[1..][..r];
        r + 1
  }

  /** A fully qualified name split at its dots: "annotations.box.xmin" gives
      ["annotations", "box", "xmin"]. */
  function SplitPath(name: string): (parts: seq<string>)
    ensures |parts| >= 1
    ensures forall p :: p in parts ==> '.' !in p
    ensures JoinPath(parts) == name
    decreases |name|
  {
    var i := IndexOfDot(name);
    if i < 0 then [name]
    else
      var rest := SplitPath(name[i + 1..]);
      assert ([name[..i]] + rest)[1..] == rest;
      assert name == name[..i] + "." + name[i + 1..];
      [name[..i]] + rest
  }

  /** The fully qualified name of a path. */
  function JoinPath(path: seq<string>): string
    requires |path| >= 1
  {
    if |path| == 1 then path[0] else path[0] + "." + JoinPath(path[1..])
  }

  /** Splitting the qualified name of a path gives the path back, when no name on the
      path contains a dot. */
  lemma {:induction false} SplitJoinPath(path: seq<string>)
    requires |path| >= 1
    requires forall p :: p in path ==> '.' !in p
    ensures SplitPath(JoinPath(path)) == path
  {
    var head := path[0];
    assert head in path;
    if |path| == 1 {
      assert JoinPath(path) == head;
      assert IndexOfDot(head) == -1;
      assert SplitPath(head) == [head];
    } else {
      var rest := JoinPath(path[1..]);
      var s := head + "." + rest;
      assert JoinPath(path) == s;
      IndexOfDotAfter(head, rest);
      assert s[..|head|] == head;
      assert s[|head| + 1..] == rest;
      assert SplitPath(s) == [head] + SplitPath(rest);
      assert forall p :: p in path[1..] ==> p in path;
      SplitJoinPath(path[1..]);
      assert path == [head] + path[1..];
    }
  }

  lemma {:induction false} IndexOfDotAfter(head: string, rest: string)
    requires '.' !in head
    ensures IndexOfDot(head + "." + rest) == |head|
  {
    if head != [] {
      assert (head + "." + rest)[1..] == head[1..] + "." + rest;
      IndexOfDotAfter(head[1..], rest);
    }
  }

  // ---------------------------------------------------------------------------
  // Lookup by name (schema.h:81-85, 163-164, 180-181).

  /** The first field of `fs` with the given name. */
  function FirstNamed(fs: seq<Field>, name: string): (r: Option<Field>)
    ensures r.Some? ==> r.value in fs && r.value.name == name
    ensures r.None? <==> forall i :: 0 <= i < |fs| ==> fs[i].name != name
  {
    if fs == [] then None
    else if fs[0].name == name then Some(fs[0])
    else
      var r := FirstNamed(fs[1..], name);
      assert forall i :: 1 <= i < |fs| ==> fs[i] == fs[1..][i - 1];
      r
  }

  /** `Field::Get(name)`: the direct child of `f` with that name, or none when `f` has no
      such child. Grandchildren are never returned. */
  function FieldGetByName(f: Field, name: string): (r: Option<Field>)
    ensures r.Some? ==> r.value in f.children && r.value.name == name
    ensures r.None? <==> forall i :: 0 <= i < |f.children| ==> f.children[i].name != name
  {
    FirstNamed(f.children, name)
  }

  /** `Field::Get(field_path, start_idx)` followed from the top level: at each level the
      first field with the path's next name. */
  function LookupPath(fs: seq<Field>, path: seq<string>): Option<Field>
    decreases path
  {
    if path == [] then None
    else
      match FirstNamed(fs, path[0])
      case None => None
      case Some(f) => if |path| == 1 then Some(f) else LookupPath(f.children, path[1..])
  }

  /** `Schema::GetField(name)`: the field with the fully qualified name, or none. */
  function GetFieldByName(s: Schema, name: string): Option<Field> {
    LookupPath(s.fields, SplitPath(name))
  }

  /** Names are unique among siblings, at every level of the tree. */
  ghost predicate UniqueNames(fs: seq<Field>)
    decreases fs
  {
    && (forall i, j :: 0 <= i < j < |fs| ==> fs[i].name != fs[j].name)
    && (forall i :: 0 <= i < |fs| ==> UniqueNames(fs[i].children))
  }

  /** `g` is the field of `fs` at `path`. */
  ghost predicate AtPath(fs: seq<Field>, path: seq<string>, g: Field)
    decreases path
  {
    && |path| >= 1
    && exists i :: 0 <= i < |fs| && fs[i].name == path[0] &&
         (if |path| == 1 then g == fs[i] else AtPath(fs[i].children, path[1..], g))
  }

  lemma FirstNamedUnique(fs: seq<Field>, i: int)
    requires 0 <= i < |fs|
    requires forall a, b :: 0 <= a < b < |fs| ==> fs[a].name != fs[b].name
    ensures FirstNamed(fs, fs[i].name) == Some(fs[i])
  {
    if i > 0 {
      FirstNamedUnique(fs[1..], i - 1);
    }
  }

  /** With names unique among siblings, a path leads to exactly the field at that path. */
  lemma {:induction false} LookupPathExact(fs: seq<Field>, path: seq<string>, g: Field)
    requires UniqueNames(fs)
    ensures LookupPath(fs, path) == Some(g) <==> AtPath(fs, path, g)
    decreases path
  {
    if |path| >= 1 {
      var r := FirstNamed(fs, path[0]);
      if r.None? {
        assert !AtPath(fs, path, g);
      } else {
        var f := r.value;
        var k :| 0 <= k < |fs| && fs[k] == f;
        FirstNamedUnique(fs, k);
        if |path| > 1 {
          LookupPathExact(f.children, path[1..], g);
        }
        if AtPath(fs, path, g) {
          var i :| 0 <= i < |fs| && fs[i].name == path[0] &&
            (if |path| == 1 then g == fs[i] else AtPath(fs[i].children, path[1..], g));
          FirstNamedUnique(fs, i);
        }
      }
    }
  }

  /** `Schema::GetField` resolves the fully qualified name of a path to the field at that
      path, and to nothing when there is no such field. */
  lemma GetFieldByQualifiedName(s: Schema, path: seq<string>, g: Field)
    requires UniqueNames(s.fields)
    requires |path| >= 1 && forall p :: p in path ==> '.' !in p
    ensures GetFieldByName(s, JoinPath(path)) == Some(g) <==> AtPath(s.fields, path, g)
  {
    SplitJoinPath(path);
    LookupPathExact(s.fields, path, g);
  }

  /** `Schema::GetField(name)` for any name: it finds the field at the path the name's
      dot-separated components spell, and nothing when no field is at that path. */
  lemma GetFieldByNameExact(s: Schema, name: string, g: Field)
    requires UniqueNames(s.fields)
    ensures GetFieldByName(s, name) == Some(g) <==> AtPath(s.fields, SplitPath(name), g)
  {
    LookupPathExact(s.fields, SplitPath(name), g);
  }

  // ---------------------------------------------------------------------------
  // Paths of a tree.

  /** The paths of all fields of the subtrees `fs`. */
  function PathSet(fs: seq<Field>): set<seq<string>>
    decreases fs, 0
  {
    if fs == [] then {} else FieldPaths(fs[0]) + PathSet(fs[1..])
  }

  /** The paths of `f` and the fields below it. */
  function FieldPaths(f: Field): set<seq<string>>
    decreases f, 1
  {
    {[f.name]} + (set p | p in PathSet(f.children) :: [f.name] + p)
  }

  lemma {:induction false} PathSetNonEmpty(fs: seq<Field>)
    ensures forall p :: p in PathSet(fs) ==> |p| >= 1 && exists i :: 0 <= i < |fs| && p[0] == fs[i].name
    decreases fs
  {
    if fs != [] {
      PathSetNonEmpty(fs[1..]);
      forall p | p in PathSet(fs)
        ensures |p| >= 1 && exists i :: 0 <= i < |fs| && p[0] == fs[i].name
      {
        if p in FieldPaths(fs[0]) {
          assert p[0] == fs[0].name;
        } else {
          var i :| 0 <= i < |fs[1..]| && p[0] == fs[1..][i].name;
          assert fs[1..][i] == fs[i + 1];
        }
      }
    }
  }

  lemma FieldPathsHead(f: Field)
    ensures forall p :: p in FieldPaths(f) ==> |p| >= 1 && p[0] == f.name
  {
  }

  // ---------------------------------------------------------------------------
  // Projection by column names (schema.h:52-58).

  /** `p` lies on the way to a requested path, or below one. */
  ghost predicate Related(p: seq<string>, requested: seq<seq<string>>) {
    exists q :: q in requested && (p <= q || q <= p)
  }

  /** Some requested path goes through a top-level field named `name`. */
  predicate Selected(name: string, requested: seq<seq<string>>) {
    exists q :: q in requested && |q| >= 1 && q[0] == name
  }

  /** The requested paths continued below a field named `name`. */
  function Tails(requested: seq<seq<string>>, name: string): (r: seq<seq<string>>)
    ensures forall t :: t in r <==> exists q :: q in requested && |q| > 1 && q[0] == name && t == q[1..]
  {
    if requested == [] then []
    else
      var rest := Tails(requested[1..], name);
      var q := requested[0];
      assert forall x :: x in requested <==> x == q || x in requested[1..];
      if |q| > 1 && q[0] == name then [q[1..]] + rest else rest
  }

  /** The projection of the subtrees `fs` onto the requested paths: a field is kept when a
      requested path goes through it, and a field that is itself requested keeps all of
      its children. Field order, ids and types are kept. */
  function ProjectForest(fs: seq<Field>, requested: seq<seq<string>>): seq<Field>
    decreases fs, 0
  {
    if fs == [] then []
    else
      (if Selected(fs[0].name, requested) then [ProjectField(fs[0], requested)] else [])
      + ProjectForest(fs[1..], requested)
  }

  function ProjectField(f: Field, requested: seq<seq<string>>): (r: Field)
    ensures r.(children := f.children) == f
    decreases f, 1
  {
    if [f.name] in requested then f
    else f.(children := ProjectForest(f.children, Tails(requested, f.name)))
  }

  function Paths(names: seq<string>): (r: seq<seq<string>>)
    ensures |r| == |names|
    ensures forall i :: 0 <= i < |names| ==> r[i] == SplitPath(names[i])
    ensures forall q :: q in r ==> |q| >= 1
  {
    seq(|names|, i requires 0 <= i < |names| => SplitPath(names[i]))
  }

  /** `Schema::Project(column_names)`: fails with Invalid when some name does not resolve;
      otherwise the view that keeps exactly the fields on the way to, or below, a
      requested column. */
  function Project(s: Schema, names: seq<string>): (r: Result<Schema>)
    ensures r.Ok? <==> forall i :: 0 <= i < |names| ==> GetFieldByName(s, names[i]).Some?
    ensures r.Err? ==> r.error.Invalid?
    ensures r.Ok? ==> PathSet(r.value.fields) == set p | p in PathSet(s.fields) && Related(p, Paths(names))
  {
    if exists i :: 0 <= i < |names| && GetFieldByName(s, names[i]).None? then
      Err(Invalid("Field does not exist"))
    else
      ProjectPaths(s.fields, Paths(names));
      Ok(Schema(ProjectForest(s.fields, Paths(names))))
  }

  lemma NotSelectedUnrelated(f: Field, requested: seq<seq<string>>)
    requires forall q :: q in requested ==> |q| >= 1
    requires !Selected(f.name, requested)
    ensures forall p :: p in FieldPaths(f) ==> !Related(p, requested)
  {
    FieldPathsHead(f);
    forall p, q | p in FieldPaths(f) && q in requested ensures !(p <= q) && !(q <= p) {
      assert q[0] != p[0];
    }
  }

  lemma WholeRelated(f: Field, requested: seq<seq<string>>)
    requires [f.name] in requested
    ensures forall p :: p in FieldPaths(f) ==> Related(p, requested)
  {
    forall p | p in FieldPaths(f) ensures Related(p, requested) {
      FieldPathsHead(f);
      assert [f.name] <= p;
    }
  }

  /** Below a selected field that is not itself requested, `[name] + p` is related to the
      requested paths exactly when `p` is related to their tails. */
  lemma RelatedBelow(name: string, p: seq<string>, requested: seq<seq<string>>)
    requires forall q :: q in requested ==> |q| >= 1
    requires [name] !in requested
    ensures Related([name] + p, requested) <==> Related(p, Tails(requested, name))
  {
    var np := [name] + p;
    assert np[0] == name && np[1..] == p;
    if Related(np, requested) {
      var q :| q in requested && (np <= q || q <= np);
      assert q[0] == name;
      assert |q| != 1 || q == [name];
      assert q == [name] + q[1..];
      assert q[1..] in Tails(requested, name);
      if np <= q {
        assert p <= q[1..];
      } else {
        assert q[1..] <= p;
      }
    }
    if Related(p, Tails(requested, name)) {
      var t :| t in Tails(requested, name) && (p <= t || t <= p);
      var q :| q in requested && |q| > 1 && q[0] == name && t == q[1..];
      assert q == [q[0]] + q[1..];
      if p <= t {
        assert np <= q;
      } else {
        assert q <= np;
      }
      assert Related(np, requested);
    }
  }

  lemma {:induction false} ProjectFieldPaths(f: Field, requested: seq<seq<string>>)
    requires forall q :: q in requested ==> |q| >= 1
    requires Selected(f.name, requested)
    ensures FieldPaths(ProjectField(f, requested)) == set p | p in FieldPaths(f) && Related(p, requested)
    decreases f, 1
  {
    if [f.name] in requested {
      WholeRelated(f, requested);
    } else {
      var tails := Tails(requested, f.name);
      ProjectPaths(f.children, tails);
      var q :| q in requested && |q| >= 1 && q[0] == f.name;
      assert [f.name] <= q;
      assert Related([f.name], requested);
      forall p | p in PathSet(f.children)
        ensures Related([f.name] + p, requested) <==> Related(p, tails)
      {
        RelatedBelow(f.name, p, requested);
      }
    }
  }

  /** The projection keeps exactly the paths related to a requested path. */
  lemma {:induction false} ProjectPaths(fs: seq<Field>, requested: seq<seq<string>>)
    requires forall q :: q in requested ==> |q| >= 1
    ensures PathSet(ProjectForest(fs, requested)) == set p | p in PathSet(fs) && Related(p, requested)
    decreases fs, 0
  {
    if fs != [] {
      ProjectPaths(fs[1..], requested);
      var rest := ProjectForest(fs[1..], requested);
      if Selected(fs[0].name, requested) {
        ProjectFieldPaths(fs[0], requested);
        var g := ProjectField(fs[0], requested);
        assert ProjectForest(fs, requested) == [g] + rest;
        assert ([g] + rest)[1..] == rest;
      } else {
        NotSelectedUnrelated(fs[0], requested);
        assert ProjectForest(fs, requested) == rest;
      }
    }
  }

  lemma {:induction false} FirstNamedProject(fs: seq<Field>, requested: seq<seq<string>>, name: string)
    requires Selected(name, requested)
    ensures FirstNamed(fs, name).Some? ==>
      FirstNamed(ProjectForest(fs, requested), name) == Some(ProjectField(FirstNamed(fs, name).value, requested))
  {
    if fs != [] {
      var rest := ProjectForest(fs[1..], requested);
      FirstNamedProject(fs[1..], requested, name);
      if Selected(fs[0].name, requested) {
        var g := ProjectField(fs[0], requested);
        assert ProjectForest(fs, requested) == [g] + rest;
        assert ([g] + rest)[1..] == rest;
      } else {
        assert ProjectForest(fs, requested) == rest;
      }
    }
  }

  /** A requested path of two or more names continues below the field its head names. */
  lemma TailOfRequested(requested: seq<seq<string>>, q: seq<string>)
    requires q in requested && |q| > 1
    ensures q[1..] in Tails(requested, q[0])
  {
  }

  /** A path is followed from the first field named by its head. */
  lemma LookupPathStep(fs: seq<Field>, q: seq<string>, f: Field)
    requires |q| >= 1 && FirstNamed(fs, q[0]) == Some(f)
    ensures |q| == 1 ==> LookupPath(fs, q) == Some(f)
    ensures |q| > 1 ==> LookupPath(fs, q) == LookupPath(f.children, q[1..])
  {
  }

  /** Every requested path that resolves in the schema still resolves in the projection,
      to a field with the same id. */
  lemma {:induction false} ProjectKeepsRequested(fs: seq<Field>, requested: seq<seq<string>>, q: seq<string>)
    requires forall t :: t in requested ==> |t| >= 1
    requires q in requested
    requires LookupPath(fs, q).Some?
    ensures LookupPath(ProjectForest(fs, requested), q).Some?
    ensures LookupPath(ProjectForest(fs, requested), q).value.id == LookupPath(fs, q).value.id
    decreases q
  {
    assert Selected(q[0], requested);
    var f := FirstNamed(fs, q[0]).value;
    FirstNamedProject(fs, requested, q[0]);
    var pfs := ProjectForest(fs, requested);
    var g := ProjectField(f, requested);
    LookupPathStep(fs, q, f);
    LookupPathStep(pfs, q, g);
    if |q| > 1 && [f.name] !in requested {
      TailOfRequested(requested, q);
      ProjectKeepsRequested(f.children, Tails(requested, f.name), q[1..]);
    }
  }

  /** Projecting a schema by names keeps every requested column reachable by its name. */
  lemma ProjectResolvesNames(s: Schema, names: seq<string>, i: int)
    requires Project(s, names).Ok?
    requires 0 <= i < |names|
    ensures GetFieldByName(Project(s, names).value, names[i]).Some?
    ensures GetFieldByName(Project(s, names).value, names[i]).value.id == GetFieldByName(s, names[i]).value.id
  {
    assert Paths(names)[i] in Paths(names);
    ProjectKeepsRequested(s.fields, Paths(names), SplitPath(names[i]));
  }

  // ---------------------------------------------------------------------------
  // Projection by an Arrow schema (schema.h:60-61, 186-187).

  /** The first Arrow field with the given name. */
  function FirstArrowNamed(afs: seq<ArrowField>, name: string): (r: Option<ArrowField>)
    ensures r.Some? ==> r.value in afs && r.value.name == name
    ensures r.None? <==> forall i :: 0 <= i < |afs| ==> afs[i].name != name
  {
    if afs == [] then None
    else if afs[0].name == name then Some(afs[0])
    else
      assert forall i :: 1 <= i < |afs| ==> afs[i] == afs[1..][i - 1];
      FirstArrowNamed(afs[1..], name)
  }

  /** `Schema::Project(arrow_schema)` on the subtrees `fs`: every Arrow field must name a
      field of `fs` (Invalid otherwise); the fields named by the Arrow fields are kept, in
      schema order, each projected onto its Arrow field's type children. */
  function ProjectByArrow(fs: seq<Field>, afs: seq<ArrowField>): (r: Result<seq<Field>>)
    ensures (exists i :: 0 <= i < |afs| && FirstNamed(fs, afs[i].name).None?) ==> r.Err?
    decreases fs, 1
  {
    if exists i :: 0 <= i < |afs| && FirstNamed(fs, afs[i].name).None? then
      Err(Invalid("Field does not exist"))
    else
      KeepByArrow(fs, afs)
  }

  function KeepByArrow(fs: seq<Field>, afs: seq<ArrowField>): Result<seq<Field>>
    decreases fs, 0
  {
    if fs == [] then Ok([])
    else
      match FirstArrowNamed(afs, fs[0].name)
      case None => KeepByArrow(fs[1..], afs)
      case Some(af) =>
        var kids :- ProjectByArrow(fs[0].children, af.dtype.children);
        var rest :- KeepByArrow(fs[1..], afs);
        Ok([fs[0].(children := kids)] + rest)
  }

  function ProjectArrow(s: Schema, a: ArrowSchema): Result<Schema> {
    var fs :- ProjectByArrow(s.fields, a.fields);
    Ok(Schema(fs))
  }

  /** Every Arrow field names a field of `fs`, and, at every level below, the children of
      each field an Arrow field names resolve against that Arrow field's type children. */
  ghost predicate ArrowResolves(fs: seq<Field>, afs: seq<ArrowField>)
    decreases fs, 1
  {
    && (forall i :: 0 <= i < |afs| ==> FirstNamed(fs, afs[i].name).Some?)
    && KidsResolve(fs, afs)
  }

  /** The children of every field of `fs` that an Arrow field names resolve against that
      Arrow field's type children. */
  ghost predicate KidsResolve(fs: seq<Field>, afs: seq<ArrowField>)
    decreases fs, 0
  {
    forall j :: 0 <= j < |fs| && FirstArrowNamed(afs, fs[j].name).Some? ==>
      ArrowResolves(fs[j].children, FirstArrowNamed(afs, fs[j].name).value.dtype.children)
  }

  /** The fields of `fs` that some Arrow field names, in schema order. */
  function Named(fs: seq<Field>, afs: seq<ArrowField>): (r: seq<Field>)
    ensures |r| <= |fs|
    ensures forall g :: g in r ==> g in fs && FirstArrowNamed(afs, g.name).Some?
    ensures forall j :: 0 <= j < |fs| && FirstArrowNamed(afs, fs[j].name).Some? ==> fs[j] in r
  {
    if fs == [] then []
    else
      var rest := Named(fs[1..], afs);
      assert forall j :: 1 <= j < |fs| ==> fs[j] == fs[1..][j - 1];
      if FirstArrowNamed(afs, fs[0].name).Some? then [fs[0]] + rest else rest
  }

  /** `r` holds the fields of `fs` that the Arrow fields name, in schema order, each with
      its id, name and types kept and its children projected onto the type children of the
      Arrow field that names it. */
  ghost predicate ProjectedAs(r: seq<Field>, fs: seq<Field>, afs: seq<ArrowField>) {
    var named := Named(fs, afs);
    && |r| == |named|
    && forall i :: 0 <= i < |r| ==>
         && FirstArrowNamed(afs, named[i].name).Some?
         && r[i] == named[i].(children := r[i].children)
         && ProjectByArrow(named[i].children, FirstArrowNamed(afs, named[i].name).value.dtype.children)
            == Ok(r[i].children)
  }

  /** `Schema::Project(arrow_schema)` on subtrees: it succeeds exactly when the Arrow
      fields resolve at every level, and then keeps exactly the named fields in schema
      order, each projected onto its Arrow field's children. */
  lemma {:induction false} ProjectByArrowSpec(fs: seq<Field>, afs: seq<ArrowField>)
    ensures ProjectByArrow(fs, afs).Ok? <==> ArrowResolves(fs, afs)
    ensures ProjectByArrow(fs, afs).Ok? ==> ProjectedAs(ProjectByArrow(fs, afs).value, fs, afs)
    decreases fs, 1
  {
    if !exists i :: 0 <= i < |afs| && FirstNamed(fs, afs[i].name).None? {
      KeepByArrowSpec(fs, afs);
    }
  }

  lemma {:induction false} KeepByArrowSpec(fs: seq<Field>, afs: seq<ArrowField>)
    ensures KeepByArrow(fs, afs).Ok? <==> KidsResolve(fs, afs)
    ensures KeepByArrow(fs, afs).Ok? ==> ProjectedAs(KeepByArrow(fs, afs).value, fs, afs)
    decreases fs, 0
  {
    if fs != [] {
      var f := fs[0];
      var tail := fs[1..];
      KeepByArrowSpec(tail, afs);
      assert forall j :: 1 <= j < |fs| ==> fs[j] == tail[j - 1];
      assert KidsResolve(fs, afs) <==>
        (FirstArrowNamed(afs, f.name).Some? ==>
           ArrowResolves(f.children, FirstArrowNamed(afs, f.name).value.dtype.children))
        && KidsResolve(tail, afs) by {
        if KidsResolve(tail, afs) {
          forall j | 1 <= j < |fs| && FirstArrowNamed(afs, fs[j].name).Some?
            ensures ArrowResolves(fs[j].children, FirstArrowNamed(afs, fs[j].name).value.dtype.children)
          {
            assert fs[j] == tail[j - 1];
          }
        }
        if KidsResolve(fs, afs) {
          forall j | 0 <= j < |tail| && FirstArrowNamed(afs, tail[j].name).Some?
            ensures ArrowResolves(tail[j].children, FirstArrowNamed(afs, tail[j].name).value.dtype.children)
          {
            assert tail[j] == fs[j + 1];
          }
        }
      }
      match FirstArrowNamed(afs, f.name)
      case None =>
        assert Named(fs, afs) == Named(tail, afs);
      case Some(af) =>
        ProjectByArrowSpec(f.children, af.dtype.children);
        var kids := ProjectByArrow(f.children, af.dtype.children);
        var rest := KeepByArrow(tail, afs);
        if kids.Ok? && rest.Ok? {
          var r := [f.(children := kids.value)] + rest.value;
          assert KeepByArrow(fs, afs) == Ok(r);
          var named := Named(fs, afs);
          assert named == [f] + Named(tail, afs);
          forall i | 0 <= i < |r|
            ensures && FirstArrowNamed(afs, named[i].name).Some?
                    && r[i] == named[i].(children := r[i].children)
                    && ProjectByArrow(named[i].children, FirstArrowNamed(afs, named[i].name).value.dtype.children)
                       == Ok(r[i].children)
          {
            if i > 0 {
              assert r[i] == rest.value[i - 1] && named[i] == Named(tail, afs)[i - 1];
            }
          }
        }
    }
  }

  /** `Schema::Project(arrow_schema)`: it succeeds exactly when the Arrow schema resolves
      against the schema at every level, and the projected schema keeps exactly the named
      fields with their ids. */
  lemma ProjectArrowSpec(s: Schema, a: ArrowSchema)
    ensures ProjectArrow(s, a).Ok? <==> ArrowResolves(s.fields, a.fields)
    ensures ProjectArrow(s, a).Ok? ==> ProjectedAs(ProjectArrow(s, a).value.fields, s.fields, a.fields)
  {
    ProjectByArrowSpec(s.fields, a.fields);
  }

  lemma {:induction false} KeepByArrowOwn(fs: seq<Field>, afs: seq<ArrowField>)
    requires forall i :: 0 <= i < |fs| ==> UniqueNames(fs[i].children)
    requires forall i :: 0 <= i < |fs| ==> FirstArrowNamed(afs, fs[i].name) == Some(ToArrowField(fs[i]))
    ensures KeepByArrow(fs, afs) == Ok(fs)
    decreases fs, 0
  {
    if fs != [] {
      var f := fs[0];
      var af := ToArrowField(f);
      assert FirstArrowNamed(afs, f.name) == Some(af);
      assert af == ArrowField(f.name, TypeOf(f));
      assert TypeOf(f) == DataType(f.typeId, ToArrowFields(f.children));
      ProjectByArrowOwn(f.children);
      assert forall i :: 0 <= i < |fs[1..]| ==> fs[1..][i] == fs[i + 1];
      KeepByArrowOwn(fs[1..], afs);
      assert f.(children := f.children) == f;
      assert KeepByArrow(fs, afs) == Ok([f] + fs[1..]);
      assert fs == [f] + fs[1..];
    }
  }

  /** Projecting a schema onto its own Arrow form gives the schema back, when names are
      unique among siblings. */
  lemma {:induction false} ProjectByArrowOwn(fs: seq<Field>)
    requires UniqueNames(fs)
    ensures ProjectByArrow(fs, ToArrowFields(fs)) == Ok(fs)
    decreases fs, 1
  {
    var afs := ToArrowFields(fs);
    forall i | 0 <= i < |afs| ensures FirstNamed(fs, afs[i].name).Some? {
      FirstNamedUnique(fs, i);
    }
    forall i | 0 <= i < |fs| ensures FirstArrowNamed(afs, fs[i].name) == Some(ToArrowField(fs[i])) {
      ToArrowFieldsAt(fs, i);
      FirstArrowNamedUnique(afs, i);
    }
    KeepByArrowOwn(fs, afs);
  }

  lemma FirstArrowNamedUnique(afs: seq<ArrowField>, i: int)
    requires 0 <= i < |afs|
    requires forall a, b :: 0 <= a < b < |afs| ==> afs[a].name != afs[b].name
    ensures FirstArrowNamed(afs, afs[i].name) == Some(afs[i])
  {
    if i > 0 {
      FirstArrowNamedUnique(afs[1..], i - 1);
    }
  }

  lemma ProjectArrowOwn(s: Schema)
    requires UniqueNames(s.fields)
    ensures ProjectArrow(s, ToArrow(s)) == Ok(s)
  {
    ProjectByArrowOwn(s.fields);
  }

  // ---------------------------------------------------------------------------
  // Exclusion (schema.h:63-67).

  /** The subtrees `fs` without the columns whose ids are in `excluded`: a field goes when
      its id is excluded and none of its children is left. */
  function ExcludeForest(fs: seq<Field>, excluded: set<int>): seq<Field>
    decreases fs, 0
  {
    if fs == [] then []
    else
      var g := ExcludeField(fs[0], excluded);
      (if fs[0].id in excluded && g.children == [] then [] else [g]) + ExcludeForest(fs[1..], excluded)
  }

  function ExcludeField(f: Field, excluded: set<int>): (r: Field)
    ensures r.(children := f.children) == f
    decreases f, 1
  {
    f.(children := ExcludeForest(f.children, excluded))
  }

  function IdSet(fs: seq<Field>): set<int> {
    set f | f in PreorderAll(fs) :: f.id
  }

  /** `Schema::Exclude(other)`: this schema without the columns of `other`, matched by id.
      A struct field of `other` only goes when all of its children go. */
  function Exclude(s: Schema, other: Schema): Schema {
    Schema(ExcludeForest(s.fields, IdSet(other.fields)))
  }

  /** No field of the result is an excluded column: an excluded id only remains on a
      field that still has children left. */
  lemma {:induction false} ExcludeRemovesColumns(fs: seq<Field>, excluded: set<int>)
    ensures forall g :: g in PreorderAll(ExcludeForest(fs, excluded)) && g.id in excluded ==> g.children != []
    decreases fs
  {
    if fs != [] {
      var g := ExcludeField(fs[0], excluded);
      var rest := ExcludeForest(fs[1..], excluded);
      ExcludeRemovesColumns(fs[0].children, excluded);
      ExcludeRemovesColumns(fs[1..], excluded);
      var head := if fs[0].id in excluded && g.children == [] then [] else [g];
      assert ExcludeForest(fs, excluded) == head + rest;
      PreorderAllAppend(head, rest);
      if head == [g] {
        PreorderAllSingle(g);
      }
    }
  }

  /** Every field whose id is not excluded is still in the result. */
  lemma {:induction false} ExcludeKeepsOthers(fs: seq<Field>, excluded: set<int>)
    ensures forall g :: g in PreorderAll(fs) && g.id !in excluded ==> g.id in IdSet(ExcludeForest(fs, excluded))
    decreases fs
  {
    if fs != [] {
      var f := fs[0];
      var g := ExcludeField(f, excluded);
      var rest := ExcludeForest(fs[1..], excluded);
      var out := ExcludeForest(fs, excluded);
      ExcludeKeepsOthers(f.children, excluded);
      ExcludeKeepsOthers(fs[1..], excluded);
      var head := if f.id in excluded && g.children == [] then [] else [g];
      assert out == head + rest;
      PreorderAllAppend(head, rest);
      PreorderAllAppend([f], fs[1..]);
      assert [f] + fs[1..] == fs;
      PreorderAllSingle(f);
      PreorderAllSingle(g);
      forall h | h in PreorderAll(fs) && h.id !in excluded
        ensures h.id in IdSet(out)
      {
        if h in PreorderAll(fs[1..]) {
          var w :| w in PreorderAll(rest) && w.id == h.id;
          assert w in PreorderAll(out);
        } else if h == f {
          assert head == [g];
          assert g in PreorderAll(out);
        } else {
          assert h in PreorderAll(f.children);
          var w :| w in PreorderAll(g.children) && w.id == h.id;
          assert head == [g];
          assert w in PreorderAll(out);
        }
      }
    }
  }

  /** Exclusion only removes: every id of the result was an id of the schema. */
  lemma {:induction false} ExcludeOnlyRemoves(fs: seq<Field>, excluded: set<int>)
    ensures forall g :: g in PreorderAll(ExcludeForest(fs, excluded)) ==> g.id in IdSet(fs)
    decreases fs
  {
    if fs != [] {
      var f := fs[0];
      var g := ExcludeField(f, excluded);
      var rest := ExcludeForest(fs[1..], excluded);
      ExcludeOnlyRemoves(f.children, excluded);
      ExcludeOnlyRemoves(fs[1..], excluded);
      var head := if f.id in excluded && g.children == [] then [] else [g];
      assert ExcludeForest(fs, excluded) == head + rest;
      PreorderAllAppend(head, rest);
      PreorderAllAppend([f], fs[1..]);
      assert [f] + fs[1..] == fs;
      PreorderAllSingle(f);
      PreorderAllSingle(g);
      forall h | h in PreorderAll(ExcludeForest(fs, excluded)) ensures h.id in IdSet(fs) {
        if h in PreorderAll(rest) {
          var w :| w in PreorderAll(fs[1..]) && w.id == h.id;
          assert w in PreorderAll(fs);
        } else if h == g {
          assert f in PreorderAll(fs);
        } else {
          assert h in PreorderAll(g.children);
          var w :| w in PreorderAll(f.children) && w.id == h.id;
          assert w in PreorderAll(fs);
        }
      }
    }
  }
}
