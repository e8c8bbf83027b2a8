/** Served columns (src/constraints.cpp): nullability rewritten, through nested
    STRUCTs, to match a table's NOT_NULL and PRIMARY_KEY records. */
module ServedSchema {
  import opened Basics

  /** An Arrow field: its metadata keys and values ride along. */
  datatype Field = Field(name: Bytes, nullable: bool, metadata: seq<(Bytes, Bytes)>, ty: Type)

  datatype Type = Struct(children: seq<Field>) | Leaf(tag: Bytes)

  const EXTENSION_NAME: Bytes := Ascii("ARROW:extension:name")
  const LOGICAL_TYPE: Bytes := Ascii("vgi.logical_type.")
  const ROW_ID: Bytes := Ascii("is_row_id")

  predicate IsRowId(f: Field) { exists i :: 0 <= i < |f.metadata| && f.metadata[i].0 == ROW_ID }

  /** A STRUCT of its own, not the storage of an extension or logical type. */
  predicate IsOrdinary(f: Field) {
    && f.ty.Struct?
    && forall i :: 0 <= i < |f.metadata| ==> f.metadata[i].0 != EXTENSION_NAME && !(LOGICAL_TYPE <= f.metadata[i].0)
  }

  /** `serve_field`. */
  function Serve(f: Field, path: Path, required: set<Path>): Field
    decreases f, 0
  {
    var served := f.(nullable := path !in required);
    if IsOrdinary(f) then served.(ty := Struct(ServeAll(f.ty.children, path, required))) else served
  }

  function ServeAll(fields: seq<Field>, parent: Path, required: set<Path>): (r: seq<Field>)
    ensures |r| == |fields|
    decreases fields, 1
  {
    if fields == [] then []
    else [Serve(fields[0], parent + [fields[0].name], required)] + ServeAll(fields[1..], parent, required)
  }

  /** `serve_schema`: a top-level row-id column is left as it is. */
  function ServeSchema(columns: seq<Field>, required: set<Path>): (r: seq<Field>)
    ensures |r| == |columns|
  {
    seq(|columns|, i requires 0 <= i < |columns| =>
      if IsRowId(columns[i]) then columns[i] else Serve(columns[i], [columns[i].name], required))
  }

  lemma {:induction false} ServeAllAt(fields: seq<Field>, parent: Path, required: set<Path>, i: nat)
    requires i < |fields|
    ensures ServeAll(fields, parent, required)[i] == Serve(fields[i], parent + [fields[i].name], required)
  {
    if i > 0 { ServeAllAt(fields[1..], parent, required, i - 1); }
  }

  // ---- What serving changes ----

  /** A field with every reachable nullability forgotten. */
  function Shape(f: Field): Field
    decreases f, 0
  {
    var g := f.(nullable := true);
    if IsOrdinary(f) then g.(ty := Struct(Shapes(f.ty.children))) else g
  }

  function Shapes(fields: seq<Field>): (r: seq<Field>)
    ensures |r| == |fields|
    decreases fields, 1
  {
    if fields == [] then [] else [Shape(fields[0])] + Shapes(fields[1..])
  }

  /** Serving changes nothing but nullability, at every depth. */
  lemma {:induction false} ServeKeepsShape(f: Field, path: Path, required: set<Path>)
    ensures Shape(Serve(f, path, required)) == Shape(f)
    decreases f, 0
  {
    if IsOrdinary(f) { ServeAllKeepsShape(f.ty.children, path, required); }
  }

  lemma {:induction false} ServeAllKeepsShape(fields: seq<Field>, parent: Path, required: set<Path>)
    ensures Shapes(ServeAll(fields, parent, required)) == Shapes(fields)
    decreases fields, 1
  {
    if fields != [] {
      ServeKeepsShape(fields[0], parent + [fields[0].name], required);
      ServeAllKeepsShape(fields[1..], parent, required);
      var served := ServeAll(fields, parent, required);
      assert served[1..] == ServeAll(fields[1..], parent, required);
    }
  }

  lemma {:induction false} ServeIdempotent(f: Field, path: Path, required: set<Path>)
    ensures Serve(Serve(f, path, required), path, required) == Serve(f, path, required)
    decreases f, 0
  {
    if IsOrdinary(f) { ServeAllIdempotent(f.ty.children, path, required); }
  }

  lemma {:induction false} ServeAllIdempotent(fields: seq<Field>, parent: Path, required: set<Path>)
    ensures ServeAll(ServeAll(fields, parent, required), parent, required) == ServeAll(fields, parent, required)
    decreases fields, 1
  {
    if fields != [] {
      ServeIdempotent(fields[0], parent + [fields[0].name], required);
      ServeAllIdempotent(fields[1..], parent, required);
      var served := ServeAll(fields, parent, required);
      assert served[1..] == ServeAll(fields[1..], parent, required);
    }
  }

  /** Serving served columns changes nothing. */
  lemma ServeSchemaIdempotent(columns: seq<Field>, required: set<Path>)
    ensures ServeSchema(ServeSchema(columns, required), required) == ServeSchema(columns, required)
  {
    var served := ServeSchema(columns, required);
    forall i | 0 <= i < |columns| ensures ServeSchema(served, required)[i] == served[i] {
      if !IsRowId(columns[i]) { ServeIdempotent(columns[i], [columns[i].name], required); }
    }
  }

  // ---- The nullability walk ----

  /** The fields below a parent, or the columns themselves, row ids aside. */
  function Walked(columns: seq<Field>): seq<Field> {
    if columns == [] then []
    else (if IsRowId(columns[0]) then [] else [columns[0]]) + Walked(columns[1..])
  }

  /** The walk that ends `validate_records`. */
  predicate WalkField(f: Field, path: Path, required: set<Path>)
    decreases f, 0
  {
    && f.nullable == (path !in required)
    && (IsOrdinary(f) ==> WalkAll(f.ty.children, path, required))
  }

  predicate WalkAll(fields: seq<Field>, parent: Path, required: set<Path>)
    decreases fields, 1
  {
    fields == []
    || (WalkField(fields[0], parent + [fields[0].name], required) && WalkAll(fields[1..], parent, required))
  }

  predicate WalkSchema(columns: seq<Field>, required: set<Path>) { WalkAll(Walked(columns), [], required) }

  lemma {:induction false} WalkServed(f: Field, path: Path, required: set<Path>)
    ensures WalkField(Serve(f, path, required), path, required)
    decreases f, 0
  {
    if IsOrdinary(f) { WalkServedAll(f.ty.children, path, required); }
  }

  lemma {:induction false} WalkServedAll(fields: seq<Field>, parent: Path, required: set<Path>)
    ensures WalkAll(ServeAll(fields, parent, required), parent, required)
    decreases fields, 1
  {
    if fields != [] {
      WalkServed(fields[0], parent + [fields[0].name], required);
      WalkServedAll(fields[1..], parent, required);
      var served := ServeAll(fields, parent, required);
      assert served[1..] == ServeAll(fields[1..], parent, required);
    }
  }

  /** The columns the walk visits after serving are the served ones. */
  lemma {:induction false} WalkedServed(columns: seq<Field>, required: set<Path>)
    ensures Walked(ServeSchema(columns, required)) == ServeAll(Walked(columns), [], required)
  {
    if columns != [] {
      var served := ServeSchema(columns, required);
      assert served[1..] == ServeSchema(columns[1..], required);
      WalkedServed(columns[1..], required);
      assert IsRowId(served[0]) == IsRowId(columns[0]);
      if !IsRowId(columns[0]) {
        var w := Walked(columns);
        assert w[0] == columns[0] && w[1..] == Walked(columns[1..]);
        assert [] + [columns[0].name] == [columns[0].name];
      } else {
        assert Walked(columns) == Walked(columns[1..]);
        assert Walked(served) == Walked(served[1..]);
      }
    }
  }

  /** The final walk can never fail, whatever the columns and the records. */
  lemma WalkNeverFails(columns: seq<Field>, required: set<Path>)
    ensures WalkSchema(ServeSchema(columns, required), required)
  {
    WalkedServed(columns, required);
    WalkServedAll(Walked(columns), [], required);
  }

  // ---- Reachable paths ----

  /** The paths of the fields a walk visits, and of those not nullable. */
  function Reach(fields: seq<Field>, parent: Path): set<Path>
    decreases fields, 1
  {
    if fields == [] then {}
    else ReachField(fields[0], parent + [fields[0].name]) + Reach(fields[1..], parent)
  }

  function ReachField(f: Field, path: Path): set<Path>
    decreases f, 0
  {
    {path} + if IsOrdinary(f) then Reach(f.ty.children, path) else {}
  }

  function NonNull(fields: seq<Field>, parent: Path): set<Path>
    decreases fields, 1
  {
    if fields == [] then {}
    else NonNullField(fields[0], parent + [fields[0].name]) + NonNull(fields[1..], parent)
  }

  function NonNullField(f: Field, path: Path): set<Path>
    decreases f, 0
  {
    (if f.nullable then {} else {path}) + if IsOrdinary(f) then NonNull(f.ty.children, path) else {}
  }

  lemma {:induction false} ServedField(f: Field, path: Path, required: set<Path>)
    ensures NonNullField(Serve(f, path, required), path) == ReachField(f, path) * required
    decreases f, 0
  {
    if IsOrdinary(f) { ServedFields(f.ty.children, path, required); }
  }

  lemma {:induction false} ServedFields(fields: seq<Field>, parent: Path, required: set<Path>)
    ensures NonNull(ServeAll(fields, parent, required), parent) == Reach(fields, parent) * required
    decreases fields, 1
  {
    if fields != [] {
      ServedField(fields[0], parent + [fields[0].name], required);
      ServedFields(fields[1..], parent, required);
      var served := ServeAll(fields, parent, required);
      assert served[1..] == ServeAll(fields[1..], parent, required);
    }
  }

  /** After serving, the non-nullable reachable paths are exactly the
      reachable ones some record requires, at every depth. */
  lemma NonNullIsRequired(columns: seq<Field>, required: set<Path>)
    ensures NonNull(Walked(ServeSchema(columns, required)), []) == Reach(Walked(columns), []) * required
  {
    WalkedServed(columns, required);
    ServedFields(Walked(columns), [], required);
  }

  // ---- Resolving a path ----

  /** The fields of a name, in order. */
  function Named(fields: seq<Field>, name: Bytes): seq<Field> {
    if fields == [] then []
    else (if fields[0].name == name then [fields[0]] else []) + Named(fields[1..], name)
  }

  /** `top_level`: the one column of a name, and not a row id. */
  function TopLevel(columns: seq<Field>, name: Bytes): Option<Field> {
    var found := Named(columns, name);
    if |found| != 1 || IsRowId(found[0]) then None else Some(found[0])
  }

  /** `nested`: the one child of a name. */
  function Nested(f: Field, name: Bytes): Option<Field>
    requires f.ty.Struct?
  {
    var found := Named(f.ty.children, name);
    if |found| == 1 then Some(found[0]) else None
  }

  /** Down the rest of a path, through ordinary STRUCTs only. */
  function Descend(f: Field, path: Path): Option<Field>
    decreases |path|
  {
    if path == [] then Some(f)
    else if !IsOrdinary(f) then None
    else
      var child :- Nested(f, path[0]);
      Descend(child, path[1..])
  }

  function Resolve(columns: seq<Field>, path: Path): Option<Field>
    requires path != []
  {
    var f :- TopLevel(columns, path[0]);
    Descend(f, path[1..])
  }

  lemma {:induction false} NamedIn(fields: seq<Field>, name: Bytes, parent: Path)
    requires |Named(fields, name)| == 1
    ensures var f := Named(fields, name)[0]; f.name == name && ReachField(f, parent + [name]) <= Reach(fields, parent)
  {
    if fields[0].name != name {
      assert Named(fields, name) == Named(fields[1..], name);
      NamedIn(fields[1..], name, parent);
    }
  }

  lemma {:induction false} DescendReaches(f: Field, prefix: Path, path: Path)
    requires Descend(f, path).Some?
    ensures prefix + path in ReachField(f, prefix)
    decreases |path|
  {
    if path == [] {
      assert prefix + path == prefix;
    } else {
      NamedIn(f.ty.children, path[0], prefix);
      DescendReaches(Nested(f, path[0]).value, prefix + [path[0]], path[1..]);
      assert prefix + [path[0]] + path[1..] == prefix + path;
    }
  }

  lemma {:induction false} NamedWalked(columns: seq<Field>, name: Bytes)
    ensures |Named(Walked(columns), name)| <= |Named(columns, name)|
    ensures forall f :: f in Named(columns, name) && !IsRowId(f) ==> f in Named(Walked(columns), name)
  {
    if columns != [] {
      NamedWalked(columns[1..], name);
      if IsRowId(columns[0]) {
        assert Walked(columns) == Walked(columns[1..]);
      } else {
        var w := Walked(columns);
        assert w[0] == columns[0] && w[1..] == Walked(columns[1..]);
      }
    }
  }

  /** A path that resolves is one the walk visits. */
  lemma ResolvedIsReached(columns: seq<Field>, path: Path)
    requires path != [] && Resolve(columns, path).Some?
    ensures path in Reach(Walked(columns), [])
  {
    var f := TopLevel(columns, path[0]).value;
    NamedWalked(columns, path[0]);
    var found := Named(Walked(columns), path[0]);
    assert f in Named(columns, path[0]) && f in found && |found| == 1;
    assert found[0] == f;
    NamedIn(Walked(columns), path[0], []);
    assert [] + [path[0]] == [path[0]];
    DescendReaches(f, [path[0]], path[1..]);
    assert [path[0]] + path[1..] == path;
  }

  // ---- Resolving served columns ----

  lemma {:induction false} NamedServeAll(fields: seq<Field>, parent: Path, required: set<Path>, name: Bytes)
    ensures Named(ServeAll(fields, parent, required), name) ==
      ServeAll(Named(fields, name), parent, required)
  {
    if fields != [] {
      var served := ServeAll(fields, parent, required);
      assert served[1..] == ServeAll(fields[1..], parent, required);
      NamedServeAll(fields[1..], parent, required, name);
      var rest := Named(fields[1..], name);
      if fields[0].name == name {
        assert Named(fields, name) == [fields[0]] + rest;
        assert ([fields[0]] + rest)[1..] == rest;
      } else {
        assert Named(fields, name) == rest;
        assert Named(served, name) == Named(served[1..], name);
      }
    }
  }

  lemma {:induction false} DescendServed(f: Field, prefix: Path, path: Path, required: set<Path>)
    ensures Descend(Serve(f, prefix, required), path).Some? <==> Descend(f, path).Some?
    decreases |path|
  {
    if path != [] && IsOrdinary(f) {
      NamedServeAll(f.ty.children, prefix, required, path[0]);
      var found := Named(f.ty.children, path[0]);
      if |found| == 1 {
        ServeAllAt(found, prefix, required, 0);
        DescendServed(found[0], prefix + [found[0].name], path[1..], required);
      }
    }
  }

  lemma {:induction false} NamedServed(columns: seq<Field>, required: set<Path>, name: Bytes)
    ensures Named(ServeSchema(columns, required), name) == ServeSchema(Named(columns, name), required)
  {
    if columns != [] {
      var served := ServeSchema(columns, required);
      assert served[1..] == ServeSchema(columns[1..], required);
      NamedServed(columns[1..], required, name);
      assert served[0].name == columns[0].name;
    }
  }

  /** Serving does not change which paths resolve. */
  lemma ResolveServed(columns: seq<Field>, required: set<Path>, path: Path)
    requires path != []
    ensures Resolve(ServeSchema(columns, required), path).Some? <==> Resolve(columns, path).Some?
  {
    NamedServed(columns, required, path[0]);
    var found := Named(columns, path[0]);
    if |found| == 1 && !IsRowId(found[0]) {
      DescendServed(found[0], [found[0].name], path[1..], required);
    }
  }
}
