/**
 * The merge engine of the description manager. The target schema is copied
 * into mutable field records (the dictionary form of a schema field); every
 * record's description is overwritten in place where the mapping holds a
 * truthy description for its qualified name; the records are converted back.
 * Nothing but descriptions is ever written.
 */
module MergeEngine {
  import opened SchemaFields

  /** A write is due when the path is a key and its value is truthy (neither None nor ""). */
  predicate Overwrites(descriptions: Mapping, path: string) {
    path in descriptions && Truthy(descriptions[path])
  }

  /** The description a field at `path` ends up with. */
  function NewDescription(current: Option<string>, path: string, descriptions: Mapping): Option<string>
  {
    if Overwrites(descriptions, path) then descriptions[path] else current
  }

  /** The field `f`, whose qualified name is `path`, after the merge. */
  function MergeField(f: Field, path: string, descriptions: Mapping): Field
    decreases f, 1
  {
    Field(f.name, f.typ, f.mode, NewDescription(f.description, path, descriptions),
          MergeChildren(path, f.children, descriptions))
  }

  /** The nested fields `cs` of the field whose qualified name is `parent`, after the merge. */
  function MergeChildren(parent: string, cs: seq<Field>, descriptions: Mapping): (rs: seq<Field>)
    ensures |rs| == |cs|
    decreases cs, 0
  {
    seq(|cs|, i requires 0 <= i < |cs| => MergeField(cs[i], Child(parent, cs[i].name), descriptions))
  }

  /** The whole schema after the merge: each top-level field starts from its bare name. */
  function MergeSchema(schema: seq<Field>, descriptions: Mapping): (rs: seq<Field>)
    ensures |rs| == |schema|
  {
    seq(|schema|, i requires 0 <= i < |schema| => MergeField(schema[i], schema[i].name, descriptions))
  }

  // ---------------------------------------------------------------------------
  // Properties of the merge, node by node

  /** The merge result of a nested field list addresses exactly the same nodes. */
  lemma {:induction false} MergeChildrenAt(parent: string, cs: seq<Field>, d: Mapping, ix: seq<nat>)
    requires IsIndex(cs, ix)
    ensures IsIndex(MergeChildren(parent, cs, d), ix)
    ensures QualifiedName(MergeChildren(parent, cs, d), ix) == QualifiedName(cs, ix)
    ensures var m, o, p := NodeAt(MergeChildren(parent, cs, d), ix), NodeAt(cs, ix), Child(parent, QualifiedName(cs, ix));
      && m.name == o.name && m.typ == o.typ && m.mode == o.mode
      && |m.children| == |o.children|
      && m.description == NewDescription(o.description, p, d)
    decreases ix
  {
    var c := cs[ix[0]];
    var here := Child(parent, c.name);
    if |ix| > 1 {
      MergeChildrenAt(here, c.children, d, ix[1..]);
      assert Child(here, QualifiedName(c.children, ix[1..])) == Child(parent, QualifiedName(cs, ix));
    }
  }

  /**
   * Overwrite, no-op and shape preservation at every depth: the merged schema
   * has a node wherever the original has one, with the same qualified name,
   * name, type, mode and number of nested fields; its description is the
   * mapped one when that is truthy and the original one otherwise.
   */
  lemma {:induction false} MergeAt(schema: seq<Field>, d: Mapping, ix: seq<nat>)
    requires IsIndex(schema, ix)
    ensures IsIndex(MergeSchema(schema, d), ix)
    ensures QualifiedName(MergeSchema(schema, d), ix) == QualifiedName(schema, ix)
    ensures var m, o, p := NodeAt(MergeSchema(schema, d), ix), NodeAt(schema, ix), QualifiedName(schema, ix);
      && m.name == o.name && m.typ == o.typ && m.mode == o.mode
      && |m.children| == |o.children|
      && (Overwrites(d, p) ==> m.description == d[p])
      && (!Overwrites(d, p) ==> m.description == o.description)
  {
    var f := schema[ix[0]];
    if |ix| > 1 {
      MergeChildrenAt(f.name, f.children, d, ix[1..]);
    }
  }

  lemma {:induction false} MergeChildrenAddNoNode(parent: string, cs: seq<Field>, d: Mapping, ix: seq<nat>)
    requires IsIndex(MergeChildren(parent, cs, d), ix)
    ensures IsIndex(cs, ix)
    decreases ix
  {
    if |ix| > 1 {
      var c := cs[ix[0]];
      assert MergeChildren(parent, cs, d)[ix[0]].children == MergeChildren(Child(parent, c.name), c.children, d);
      MergeChildrenAddNoNode(Child(parent, c.name), c.children, d, ix[1..]);
    }
  }

  /** Conversely, every node of the merged schema stands where a node of the original stands. */
  lemma {:induction false} MergeAddsNoNode(schema: seq<Field>, d: Mapping, ix: seq<nat>)
    requires IsIndex(MergeSchema(schema, d), ix)
    ensures IsIndex(schema, ix)
  {
    if |ix| > 1 {
      var f := schema[ix[0]];
      assert MergeSchema(schema, d)[ix[0]].children == MergeChildren(f.name, f.children, d);
      MergeChildrenAddNoNode(f.name, f.children, d, ix[1..]);
    }
  }

  /** Merging leaves a nested field list unchanged when no node below `parent` is overwritten. */
  lemma {:induction false} MergeChildrenUnchanged(parent: string, cs: seq<Field>, d: Mapping)
    requires forall ix :: IsIndex(cs, ix) ==> !Overwrites(d, Child(parent, QualifiedName(cs, ix)))
    ensures MergeChildren(parent, cs, d) == cs
    decreases cs
  {
    forall i | 0 <= i < |cs|
      ensures MergeField(cs[i], Child(parent, cs[i].name), d) == cs[i]
    {
      var c := cs[i];
      var here := Child(parent, c.name);
      assert IsIndex(cs, [i]);
      forall jx | IsIndex(c.children, jx)
        ensures !Overwrites(d, Child(here, QualifiedName(c.children, jx)))
      {
        IndexDescend(cs, i, jx);
        assert Child(here, QualifiedName(c.children, jx)) == Child(parent, QualifiedName(cs, [i] + jx));
      }
      MergeChildrenUnchanged(here, c.children, d);
    }
  }

  /**
   * Partial overlap, the unmatched side: when no node's qualified name is a key
   * with a truthy value (in particular for the empty mapping, or a mapping whose
   * keys all name fields the schema lacks), the merge returns the schema as it was.
   */
  lemma {:induction false} MergeUnchanged(schema: seq<Field>, d: Mapping)
    requires forall ix :: IsIndex(schema, ix) ==> !Overwrites(d, QualifiedName(schema, ix))
    ensures MergeSchema(schema, d) == schema
  {
    forall i | 0 <= i < |schema|
      ensures MergeField(schema[i], schema[i].name, d) == schema[i]
    {
      var f := schema[i];
      assert IsIndex(schema, [i]);
      forall jx | IsIndex(f.children, jx)
        ensures !Overwrites(d, Child(f.name, QualifiedName(f.children, jx)))
      {
        IndexDescend(schema, i, jx);
      }
      MergeChildrenUnchanged(f.name, f.children, d);
    }
  }

  /** Merging with the empty mapping is the identity. */
  lemma MergeEmpty(schema: seq<Field>)
    ensures MergeSchema(schema, map[]) == schema
  {
    MergeUnchanged(schema, map[]);
  }

  lemma {:induction false} MergeFieldTwice(f: Field, path: string, d: Mapping)
    ensures MergeField(MergeField(f, path, d), path, d) == MergeField(f, path, d)
    decreases f
  {
    forall i | 0 <= i < |f.children|
      ensures MergeField(MergeField(f.children[i], Child(path, f.children[i].name), d), Child(path, f.children[i].name), d)
           == MergeField(f.children[i], Child(path, f.children[i].name), d)
    {
      MergeFieldTwice(f.children[i], Child(path, f.children[i].name), d);
    }
  }

  /** Merging the same mapping twice changes nothing more than merging it once. */
  lemma MergeIdempotent(schema: seq<Field>, d: Mapping)
    ensures MergeSchema(MergeSchema(schema, d), d) == MergeSchema(schema, d)
  {
    forall i | 0 <= i < |schema|
      ensures MergeField(MergeField(schema[i], schema[i].name, d), schema[i].name, d) == MergeField(schema[i], schema[i].name, d)
    {
      MergeFieldTwice(schema[i], schema[i].name, d);
    }
  }

  // ---------------------------------------------------------------------------
  // The mutable dictionary form of a field and the in-place update

  /**
   * The dictionary representation of a schema field (`to_api_repr`): name,
   * type, mode, description and the list of nested field dictionaries.
   * `model` is the field value the record currently represents.
   */
  class FieldRecord {
    var name: string
    var typ: string
    var mode: string
    var description: Option<string>
    var fields: seq<FieldRecord>
    ghost var model: Field
    ghost var Repr: set<object>

    ghost predicate Valid()
      reads this, Repr
      decreases Repr, 1
    {
      && this in Repr
      && model.name == name && model.typ == typ && model.mode == mode && model.description == description
      && NestedValid()
      && |model.children| == |fields|
      && (forall i :: 0 <= i < |fields| ==> fields[i].model == model.children[i])
    }

    /** The nested records are valid and own disjoint parts of `Repr` that exclude this record. */
    ghost predicate NestedValid()
      reads this`fields, this`Repr, Repr - {this}
      decreases Repr, 0
    {
      && this in Repr
      && (forall i :: 0 <= i < |fields| ==>
            && fields[i] in Repr
            && fields[i] != this
            && fields[i].Repr <= Repr
            && this !in fields[i].Repr
            && fields[i].Valid())
      && (forall i, j :: 0 <= i < j < |fields| ==> fields[i].Repr !! fields[j].Repr)
    }

    /** A record over already-built nested records, which own pairwise disjoint parts of `nested`. */
    constructor (name: string, typ: string, mode: string, description: Option<string>,
                 fields: seq<FieldRecord>, ghost children: seq<Field>, ghost nested: set<object>)
      requires |children| == |fields|
      requires forall i :: 0 <= i < |fields| ==>
                 fields[i].Valid() && fields[i].model == children[i] && fields[i].Repr <= nested
      requires forall i, j :: 0 <= i < j < |fields| ==> fields[i].Repr !! fields[j].Repr
      ensures Valid()
      ensures model == Field(name, typ, mode, description, children)
      ensures Repr == {this} + nested
    {
      this.name := name;
      this.typ := typ;
      this.mode := mode;
      this.description := description;
      this.fields := fields;
      this.model := Field(name, typ, mode, description, children);
      this.Repr := {this} + nested;
    }

    /** `SchemaField.to_api_repr`: a fresh record tree representing `f`. */
    static method FromField(f: Field) returns (r: FieldRecord)
      ensures r.Valid() && fresh(r.Repr) && r.model == f
      decreases f
    {
      var nested: seq<FieldRecord> := [];
      ghost var parts: set<object> := {};
      var i := 0;
      while i < |f.children|
        invariant 0 <= i <= |f.children| && |nested| == i
        invariant fresh(parts)
        invariant forall j :: 0 <= j < i ==>
                    nested[j].Valid() && nested[j].model == f.children[j] && nested[j].Repr <= parts
        invariant forall j, k :: 0 <= j < k < i ==> nested[j].Repr !! nested[k].Repr
      {
        var c := FromField(f.children[i]);
        nested := nested + [c];
        parts := parts + c.Repr;
        i := i + 1;
      }
      r := new FieldRecord(f.name, f.typ, f.mode, f.description, nested, f.children, parts);
    }

    /** `SchemaField.from_api_repr`: the field value the record represents. */
    method ToField() returns (f: Field)
      requires Valid()
      ensures f == model
      decreases Repr
    {
      var nested: seq<Field> := [];
      var i := 0;
      while i < |fields|
        invariant 0 <= i <= |fields| && |nested| == i
        invariant forall j :: 0 <= j < i ==> nested[j] == model.children[j]
      {
        var c := fields[i].ToField();
        nested := nested + [c];
        i := i + 1;
      }
      assert nested == model.children;
      f := Field(name, typ, mode, description, nested);
    }

    /**
     * `_update_field`: overwrite this record's description when its qualified
     * name `path` maps to a truthy value, then do the same for every nested
     * record under `path` + "." + its name. Only descriptions change.
     */
    method UpdateField(path: string, descriptions: Mapping)
      requires Valid()
      modifies Repr
      ensures Valid() && Repr == old(Repr)
      ensures model == MergeField(old(model), path, descriptions)
      decreases Repr, 2
    {
      if path in descriptions && Truthy(descriptions[path]) {
        description := descriptions[path];
      }
      UpdateNested(path, descriptions);
      model := MergeField(model, path, descriptions);
      assert model.children == MergeChildren(path, old(model.children), descriptions);
    }

    /** The `for nested_field in field['fields']` loop of `_update_field`. */
    method UpdateNested(path: string, descriptions: Mapping)
      requires NestedValid()
      modifies Repr - {this}
      ensures NestedValid()
      ensures forall j :: 0 <= j < |fields| ==>
                fields[j].Repr == old(fields[j].Repr) &&
                fields[j].model == MergeField(old(fields[j].model), Child(path, old(fields[j].model).name), descriptions)
      decreases Repr, 1
    {
      var i := 0;
      while i < |fields|
        invariant 0 <= i <= |fields|
        invariant NestedValid()
        invariant forall j :: 0 <= j < |fields| ==> fields[j].Repr == old(fields[j].Repr)
        invariant forall j :: 0 <= j < i ==>
                    fields[j].model == MergeField(old(fields[j].model), Child(path, old(fields[j].model).name), descriptions)
        invariant forall j :: i <= j < |fields| ==> fields[j].model == old(fields[j].model)
      {
        UpdateChild(i, path, descriptions);
        i := i + 1;
      }
    }

    /** One iteration of that loop: the nested record `fields[i]` is updated under its qualified name. */
    method UpdateChild(i: nat, path: string, descriptions: Mapping)
      requires NestedValid() && i < |fields|
      modifies fields[i].Repr
      ensures NestedValid()
      ensures forall j :: 0 <= j < |fields| ==> fields[j].Repr == old(fields[j].Repr)
      ensures fields[i].model == MergeField(old(fields[i].model), Child(path, old(fields[i].model).name), descriptions)
      ensures forall j :: 0 <= j < |fields| && j != i ==> fields[j].model == old(fields[j].model)
      decreases Repr, 0
    {
      fields[i].UpdateField(Child(path, fields[i].name), descriptions);
    }
  }

  /** `[field.to_api_repr() for field in schema]`: one fresh record tree per top-level field. */
  method ToRecords(schema: seq<Field>) returns (temp: seq<FieldRecord>)
    ensures |temp| == |schema|
    ensures forall j :: 0 <= j < |temp| ==> temp[j].Valid() && fresh(temp[j].Repr) && temp[j].model == schema[j]
    ensures forall j, k :: 0 <= j < k < |temp| ==> temp[j].Repr !! temp[k].Repr
  {
    temp := [];
    var i := 0;
    while i < |schema|
      invariant 0 <= i <= |schema| && |temp| == i
      invariant forall j :: 0 <= j < i ==> temp[j].Valid() && fresh(temp[j].Repr) && temp[j].model == schema[j]
      invariant forall j, k :: 0 <= j < k < i ==> temp[j].Repr !! temp[k].Repr
    {
      var r := FieldRecord.FromField(schema[i]);
      temp := temp + [r];
      i := i + 1;
    }
  }

  /** `[SchemaField.from_api_repr(field) for field in temp_schema]`: the field values the records represent. */
  method FromRecords(temp: seq<FieldRecord>) returns (schema: seq<Field>)
    requires forall j :: 0 <= j < |temp| ==> temp[j].Valid()
    ensures |schema| == |temp|
    ensures forall j :: 0 <= j < |temp| ==> schema[j] == temp[j].model
  {
    schema := [];
    var i := 0;
    while i < |temp|
      invariant 0 <= i <= |temp| && |schema| == i
      invariant forall j :: 0 <= j < i ==> schema[j] == temp[j].model
    {
      var f := temp[i].ToField();
      schema := schema + [f];
      i := i + 1;
    }
  }

  /**
   * `_get_new_schema`: copy every top-level field into a record, update each
   * record in place starting from its bare name, and convert the records back.
   * The result is the merge of the schema with the mapping.
   */
  method GetNewSchema(schema: seq<Field>, descriptions: Mapping) returns (updated: seq<Field>)
    ensures updated == MergeSchema(schema, descriptions)
  {
    var temp := ToRecords(schema);
    var i := 0;
    while i < |temp|
      invariant 0 <= i <= |temp| && |temp| == |schema|
      invariant forall j :: 0 <= j < |temp| ==> temp[j].Valid() && fresh(temp[j].Repr)
      invariant forall j, k :: 0 <= j < k < |temp| ==> temp[j].Repr !! temp[k].Repr
      invariant forall j :: 0 <= j < i ==> temp[j].model == MergeField(schema[j], schema[j].name, descriptions)
      invariant forall j :: i <= j < |temp| ==> temp[j].model == schema[j]
    {
      UpdateTopLevel(temp, i, descriptions);
      i := i + 1;
    }
    updated := FromRecords(temp);
  }

  /** One iteration of that loop: the record `temp[i]` is updated starting from its bare name. */
  method UpdateTopLevel(temp: seq<FieldRecord>, i: nat, descriptions: Mapping)
    requires i < |temp|
    requires forall j :: 0 <= j < |temp| ==> temp[j].Valid()
    requires forall j, k :: 0 <= j < k < |temp| ==> temp[j].Repr !! temp[k].Repr
    modifies temp[i].Repr
    ensures forall j :: 0 <= j < |temp| ==> temp[j].Valid() && temp[j].Repr == old(temp[j].Repr)
    ensures temp[i].model == MergeField(old(temp[i].model), old(temp[i].model).name, descriptions)
    ensures forall j :: 0 <= j < |temp| && j != i ==> temp[j].model == old(temp[j].model)
  {
    temp[i].UpdateField(temp[i].name, descriptions);
  }
}
