/**
 * The flattener of the description manager: it walks the schema tree with an
 * explicit worklist and builds the dictionary from every field's qualified
 * name to that field's description, RECORD parents included.
 */
module Flattener {
  import opened SchemaFields
  import opened Descriptions

  /** A worklist item: a field together with its qualified name. */
  type Item = (string, Field)

  /** The items of the top-level fields, named by their bare names, in schema order. */
  function TopItems(schema: seq<Field>): (items: seq<Item>)
    ensures |items| == |schema|
    ensures forall i :: 0 <= i < |schema| ==> items[i] == (schema[i].name, schema[i])
  {
    seq(|schema|, i requires 0 <= i < |schema| => (schema[i].name, schema[i]))
  }

  /** The items of the nested fields of `f`, whose qualified name is `path`, in field order. */
  function ChildItems(path: string, cs: seq<Field>): (items: seq<Item>)
    ensures |items| == |cs|
    ensures forall i :: 0 <= i < |cs| ==> items[i] == (Child(path, cs[i].name), cs[i])
  {
    seq(|cs|, i requires 0 <= i < |cs| => (Child(path, cs[i].name), cs[i]))
  }

  /** The entries of every node in the subtrees that the worklist still holds. */
  function WorkEntries(work: seq<Item>): seq<Entry>
  {
    if work == [] then [] else WorkEntries(work[..|work| - 1]) + FieldEntries(work[|work| - 1].0, work[|work| - 1].1)
  }

  lemma {:induction false} WorkEntriesAppend(a: seq<Item>, b: seq<Item>)
    ensures WorkEntries(a + b) == WorkEntries(a) + WorkEntries(b)
    decreases |b|
  {
    if b != [] {
      var b', x := b[..|b| - 1], b[|b| - 1];
      assert (a + b)[..|a + b| - 1] == a + b' && (a + b)[|a + b| - 1] == x;
      calc {
        WorkEntries(a + b);
        WorkEntries(a + b') + FieldEntries(x.0, x.1);
        { WorkEntriesAppend(a, b'); }
        WorkEntries(a) + WorkEntries(b') + FieldEntries(x.0, x.1);
        WorkEntries(a) + WorkEntries(b);
      }
    } else {
      assert a + b == a;
    }
  }

  lemma {:induction false} ChildItemsEntries(path: string, cs: seq<Field>)
    ensures WorkEntries(ChildItems(path, cs)) == ChildEntries(path, cs)
    decreases cs
  {
    if cs != [] {
      var x := (Child(path, cs[0].name), cs[0]);
      assert ChildItems(path, cs) == [x] + ChildItems(path, cs[1..]);
      assert [x][..0] == [];
      assert WorkEntries([x]) == FieldEntries(x.0, x.1);
      calc {
        WorkEntries(ChildItems(path, cs));
        { WorkEntriesAppend([x], ChildItems(path, cs[1..])); }
        WorkEntries([x]) + WorkEntries(ChildItems(path, cs[1..]));
        { ChildItemsEntries(path, cs[1..]); }
        FieldEntries(x.0, x.1) + ChildEntries(path, cs[1..]);
        ChildEntries(path, cs);
      }
    }
  }

  lemma {:induction false} TopItemsEntries(schema: seq<Field>)
    ensures WorkEntries(TopItems(schema)) == SchemaEntries(schema)
    decreases schema
  {
    if schema != [] {
      var x := (schema[0].name, schema[0]);
      assert TopItems(schema) == [x] + TopItems(schema[1..]);
      assert [x][..0] == [];
      assert WorkEntries([x]) == FieldEntries(x.0, x.1);
      calc {
        WorkEntries(TopItems(schema));
        { WorkEntriesAppend([x], TopItems(schema[1..])); }
        WorkEntries([x]) + WorkEntries(TopItems(schema[1..]));
        { TopItemsEntries(schema[1..]); }
        FieldEntries(x.0, x.1) + SchemaEntries(schema[1..]);
        SchemaEntries(schema);
      }
    }
  }

  /**
   * Popping the last item and pushing its nested fields trades the item's
   * subtree for the item's own entry: the entries still to be written lose
   * exactly the one that is written now.
   */
  lemma PopPush(written: seq<Entry>, rest: seq<Item>, item: Item, all: multiset<Entry>)
    requires multiset(written) + multiset(WorkEntries(rest + [item])) == all
    ensures var kids := ChildItems(item.0, item.1.children);
      && multiset(written + [(item.0, item.1.description)]) + multiset(WorkEntries(rest + kids)) == all
      && |WorkEntries(rest + kids)| < |WorkEntries(rest + [item])|
  {
    var kids := ChildItems(item.0, item.1.children);
    var e := (item.0, item.1.description);
    assert (rest + [item])[..|rest|] == rest;
    assert WorkEntries(rest + [item]) == WorkEntries(rest) + ([e] + WorkEntries(kids)) by {
      ChildItemsEntries(item.0, item.1.children);
    }
    WorkEntriesAppend(rest, kids);
  }

  /**
   * `_get_descriptions_from_schema`: walk the schema with the worklist and
   * return the dictionary. Whatever the visiting order, every node's qualified
   * name is a key and every key holds the description of a node with that
   * name; with unique qualified names (in particular with dot-free names
   * unique among siblings) every path is written exactly once and the result
   * is `Flatten(schema)`.
   */
  method DescriptionsFromSchema(schema: seq<Field>) returns (descriptions: Mapping, ghost writes: seq<Entry>)
    ensures multiset(writes) == multiset(SchemaEntries(schema))
    ensures descriptions == Assign(writes)
    ensures forall ix :: IsIndex(schema, ix) ==> QualifiedName(schema, ix) in descriptions
    ensures forall p :: p in descriptions ==> DescribesNode(schema, p, descriptions[p])
    ensures UniquePaths(schema) ==> descriptions == Flatten(schema)
    ensures UniquePaths(schema) ==> DistinctPaths(writes)
    ensures WellNamed(schema) ==> DistinctPaths(writes)
  {
    descriptions, writes := ProcessFields(schema);
    WritesDescribeSchema(schema, writes);
  }

  /**
   * The `while fields_to_process` loop: pop the last item, record its
   * description under its qualified name, push its nested fields. `writes` is
   * the sequence of dictionary writes the loop performs; it holds exactly one
   * entry per node.
   */
  method ProcessFields(schema: seq<Field>) returns (descriptions: Mapping, ghost writes: seq<Entry>)
    ensures multiset(writes) == multiset(SchemaEntries(schema))
    ensures descriptions == Assign(writes)
  {
    var fieldsToProcess := TopItems(schema);
    descriptions := map[];
    writes := [];
    TopItemsEntries(schema);
    while fieldsToProcess != []
      invariant multiset(writes) + multiset(WorkEntries(fieldsToProcess)) == multiset(SchemaEntries(schema))
      invariant descriptions == Assign(writes)
      decreases |WorkEntries(fieldsToProcess)|
    {
      ghost var before := fieldsToProcess;
      var field := fieldsToProcess[|fieldsToProcess| - 1];
      fieldsToProcess := fieldsToProcess[..|fieldsToProcess| - 1];
      assert fieldsToProcess + [field] == before;
      PopPush(writes, fieldsToProcess, field, multiset(SchemaEntries(schema)));
      AssignSnoc(writes, (field.0, field.1.description));
      descriptions := descriptions[field.0 := field.1.description];
      writes := writes + [(field.0, field.1.description)];
      fieldsToProcess := fieldsToProcess + ChildItems(field.0, field.1.children);
    }
  }

  /** The dictionary of a schema, written in pre-order; the flattener's result when qualified names are unique. */
  function Flatten(schema: seq<Field>): Mapping
  {
    Assign(SchemaEntries(schema))
  }

  /** What any order of one write per node leaves in the dictionary. */
  lemma WritesDescribeSchema(schema: seq<Field>, writes: seq<Entry>)
    requires multiset(writes) == multiset(SchemaEntries(schema))
    ensures forall ix :: IsIndex(schema, ix) ==> QualifiedName(schema, ix) in Assign(writes)
    ensures forall p :: p in Assign(writes) ==> DescribesNode(schema, p, Assign(writes)[p])
    ensures UniquePaths(schema) ==> Assign(writes) == Flatten(schema)
    ensures UniquePaths(schema) ==> DistinctPaths(writes)
    ensures WellNamed(schema) ==> DistinctPaths(writes)
  {
    if WellNamed(schema) {
      WellNamedUniquePaths(schema);
    }
    WritesCoverNodes(schema, writes);
    WritesFromNodes(schema, writes);
    if UniquePaths(schema) {
      WritesUnordered(schema, writes);
      SchemaEntriesDistinct(schema);
      DistinctPathsReordered(SchemaEntries(schema), writes);
    }
  }

  /** Coverage: whatever the order of the writes, every node's qualified name becomes a key. */
  lemma WritesCoverNodes(schema: seq<Field>, writes: seq<Entry>)
    requires multiset(writes) == multiset(SchemaEntries(schema))
    ensures forall ix :: IsIndex(schema, ix) ==> QualifiedName(schema, ix) in Assign(writes)
  {
    AssignKeys(writes);
    forall ix | IsIndex(schema, ix)
      ensures QualifiedName(schema, ix) in Assign(writes)
    {
      NodeHasEntry(schema, ix);
      var e := (QualifiedName(schema, ix), NodeAt(schema, ix).description);
      assert e in multiset(writes);
      assert e in writes;
    }
  }

  /** Soundness: every key is the qualified name of some node and holds that node's description. */
  lemma WritesFromNodes(schema: seq<Field>, writes: seq<Entry>)
    requires multiset(writes) == multiset(SchemaEntries(schema))
    ensures forall p :: p in Assign(writes) ==> DescribesNode(schema, p, Assign(writes)[p])
  {
    forall p | p in Assign(writes)
      ensures DescribesNode(schema, p, Assign(writes)[p])
    {
      var e := (p, Assign(writes)[p]);
      AssignSound(writes, p);
      assert e in multiset(writes);
      assert e in SchemaEntries(schema);
      EntryHasNode(schema, e);
      var ix :| IsIndex(schema, ix) && e == (QualifiedName(schema, ix), NodeAt(schema, ix).description);
      assert QualifiedName(schema, ix) == p && NodeAt(schema, ix).description == Assign(writes)[p];
    }
  }

  /** With unique qualified names, the order of the writes does not matter: the result is `Flatten`. */
  lemma WritesUnordered(schema: seq<Field>, writes: seq<Entry>)
    requires multiset(writes) == multiset(SchemaEntries(schema))
    requires UniquePaths(schema)
    ensures Assign(writes) == Flatten(schema)
  {
    var es := SchemaEntries(schema);
    forall e, e' | e in es && e' in es && e.0 == e'.0
      ensures e.1 == e'.1
    {
      EntryHasNode(schema, e);
      EntryHasNode(schema, e');
    }
    AssignReordered(es, writes);
  }

  /** With unique qualified names, every node's description is stored under its qualified name. */
  lemma FlattenExact(schema: seq<Field>, ix: seq<nat>)
    requires UniquePaths(schema)
    requires IsIndex(schema, ix)
    ensures QualifiedName(schema, ix) in Flatten(schema)
    ensures Flatten(schema)[QualifiedName(schema, ix)] == NodeAt(schema, ix).description
  {
    WritesCoverNodes(schema, SchemaEntries(schema));
    WritesFromNodes(schema, SchemaEntries(schema));
    var p := QualifiedName(schema, ix);
    assert DescribesNode(schema, p, Flatten(schema)[p]);
    var jx :| IsIndex(schema, jx) && QualifiedName(schema, jx) == p && NodeAt(schema, jx).description == Flatten(schema)[p];
  }
}
