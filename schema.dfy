/**
 * The schema tree that the description manager reads and rewrites: a table
 * schema is an ordered sequence of fields, and a RECORD field carries an
 * ordered sequence of nested fields. Fields are addressed in two ways: by an
 * index path (which child to take at every level) and by the dotted
 * qualified name built from the names along that path (`totals.pageviews`).
 */
module SchemaFields {

  datatype Option<+T> = None | Some(value: T)

  /** One schema field. `typ` and `mode` are opaque strings kept verbatim. */
  datatype Field = Field(
    name: string,
    typ: string,
    mode: string,
    description: Option<string>,
    children: seq<Field>)

  /** Dictionary from a fully-qualified field name to a description (None is Python's None). */
  type Mapping = map<string, Option<string>>

  /** One dictionary write: a qualified name and the description stored under it. */
  type Entry = (string, Option<string>)

  /** Python truthiness of a description value: neither None nor the empty string. */
  predicate Truthy(v: Option<string>) {
    v.Some? && v.value != ""
  }

  /** The name of a nested field below the field whose qualified name is `parent`. */
  function Child(parent: string, name: string): string
  {
    parent + "." + name
  }

  // ---------------------------------------------------------------------------
  // Addressing nodes by index path

  /** `ix` leads from the sequence `fields` to an existing node at some depth. */
  ghost predicate IsIndex(fields: seq<Field>, ix: seq<nat>)
    decreases ix
  {
    && |ix| > 0
    && ix[0] < |fields|
    && (|ix| == 1 || IsIndex(fields[ix[0]].children, ix[1..]))
  }

  /** The node that `ix` leads to. */
  ghost function NodeAt(fields: seq<Field>, ix: seq<nat>): Field
    requires IsIndex(fields, ix)
    decreases ix
  {
    if |ix| == 1 then fields[ix[0]] else NodeAt(fields[ix[0]].children, ix[1..])
  }

  /** The dotted name of the node that `ix` leads to: the names along the path joined by ".". */
  ghost function QualifiedName(fields: seq<Field>, ix: seq<nat>): string
    requires IsIndex(fields, ix)
    decreases ix
  {
    var f := fields[ix[0]];
    if |ix| == 1 then f.name else Child(f.name, QualifiedName(f.children, ix[1..]))
  }

  /** Some node of the tree has qualified name `path` and description `d`. */
  ghost predicate DescribesNode(fields: seq<Field>, path: string, d: Option<string>) {
    exists ix :: IsIndex(fields, ix) && QualifiedName(fields, ix) == path && NodeAt(fields, ix).description == d
  }

  /** No two distinct nodes of the tree share a qualified name. */
  ghost predicate UniquePaths(fields: seq<Field>) {
    forall ix, jx :: IsIndex(fields, ix) && IsIndex(fields, jx) && QualifiedName(fields, ix) == QualifiedName(fields, jx) ==> ix == jx
  }

  /** Names contain no '.', sibling names are distinct, at every level. */
  ghost predicate WellNamed(fields: seq<Field>) {
    && (forall i :: 0 <= i < |fields| ==> '.' !in fields[i].name)
    && (forall i, j :: 0 <= i < j < |fields| ==> fields[i].name != fields[j].name)
    && (forall i :: 0 <= i < |fields| ==> WellNamed(fields[i].children))
  }

  // ---------------------------------------------------------------------------
  // Pre-order listing of (qualified name, description) for every node

  /** The entry of `f` itself (under qualified name `path`) followed by those of all its descendants. */
  function FieldEntries(path: string, f: Field): (es: seq<Entry>)
    ensures |es| > 0 && es[0] == (path, f.description)
    decreases f, 1
  {
    [(path, f.description)] + ChildEntries(path, f.children)
  }

  /** The entries of the fields `cs`, nested below the field whose qualified name is `parent`. */
  function ChildEntries(parent: string, cs: seq<Field>): seq<Entry>
    decreases cs, 0
  {
    if cs == [] then [] else FieldEntries(Child(parent, cs[0].name), cs[0]) + ChildEntries(parent, cs[1..])
  }

  /** The entries of a whole schema: each top-level field is named by its bare name. */
  function SchemaEntries(schema: seq<Field>): seq<Entry>
  {
    if schema == [] then [] else FieldEntries(schema[0].name, schema[0]) + SchemaEntries(schema[1..])
  }

  /** Prefixing the qualified names of a subtree: the entries of `cs[i]`'s subtree lie in those of `cs`. */
  lemma {:induction false} ChildEntriesContain(parent: string, cs: seq<Field>, i: nat, e: Entry)
    requires i < |cs| && e in FieldEntries(Child(parent, cs[i].name), cs[i])
    ensures e in ChildEntries(parent, cs)
    decreases cs
  {
    if i > 0 {
      ChildEntriesContain(parent, cs[1..], i - 1, e);
    }
  }

  lemma {:induction false} SchemaEntriesContain(schema: seq<Field>, i: nat, e: Entry)
    requires i < |schema| && e in FieldEntries(schema[i].name, schema[i])
    ensures e in SchemaEntries(schema)
    decreases schema
  {
    if i > 0 {
      SchemaEntriesContain(schema[1..], i - 1, e);
    }
  }

  /** Every node below `parent` has its entry, named `parent.<qualified name>`, among the child entries. */
  lemma {:induction false} NodeHasChildEntry(parent: string, cs: seq<Field>, ix: seq<nat>)
    requires IsIndex(cs, ix)
    ensures (Child(parent, QualifiedName(cs, ix)), NodeAt(cs, ix).description) in ChildEntries(parent, cs)
    decreases ix
  {
    var c := cs[ix[0]];
    var here := Child(parent, c.name);
    if |ix| == 1 {
      ChildEntriesContain(parent, cs, ix[0], FieldEntries(here, c)[0]);
    } else {
      NodeHasChildEntry(here, c.children, ix[1..]);
      var e := (Child(here, QualifiedName(c.children, ix[1..])), NodeAt(c.children, ix[1..]).description);
      assert Child(here, QualifiedName(c.children, ix[1..])) == Child(parent, QualifiedName(cs, ix));
      assert e in FieldEntries(here, c);
      ChildEntriesContain(parent, cs, ix[0], e);
    }
  }

  /** Coverage: every node at every depth contributes its qualified name and its own description. */
  lemma {:induction false} NodeHasEntry(schema: seq<Field>, ix: seq<nat>)
    requires IsIndex(schema, ix)
    ensures (QualifiedName(schema, ix), NodeAt(schema, ix).description) in SchemaEntries(schema)
  {
    var f := schema[ix[0]];
    if |ix| == 1 {
      SchemaEntriesContain(schema, ix[0], FieldEntries(f.name, f)[0]);
    } else {
      NodeHasChildEntry(f.name, f.children, ix[1..]);
      SchemaEntriesContain(schema, ix[0], (QualifiedName(schema, ix), NodeAt(schema, ix).description));
    }
  }

  /** An index path into `cs[1..]`, shifted by one, addresses the same node of `cs`. */
  lemma IndexShift(cs: seq<Field>, ix: seq<nat>)
    requires |cs| > 0 && IsIndex(cs[1..], ix)
    ensures IsIndex(cs, [ix[0] + 1] + ix[1..])
    ensures QualifiedName(cs, [ix[0] + 1] + ix[1..]) == QualifiedName(cs[1..], ix)
    ensures NodeAt(cs, [ix[0] + 1] + ix[1..]) == NodeAt(cs[1..], ix)
  {
    var jx := [ix[0] + 1] + ix[1..];
    assert jx[1..] == ix[1..];
  }

  /** An index path into the children of `cs[i]`, prefixed by `i`, addresses the same node of `cs`. */
  lemma IndexDescend(cs: seq<Field>, i: nat, ix: seq<nat>)
    requires i < |cs| && IsIndex(cs[i].children, ix)
    ensures IsIndex(cs, [i] + ix)
    ensures QualifiedName(cs, [i] + ix) == Child(cs[i].name, QualifiedName(cs[i].children, ix))
    ensures NodeAt(cs, [i] + ix) == NodeAt(cs[i].children, ix)
  {
    assert ([i] + ix)[1..] == ix;
  }

  /** Soundness of the listing below a parent: every child entry is the entry of some node. */
  lemma {:induction false} ChildEntryHasNode(parent: string, cs: seq<Field>, e: Entry)
    requires e in ChildEntries(parent, cs)
    ensures exists ix :: IsIndex(cs, ix) && e == (Child(parent, QualifiedName(cs, ix)), NodeAt(cs, ix).description)
    decreases cs
  {
    var c := cs[0];
    var here := Child(parent, c.name);
    assert ChildEntries(parent, cs) == [(here, c.description)] + ChildEntries(here, c.children) + ChildEntries(parent, cs[1..]);
    if e in ChildEntries(parent, cs[1..]) {
      ChildEntryHasNode(parent, cs[1..], e);
      var ix :| IsIndex(cs[1..], ix) && e == (Child(parent, QualifiedName(cs[1..], ix)), NodeAt(cs[1..], ix).description);
      IndexShift(cs, ix);
    } else if e == (here, c.description) {
      assert IsIndex(cs, [0]);
      assert e == (Child(parent, QualifiedName(cs, [0])), NodeAt(cs, [0]).description);
    } else {
      ChildEntryHasNode(here, c.children, e);
      var ix :| IsIndex(c.children, ix) && e == (Child(here, QualifiedName(c.children, ix)), NodeAt(c.children, ix).description);
      IndexDescend(cs, 0, ix);
      assert Child(here, QualifiedName(c.children, ix)) == Child(parent, Child(c.name, QualifiedName(c.children, ix)));
    }
  }

  /** Soundness: every entry of the listing is the qualified name and description of some node. */
  lemma {:induction false} EntryHasNode(schema: seq<Field>, e: Entry)
    requires e in SchemaEntries(schema)
    ensures exists ix :: IsIndex(schema, ix) && e == (QualifiedName(schema, ix), NodeAt(schema, ix).description)
    decreases schema
  {
    var f := schema[0];
    assert SchemaEntries(schema) == [(f.name, f.description)] + ChildEntries(f.name, f.children) + SchemaEntries(schema[1..]);
    if e in SchemaEntries(schema[1..]) {
      EntryHasNode(schema[1..], e);
      var ix :| IsIndex(schema[1..], ix) && e == (QualifiedName(schema[1..], ix), NodeAt(schema[1..], ix).description);
      IndexShift(schema, ix);
    } else if e == (f.name, f.description) {
      assert IsIndex(schema, [0]);
    } else {
      ChildEntryHasNode(f.name, f.children, e);
      var ix :| IsIndex(f.children, ix) && e == (Child(f.name, QualifiedName(f.children, ix)), NodeAt(f.children, ix).description);
      IndexDescend(schema, 0, ix);
    }
  }

  // ---------------------------------------------------------------------------
  // Dot-free, sibling-unique names give unique qualified names

  /** Splitting a dotted name at its first '.' recovers a dot-free head. */
  lemma DotFreeHead(a: string, b: string, s: string, t: string)
    requires '.' !in a && '.' !in b
    requires Child(a, s) == Child(b, t)
    ensures a == b && s == t
  {
    var q := Child(a, s);
    assert q[|a|] == '.' && q[|b|] == '.';
    assert q[..|a|] == a && q[..|b|] == b;
    assert forall k :: 0 <= k < |a| ==> q[k] != '.';
    assert forall k :: 0 <= k < |b| ==> q[k] != '.';
    assert |a| == |b|;
    assert q[|a| + 1..] == s && q[|b| + 1..] == t;
  }

  /** With dot-free, sibling-unique names, distinct nodes have distinct qualified names. */
  lemma {:induction false} WellNamedUniquePaths(fields: seq<Field>)
    requires WellNamed(fields)
    ensures UniquePaths(fields)
  {
    forall ix, jx | IsIndex(fields, ix) && IsIndex(fields, jx) && QualifiedName(fields, ix) == QualifiedName(fields, jx)
      ensures ix == jx
    {
      SameNameSameIndex(fields, ix, jx);
    }
  }

  lemma {:induction false} SameNameSameIndex(fields: seq<Field>, ix: seq<nat>, jx: seq<nat>)
    requires WellNamed(fields)
    requires IsIndex(fields, ix) && IsIndex(fields, jx)
    requires QualifiedName(fields, ix) == QualifiedName(fields, jx)
    ensures ix == jx
    decreases ix
  {
    var f, g := fields[ix[0]], fields[jx[0]];
    if |ix| == 1 || |jx| == 1 {
      // a dot-free name never equals a nested one, and sibling names are distinct
    } else {
      DotFreeHead(f.name, g.name, QualifiedName(f.children, ix[1..]), QualifiedName(g.children, jx[1..]));
      assert ix[0] == jx[0];
      SameNameSameIndex(f.children, ix[1..], jx[1..]);
      assert ix == [ix[0]] + ix[1..] && jx == [jx[0]] + jx[1..];
    }
  }

  // ---------------------------------------------------------------------------
  // Unique qualified names are listed once each

  /** No two positions of `es` carry the same path. */
  predicate DistinctPaths(es: seq<Entry>) {
    forall i, j :: 0 <= i < j < |es| ==> es[i].0 != es[j].0
  }

  lemma DistinctPathsAppend(a: seq<Entry>, b: seq<Entry>)
    requires DistinctPaths(a) && DistinctPaths(b)
    requires forall e, e' :: e in a && e' in b ==> e.0 != e'.0
    ensures DistinctPaths(a + b)
  {
    forall i, j | 0 <= i < j < |a + b|
      ensures (a + b)[i].0 != (a + b)[j].0
    {
      if j < |a| {
        assert (a + b)[i] == a[i] && (a + b)[j] == a[j];
      } else if i >= |a| {
        assert (a + b)[i] == b[i - |a|] && (a + b)[j] == b[j - |a|];
      } else {
        assert (a + b)[i] in a && (a + b)[j] in b;
      }
    }
  }

  /** The same parent path followed by different names gives different paths. */
  lemma ChildInjective(parent: string, x: string, y: string)
    ensures Child(parent, x) == Child(parent, y) ==> x == y
  {
    assert Child(parent, x)[|parent| + 1..] == x;
    assert Child(parent, y)[|parent| + 1..] == y;
  }

  /** A nested path is longer than its parent path. */
  lemma ChildLonger(parent: string, x: string)
    ensures |Child(parent, x)| > |parent|
  {
  }

  lemma UniqueTail(cs: seq<Field>)
    requires |cs| > 0 && UniquePaths(cs)
    ensures UniquePaths(cs[1..])
  {
    forall ix, jx | IsIndex(cs[1..], ix) && IsIndex(cs[1..], jx) && QualifiedName(cs[1..], ix) == QualifiedName(cs[1..], jx)
      ensures ix == jx
    {
      IndexShift(cs, ix);
      IndexShift(cs, jx);
      var ix', jx' := [ix[0] + 1] + ix[1..], [jx[0] + 1] + jx[1..];
      assert ix' == jx';
      assert ix'[0] == ix[0] + 1 && ix'[1..] == ix[1..];
      assert jx'[0] == jx[0] + 1 && jx'[1..] == jx[1..];
      assert ix == [ix[0]] + ix[1..] && jx == [jx[0]] + jx[1..];
    }
  }

  lemma UniqueChildren(cs: seq<Field>, i: nat)
    requires i < |cs| && UniquePaths(cs)
    ensures UniquePaths(cs[i].children)
  {
    forall ix, jx | IsIndex(cs[i].children, ix) && IsIndex(cs[i].children, jx)
                    && QualifiedName(cs[i].children, ix) == QualifiedName(cs[i].children, jx)
      ensures ix == jx
    {
      IndexDescend(cs, i, ix);
      IndexDescend(cs, i, jx);
      assert [i] + ix == [i] + jx;
      assert ([i] + ix)[1..] == ix && ([i] + jx)[1..] == jx;
    }
  }

  /** The entries of the first field of `cs` and its subtree, as nodes of `cs` whose index starts with 0. */
  lemma {:induction false} FirstSubtreeEntries(parent: string, cs: seq<Field>, e: Entry)
    requires |cs| > 0 && e in FieldEntries(Child(parent, cs[0].name), cs[0])
    ensures exists ix :: IsIndex(cs, ix) && ix[0] == 0 && e.0 == Child(parent, QualifiedName(cs, ix))
  {
    var c := cs[0];
    var here := Child(parent, c.name);
    assert IsIndex(cs, [0]) && QualifiedName(cs, [0]) == c.name;
    if e in ChildEntries(here, c.children) {
      ChildEntryHasNode(here, c.children, e);
      var jx :| IsIndex(c.children, jx) && e == (Child(here, QualifiedName(c.children, jx)), NodeAt(c.children, jx).description);
      IndexDescend(cs, 0, jx);
      assert Child(here, QualifiedName(c.children, jx)) == Child(parent, Child(c.name, QualifiedName(c.children, jx)));
      assert ([0] + jx)[0] == 0;
    }
  }

  /** Below a parent with unique qualified names, the first subtree's paths differ from the later siblings' paths. */
  lemma FirstSubtreeApart(parent: string, cs: seq<Field>, e: Entry, e': Entry)
    requires |cs| > 0 && UniquePaths(cs)
    requires e in FieldEntries(Child(parent, cs[0].name), cs[0])
    requires e' in ChildEntries(parent, cs[1..])
    ensures e.0 != e'.0
  {
    FirstSubtreeEntries(parent, cs, e);
    var ix :| IsIndex(cs, ix) && ix[0] == 0 && e.0 == Child(parent, QualifiedName(cs, ix));
    ChildEntryHasNode(parent, cs[1..], e');
    var kx :| IsIndex(cs[1..], kx) && e' == (Child(parent, QualifiedName(cs[1..], kx)), NodeAt(cs[1..], kx).description);
    IndexShift(cs, kx);
    var kx' := [kx[0] + 1] + kx[1..];
    assert ix != kx' by { assert kx'[0] != 0; }
    ChildInjective(parent, QualifiedName(cs, ix), QualifiedName(cs, kx'));
  }

  /** In a schema with unique qualified names, the first field's subtree paths differ from the later fields' paths. */
  lemma FirstFieldApart(schema: seq<Field>, e: Entry, e': Entry)
    requires |schema| > 0 && UniquePaths(schema)
    requires e in FieldEntries(schema[0].name, schema[0])
    requires e' in SchemaEntries(schema[1..])
    ensures e.0 != e'.0
  {
    var f := schema[0];
    var ix: seq<nat> := [0];
    assert IsIndex(schema, [0]) && QualifiedName(schema, [0]) == f.name;
    if e in ChildEntries(f.name, f.children) {
      ChildEntryHasNode(f.name, f.children, e);
      var jx :| IsIndex(f.children, jx) && e == (Child(f.name, QualifiedName(f.children, jx)), NodeAt(f.children, jx).description);
      IndexDescend(schema, 0, jx);
      ix := [0] + jx;
    }
    assert IsIndex(schema, ix) && ix[0] == 0 && e.0 == QualifiedName(schema, ix);
    EntryHasNode(schema[1..], e');
    var kx :| IsIndex(schema[1..], kx) && e' == (QualifiedName(schema[1..], kx), NodeAt(schema[1..], kx).description);
    IndexShift(schema, kx);
    var kx' := [kx[0] + 1] + kx[1..];
    assert ix != kx' by { assert kx'[0] != 0; }
  }

  /** Below a parent, unique qualified names are listed at one position each. */
  lemma {:induction false} ChildEntriesDistinct(parent: string, cs: seq<Field>)
    requires UniquePaths(cs)
    ensures DistinctPaths(ChildEntries(parent, cs))
    decreases cs
  {
    if cs != [] {
      var c := cs[0];
      var here := Child(parent, c.name);
      var below, rest := ChildEntries(here, c.children), ChildEntries(parent, cs[1..]);
      assert ChildEntries(parent, cs) == [(here, c.description)] + below + rest;
      UniqueChildren(cs, 0);
      ChildEntriesDistinct(here, c.children);
      UniqueTail(cs);
      ChildEntriesDistinct(parent, cs[1..]);
      forall e | e in below
        ensures e.0 != here
      {
        ChildEntryHasNode(here, c.children, e);
        var jx :| IsIndex(c.children, jx) && e == (Child(here, QualifiedName(c.children, jx)), NodeAt(c.children, jx).description);
        ChildLonger(here, QualifiedName(c.children, jx));
      }
      DistinctPathsAppend([(here, c.description)], below);
      forall e, e' | e in [(here, c.description)] + below && e' in rest
        ensures e.0 != e'.0
      {
        FirstSubtreeApart(parent, cs, e, e');
      }
      DistinctPathsAppend([(here, c.description)] + below, rest);
    }
  }

  /**
   * When qualified names are unique, the listing holds each path at one
   * position only: every path is written exactly once.
   */
  lemma {:induction false} SchemaEntriesDistinct(schema: seq<Field>)
    requires UniquePaths(schema)
    ensures DistinctPaths(SchemaEntries(schema))
    decreases schema
  {
    if schema != [] {
      var f := schema[0];
      var below, rest := ChildEntries(f.name, f.children), SchemaEntries(schema[1..]);
      assert SchemaEntries(schema) == [(f.name, f.description)] + below + rest;
      UniqueChildren(schema, 0);
      ChildEntriesDistinct(f.name, f.children);
      UniqueTail(schema);
      SchemaEntriesDistinct(schema[1..]);
      forall e | e in below
        ensures e.0 != f.name
      {
        ChildEntryHasNode(f.name, f.children, e);
        var jx :| IsIndex(f.children, jx) && e == (Child(f.name, QualifiedName(f.children, jx)), NodeAt(f.children, jx).description);
        ChildLonger(f.name, QualifiedName(f.children, jx));
      }
      DistinctPathsAppend([(f.name, f.description)], below);
      assert IsIndex(schema, [0]) && QualifiedName(schema, [0]) == f.name;
      forall e, e' | e in [(f.name, f.description)] + below && e' in rest
        ensures e.0 != e'.0
      {
        FirstFieldApart(schema, e, e');
      }
      DistinctPathsAppend([(f.name, f.description)] + below, rest);
    }
  }
}
