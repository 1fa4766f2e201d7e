/**
 * The two modes of the description manager. Copy mode flattens the source
 * table's schema into a description dictionary; upload mode reads the
 * dictionary from the rows of a two-column file. Either way the target
 * table's schema is merged with the dictionary and sent back, with `schema`
 * as the only attribute to update. Fetching a table and persisting the update
 * are calls into the BigQuery client: the fetched schemas are parameters here
 * and the update request is the result.
 */
module DescriptionManager {
  import opened SchemaFields
  import opened Descriptions
  import opened Flattener
  import opened MergeEngine

  /** The call `update_table(target_table, attributes)`: the new schema and the attributes to persist. */
  datatype TableUpdate = TableUpdate(schema: seq<Field>, attributes: seq<string>)

  /** `_update_table`: merge the fetched target schema with the descriptions; persist only `schema`. */
  method UpdateTable(targetSchema: seq<Field>, descriptions: Mapping) returns (update: TableUpdate)
    ensures update.attributes == ["schema"]
    ensures update.schema == MergeSchema(targetSchema, descriptions)
  {
    var newSchema := GetNewSchema(targetSchema, descriptions);
    update := TableUpdate(newSchema, ["schema"]);
  }

  /**
   * `copy_field_descriptions`: the target schema merged with the flattened
   * source schema. Whatever order the flattener visits the source in, the
   * dictionary holds one write per source node; when the source's qualified
   * names are unique, it is `Flatten(sourceSchema)`.
   */
  method CopyFieldDescriptions(sourceSchema: seq<Field>, targetSchema: seq<Field>) returns (update: TableUpdate)
    ensures update.attributes == ["schema"]
    ensures exists writes :: multiset(writes) == multiset(SchemaEntries(sourceSchema))
                          && update.schema == MergeSchema(targetSchema, Assign(writes))
    ensures UniquePaths(sourceSchema) ==> update.schema == MergeSchema(targetSchema, Flatten(sourceSchema))
  {
    var descriptions;
    ghost var writes;
    descriptions, writes := DescriptionsFromSchema(sourceSchema);
    update := UpdateTable(targetSchema, descriptions);
  }

  /**
   * `upload_fields_descriptions_from_csv` after the file is read: a row with
   * fewer than two columns raises before any update is sent; otherwise the
   * target schema is merged with the dictionary built from all rows.
   */
  method UploadFieldsDescriptions(rows: seq<seq<string>>, targetSchema: seq<Field>) returns (r: Result<TableUpdate>)
    ensures r.Failure? <==> exists i :: 0 <= i < |rows| && |rows[i]| < 2
    ensures r.Success? ==> RowsToMapping(rows).Success?
    ensures r.Success? ==> r.value == TableUpdate(MergeSchema(targetSchema, RowsToMapping(rows).value), ["schema"])
  {
    match RowsToMapping(rows)
    case Failure(e) =>
      r := Failure(e);
    case Success(descriptions) =>
      var update := UpdateTable(targetSchema, descriptions);
      r := Success(update);
  }

  // ---------------------------------------------------------------------------
  // Copy mode, field by field

  /**
   * A target field whose qualified name is also a source field's takes the
   * source field's description when that is truthy, and keeps its own
   * otherwise (the source description is None or "").
   */
  lemma CopyMatched(sourceSchema: seq<Field>, targetSchema: seq<Field>, ix: seq<nat>, jx: seq<nat>)
    requires UniquePaths(sourceSchema)
    requires IsIndex(targetSchema, ix) && IsIndex(sourceSchema, jx)
    requires QualifiedName(targetSchema, ix) == QualifiedName(sourceSchema, jx)
    ensures IsIndex(MergeSchema(targetSchema, Flatten(sourceSchema)), ix)
    ensures var m, s, t := NodeAt(MergeSchema(targetSchema, Flatten(sourceSchema)), ix), NodeAt(sourceSchema, jx), NodeAt(targetSchema, ix);
      && (Truthy(s.description) ==> m.description == s.description)
      && (!Truthy(s.description) ==> m.description == t.description)
  {
    FlattenExact(sourceSchema, jx);
    MergeAt(targetSchema, Flatten(sourceSchema), ix);
  }

  /** A target field whose qualified name names no source field keeps its description. */
  lemma CopyUnmatched(sourceSchema: seq<Field>, targetSchema: seq<Field>, ix: seq<nat>)
    requires IsIndex(targetSchema, ix)
    requires forall jx :: IsIndex(sourceSchema, jx) ==> QualifiedName(sourceSchema, jx) != QualifiedName(targetSchema, ix)
    ensures IsIndex(MergeSchema(targetSchema, Flatten(sourceSchema)), ix)
    ensures NodeAt(MergeSchema(targetSchema, Flatten(sourceSchema)), ix).description == NodeAt(targetSchema, ix).description
  {
    var p := QualifiedName(targetSchema, ix);
    WritesFromNodes(sourceSchema, SchemaEntries(sourceSchema));
    assert Flatten(sourceSchema) == Assign(SchemaEntries(sourceSchema));
    if p in Flatten(sourceSchema) {
      assert false;
    }
    MergeAt(targetSchema, Flatten(sourceSchema), ix);
  }

  // ---------------------------------------------------------------------------
  // The scenarios of the test suite

  // The descriptions of the copy test's source table.
  const ClientIdText: string := "Unhashed version of the Client ID for a given user associated with any given visit/session."
  const FullVisitorIdText: string := "The unique visitor ID (also known as client ID)."
  const VisitNumberText: string := "The session number for this user. If this is the first session, then this is set to 1."
  const TotalsText: string := "This section contains aggregate values across the session."
  const HitsText: string := "Total number of hits within the session."
  const PageviewsText: string := "Total number of pageviews within the session."
  const ScreenviewsText: string := "Total number of screenviews within the session."

  function Leaf(name: string, typ: string, description: Option<string>): Field {
    Field(name, typ, "NULLABLE", description, [])
  }

  /** The source table of the copy test: three top-level fields and a RECORD with three nested fields. */
  function CopySource(): seq<Field> {
    [ Leaf("clientId", "STRING", Some(ClientIdText)),
      Leaf("fullVisitorId", "STRING", Some(FullVisitorIdText)),
      Leaf("visitNumber", "STRING", Some(VisitNumberText)),
      Field("totals", "RECORD", "NULLABLE", Some(TotalsText),
            [ Leaf("hits", "INTEGER", Some(HitsText)),
              Leaf("pageviews", "INTEGER", Some(PageviewsText)),
              Leaf("screenviews", "INTEGER", Some(ScreenviewsText)) ]) ]
  }

  /** The target table of the copy test: a subset of the source's fields, with no descriptions. */
  function CopyTarget(): seq<Field> {
    [ Leaf("clientId", "STRING", None),
      Leaf("fullVisitorId", "STRING", None),
      Field("totals", "RECORD", "NULLABLE", None,
            [ Leaf("hits", "INTEGER", None),
              Leaf("pageviews", "INTEGER", None) ]) ]
  }

  /** The schema the copy test expects to be persisted. */
  function CopyExpected(): seq<Field> {
    [ Leaf("clientId", "STRING", Some(ClientIdText)),
      Leaf("fullVisitorId", "STRING", Some(FullVisitorIdText)),
      Field("totals", "RECORD", "NULLABLE", Some(TotalsText),
            [ Leaf("hits", "INTEGER", Some(HitsText)),
              Leaf("pageviews", "INTEGER", Some(PageviewsText)) ]) ]
  }

  /** The entries of the nested fields of `totals` in the copy test's source table. */
  lemma TotalsEntries()
    ensures ChildEntries("totals", CopySource()[3].children) ==
      [("totals.hits", Some(HitsText)), ("totals.pageviews", Some(PageviewsText)),
       ("totals.screenviews", Some(ScreenviewsText))]
  {
    var kids := CopySource()[3].children;
    assert Child("totals", "hits") == "totals.hits";
    assert Child("totals", "pageviews") == "totals.pageviews";
    assert Child("totals", "screenviews") == "totals.screenviews";
    assert kids[1..][1..] == kids[2..] && kids[2..][1..] == [];
    assert ChildEntries("totals", kids[2..]) == [("totals.screenviews", Some(ScreenviewsText))];
    assert ChildEntries("totals", kids[1..]) ==
      [("totals.pageviews", Some(PageviewsText)), ("totals.screenviews", Some(ScreenviewsText))];
  }

  /** The pre-order entries of the copy test's source table. */
  lemma CopySourceEntries()
    ensures SchemaEntries(CopySource()) ==
      [("clientId", Some(ClientIdText)), ("fullVisitorId", Some(FullVisitorIdText)),
       ("visitNumber", Some(VisitNumberText)), ("totals", Some(TotalsText)),
       ("totals.hits", Some(HitsText)), ("totals.pageviews", Some(PageviewsText)),
       ("totals.screenviews", Some(ScreenviewsText))]
  {
    var source := CopySource();
    TotalsEntries();
    assert source[3..][1..] == [];
    assert source[2..][1..] == source[3..];
    assert source[1..][1..] == source[2..];
  }

  /** The dictionary that copy mode builds from the test's source table, at the paths the target has. */
  lemma CopySourceFlattened()
    ensures var d := Flatten(CopySource());
      && "clientId" in d && d["clientId"] == Some(ClientIdText)
      && "fullVisitorId" in d && d["fullVisitorId"] == Some(FullVisitorIdText)
      && "totals" in d && d["totals"] == Some(TotalsText)
      && "totals.hits" in d && d["totals.hits"] == Some(HitsText)
      && "totals.pageviews" in d && d["totals.pageviews"] == Some(PageviewsText)
  {
    CopySourceEntries();
    var entries := SchemaEntries(CopySource());
    AssignLastWins(entries, 0);
    AssignLastWins(entries, 1);
    AssignLastWins(entries, 3);
    AssignLastWins(entries, 4);
    AssignLastWins(entries, 5);
  }

  /**
   * Copy mode on the test's tables: `visitNumber` and `totals.screenviews`
   * have no target field and are ignored; every target field, the RECORD
   * parent `totals` included, takes its source description.
   */
  lemma CopyScenario()
    ensures MergeSchema(CopyTarget(), Flatten(CopySource())) == CopyExpected()
  {
    CopySourceFlattened();
    var d := Flatten(CopySource());
    var target := CopyTarget();
    assert Child("totals", "hits") == "totals.hits";
    assert Child("totals", "pageviews") == "totals.pageviews";
    assert MergeChildren("totals", target[2].children, d) == CopyExpected()[2].children;
    assert MergeField(target[2], "totals", d) == CopyExpected()[2];
  }

  /** The field names of the copy test contain no '.'. */
  lemma TestNamesDotFree()
    ensures '.' !in "clientId" && '.' !in "fullVisitorId" && '.' !in "visitNumber" && '.' !in "totals"
    ensures '.' !in "hits" && '.' !in "pageviews" && '.' !in "screenviews"
  {
  }

  /** The nested fields of the test's `totals` record follow BigQuery's naming rules. */
  lemma TotalsWellNamed()
    ensures WellNamed(CopySource()[3].children)
  {
    TestNamesDotFree();
  }

  /** The test's source table follows BigQuery's naming rules: dot-free names, unique among siblings. */
  lemma CopySourceWellNamed()
    ensures WellNamed(CopySource())
  {
    TestNamesDotFree();
    TotalsWellNamed();
  }

  /**
   * The test of copy mode: copying from the test's source table to its target
   * sends one update request, carrying exactly the expected schema and the
   * attribute list `["schema"]`.
   */
  method CopyTestRequest() returns (update: TableUpdate)
    ensures update == TableUpdate(CopyExpected(), ["schema"])
  {
    update := CopyFieldDescriptions(CopySource(), CopyTarget());
    CopySourceWellNamed();
    WellNamedUniquePaths(CopySource());
    CopyScenario();
  }

  /** Upload rows: a header row, then one row per field to describe. */
  function UploadRows(): seq<seq<string>> {
    [["field_name", "description"], ["clientId", "desc A"], ["totals.hits", "desc B"]]
  }

  function UploadTarget(): seq<Field> {
    [ Leaf("clientId", "STRING", None),
      Field("totals", "RECORD", "NULLABLE", None, [Leaf("hits", "INTEGER", None)]),
      Leaf("extra", "STRING", Some("keep")) ]
  }

  function UploadExpected(): seq<Field> {
    [ Leaf("clientId", "STRING", Some("desc A")),
      Field("totals", "RECORD", "NULLABLE", None, [Leaf("hits", "INTEGER", Some("desc B"))]),
      Leaf("extra", "STRING", Some("keep")) ]
  }

  /** The dictionary read from the upload rows: every first column is a key, the header's included. */
  lemma UploadRowsMapping()
    ensures RowsToMapping(UploadRows()).Success?
    ensures var d := RowsToMapping(UploadRows()).value;
      && "field_name" in d
      && "clientId" in d && d["clientId"] == Some("desc A")
      && "totals.hits" in d && d["totals.hits"] == Some("desc B")
      && "totals" !in d && "extra" !in d
  {
    var rows := UploadRows();
    RowsToMappingKeys(rows);
    RowsToMappingLaterWins(rows, 1);
    RowsToMappingLaterWins(rows, 2);
  }

  /**
   * Upload mode: the two described paths take their descriptions, `totals`
   * and `extra` are absent from the rows and keep theirs, and the header row
   * becomes a key that names no field and is ignored.
   */
  lemma UploadScenario()
    ensures RowsToMapping(UploadRows()).Success?
    ensures MergeSchema(UploadTarget(), RowsToMapping(UploadRows()).value) == UploadExpected()
  {
    UploadRowsMapping();
    var d := RowsToMapping(UploadRows()).value;
    assert Child("totals", "hits") == "totals.hits";
    var target := UploadTarget();
    assert MergeChildren("totals", target[1].children, d) == UploadExpected()[1].children;
    assert MergeField(target[1], "totals", d) == UploadExpected()[1];
  }
}
