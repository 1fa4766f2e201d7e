# BigQuery field-description manager, modelled in Dafny

`bq_utils/bigquery_description_manager.py` copies column descriptions onto a
BigQuery table's schema. The descriptions come either from another table
(copy mode) or from a two-column file of `qualified name, description` rows
(upload mode). A schema is a sequence of fields. A `RECORD` field carries
nested fields. A field is named by its dotted qualified name, such as
`totals.pageviews`.

The model has five modules:

- `SchemaFields` (`schema.dfy`) defines the schema tree as a `Field` datatype
  and the description dictionary as a `map<string, Option<string>>`.
  - `Truthy` models Python truthiness of a description: neither `None` nor `""`.
  - Two independent views address "every field at every depth":
    - index paths, with their qualified names (`IsIndex`, `NodeAt`, `QualifiedName`);
    - the pre-order list of `(qualified name, description)` entries (`SchemaEntries`).
  - Lemmas prove that the two views agree.
  - Lemmas prove that qualified names are unique when names are dot-free and
    unique among siblings, as BigQuery requires.
- `Descriptions` (`mapping.dfy`) defines `Assign`: the dictionary left by a
  sequence of writes `d[k] = v`. It also holds the upload step that turns rows
  into a dictionary (`{row[0]: row[1] for row in rows}`), including the
  `IndexError` on a short row.
- `Flattener` (`flattener.dfy`) models `_get_descriptions_from_schema` as a
  method.
  - A `while` loop pops the last worklist item, writes its description under
    its qualified name, and pushes its nested fields.
  - A ghost sequence records the writes.
  - The proof shows that the loop terminates.
  - It shows that the writes are a permutation of the pre-order entries.
  - It shows that the dictionary covers every field and holds only
    descriptions of fields.
  - When qualified names are unique (as they are with dot-free names that
    are unique among siblings), it shows that no path is written twice and
    that the dictionary is exactly `Flatten(schema)`.
- `MergeEngine` (`merge.dfy`) defines the merge as a function (`MergeSchema`)
  and proves its node-by-node properties:
  - overwrite only with a truthy value, otherwise keep the description;
  - the shape is preserved;
  - nodes that no entry matches are untouched;
  - the empty mapping is the identity;
  - the merge is idempotent.

  `_get_new_schema` / `_update_field` are modelled imperatively:
  - `FieldRecord` is a class for the mutable dictionary form of a field.
  - `UpdateField` overwrites the description in place and recurses into the
    nested records.
  - `GetNewSchema` is proved equal to `MergeSchema`.
- `DescriptionManager` (`manager.dfy`) models the two modes.
  - The schemas fetched from BigQuery are parameters.
  - The `update_table` request is the result.
  - The module also holds the copy and upload scenarios as lemmas.

## Model

| member | source | states |
|---|---|---|
| SchemaFields.FieldEntries | bq_utils/bigquery_description_manager.py:59-61 | definition of the pre-order reference listing (a field's own entry first); its promise is proved by `NodeHasEntry` and `EntryHasNode` |
| SchemaFields.NodeHasEntry | bq_utils/bigquery_description_manager.py:55-61 | every node at every depth, RECORD parents included, has the entry (its qualified name, its description) in the pre-order entries |
| SchemaFields.NodeHasChildEntry | bq_utils/bigquery_description_manager.py:60-61 | the same for nested fields, whose names are prefixed with the parent's qualified name and "." |
| SchemaFields.EntryHasNode | bq_utils/bigquery_description_manager.py:59 | conversely, every entry is (qualified name, description) of some node of the tree |
| SchemaFields.ChildEntryHasNode | bq_utils/bigquery_description_manager.py:60-61 | conversely, for the entries of nested fields |
| SchemaFields.DotFreeHead | bq_utils/bigquery_description_manager.py:60 | a name joined with "." is split back uniquely when the first part has no dot |
| SchemaFields.SameNameSameIndex | bq_utils/bigquery_description_manager.py:60-61 | with dot-free, sibling-unique names, two nodes with the same qualified name are the same node |
| SchemaFields.WellNamedUniquePaths | bq_utils/bigquery_description_manager.py:60-61 | dot-free, sibling-unique names make every qualified name unique in the tree |
| SchemaFields.UniqueTail | bq_utils/bigquery_description_manager.py:55 | unique qualified names stay unique among the fields after the first |
| SchemaFields.UniqueChildren | bq_utils/bigquery_description_manager.py:60-61 | unique qualified names stay unique below any field |
| SchemaFields.ChildInjective | bq_utils/bigquery_description_manager.py:60 | the same parent path joined with different names gives different paths |
| SchemaFields.FirstSubtreeApart | bq_utils/bigquery_description_manager.py:60-61 | below a parent with unique qualified names, no path of the first field's subtree is a path of a later sibling's subtree |
| SchemaFields.FirstFieldApart | bq_utils/bigquery_description_manager.py:55-61 | in a schema with unique qualified names, no path of the first field's subtree is a path of a later field's subtree |
| SchemaFields.ChildEntriesDistinct | bq_utils/bigquery_description_manager.py:60-61 | with unique qualified names, the listing below a parent holds each path at one position only |
| SchemaFields.SchemaEntriesDistinct | bq_utils/bigquery_description_manager.py:57-61 | with unique qualified names, the pre-order listing holds each path at one position only |
| Descriptions.AssignKeys | bq_utils/bigquery_description_manager.py:59 | the keys of the dictionary are exactly the written paths |
| Descriptions.AssignSound | bq_utils/bigquery_description_manager.py:59 | every stored value was written under its key |
| Descriptions.AssignSnoc | bq_utils/bigquery_description_manager.py:59 | one more write replaces the value at its path and leaves every other path as it was |
| Descriptions.AssignLastWins | bq_utils/bigquery_description_manager.py:100 | the last write to a path is the value kept |
| Descriptions.AssignFunctional | bq_utils/bigquery_description_manager.py:57-61 | when no path is written with two different values, every write is in the dictionary |
| Descriptions.AssignReordered | bq_utils/bigquery_description_manager.py:57-61 | then the order of the writes does not matter |
| Descriptions.DistinctPathsCount | bq_utils/bigquery_description_manager.py:59 | a sequence of writes with distinct paths holds each entry at most once |
| Descriptions.DistinctPathsReordered | bq_utils/bigquery_description_manager.py:57-61 | any reordering of writes with distinct paths still writes each path once |
| Descriptions.FirstShortRow | bq_utils/bigquery_description_manager.py:100 | the first row with fewer than two columns, every earlier row has two |
| Descriptions.RowWrites | bq_utils/bigquery_description_manager.py:100 | definition of the writes of the comprehension; its promise is proved by `RowsToMappingKeys` and `RowsToMappingLaterWins` |
| Descriptions.RowsToMapping | bq_utils/bigquery_description_manager.py:100 | the comprehension fails exactly when some row has fewer than two columns, reporting the first such row |
| Descriptions.RowsToMappingKeys | bq_utils/bigquery_description_manager.py:95-100 | the keys are exactly the first columns of all rows, the first (header) row included |
| Descriptions.RowsToMappingLaterWins | bq_utils/bigquery_description_manager.py:100 | a path maps to the second column of the last row naming it |
| Flattener.TopItems | bq_utils/bigquery_description_manager.py:55 | definition of the initial worklist; its promise is proved by `TopItemsEntries` |
| Flattener.ChildItems | bq_utils/bigquery_description_manager.py:60-61 | definition of the pushed items; its promise is proved by `ChildItemsEntries` |
| Flattener.WorkEntriesAppend | bq_utils/bigquery_description_manager.py:60 | the entries still owed by a worklist split over `+=` |
| Flattener.TopItemsEntries | bq_utils/bigquery_description_manager.py:55 | the initial worklist owes exactly the pre-order entries of the schema |
| Flattener.ChildItemsEntries | bq_utils/bigquery_description_manager.py:60-61 | the pushed items owe exactly the entries below the popped field |
| Flattener.PopPush | bq_utils/bigquery_description_manager.py:57-61 | one iteration writes exactly one owed entry, and the count of owed entries strictly decreases (termination) |
| Flattener.DescriptionsFromSchema | bq_utils/bigquery_description_manager.py:49-62 | its writes are a permutation of one entry per node; the dictionary is those writes in order; every node's qualified name is a key; every key names a node and holds its description; with unique qualified names, and so with dot-free names unique among siblings, no path is written twice and the result is `Flatten(schema)` |
| Flattener.ProcessFields | bq_utils/bigquery_description_manager.py:55-61 | the worklist loop terminates; its writes are a permutation of one entry per node and the dictionary is those writes in order |
| Flattener.WritesDescribeSchema | bq_utils/bigquery_description_manager.py:55-61 | any order of one write per node gives coverage and soundness; with unique qualified names (or dot-free, sibling-unique names) it writes every path once and gives `Flatten(schema)` |
| Flattener.WritesCoverNodes | bq_utils/bigquery_description_manager.py:55-61 | in any order of the writes, every node's qualified name becomes a key |
| Flattener.WritesFromNodes | bq_utils/bigquery_description_manager.py:59 | in any order of the writes, every key is a node's qualified name holding that node's description |
| Flattener.WritesUnordered | bq_utils/bigquery_description_manager.py:57-61 | with unique qualified names the visiting order does not change the dictionary |
| Flattener.FlattenExact | bq_utils/bigquery_description_manager.py:55-61 | with unique qualified names, each node's description is stored under its qualified name |
| MergeEngine.MergeChildren | bq_utils/bigquery_description_manager.py:74-77 | definition of the merge below a parent; its promise is proved by `MergeChildrenAt` and `MergeChildrenAddNoNode` |
| MergeEngine.MergeSchema | bq_utils/bigquery_description_manager.py:86-89 | definition of the merge of a schema; its promise is proved by `MergeAt`, `MergeAddsNoNode`, `MergeUnchanged` and `MergeIdempotent` |
| MergeEngine.MergeChildrenAt | bq_utils/bigquery_description_manager.py:74-77 | below a parent path, every nested node keeps its place, qualified name, name, type, mode and child count; its description follows the truthy-overwrite rule at parent + "." + name |
| MergeEngine.MergeAt | bq_utils/bigquery_description_manager.py:72-77 | at every depth the node keeps its place, qualified name, name, type, mode and child count; its description becomes the mapped value when that is truthy and stays otherwise (absent, None or "") |
| MergeEngine.MergeChildrenAddNoNode | bq_utils/bigquery_description_manager.py:74-77 | the merge adds no nested node |
| MergeEngine.MergeAddsNoNode | bq_utils/bigquery_description_manager.py:86-89 | every node of the merged schema stands where a node of the target stands |
| MergeEngine.MergeChildrenUnchanged | bq_utils/bigquery_description_manager.py:72-77 | a nested field list no truthy entry matches comes back unchanged |
| MergeEngine.MergeUnchanged | bq_utils/bigquery_description_manager.py:72 | a schema no truthy entry matches comes back unchanged; entries naming absent paths are ignored |
| MergeEngine.MergeEmpty | bq_utils/bigquery_description_manager.py:72 | the empty mapping leaves the schema unchanged |
| MergeEngine.MergeFieldTwice | bq_utils/bigquery_description_manager.py:72-77 | updating a field twice with the same mapping equals updating it once |
| MergeEngine.MergeIdempotent | bq_utils/bigquery_description_manager.py:86-88 | merging twice with the same mapping equals merging once |
| MergeEngine.FieldRecord.constructor | bq_utils/bigquery_description_manager.py:86 | a record built over valid, disjoint nested records is valid and represents the field with those children |
| MergeEngine.FieldRecord.FromField | bq_utils/bigquery_description_manager.py:86 | the dictionary form of a field is a fresh, valid record tree representing exactly that field |
| MergeEngine.FieldRecord.ToField | bq_utils/bigquery_description_manager.py:89 | reading a record tree back gives the field it represents |
| MergeEngine.FieldRecord.UpdateField | bq_utils/bigquery_description_manager.py:64-77 | in place, the record tree comes to represent the merged field; it stays valid, keeps its footprint and writes nothing outside it |
| MergeEngine.FieldRecord.UpdateNested | bq_utils/bigquery_description_manager.py:74-77 | each nested record is updated under parent path + "." + its name; nothing else of the parent record changes |
| MergeEngine.FieldRecord.UpdateChild | bq_utils/bigquery_description_manager.py:76-77 | one nested record is updated under parent path + "." + its name; its siblings and the parent record are unchanged |
| MergeEngine.ToRecords | bq_utils/bigquery_description_manager.py:86 | one fresh, valid, separate record tree per top-level field, in order |
| MergeEngine.FromRecords | bq_utils/bigquery_description_manager.py:89 | the fields the records represent, in order |
| MergeEngine.GetNewSchema | bq_utils/bigquery_description_manager.py:79-90 | the returned schema is the merge of the target schema with the mapping |
| MergeEngine.UpdateTopLevel | bq_utils/bigquery_description_manager.py:87-88 | one top-level record is updated from its bare name; the other records are unchanged and all stay valid |
| DescriptionManager.UpdateTable | bq_utils/bigquery_description_manager.py:37-47 | the update request carries the merged schema and the attribute list `["schema"]` only |
| DescriptionManager.CopyFieldDescriptions | bq_utils/bigquery_description_manager.py:25-35 | the target is merged with a dictionary written from one entry per source node; with unique source paths, with `Flatten(source)`; only `schema` is updated |
| DescriptionManager.UploadFieldsDescriptions | bq_utils/bigquery_description_manager.py:92-101 | a row with fewer than two columns fails before any update request; otherwise the target is merged with the rows' dictionary and only `schema` is updated |
| DescriptionManager.CopyMatched | bq_utils/bigquery_description_manager.py:72-73 | a target field whose qualified name is a source field's takes the source description when it is truthy and keeps its own otherwise |
| DescriptionManager.CopyUnmatched | bq_utils/bigquery_description_manager.py:72 | a target field whose qualified name names no source field keeps its description |
| DescriptionManager.TotalsEntries | tests/bigquery_description_manager_test.py:25-32 | the entries of the nested fields of the test's `totals` record |
| DescriptionManager.CopySourceEntries | tests/bigquery_description_manager_test.py:17-32 | the pre-order entries of the test's source table |
| DescriptionManager.CopySourceFlattened | tests/bigquery_description_manager_test.py:17-32 | the flattened source holds each source description under the paths the target uses, `totals` included |
| DescriptionManager.CopyScenario | tests/bigquery_description_manager_test.py:59-73 | merging the test's target with the flattened test source gives exactly the expected schema: `visitNumber` and `totals.screenviews` are ignored, and the RECORD parent `totals` takes its own description |
| DescriptionManager.TotalsWellNamed | tests/bigquery_description_manager_test.py:27-32 | the nested names of the test's `totals` record are dot-free and distinct |
| DescriptionManager.CopySourceWellNamed | tests/bigquery_description_manager_test.py:17-32 | the test's source table has dot-free names, unique among siblings |
| DescriptionManager.CopyTestRequest | tests/bigquery_description_manager_test.py:49-73 | copy mode on the test's tables returns the update request with exactly the expected schema and `["schema"]` |
| DescriptionManager.UploadRowsMapping | bq_utils/bigquery_description_manager.py:100 | the rows' dictionary maps `clientId` and `totals.hits` to their second columns, keeps the header's first column as a key, and has no `totals` or `extra` |
| DescriptionManager.UploadScenario | bq_utils/bigquery_description_manager.py:100 | rows with a header describe `clientId` and `totals.hits`; the unlisted `totals` and `extra` keep their descriptions; the header row names no field and changes nothing |

## Left out

- `main` (lines 104-139) is left out: argument parsing, usage errors and logging configuration are command-line glue.
- The BigQuery client (`get_table`, `update_table`) is a network service. A fetched schema is a parameter, and the update request is the returned `TableUpdate` value. Client failures and table identifiers are not modelled.
- `open` and `csv.reader` (lines 98-99) are file I/O. Upload mode takes the parsed rows as `seq<seq<string>>`. CSV quoting and encoding are not modelled.
- Logging and `pprint` (lines 33-34, 45, 47) have no effect on the result.
- `SchemaField.to_api_repr` / `from_api_repr` are treated as exact conversions between `Field` and `FieldRecord`. The library writes a `fields` key only for RECORD fields. The model always keeps a nested list, empty for other fields, so the `'fields' in field` test at line 74 has no separate branch.
- Flattener.DescriptionsFromSchema: when two nodes share a qualified name, the exact surviving description depends on the pop order. The contract pins that result down as the dictionary left by the actual writes, characterised as a permutation of one entry per node. It does not pin it down as a function of the schema. BigQuery names cannot contain "." and are unique among siblings, and under those rules this case cannot arise (`WellNamedUniquePaths`).
- Descriptions.RowsToMapping: the docstring at line 95 mentions a header row. The comprehension at line 100 writes every row, the first one included, and the model follows the code.
