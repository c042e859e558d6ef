# EAV structure migration: a verified model

This project models the EAV (entity–attribute–value) structure step of the
data migration tool, `src/Migration/Step/Eav/Migrate.php`. The step copies
attribute sets, attribute groups and attributes from a source schema into a
destination schema that already holds its own rows (the *baseline*). Both
schemas number their rows with independent auto-increment ids. The step
writes every table with a clear-then-write and then builds old-id to new-id
maps by re-reading the written rows, matched by business key. Attributes and
the configured join tables are merged by key. Sets and groups are not: the
source rows and the baseline rows are both written, so a key that occurs in
both is written twice (`Stages.BaselineSetsAppended` counts the rows). Only
three kinds of column are then rewritten through the maps: the attribute, set
and group ids of a carried `eav_entity_attribute` row; the `attribute_id` of
an unconsumed row of a configured join table, when the attribute map holds a
non-null id for it; and the `default_attribute_set_id` of an `eav_entity_type`
row built from a source row, when the set map holds one. Every other column
of a join-table row is written as the transformer or the destination left it.

`perform` runs four stages in order:

1. **Sets, then groups.** The source rows are transformed. Every baseline row
   is appended with its id cleared. A baseline group is pointed at the new id
   of the set with its old set's `entity_type_id-attribute_set_name` key. The
   set map and then the group map are built from the re-read tables.
2. **Attributes.** Each source attribute is merged over the baseline
   attribute with the same `entity_type_id-attribute_code` key, and that
   baseline row is consumed. The unconsumed baseline attributes are appended
   with a null `attribute_id`. The attribute map is then built.
3. **`eav_entity_attribute`.** The source assignments are transformed. An
   existing assignment survives only when its attribute, set and group ids
   all resolve through the maps; it is then remapped and its own id cleared.
4. **Configured join tables.** The same merge runs by each table's
   configured key fields. A key field `attribute_id` is first resolved across
   the schemas. An `eav_entity_type` row built from a source row gets its
   `default_attribute_set_id` remapped when the set map has an entry for it.
   Unconsumed destination rows get only their `attribute_id` remapped; every
   other column, the default set included, is written as it was
   (`Stages.LeftoversKeepOtherColumns`).

## Layout

- `records.dfy` (module `Records`): column values and rows, PHP's string
  cast, `isset`, `implode('-', …)`, and insertion-ordered keyed snapshots.
- `identity.dfy` (module `Identity`): `getMappingValue` and
  `getDestinationAttributeId`. These are pure functions.
- `stages.dfy` (module `Stages`): what each stage writes and which maps it
  builds, as functions of the inputs. It also holds the lemmas about them:
  consumption, counts, leftovers, totality of the id maps, and the filter.
- `migrate.dfy` (module `Migration`): class `Migrate`.
  - Its fields are the step's own: the three re-read indexes, the three id
    maps, and the destination tables.
  - Every stage is a method with the step's loops.
  - Each method's `ensures` ties the new state to the functions of `Stages`.

The collaborators are one value of type `Stages.Env`, held as a `const`:

- source reads;
- the document-name map;
- the destination column lists;
- the record transformer, which is an uninterpreted function;
- the baseline snapshots;
- the configured lists.

PHP arrays that are iterated in insertion order are modelled as a `Snapshot`:
an order of keys plus a map. `unset` removes a key from the working map. The
final `foreach` walks the original order and keeps the keys that are still
present (`Stages.Remaining`).

## Model

| member | source | states |
|---|---|---|
| Records.NullSeed | src/Migration/Step/Eav/Migrate.php:233 | `array_fill_keys($fields, null)`: exactly the listed columns, each null |
| Records.IsSetIn | src/Migration/Step/Eav/Migrate.php:280-282 | `isset` on an old-id to new-id map: the old id's text is a key and its entry is non-null |
| Records.Implode | src/Migration/Step/Eav/Migrate.php:413 | `implode('-', …)`: the parts in order with one '-' between each two, the empty list giving the empty key |
| Records.ImplodePair | src/Migration/Step/Eav/Migrate.php:478-482 | a two-part key is the first part, '-', the second part, so it is never falsy in PHP |
| Records.ImplodeCollides | src/Migration/Step/Eav/Migrate.php:413 | two different part lists join to the same key: the string composite key is not injective |
| Records.ImplodeInjective | src/Migration/Step/Eav/Migrate.php:413 | the key is injective on part lists of equal length when no part but the last contains '-' |
| Identity.KeyParts | src/Migration/Step/Eav/Migrate.php:400-412 | one part per key field, in field order; an `attribute_id` field contributes the destination id and any other field its raw value |
| Identity.KeyPart | src/Migration/Step/Eav/Migrate.php:404-411 | one key field's part: an `attribute_id` field contributes the destination attribute id, any other field its raw text |
| Identity.MappingValue | src/Migration/Step/Eav/Migrate.php:400-414 | the parts of `KeyParts` joined with '-'; its properties are `MappingValueRaw` and `MappingValueResolvesAttributeId` |
| Identity.MappingValueRaw | src/Migration/Step/Eav/Migrate.php:400-414 | without an `attribute_id` field the mapping value is the raw '-'-join of the fields; for the attribute key fields it is the attribute's business key |
| Identity.MappingValueResolvesAttributeId | src/Migration/Step/Eav/Migrate.php:400-414 | a leading `attribute_id` field contributes `getDestinationAttributeId` of the value, not the value |
| Identity.DestinationAttributeId | src/Migration/Step/Eav/Migrate.php:473-487 | null when the source id is not in the source baseline, or when its business key is not in the destination baseline; when both lookups hit, exactly the destination row's `attribute_id` |
| Identity.CrossSchemaLookup | src/Migration/Step/Eav/Migrate.php:473-487 | for a destination baseline keyed by business key, the lookup is non-null exactly when a destination attribute with the source attribute's entity type and code has an id, and then it returns that id |
| Identity.AttributeKey | src/Migration/Step/Eav/Migrate.php:478-479 | an attribute's business key: its `entity_type_id` and `attribute_code` joined with '-' |
| Stages.Transformed | src/Migration/Step/Eav/Migrate.php:155-161 | one row per source row, in order, each the transform of that row over an empty destination row |
| Stages.Seeded | src/Migration/Step/Eav/Migrate.php:235-239 | one row per source row, in order, each the transform of that row over its own seed |
| Stages.Cleared | src/Migration/Step/Eav/Migrate.php:164-165 | the rows in order, with one column set to null and nothing else changed |
| Stages.SetRows | src/Migration/Step/Eav/Migrate.php:155-174 | the set table: the transformed source sets, then every baseline set with its id cleared, without merging by key |
| Stages.SetKey | src/Migration/Step/Eav/Migrate.php:426-427 | a set's business key: its `entity_type_id` and `attribute_set_name` joined with '-' |
| Stages.GroupKey | src/Migration/Step/Eav/Migrate.php:438-441 | a group's business key, as the re-read group table is keyed: its `attribute_set_id` and `attribute_group_name` joined with '-' |
| Stages.BaselineSetsAppended | src/Migration/Step/Eav/Migrate.php:163-174 | the set table gets the source sets plus one row per baseline set; each baseline set has a row with a null id, its other columns unchanged and its business key kept |
| Stages.SetRowAt | src/Migration/Step/Eav/Migrate.php:163-174 | the row after the source sets at offset `j` is the `j`-th baseline set with its id cleared |
| Stages.ClearedSetKeepsKey | src/Migration/Step/Eav/Migrate.php:165 | clearing `attribute_set_id` changes no other column and keeps the set's business key |
| Stages.Repointed | src/Migration/Step/Eav/Migrate.php:176-190 | one row per baseline group, in order: its set id replaced by the new id of its old set's business key, and its own id cleared |
| Stages.NewSetIdOf | src/Migration/Step/Eav/Migrate.php:178-182 | the id of the re-read set with the group's old set's business key; null only for an unknown set, which stage 1 excludes |
| Stages.GroupRows | src/Migration/Step/Eav/Migrate.php:155-193 | the group table: the transformed source groups, then every baseline group repointed, without merging by key |
| Stages.GroupKnownAt | src/Migration/Step/Eav/Migrate.php:178-181 | under a consistent baseline, the lookups of the old set and of its re-read row succeed for every baseline group |
| Stages.GroupRowAt | src/Migration/Step/Eav/Migrate.php:176-190 | the row after the source groups at offset `j` is the `j`-th baseline group, repointed |
| Stages.GroupLookupKey | src/Migration/Step/Eav/Migrate.php:443-444 | a baseline group's lookup key: its set's mapped id and its name, joined |
| Stages.RepointedKey | src/Migration/Step/Eav/Migrate.php:442-444 | a repointed group's business key is the key `loadNewAttributeGroups` looks it up under |
| Stages.GroupLookupKeysWritten | src/Migration/Step/Eav/Migrate.php:442-445 | every baseline group's set is in the set map, and the group table holds a new row (null id) whose business key is that group's lookup key |
| Stages.Assign | src/Migration/Step/Eav/Migrate.php:426-429 | each old-to-new pair assigned in order over the starting map; its properties are `AssignAt` and `AssignFrom` |
| Stages.AssignAt | src/Migration/Step/Eav/Migrate.php:426-429 | assigning pairs in order keeps the old keys, defines every pair's key, gives a key its last pair's value, and leaves untouched keys alone |
| Stages.AssignFrom | src/Migration/Step/Eav/Migrate.php:442-448 | the converse of `AssignAt`: every entry of the built map is a starting entry or one of the pairs, so the map gains no other key |
| Stages.SetPairs | src/Migration/Step/Eav/Migrate.php:426-429 | one pair per baseline set, in order: its id and the id of the re-read set under its business key |
| Stages.GroupPairs | src/Migration/Step/Eav/Migrate.php:442-448 | one pair per baseline group, in order: its id and the id of the re-read group under `newSetId-groupName` |
| Stages.AttributePairs | src/Migration/Step/Eav/Migrate.php:462-464 | one pair per baseline attribute, in order: its id and the id of the re-read attribute under its business key |
| Stages.SetMapValues | src/Migration/Step/Eav/Migrate.php:420-430 | every baseline set id maps to the id of the re-read set under that set's business key |
| Stages.SetMapTotal | src/Migration/Step/Eav/Migrate.php:420-430 | the set map is total on the baseline, and each value is the id of a re-read set with the same business key |
| Stages.GroupMapTotal | src/Migration/Step/Eav/Migrate.php:436-450 | the group map is total on the baseline, and each value is the id of a re-read group whose key is (new set id, group name) |
| Stages.SetMapFromReloaded | src/Migration/Step/Eav/Migrate.php:420-430 | a set map built from empty holds only ids of re-read set rows |
| Stages.GroupMapFromReloaded | src/Migration/Step/Eav/Migrate.php:436-450 | a group map built from empty holds only ids of re-read group rows |
| Stages.AttributeMapFromReloaded | src/Migration/Step/Eav/Migrate.php:456-467 | an attribute map built from empty holds only ids of re-read attribute rows |
| Stages.AttributeMapTotal | src/Migration/Step/Eav/Migrate.php:456-467 | every baseline attribute id is in the attribute map, and its value is the id of the re-read attribute with the same business key |
| Stages.Consume | src/Migration/Step/Eav/Migrate.php:222-234 | one seed per source row; the rows left are a subset of the destination rows, unchanged |
| Stages.ConsumeSeeds | src/Migration/Step/Eav/Migrate.php:222-234 | a row is left exactly when its key is in the destination and no source row has it; seed `i` is the destination row under key `i` when no earlier row took it, and the null seed otherwise |
| Stages.ConsumeLeftovers | src/Migration/Step/Eav/Migrate.php:229-231 | the rows left are exactly the destination rows whose key no source row has |
| Stages.SeedsDistinct | src/Migration/Step/Eav/Migrate.php:229-233 | a later source row with the key of an earlier one is seeded with the all-null row, so each destination row seeds at most one output row |
| Stages.Remaining | src/Migration/Step/Eav/Migrate.php:242 | the keys visited are exactly the listed keys whose rows are still present |
| Stages.RemainingCount | src/Migration/Step/Eav/Migrate.php:242-247 | over a duplicate-free order that lists every row, the walk visits each remaining row once: its length is the number of rows left |
| Stages.ClearedAttributes | src/Migration/Step/Eav/Migrate.php:242-247 | one row per remaining key, in order: that baseline attribute with a null `attribute_id` |
| Stages.Keys | src/Migration/Step/Eav/Migrate.php:228 | one mapping key per source row, in order |
| Stages.AttributeMerge | src/Migration/Step/Eav/Migrate.php:219-234 | the attribute merge: `Consume` of the source keys over the baseline attributes with the null seed |
| Stages.NullSeedOf | src/Migration/Step/Eav/Migrate.php:322-327 | the seed of an unmatched source row: every column of the destination document, null |
| Stages.AttributeRows | src/Migration/Step/Eav/Migrate.php:222-247 | the attribute table: the merged source attributes, then the unconsumed baseline attributes cleared, in baseline order |
| Stages.AttributeRowsCount | src/Migration/Step/Eav/Migrate.php:222-247 | the attribute table gets one row per source attribute plus one per unmatched baseline attribute |
| Stages.AttributeRowsSeeded | src/Migration/Step/Eav/Migrate.php:222-239 | output row `i` is source attribute `i` transformed over the baseline row with its key when no earlier source attribute took it, and over the null seed otherwise |
| Stages.AttributeLeftovers | src/Migration/Step/Eav/Migrate.php:242-247 | every baseline attribute whose key no source attribute has is written after the source rows, with a null id |
| Stages.AttributeKeysAreBusinessKeys | src/Migration/Step/Eav/Migrate.php:228 | the merge key of a source attribute is its `entity_type_id-attribute_code` business key |
| Stages.Remapped | src/Migration/Step/Eav/Migrate.php:286-290 | a carried assignment's attribute, set and group ids are exactly the entries the three maps hold for its old ids (each non-null), `entity_attribute_id` is null, and every other column is unchanged |
| Stages.Carried | src/Migration/Step/Eav/Migrate.php:279-293 | the carried rows are never more than the existing rows |
| Stages.Resolvable | src/Migration/Step/Eav/Migrate.php:280-282 | an assignment is kept when its attribute, set and group ids are each set in their map with a non-null new id |
| Stages.CarriedIdsReloaded | src/Migration/Step/Eav/Migrate.php:279-293 | with the maps built from empty, every carried assignment's attribute, set and group ids are ids of re-read rows |
| Stages.CarriedExactly | src/Migration/Step/Eav/Migrate.php:279-293 | every carried row is a resolvable existing row remapped; every resolvable row is carried; nothing is dropped exactly when every row resolves |
| Stages.AssignmentRows | src/Migration/Step/Eav/Migrate.php:268-293 | the assignment table: the transformed source assignments, then the carried ones |
| Stages.Documents | src/Migration/Step/Eav/Migrate.php:371-382 | each entry is a listed document with its own non-empty key list, with no document twice |
| Stages.DocumentsListed | src/Migration/Step/Eav/Migrate.php:371-382 | a document is configured exactly when it is listed and its key list is not empty |
| Stages.FinishRow | src/Migration/Step/Eav/Migrate.php:333-341 | only for `eav_entity_type`, and only when the set map has a non-null entry for it, is `default_attribute_set_id` replaced; nothing else changes |
| Stages.Finished | src/Migration/Step/Eav/Migrate.php:333-341 | every row passed through `FinishRow`, in order |
| Stages.RemapAttributeId | src/Migration/Step/Eav/Migrate.php:352-359 | `attribute_id` is replaced exactly when it is set and has a non-null entry in the attribute map; no other column changes |
| Stages.RemappedLeftovers | src/Migration/Step/Eav/Migrate.php:346-361 | one row per remaining key, in order: that destination row through `RemapAttributeId` |
| Stages.JoinMerge | src/Migration/Step/Eav/Migrate.php:313-327 | a join table's merge: `Consume` of the source keys over the destination rows with the null seed |
| Stages.JoinRows | src/Migration/Step/Eav/Migrate.php:315-361 | a join table: the source rows over their seeds, finished, then (key list not empty) the remapped leftovers |
| Stages.JoinRowsCount | src/Migration/Step/Eav/Migrate.php:315-361 | with a non-empty key list a join table gets the source rows plus the unmatched destination rows; with an empty one, only the source rows |
| Stages.JoinLeftoversWritten | src/Migration/Step/Eav/Migrate.php:346-361 | every destination row whose key no source row has is written after the source rows, its `attribute_id` remapped |
| Stages.LeftoversKeepOtherColumns | src/Migration/Step/Eav/Migrate.php:346-361 | a leftover row is written with every column but `attribute_id` as it was, so its `default_attribute_set_id` is not remapped |
| Stages.JoinTail | src/Migration/Step/Eav/Migrate.php:346-361 | after the source-derived rows, a join table holds exactly the remapped leftovers |
| Stages.JoinTables | src/Migration/Step/Eav/Migrate.php:306-365 | the store after stage 4: each configured table written with its `JoinRows`, in list order |
| Stages.LeftoverRemapped | src/Migration/Step/Eav/Migrate.php:346-361 | a key the leftover walk visits contributes its remapped row |
| Migration.Migrate.constructor | src/Migration/Step/Eav/Migrate.php:103-121 | the collaborators and the store are as given; the indexes and id maps start empty |
| Migration.Migrate.SaveRecords | src/Migration/Step/Eav/Migrate.php:389-393 | the document holds exactly the rows given, and no other document changes |
| Migration.Migrate.LoadNewAttributeSets | src/Migration/Step/Eav/Migrate.php:420-430 | the set index is the re-read; the set map is the old map with every baseline set's pair assigned in order |
| Migration.Migrate.LoadNewAttributeGroups | src/Migration/Step/Eav/Migrate.php:436-450 | the group index is the re-read; the group map is the old map with every baseline group's pair (looked up through the set map) assigned in order |
| Migration.Migrate.LoadNewAttributes | src/Migration/Step/Eav/Migrate.php:456-467 | the attribute index is the re-read and is returned; the attribute map is the old map with every baseline attribute's pair assigned in order |
| Migration.Migrate.TransformSource | src/Migration/Step/Eav/Migrate.php:155-161 | the rows are the source rows transformed, in order |
| Migration.Migrate.AppendBaselineSets | src/Migration/Step/Eav/Migrate.php:163-174 | the baseline sets, in order and with their ids cleared, follow the given rows |
| Migration.Migrate.RepointGroup | src/Migration/Step/Eav/Migrate.php:178-183 | the group points at the new id of its set, and its own id is null |
| Migration.Migrate.AppendBaselineGroups | src/Migration/Step/Eav/Migrate.php:176-190 | the baseline groups, in order and repointed, follow the given rows |
| Migration.Migrate.MigrateAttributeSets | src/Migration/Step/Eav/Migrate.php:144-199 | the set table holds the set rows and nothing else changes; the set index and set map are rebuilt |
| Migration.Migrate.MigrateAttributeGroups | src/Migration/Step/Eav/Migrate.php:144-202 | the group table holds the group rows and nothing else changes; the group index and group map are rebuilt |
| Migration.Migrate.MigrateAttributeSetsAndGroups | src/Migration/Step/Eav/Migrate.php:142-203 | both tables are written and the set and group maps are built; the attribute state is unchanged |
| Migration.Migrate.TakeSeed | src/Migration/Step/Eav/Migrate.php:228-234 | the seed and the rows left are the next step of `Consume` |
| Migration.Migrate.MergeAttributes | src/Migration/Step/Eav/Migrate.php:222-240 | the merged rows are the source attributes over their seeds, and the rows left are the unconsumed baseline |
| Migration.Migrate.AppendClearedAttributes | src/Migration/Step/Eav/Migrate.php:242-247 | the unconsumed baseline attributes, in baseline order and with their ids cleared, follow the given rows |
| Migration.Migrate.AttributeRecords | src/Migration/Step/Eav/Migrate.php:218-247 | the rows are exactly `AttributeRows` |
| Migration.Migrate.MigrateAttributes | src/Migration/Step/Eav/Migrate.php:209-251 | the attribute table holds `AttributeRows` and nothing else changes; the attribute index and map are rebuilt; the set and group state is unchanged |
| Migration.Migrate.RemapAssignment | src/Migration/Step/Eav/Migrate.php:286-290 | the assignment is remapped through the three maps, with its own id cleared |
| Migration.Migrate.CarryAssignments | src/Migration/Step/Eav/Migrate.php:279-293 | the resolvable existing assignments, in order and remapped, follow the given rows |
| Migration.Migrate.MigrateEntityAttributes | src/Migration/Step/Eav/Migrate.php:258-296 | `eav_entity_attribute` holds the transformed source rows then the carried ones; nothing else changes |
| Migration.Migrate.GetDocuments | src/Migration/Step/Eav/Migrate.php:371-382 | the result is `Documents` of the configured list |
| Migration.Migrate.MergeMapped | src/Migration/Step/Eav/Migrate.php:313-344 | the merged rows are the source rows over their seeds, each finished; the rows left are the unconsumed destination rows |
| Migration.Migrate.AppendFinished | src/Migration/Step/Eav/Migrate.php:328-343 | one more source row, over its seed and finished, extends the merged rows |
| Migration.Migrate.FinishEntityType | src/Migration/Step/Eav/Migrate.php:333-341 | the row is `FinishRow` of the transformed row |
| Migration.Migrate.RemapLeftover | src/Migration/Step/Eav/Migrate.php:352-359 | the row is `RemapAttributeId` of the leftover |
| Migration.Migrate.AppendRemappedLeftovers | src/Migration/Step/Eav/Migrate.php:346-361 | the unconsumed destination rows, in their original order and remapped, follow the given rows |
| Migration.Migrate.MigrateMappedDocument | src/Migration/Step/Eav/Migrate.php:306-365 | the join table holds `JoinRows` and nothing else changes |
| Migration.Migrate.MigrateMappedTables | src/Migration/Step/Eav/Migrate.php:302-366 | every configured table is written, in list order, and the maps are unchanged |
| Migration.Migrate.Perform | src/Migration/Step/Eav/Migrate.php:127-136 | returns true; the three maps are built from the re-reads; the store is the four stages' writes applied in order |

## Left out

- Progress bar calls (`start`, `advance`, `finish`) and `getIterationsCount`: they only report progress.
- `backupDocument`, `rollback` and `deleteBackups`: these are database operations outside the step's logic.
- Database id assignment on insert is not modelled. The re-read of each table after its write (`getDestinationRecords` in the three `load*` methods) is a parameter of the load methods and of `Perform`. Lemmas `BaselineSetsAppended` and `GroupLookupKeysWritten` show which rows the written tables contain for those lookups to find.
- The record transformer, the record factory, the reading of source and destination documents, the document-name map and the list reader are collaborators. They are fields of `Env`, with the transformer as an uninterpreted function.
- The wiring the constructor does (the reader factory) is left out. The PHP fields start as null, which PHP treats as an empty array on the first assignment, so the constructor starts the maps empty.
- The unguarded lookups at `:178-181`, `:427`, `:443-445` and `:463` would raise a PHP notice on a missing key. The model makes them preconditions instead: every baseline group's set is a baseline set (`GroupsOwned`), and the re-reads hold the looked-up keys.
- Stages.NewSetIdOf: total, returning null for a group whose set is unknown. Stage 1 requires every group's set to be known, so that null is never written.
- The leftover walk of a join table is guarded by `if ($mappingFields)`. For tables from `getDocuments` the key list is never empty, so the guard always holds there. The model keeps the guard for any key list.
- The composite key is PHP's string `implode('-', …)`. Two different key lists can join to the same key (`ImplodeCollides`), so the model keeps the string form and states injectivity only under the hypothesis of `ImplodeInjective`.
- Values are modelled as SQL text or null. Numeric ids are compared by their string form, as PHP array keys are.
