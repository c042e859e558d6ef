/**
 * The migration step itself: an object that holds the id maps it builds and
 * the destination tables it writes, and runs the four stages in order. Each
 * stage loops over its rows exactly as the step does and is proved to write
 * the rows the functions of module Stages describe.
 */
module Migration {
  import opened Records
  import opened Identity
  import opened Stages

  class Migrate {
    /** The collaborators: source reads, baseline snapshots, transformer, configuration. */
    const env: Env

    /** The re-read, key-indexed destination sets, groups and attributes after their write. */
    var newAttributeSets: map<string, Record>
    var newAttributeGroups: map<string, Record>
    var newAttributes: map<string, Record>

    /** Old destination id to new destination id, per entity kind. */
    var destAttributeSetsOldNewMap: map<string, Value>
    var destAttributeGroupsOldNewMap: map<string, Value>
    var destAttributeOldNewMap: map<string, Value>

    /** The destination store: the rows of each destination document. */
    var tables: map<string, seq<Record>>

    constructor (env: Env, tables: map<string, seq<Record>>)
      ensures this.env == env && this.tables == tables
      ensures newAttributeSets == map[] && newAttributeGroups == map[] && newAttributes == map[]
      ensures destAttributeSetsOldNewMap == map[] && destAttributeGroupsOldNewMap == map[]
      ensures destAttributeOldNewMap == map[]
    {
      this.env := env;
      this.tables := tables;
      newAttributeSets, newAttributeGroups, newAttributes := map[], map[], map[];
      destAttributeSetsOldNewMap, destAttributeGroupsOldNewMap, destAttributeOldNewMap := map[], map[], map[];
    }

    /** `saveRecords`: clear the document, then write the rows; no other document changes. */
    method SaveRecords(document: string, recordsToSave: seq<Record>)
      modifies this`tables
      ensures tables == old(tables)[document := recordsToSave]
      ensures document in tables && tables[document] == recordsToSave
      ensures forall d :: d in old(tables) && d != document ==> d in tables && tables[d] == old(tables)[d]
    {
      tables := tables[document := []];
      tables := tables[document := recordsToSave];
    }

    /** `loadNewAttributeSets`: map each baseline set id to the new id of the set with its business key. */
    method LoadNewAttributeSets(reloaded: map<string, Record>)
      requires env.baselineSets.Valid()
      requires forall k :: k in env.baselineSets.rows ==> SetKey(env.baselineSets.rows[k]) in reloaded
      modifies this`newAttributeSets, this`destAttributeSetsOldNewMap
      ensures newAttributeSets == reloaded
      ensures destAttributeSetsOldNewMap == Assign(old(destAttributeSetsOldNewMap), SetPairs(env.baselineSets, reloaded))
    {
      newAttributeSets := reloaded;
      var sets := env.baselineSets;
      ghost var pairs := SetPairs(sets, reloaded);
      for i := 0 to |sets.order|
        invariant newAttributeSets == reloaded
        invariant destAttributeSetsOldNewMap == Assign(old(destAttributeSetsOldNewMap), pairs[..i])
      {
        var attributeSetId := sets.order[i];
        var record := sets.rows[attributeSetId];
        var newAttributeSet := newAttributeSets[SetKey(record)];
        AssignStep(old(destAttributeSetsOldNewMap), pairs, i, destAttributeSetsOldNewMap);
        destAttributeSetsOldNewMap := destAttributeSetsOldNewMap[attributeSetId := Get(newAttributeSet, SetIdField)];
      }
      assert pairs[..|sets.order|] == pairs;
    }

    /** `loadNewAttributeGroups`: map each baseline group id to the new id of the group under `newSetId-name`. */
    method LoadNewAttributeGroups(reloaded: map<string, Record>)
      requires env.baselineGroups.Valid()
      requires GroupsReloaded(env, destAttributeSetsOldNewMap, reloaded)
      modifies this`newAttributeGroups, this`destAttributeGroupsOldNewMap
      ensures newAttributeGroups == reloaded
      ensures destAttributeGroupsOldNewMap
              == Assign(old(destAttributeGroupsOldNewMap), GroupPairs(env.baselineGroups, destAttributeSetsOldNewMap, reloaded))
    {
      newAttributeGroups := reloaded;
      var groups := env.baselineGroups;
      ghost var pairs := GroupPairs(groups, destAttributeSetsOldNewMap, reloaded);
      for i := 0 to |groups.order|
        invariant newAttributeGroups == reloaded
        invariant destAttributeGroupsOldNewMap == Assign(old(destAttributeGroupsOldNewMap), pairs[..i])
      {
        var record := groups.rows[groups.order[i]];
        var newKey := Implode([KeyText(destAttributeSetsOldNewMap[KeyText(Get(record, SetIdField))]),
                               KeyText(Get(record, GroupNameField))]);
        var newAttributeGroup := newAttributeGroups[newKey];
        AssignStep(old(destAttributeGroupsOldNewMap), pairs, i, destAttributeGroupsOldNewMap);
        destAttributeGroupsOldNewMap :=
          destAttributeGroupsOldNewMap[KeyText(Get(record, GroupIdField)) := Get(newAttributeGroup, GroupIdField)];
      }
      assert pairs[..|groups.order|] == pairs;
    }

    /** `loadNewAttributes`: map each baseline attribute id to the new id of the attribute with its business key. */
    method LoadNewAttributes(reloaded: map<string, Record>) returns (loaded: map<string, Record>)
      requires env.baselineAttributes.Valid()
      requires forall k :: k in env.baselineAttributes.rows ==> k in reloaded
      modifies this`newAttributes, this`destAttributeOldNewMap
      ensures loaded == reloaded && newAttributes == reloaded
      ensures destAttributeOldNewMap == Assign(old(destAttributeOldNewMap), AttributePairs(env.baselineAttributes, reloaded))
    {
      newAttributes := reloaded;
      var attributes := env.baselineAttributes;
      ghost var pairs := AttributePairs(attributes, reloaded);
      for i := 0 to |attributes.order|
        invariant newAttributes == reloaded
        invariant destAttributeOldNewMap == Assign(old(destAttributeOldNewMap), pairs[..i])
      {
        var key := attributes.order[i];
        var attributeData := attributes.rows[key];
        AssignStep(old(destAttributeOldNewMap), pairs, i, destAttributeOldNewMap);
        destAttributeOldNewMap :=
          destAttributeOldNewMap[KeyText(Get(attributeData, AttributeIdField)) := Get(newAttributes[key], AttributeIdField)];
      }
      assert pairs[..|attributes.order|] == pairs;
      loaded := newAttributes;
    }

    /** Transform every source row of a document onto an empty destination row. */
    method TransformSource(document: string) returns (recordsToSave: seq<Record>)
      ensures recordsToSave == Transformed(env, document, env.sourceRows(document))
    {
      var sourceRecords := env.sourceRows(document);
      recordsToSave := [];
      for i := 0 to |sourceRecords|
        invariant recordsToSave == Transformed(env, document, sourceRecords[..i])
      {
        recordsToSave := recordsToSave + [env.transform(document, sourceRecords[i], map[])];
        assert sourceRecords[..i + 1][..i] == sourceRecords[..i];
      }
      assert sourceRecords[..|sourceRecords|] == sourceRecords;
    }

    /** The baseline sets appended after the source sets, each with its id cleared (`:163-174`). */
    method AppendBaselineSets(recordsToSave: seq<Record>) returns (out: seq<Record>)
      requires env.baselineSets.Valid()
      ensures out == recordsToSave + Cleared(env.baselineSets.Values(), SetIdField)
    {
      var values := env.baselineSets.Values();
      out := recordsToSave;
      for j := 0 to |values|
        invariant out == recordsToSave + Cleared(values[..j], SetIdField)
      {
        var record := values[j];
        record := record[SetIdField := Null];
        ClearedStep(values, j, SetIdField, recordsToSave, out);
        out := out + [record];
      }
      assert values[..|values|] == values;
    }

    /** One baseline group pointed at its set's new id, with its own id cleared (`:178-184`). */
    method RepointGroup(record: Record) returns (repointed: Record)
      requires GroupSetKnown(record, env.baselineSets.rows, newAttributeSets)
      ensures repointed == record[SetIdField := NewSetIdOf(record, env.baselineSets.rows, newAttributeSets)][GroupIdField := Null]
    {
      var oldAttributeSet := env.baselineSets.rows[KeyText(Get(record, SetIdField))];
      var newAttributeSet := newAttributeSets[SetKey(oldAttributeSet)];
      repointed := record[SetIdField := Get(newAttributeSet, SetIdField)];
      repointed := repointed[GroupIdField := Null];
    }

    /** The baseline groups appended after the source groups, pointed at their set's new id (`:176-193`). */
    method AppendBaselineGroups(recordsToSave: seq<Record>) returns (out: seq<Record>)
      requires env.baselineGroups.Valid() && GroupsOwned(env, newAttributeSets)
      ensures out == recordsToSave + Repointed(env.baselineGroups.Values(), env.baselineSets.rows, newAttributeSets)
    {
      var sets := env.baselineSets.rows;
      var newSets := newAttributeSets;
      var values := env.baselineGroups.Values();
      out := recordsToSave;
      for j := 0 to |values|
        invariant out == recordsToSave + Repointed(values[..j], sets, newSets)
      {
        GroupKnownAt(env, newSets, j);
        var record := RepointGroup(values[j]);
        RepointedStep(values, j, sets, newSets, recordsToSave, out, record);
        out := out + [record];
      }
      assert values[..|values|] == values;
    }

    /** The set half of `migrateAttributeSetsAndGroups` (`:155-174`, `:195-198`): write the sets, then build the set map. */
    method MigrateAttributeSets(setsReloaded: map<string, Record>)
      requires env.baselineSets.Valid()
      requires forall k :: k in env.baselineSets.rows ==> SetKey(env.baselineSets.rows[k]) in setsReloaded
      modifies this`tables, this`newAttributeSets, this`destAttributeSetsOldNewMap
      ensures tables == old(tables)[env.documentMap(SetDocument) := SetRows(env)]
      ensures newAttributeSets == setsReloaded
      ensures destAttributeSetsOldNewMap == Assign(old(destAttributeSetsOldNewMap), SetPairs(env.baselineSets, setsReloaded))
    {
      var recordsToSave := TransformSource(SetDocument);
      recordsToSave := AppendBaselineSets(recordsToSave);
      assert recordsToSave == SetRows(env);
      SaveRecords(env.documentMap(SetDocument), recordsToSave);
      LoadNewAttributeSets(setsReloaded);
    }

    /** The group half of `migrateAttributeSetsAndGroups` (`:155-161`, `:176-195`, `:199-201`): write the groups, then build the group map. */
    method MigrateAttributeGroups(groupsReloaded: map<string, Record>)
      requires env.baselineGroups.Valid() && GroupsOwned(env, newAttributeSets)
      requires GroupsReloaded(env, destAttributeSetsOldNewMap, groupsReloaded)
      modifies this`tables, this`newAttributeGroups, this`destAttributeGroupsOldNewMap
      ensures tables == old(tables)[env.documentMap(GroupDocument) := GroupRows(env, old(newAttributeSets))]
      ensures newAttributeGroups == groupsReloaded
      ensures destAttributeGroupsOldNewMap
              == Assign(old(destAttributeGroupsOldNewMap), GroupPairs(env.baselineGroups, old(destAttributeSetsOldNewMap), groupsReloaded))
    {
      var recordsToSave := TransformSource(GroupDocument);
      recordsToSave := AppendBaselineGroups(recordsToSave);
      SaveRecords(env.documentMap(GroupDocument), recordsToSave);
      LoadNewAttributeGroups(groupsReloaded);
    }

    /**
     * `migrateAttributeSetsAndGroups`: write the sets (source sets, then the
     * baseline sets as new rows) and build the set map; then the groups
     * (source groups, then the baseline groups pointed at their set's new id)
     * and the group map.
     */
    method MigrateAttributeSetsAndGroups(setsReloaded: map<string, Record>, groupsReloaded: map<string, Record>)
      requires env.baselineSets.Valid() && env.baselineGroups.Valid()
      requires forall k :: k in env.baselineSets.rows ==> SetKey(env.baselineSets.rows[k]) in setsReloaded
      requires GroupsOwned(env, setsReloaded)
      requires GroupsReloaded(env, Assign(destAttributeSetsOldNewMap, SetPairs(env.baselineSets, setsReloaded)), groupsReloaded)
      modifies this`tables, this`newAttributeSets, this`destAttributeSetsOldNewMap
      modifies this`newAttributeGroups, this`destAttributeGroupsOldNewMap
      ensures tables == old(tables)[env.documentMap(SetDocument) := SetRows(env)]
                                   [env.documentMap(GroupDocument) := GroupRows(env, setsReloaded)]
      ensures newAttributeSets == setsReloaded && newAttributeGroups == groupsReloaded
      ensures destAttributeSetsOldNewMap == Assign(old(destAttributeSetsOldNewMap), SetPairs(env.baselineSets, setsReloaded))
      ensures destAttributeGroupsOldNewMap
              == Assign(old(destAttributeGroupsOldNewMap), GroupPairs(env.baselineGroups, destAttributeSetsOldNewMap, groupsReloaded))
      ensures unchanged(this`newAttributes, this`destAttributeOldNewMap)
    {
      MigrateAttributeSets(setsReloaded);
      MigrateAttributeGroups(groupsReloaded);
    }

    /**
     * The seed of one source row: the destination row under its mapping key,
     * which is then removed, or the all-null row when there is none
     * (`:228-234`, `:322-327`). It is the next step of `Consume`.
     */
    method TakeSeed(ghost keys: seq<string>, ghost baseline: map<string, Record>, nullSeed: Record, i: int,
                    ghost seeds: seq<Record>, destinationRecords: map<string, Record>, mappingValue: string)
      returns (seed: Record, remaining: map<string, Record>)
      requires 0 <= i < |keys| && mappingValue == keys[i]
      requires seeds == Consume(keys[..i], baseline, nullSeed).0 && destinationRecords == Consume(keys[..i], baseline, nullSeed).1
      ensures seeds + [seed] == Consume(keys[..i + 1], baseline, nullSeed).0
      ensures remaining == Consume(keys[..i + 1], baseline, nullSeed).1
    {
      ConsumeStep(keys, baseline, nullSeed, i, seeds, destinationRecords);
      if mappingValue in destinationRecords {
        seed := destinationRecords[mappingValue];
        remaining := destinationRecords - {mappingValue};
      } else {
        seed := nullSeed;
        remaining := destinationRecords;
      }
    }

    /** The attribute merge loop (`:222-240`): each source attribute over the baseline row with its business key, which is consumed. */
    method MergeAttributes() returns (recordsToSave: seq<Record>, destinationRecords: map<string, Record>)
      ensures recordsToSave == Seeded(env, AttributeDocument, env.sourceRows(AttributeDocument), AttributeMerge(env).0)
      ensures destinationRecords == AttributeMerge(env).1
    {
      var sourceRecords := env.sourceRows(AttributeDocument);
      var baseline := env.baselineAttributes.rows;
      destinationRecords := baseline;
      ghost var keys := Keys(sourceRecords, AttributeKeyFields, env.sourceAttributes, baseline);
      var nullSeed := NullSeedOf(env, AttributeDocument);
      ghost var seeds: seq<Record> := [];
      recordsToSave := [];
      for i := 0 to |sourceRecords|
        invariant |seeds| == i
        invariant seeds == Consume(keys[..i], baseline, nullSeed).0
        invariant destinationRecords == Consume(keys[..i], baseline, nullSeed).1
        invariant recordsToSave == Seeded(env, AttributeDocument, sourceRecords[..i], seeds)
      {
        var mappingValue := MappingValue(sourceRecords[i], AttributeKeyFields, env.sourceAttributes, baseline);
        var destinationRecordData;
        destinationRecordData, destinationRecords := TakeSeed(keys, baseline, nullSeed, i, seeds, destinationRecords, mappingValue);
        SeededStep(env, AttributeDocument, sourceRecords, seeds, i, destinationRecordData);
        recordsToSave := recordsToSave + [env.transform(AttributeDocument, sourceRecords[i], destinationRecordData)];
        seeds := seeds + [destinationRecordData];
      }
      assert keys[..|sourceRecords|] == keys;
      assert sourceRecords[..|sourceRecords|] == sourceRecords;
    }

    /** The baseline attributes no source attribute consumed, appended with their id cleared (`:242-247`). */
    method AppendClearedAttributes(recordsToSave: seq<Record>, destinationRecords: map<string, Record>)
      returns (out: seq<Record>)
      ensures out == recordsToSave
                     + ClearedAttributes(Remaining(env.baselineAttributes.order, destinationRecords), destinationRecords)
    {
      var order := env.baselineAttributes.order;
      out := recordsToSave;
      for j := 0 to |order|
        invariant out == recordsToSave + ClearedAttributes(Remaining(order[..j], destinationRecords), destinationRecords)
      {
        var key := order[j];
        ClearedAttributesStep(order, j, destinationRecords, recordsToSave, out);
        if key in destinationRecords {
          var record := destinationRecords[key];
          record := record[AttributeIdField := Null];
          out := out + [record];
        }
      }
      assert order[..|order|] == order;
    }

    /** The attribute rows of `migrateAttributes`: the merged source attributes, then the unmatched baseline ones. */
    method AttributeRecords() returns (recordsToSave: seq<Record>)
      ensures recordsToSave == AttributeRows(env)
    {
      var destinationRecords;
      recordsToSave, destinationRecords := MergeAttributes();
      recordsToSave := AppendClearedAttributes(recordsToSave, destinationRecords);
    }

    /**
     * `migrateAttributes`: merge the source attributes with the baseline by
     * business key, append the unmatched baseline attributes as new rows,
     * write, and build the attribute map.
     */
    method MigrateAttributes(attributesReloaded: map<string, Record>)
      requires env.baselineAttributes.Valid()
      requires forall k :: k in env.baselineAttributes.rows ==> k in attributesReloaded
      modifies this`tables, this`newAttributes, this`destAttributeOldNewMap
      ensures tables == old(tables)[env.documentMap(AttributeDocument) := AttributeRows(env)]
      ensures newAttributes == attributesReloaded
      ensures destAttributeOldNewMap == Assign(old(destAttributeOldNewMap), AttributePairs(env.baselineAttributes, attributesReloaded))
      ensures unchanged(this`newAttributeSets, this`newAttributeGroups, this`destAttributeSetsOldNewMap, this`destAttributeGroupsOldNewMap)
    {
      var recordsToSave := AttributeRecords();
      SaveRecords(env.documentMap(AttributeDocument), recordsToSave);
      var _ := LoadNewAttributes(attributesReloaded);
    }

    /** An existing assignment moved to the new attribute, set and group ids, with its own id cleared (`:286-290`);
     * the loop body's form of `Stages.Remapped`. */
    method RemapAssignment(record: Record) returns (remapped: Record)
      requires Resolvable(record, destAttributeOldNewMap, destAttributeSetsOldNewMap, destAttributeGroupsOldNewMap)
      ensures remapped == Remapped(record, destAttributeOldNewMap, destAttributeSetsOldNewMap, destAttributeGroupsOldNewMap)
    {
      remapped := record;
      remapped := remapped[AttributeIdField := destAttributeOldNewMap[KeyText(Get(remapped, AttributeIdField))]];
      remapped := remapped[SetIdField := destAttributeSetsOldNewMap[KeyText(Get(remapped, SetIdField))]];
      remapped := remapped[GroupIdField := destAttributeGroupsOldNewMap[KeyText(Get(remapped, GroupIdField))]];
      remapped := remapped[EntityAttributeIdField := Null];
    }

    /** The existing assignments carried forward (`:279-293`): those whose three ids all resolve, remapped. */
    method CarryAssignments(recordsToSave: seq<Record>) returns (out: seq<Record>)
      ensures out == recordsToSave + Carried(env.existingAssignments, destAttributeOldNewMap, destAttributeSetsOldNewMap,
                                             destAttributeGroupsOldNewMap)
    {
      var existing := env.existingAssignments;
      ghost var attributeMap, setMap, groupMap := destAttributeOldNewMap, destAttributeSetsOldNewMap, destAttributeGroupsOldNewMap;
      out := recordsToSave;
      for j := 0 to |existing|
        invariant out == recordsToSave + Carried(existing[..j], attributeMap, setMap, groupMap)
      {
        var record := existing[j];
        CarriedStep(existing, j, attributeMap, setMap, groupMap, recordsToSave, out);
        if !IsSetIn(destAttributeOldNewMap, Get(record, AttributeIdField))
           || !IsSetIn(destAttributeSetsOldNewMap, Get(record, SetIdField))
           || !IsSetIn(destAttributeGroupsOldNewMap, Get(record, GroupIdField))
        {
          continue;
        }
        record := RemapAssignment(record);
        out := out + [record];
      }
      assert existing[..|existing|] == existing;
    }

    /**
     * `migrateEntityAttributes`: transformed source assignments, then each
     * existing assignment whose attribute, set and group all have new ids,
     * remapped to them and with its own id cleared; the others are dropped.
     */
    method MigrateEntityAttributes()
      modifies this`tables
      ensures tables == old(tables)[env.documentMap(EntityAttributeDocument)
                                    := AssignmentRows(env, destAttributeOldNewMap, destAttributeSetsOldNewMap,
                                                      destAttributeGroupsOldNewMap)]
      ensures unchanged(this`newAttributeSets, this`newAttributeGroups, this`newAttributes)
      ensures unchanged(this`destAttributeSetsOldNewMap, this`destAttributeGroupsOldNewMap, this`destAttributeOldNewMap)
    {
      var recordsToSave := TransformSource(EntityAttributeDocument);
      recordsToSave := CarryAssignments(recordsToSave);
      SaveRecords(env.documentMap(EntityAttributeDocument), recordsToSave);
    }

    /** `getDocuments`: the configured documents with a non-empty key-field list, in list order. */
    method GetDocuments() returns (result: seq<(string, seq<string>)>)
      ensures result == Documents(env.documentList, env.lists)
    {
      var documents := env.documentList;
      result := [];
      for i := 0 to |documents|
        invariant result == Documents(documents[..i], env.lists)
      {
        var document := documents[i];
        var fieldsMap := env.lists(document);
        DocumentsStep(documents, i, env.lists);
        // Assigning a key the PHP array already has keeps its place; the list is the same.
        if fieldsMap != [] && forall j :: 0 <= j < |result| ==> result[j].0 != document {
          result := result + [(document, fieldsMap)];
        }
      }
      assert documents[..|documents|] == documents;
    }

    /**
     * The merge loop of a configured join table (`:315-344`): each source row
     * over the destination row with its mapping key, which is consumed; an
     * eav_entity_type row's default set is remapped.
     */
    method MergeMapped(documentName: string, mappingFields: seq<string>)
      returns (recordsToSave: seq<Record>, destinationRecords: map<string, Record>)
      ensures recordsToSave == Finished(documentName, Seeded(env, documentName, env.sourceRows(documentName),
                                                              JoinMerge(env, documentName, mappingFields).0),
                                        destAttributeSetsOldNewMap)
      ensures destinationRecords == JoinMerge(env, documentName, mappingFields).1
    {
      var baseline := env.destinationRecords(documentName, mappingFields).rows;
      destinationRecords := baseline;
      var sourceRecords := env.sourceRows(documentName);
      ghost var keys := Keys(sourceRecords, mappingFields, env.sourceAttributes, env.baselineAttributes.rows);
      var nullSeed := NullSeedOf(env, documentName);
      ghost var setMap := destAttributeSetsOldNewMap;
      ghost var seeds: seq<Record> := [];
      recordsToSave := [];
      for i := 0 to |sourceRecords|
        invariant |seeds| == i
        invariant seeds == Consume(keys[..i], baseline, nullSeed).0
        invariant destinationRecords == Consume(keys[..i], baseline, nullSeed).1
        invariant recordsToSave == Finished(documentName, Seeded(env, documentName, sourceRecords[..i], seeds), setMap)
      {
        var mappingValue := MappingValue(sourceRecords[i], mappingFields, env.sourceAttributes, env.baselineAttributes.rows);
        var destinationRecordData;
        destinationRecordData, destinationRecords := TakeSeed(keys, baseline, nullSeed, i, seeds, destinationRecords, mappingValue);
        recordsToSave := AppendFinished(documentName, sourceRecords, i, destinationRecordData, seeds, recordsToSave);
        seeds := seeds + [destinationRecordData];
      }
      assert keys[..|sourceRecords|] == keys;
      assert sourceRecords[..|sourceRecords|] == sourceRecords;
    }

    /**
     * One source row of a join table transformed over its seed, its default
     * set remapped when it is an eav_entity_type row, and added (`:328-343`).
     */
    method AppendFinished(documentName: string, sourceRecords: seq<Record>, i: int, seed: Record,
                          ghost seeds: seq<Record>, recordsToSave: seq<Record>) returns (out: seq<Record>)
      requires 0 <= i < |sourceRecords| && |seeds| == i
      requires recordsToSave
               == Finished(documentName, Seeded(env, documentName, sourceRecords[..i], seeds), destAttributeSetsOldNewMap)
      ensures out == Finished(documentName, Seeded(env, documentName, sourceRecords[..i + 1], seeds + [seed]),
                              destAttributeSetsOldNewMap)
    {
      var destinationRecord := env.transform(documentName, sourceRecords[i], seed);
      destinationRecord := FinishEntityType(documentName, destinationRecord);
      FinishedSeededStep(env, documentName, sourceRecords, seeds, i, seed, destAttributeSetsOldNewMap, recordsToSave);
      out := recordsToSave + [destinationRecord];
    }

    /** An eav_entity_type row's default set moved to that set's new id, when it has one (`:333-341`);
     * the loop body's form of `Stages.FinishRow`. */
    method FinishEntityType(documentName: string, destinationRecord: Record) returns (finished: Record)
      ensures finished == FinishRow(documentName, destinationRecord, destAttributeSetsOldNewMap)
    {
      finished := destinationRecord;
      if documentName == EntityTypeDocument {
        var oldAttributeSetValue := Get(finished, DefaultSetField);
        if IsSetIn(destAttributeSetsOldNewMap, oldAttributeSetValue) {
          finished := finished[DefaultSetField := destAttributeSetsOldNewMap[KeyText(oldAttributeSetValue)]];
        }
      }
    }

    /** A leftover join row's `attribute_id`, replaced when it is set and has a new id (`:352-359`);
     * the loop body's form of `Stages.RemapAttributeId`. */
    method RemapLeftover(record: Record) returns (destinationRecord: Record)
      ensures destinationRecord == RemapAttributeId(record, destAttributeOldNewMap)
    {
      destinationRecord := record;
      if Get(record, AttributeIdField) != Null && IsSetIn(destAttributeOldNewMap, Get(record, AttributeIdField)) {
        destinationRecord := destinationRecord[AttributeIdField := destAttributeOldNewMap[KeyText(Get(record, AttributeIdField))]];
      }
    }

    /** The destination rows no source row consumed, appended with their attribute id remapped (`:346-361`). */
    method AppendRemappedLeftovers(recordsToSave: seq<Record>, order: seq<string>, destinationRecords: map<string, Record>)
      returns (out: seq<Record>)
      ensures out == recordsToSave + RemappedLeftovers(Remaining(order, destinationRecords), destinationRecords,
                                                       destAttributeOldNewMap)
    {
      var attributeMap := destAttributeOldNewMap;
      out := recordsToSave;
      for j := 0 to |order|
        invariant out == recordsToSave + RemappedLeftovers(Remaining(order[..j], destinationRecords), destinationRecords, attributeMap)
      {
        var key := order[j];
        RemappedLeftoversStep(order, j, destinationRecords, attributeMap, recordsToSave, out);
        if key in destinationRecords {
          var destinationRecord := RemapLeftover(destinationRecords[key]);
          out := out + [destinationRecord];
        }
      }
      assert order[..|order|] == order;
    }

    /** One configured join table: merge by its key fields, keep the unmatched destination rows, write. */
    method MigrateMappedDocument(documentName: string, mappingFields: seq<string>)
      modifies this`tables
      ensures tables == old(tables)[env.documentMap(documentName)
                                    := JoinRows(env, documentName, mappingFields, destAttributeSetsOldNewMap,
                                                destAttributeOldNewMap)]
    {
      var recordsToSave, destinationRecords := MergeMapped(documentName, mappingFields);
      if mappingFields != [] {
        recordsToSave := AppendRemappedLeftovers(recordsToSave, env.destinationRecords(documentName, mappingFields).order,
                                                 destinationRecords);
      }
      assert recordsToSave == JoinRows(env, documentName, mappingFields, destAttributeSetsOldNewMap, destAttributeOldNewMap);
      SaveRecords(env.documentMap(documentName), recordsToSave);
    }

    /** `migrateMappedTables`: every configured join table, in list order. */
    method MigrateMappedTables()
      modifies this`tables
      ensures tables == JoinTables(env, old(tables), Documents(env.documentList, env.lists),
                                   destAttributeSetsOldNewMap, destAttributeOldNewMap)
      ensures unchanged(this`newAttributeSets, this`newAttributeGroups, this`newAttributes)
      ensures unchanged(this`destAttributeSetsOldNewMap, this`destAttributeGroupsOldNewMap, this`destAttributeOldNewMap)
    {
      var documents := GetDocuments();
      ghost var setMap, attributeMap := destAttributeSetsOldNewMap, destAttributeOldNewMap;
      for d := 0 to |documents|
        invariant tables == JoinTables(env, old(tables), documents[..d], setMap, attributeMap)
      {
        ghost var before := tables;
        MigrateMappedDocument(documents[d].0, documents[d].1);
        JoinTablesStep(env, old(tables), documents, d, setMap, attributeMap, before);
      }
      assert documents[..|documents|] == documents;
    }

    /**
     * `perform`: the four stages in order. The set, group and attribute maps
     * are built from the re-read destination rows, and every table the step
     * writes holds exactly the rows its stage computes.
     */
    method Perform(setsReloaded: map<string, Record>, groupsReloaded: map<string, Record>,
                   attributesReloaded: map<string, Record>) returns (ok: bool)
      requires env.baselineSets.Valid() && env.baselineGroups.Valid() && env.baselineAttributes.Valid()
      requires forall k :: k in env.baselineSets.rows ==> SetKey(env.baselineSets.rows[k]) in setsReloaded
      requires GroupsOwned(env, setsReloaded)
      requires GroupsReloaded(env, Assign(destAttributeSetsOldNewMap, SetPairs(env.baselineSets, setsReloaded)), groupsReloaded)
      requires forall k :: k in env.baselineAttributes.rows ==> k in attributesReloaded
      modifies this`tables, this`newAttributeSets, this`destAttributeSetsOldNewMap
      modifies this`newAttributeGroups, this`destAttributeGroupsOldNewMap
      modifies this`newAttributes, this`destAttributeOldNewMap
      ensures ok
      ensures destAttributeSetsOldNewMap == Assign(old(destAttributeSetsOldNewMap), SetPairs(env.baselineSets, setsReloaded))
      ensures destAttributeGroupsOldNewMap
              == Assign(old(destAttributeGroupsOldNewMap), GroupPairs(env.baselineGroups, destAttributeSetsOldNewMap, groupsReloaded))
      ensures destAttributeOldNewMap == Assign(old(destAttributeOldNewMap), AttributePairs(env.baselineAttributes, attributesReloaded))
      ensures newAttributeSets == setsReloaded && newAttributeGroups == groupsReloaded && newAttributes == attributesReloaded
      ensures tables
              == JoinTables(env,
                            old(tables)[env.documentMap(SetDocument) := SetRows(env)]
                                       [env.documentMap(GroupDocument) := GroupRows(env, setsReloaded)]
                                       [env.documentMap(AttributeDocument) := AttributeRows(env)]
                                       [env.documentMap(EntityAttributeDocument)
                                        := AssignmentRows(env, destAttributeOldNewMap, destAttributeSetsOldNewMap,
                                                          destAttributeGroupsOldNewMap)],
                            Documents(env.documentList, env.lists), destAttributeSetsOldNewMap, destAttributeOldNewMap)
    {
      ghost var setMap0, groupMap0, attributeMap0 := destAttributeSetsOldNewMap, destAttributeGroupsOldNewMap, destAttributeOldNewMap;
      ghost var tables0 := tables;
      MigrateAttributeSetsAndGroups(setsReloaded, groupsReloaded);
      ghost var setMap, groupMap := destAttributeSetsOldNewMap, destAttributeGroupsOldNewMap;
      assert setMap == Assign(setMap0, SetPairs(env.baselineSets, setsReloaded));
      assert groupMap == Assign(groupMap0, GroupPairs(env.baselineGroups, setMap, groupsReloaded));
      ghost var stage1 := tables;
      MigrateAttributes(attributesReloaded);
      ghost var attributeMap := destAttributeOldNewMap;
      assert attributeMap == Assign(attributeMap0, AttributePairs(env.baselineAttributes, attributesReloaded));
      ghost var stage2 := tables;
      assert stage2 == stage1[env.documentMap(AttributeDocument) := AttributeRows(env)];
      MigrateEntityAttributes();
      ghost var stage3 := tables;
      assert stage3 == stage2[env.documentMap(EntityAttributeDocument) := AssignmentRows(env, attributeMap, setMap, groupMap)];
      MigrateMappedTables();
      assert tables == JoinTables(env, stage3, Documents(env.documentList, env.lists), setMap, attributeMap);
      ok := true;
    }
  }
}
