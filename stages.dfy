/**
 * What each stage of the EAV migration writes, as functions of its inputs,
 * and what those rows and id maps are proved to satisfy. The class in
 * migrate.dfy computes the same rows with loops and is proved equal to these.
 */
module Stages {
  import opened Records
  import opened Identity

  const SetDocument := "eav_attribute_set"
  const GroupDocument := "eav_attribute_group"
  const AttributeDocument := "eav_attribute"
  const EntityAttributeDocument := "eav_entity_attribute"
  const EntityTypeDocument := "eav_entity_type"

  const SetIdField := "attribute_set_id"
  const SetNameField := "attribute_set_name"
  const GroupIdField := "attribute_group_id"
  const GroupNameField := "attribute_group_name"
  const EntityAttributeIdField := "entity_attribute_id"
  const DefaultSetField := "default_attribute_set_id"

  /** The attribute stage's key fields: entity type and attribute code (`:228`). */
  const AttributeKeyFields := [EntityTypeIdField, AttributeCodeField]

  /**
   * The collaborators of the migration step, as data: reads of the source,
   * the document-name map, the destination's column lists, the per-document
   * record transformer, the baseline snapshots captured before the run, the
   * destination's existing join-table rows, and the configured lists.
   */
  datatype Env = Env(
    sourceRows: string -> seq<Record>,                    // all records of a source document
    documentMap: string -> string,                        // source document name to destination name
    destinationFields: string -> seq<string>,             // columns of a destination document
    transform: (string, Record, Record) -> Record,        // transformer of a document: (source row, seed) to row
    sourceAttributes: map<string, Record>,                // source baseline attributes, by attribute id
    baselineSets: Snapshot,                               // destination baseline sets, by set id
    baselineGroups: Snapshot,                             // destination baseline groups
    baselineAttributes: Snapshot,                         // destination baseline attributes, by business key
    destinationRecords: (string, seq<string>) -> Snapshot, // destination rows of a document, by mapping key
    existingAssignments: seq<Record>,                     // destination eav_entity_attribute rows
    documentList: seq<string>,                            // the configured 'documents' list
    lists: string -> seq<string>                          // the configured key fields of a document
  )

  /** Business key of an attribute set: `entity_type_id-attribute_set_name`. */
  function SetKey(r: Record): string
  {
    Implode([KeyText(Get(r, EntityTypeIdField)), KeyText(Get(r, SetNameField))])
  }

  /** Business key of an attribute group: `attribute_set_id-attribute_group_name`. */
  function GroupKey(r: Record): string
  {
    Implode([KeyText(Get(r, SetIdField)), KeyText(Get(r, GroupNameField))])
  }

  // ---------------------------------------------------------------------------
  // Rows built from source rows

  /** Every source row transformed onto a fresh, empty destination row. */
  function Transformed(env: Env, doc: string, src: seq<Record>): (rows: seq<Record>)
    ensures |rows| == |src|
    ensures forall i :: 0 <= i < |src| ==> rows[i] == env.transform(doc, src[i], map[])
  {
    if src == [] then []
    else Transformed(env, doc, src[..|src| - 1]) + [env.transform(doc, src[|src| - 1], map[])]
  }

  /** Every source row transformed onto its own seed. */
  function Seeded(env: Env, doc: string, src: seq<Record>, seeds: seq<Record>): (rows: seq<Record>)
    requires |seeds| == |src|
    ensures |rows| == |src|
    ensures forall i :: 0 <= i < |src| ==> rows[i] == env.transform(doc, src[i], seeds[i])
  {
    if src == [] then []
    else Seeded(env, doc, src[..|src| - 1], seeds[..|src| - 1]) + [env.transform(doc, src[|src| - 1], seeds[|src| - 1])]
  }

  // ---------------------------------------------------------------------------
  // Stage 1: attribute sets and groups

  /** Rows with one column set to null, so that the store inserts them under a new id. */
  function Cleared(rows: seq<Record>, field: string): (out: seq<Record>)
    ensures |out| == |rows|
    ensures forall i :: 0 <= i < |rows| ==> out[i] == rows[i][field := Null]
  {
    if rows == [] then []
    else Cleared(rows[..|rows| - 1], field) + [rows[|rows| - 1][field := Null]]
  }

  /** The rows written to the set table: transformed source sets, then every baseline set with its id cleared. */
  function SetRows(env: Env): seq<Record>
    requires env.baselineSets.Valid()
  {
    Transformed(env, SetDocument, env.sourceRows(SetDocument)) + Cleared(env.baselineSets.Values(), SetIdField)
  }

  /** A baseline set is appended with a null id and every other column unchanged, so its business key is written. */
  lemma {:induction false} BaselineSetsAppended(env: Env)
    requires env.baselineSets.Valid()
    ensures |SetRows(env)| == |env.sourceRows(SetDocument)| + |env.baselineSets.order|
    ensures forall k :: k in env.baselineSets.rows ==>
              exists i :: 0 <= i < |SetRows(env)|
                          && Get(SetRows(env)[i], SetIdField) == Null
                          && (forall f :: f != SetIdField ==> Get(SetRows(env)[i], f) == Get(env.baselineSets.rows[k], f))
                          && SetKey(SetRows(env)[i]) == SetKey(env.baselineSets.rows[k])
  {
    var sets := env.baselineSets;
    var n := |env.sourceRows(SetDocument)|;
    var rows := SetRows(env);
    forall k | k in sets.rows
      ensures exists i :: 0 <= i < |rows|
                          && Get(rows[i], SetIdField) == Null
                          && (forall f :: f != SetIdField ==> Get(rows[i], f) == Get(sets.rows[k], f))
                          && SetKey(rows[i]) == SetKey(sets.rows[k])
    {
      var j :| 0 <= j < |sets.order| && sets.order[j] == k;
      SetRowAt(env, j);
      ClearedSetKeepsKey(sets.rows[k]);
      assert rows[n + j] == sets.rows[k][SetIdField := Null];
    }
  }

  /** The row the set table gets for the `j`-th baseline set. */
  lemma SetRowAt(env: Env, j: int)
    requires env.baselineSets.Valid()
    requires 0 <= j < |env.baselineSets.order|
    ensures |env.sourceRows(SetDocument)| + j < |SetRows(env)|
    ensures SetRows(env)[|env.sourceRows(SetDocument)| + j]
            == env.baselineSets.rows[env.baselineSets.order[j]][SetIdField := Null]
  {
  }

  /** Clearing a set's id keeps every other column, so its business key too. */
  lemma ClearedSetKeepsKey(r: Record)
    ensures Get(r[SetIdField := Null], SetIdField) == Null
    ensures forall f :: f != SetIdField ==> Get(r[SetIdField := Null], f) == Get(r, f)
    ensures SetKey(r[SetIdField := Null]) == SetKey(r)
  {
    assert Get(r[SetIdField := Null], EntityTypeIdField) == Get(r, EntityTypeIdField);
    assert Get(r[SetIdField := Null], SetNameField) == Get(r, SetNameField);
  }

  /** The lookups of `:178-181` succeed for a baseline group: its set is a baseline set whose key was re-read. */
  predicate GroupSetKnown(g: Record, sets: map<string, Record>, newSets: map<string, Record>)
  {
    KeyText(Get(g, SetIdField)) in sets && SetKey(sets[KeyText(Get(g, SetIdField))]) in newSets
  }

  /**
   * The new id of a baseline group's set: the id of the written set with the
   * old set's business key. Stage 1 requires every group's set to be known
   * (`GroupsOwned`); the null of an unknown one is never written.
   */
  function NewSetIdOf(g: Record, sets: map<string, Record>, newSets: map<string, Record>): Value
  {
    if GroupSetKnown(g, sets, newSets) then Get(newSets[SetKey(sets[KeyText(Get(g, SetIdField))])], SetIdField)
    else Null
  }

  /** Baseline groups pointed at the new id of their set, with their own id cleared. */
  function Repointed(groups: seq<Record>, sets: map<string, Record>, newSets: map<string, Record>): (out: seq<Record>)
    ensures |out| == |groups|
    ensures forall i :: 0 <= i < |groups| ==>
              out[i] == groups[i][SetIdField := NewSetIdOf(groups[i], sets, newSets)][GroupIdField := Null]
  {
    if groups == [] then []
    else
      var g := groups[|groups| - 1];
      Repointed(groups[..|groups| - 1], sets, newSets) + [g[SetIdField := NewSetIdOf(g, sets, newSets)][GroupIdField := Null]]
  }

  /** The baseline is consistent for stage 1: every baseline group's set is a baseline set that was re-read. */
  ghost predicate GroupsOwned(env: Env, newSets: map<string, Record>)
  {
    forall k :: k in env.baselineGroups.rows ==> GroupSetKnown(env.baselineGroups.rows[k], env.baselineSets.rows, newSets)
  }

  /** The `j`-th baseline group, in iteration order, has a known set. */
  lemma GroupKnownAt(env: Env, newSets: map<string, Record>, j: int)
    requires env.baselineGroups.Valid() && GroupsOwned(env, newSets)
    requires 0 <= j < |env.baselineGroups.order|
    ensures GroupSetKnown(env.baselineGroups.Values()[j], env.baselineSets.rows, newSets)
  {
    assert env.baselineGroups.order[j] in env.baselineGroups.rows;
  }

  /** The rows written to the group table: transformed source groups, then every baseline group re-pointed. */
  function GroupRows(env: Env, newSets: map<string, Record>): seq<Record>
    requires env.baselineGroups.Valid()
  {
    Transformed(env, GroupDocument, env.sourceRows(GroupDocument))
    + Repointed(env.baselineGroups.Values(), env.baselineSets.rows, newSets)
  }

  /**
   * `loadNewAttributeGroups` looks a baseline group up under
   * `newSetId-groupName`; `GroupLookupKey` is that key.
   */
  function GroupLookupKey(g: Record, setMap: map<string, Value>): string
    requires KeyText(Get(g, SetIdField)) in setMap
  {
    Implode([KeyText(setMap[KeyText(Get(g, SetIdField))]), KeyText(Get(g, GroupNameField))])
  }

  // ---------------------------------------------------------------------------
  // Old-id to new-id maps

  /** Each old-to-new pair assigned in order over a starting map: a later pair overrides an earlier one. */
  function Assign(base: map<string, Value>, pairs: seq<(string, Value)>): map<string, Value>
  {
    if pairs == [] then base
    else
      var p := pairs[|pairs| - 1];
      Assign(base, pairs[..|pairs| - 1])[p.0 := p.1]
  }

  /** No later pair names the same old id as pair `i`. */
  ghost predicate LastWithKey(pairs: seq<(string, Value)>, i: int)
    requires 0 <= i < |pairs|
  {
    forall j :: i < j < |pairs| ==> pairs[j].0 != pairs[i].0
  }

  /**
   * The map holds every starting key and every named old id; a pair that no
   * later pair overrides is what the map holds, and a starting key no pair
   * names keeps its starting value.
   */
  lemma {:induction false} AssignAt(base: map<string, Value>, pairs: seq<(string, Value)>)
    ensures forall k :: k in base ==> k in Assign(base, pairs)
    ensures forall i :: 0 <= i < |pairs| ==> pairs[i].0 in Assign(base, pairs)
    ensures forall i :: 0 <= i < |pairs| && LastWithKey(pairs, i) ==> Assign(base, pairs)[pairs[i].0] == pairs[i].1
    ensures forall k :: k in base && (forall i :: 0 <= i < |pairs| ==> pairs[i].0 != k) ==> Assign(base, pairs)[k] == base[k]
  {
    if pairs != [] {
      var n := |pairs| - 1;
      var init := pairs[..n];
      var p := pairs[n];
      AssignAt(base, init);
      var m' := Assign(base, init);
      assert Assign(base, pairs) == m'[p.0 := p.1];
      forall i | 0 <= i < n ensures pairs[i].0 in Assign(base, pairs) {
        assert init[i] == pairs[i];
      }
      forall i | 0 <= i < |pairs| && LastWithKey(pairs, i) ensures Assign(base, pairs)[pairs[i].0] == pairs[i].1 {
        if i < n {
          assert init[i] == pairs[i];
          assert pairs[n].0 != pairs[i].0;
          assert LastWithKey(init, i);
        }
      }
      forall k | k in base && (forall i :: 0 <= i < |pairs| ==> pairs[i].0 != k) ensures Assign(base, pairs)[k] == base[k] {
        assert pairs[n].0 != k;
        forall i | 0 <= i < n ensures init[i].0 != k {
          assert init[i] == pairs[i];
        }
      }
    }
  }

  /** Every entry of the map is a starting entry or one of the pairs: the assignments add nothing else. */
  lemma {:induction false} AssignFrom(base: map<string, Value>, pairs: seq<(string, Value)>)
    ensures forall k :: k in Assign(base, pairs) ==>
              (k in base && Assign(base, pairs)[k] == base[k])
              || exists i :: 0 <= i < |pairs| && pairs[i] == (k, Assign(base, pairs)[k])
  {
    if pairs != [] {
      var n := |pairs| - 1;
      var init := pairs[..n];
      AssignFrom(base, init);
      forall k | k in Assign(base, pairs)
        ensures (k in base && Assign(base, pairs)[k] == base[k])
                || exists i :: 0 <= i < |pairs| && pairs[i] == (k, Assign(base, pairs)[k])
      {
        if k == pairs[n].0 {
          assert pairs[n] == (k, Assign(base, pairs)[k]);
        } else if !(k in base && Assign(base, init)[k] == base[k]) {
          var i :| 0 <= i < n && init[i] == (k, Assign(base, init)[k]);
          assert pairs[i] == init[i];
        }
      }
    }
  }

  /** The pairs of `loadNewAttributeSets`: each baseline set id to the id of the re-read set with its business key. */
  function SetPairs(sets: Snapshot, newSets: map<string, Record>): (ps: seq<(string, Value)>)
    requires sets.Valid() && forall k :: k in sets.rows ==> SetKey(sets.rows[k]) in newSets
    ensures |ps| == |sets.order|
    ensures forall i :: 0 <= i < |ps| ==> ps[i] == (sets.order[i], Get(newSets[SetKey(sets.rows[sets.order[i]])], SetIdField))
  {
    seq(|sets.order|, i requires 0 <= i < |sets.order| => (sets.order[i], Get(newSets[SetKey(sets.rows[sets.order[i]])], SetIdField)))
  }

  /** The pairs of `loadNewAttributeGroups`: each baseline group's id to the id of the re-read group under its lookup key. */
  function GroupPairs(groups: Snapshot, setMap: map<string, Value>, newGroups: map<string, Record>): (ps: seq<(string, Value)>)
    requires groups.Valid()
    requires forall k :: k in groups.rows ==> KeyText(Get(groups.rows[k], SetIdField)) in setMap
    requires forall k :: k in groups.rows ==> GroupLookupKey(groups.rows[k], setMap) in newGroups
    ensures |ps| == |groups.order|
    ensures forall i :: 0 <= i < |ps| ==>
              ps[i] == (KeyText(Get(groups.rows[groups.order[i]], GroupIdField)),
                        Get(newGroups[GroupLookupKey(groups.rows[groups.order[i]], setMap)], GroupIdField))
  {
    seq(|groups.order|, i requires 0 <= i < |groups.order| =>
      (KeyText(Get(groups.rows[groups.order[i]], GroupIdField)),
       Get(newGroups[GroupLookupKey(groups.rows[groups.order[i]], setMap)], GroupIdField)))
  }

  /** The pairs of `loadNewAttributes`: each baseline attribute's id to the id of the re-read attribute under its key. */
  function AttributePairs(attributes: Snapshot, newAttributes: map<string, Record>): (ps: seq<(string, Value)>)
    requires attributes.Valid() && forall k :: k in attributes.rows ==> k in newAttributes
    ensures |ps| == |attributes.order|
    ensures forall i :: 0 <= i < |ps| ==>
              ps[i] == (KeyText(Get(attributes.rows[attributes.order[i]], AttributeIdField)),
                        Get(newAttributes[attributes.order[i]], AttributeIdField))
  {
    seq(|attributes.order|, i requires 0 <= i < |attributes.order| =>
      (KeyText(Get(attributes.rows[attributes.order[i]], AttributeIdField)),
       Get(newAttributes[attributes.order[i]], AttributeIdField)))
  }

  /** Each baseline set id maps to the id of the re-read set under the old set's business key. */
  lemma SetMapValues(base: map<string, Value>, sets: Snapshot, newSets: map<string, Record>)
    requires sets.Valid() && forall k :: k in sets.rows ==> SetKey(sets.rows[k]) in newSets
    ensures var m := Assign(base, SetPairs(sets, newSets));
            forall k :: k in sets.rows ==> k in m && m[k] == Get(newSets[SetKey(sets.rows[k])], SetIdField)
  {
    var ps := SetPairs(sets, newSets);
    AssignAt(base, ps);
    forall k | k in sets.rows
      ensures k in Assign(base, ps) && Assign(base, ps)[k] == Get(newSets[SetKey(sets.rows[k])], SetIdField)
    {
      var i :| 0 <= i < |sets.order| && sets.order[i] == k;
      assert ps[i].0 == k;
      assert LastWithKey(ps, i);
    }
  }

  /** The lookups of `loadNewAttributeGroups` succeed: `:443` finds the group's set, `:445` its re-read row. */
  ghost predicate GroupsReloaded(env: Env, setMap: map<string, Value>, newGroups: map<string, Record>)
  {
    forall k :: k in env.baselineGroups.rows ==>
      KeyText(Get(env.baselineGroups.rows[k], SetIdField)) in setMap
      && GroupLookupKey(env.baselineGroups.rows[k], setMap) in newGroups
  }

  /**
   * The key `loadNewAttributeGroups` looks a baseline group up under is the
   * business key of the row stage 1 wrote for it: the group's set is mapped,
   * and the repointed group row carries exactly that new set id and the
   * group's name.
   */
  lemma {:induction false} GroupLookupKeysWritten(env: Env, base: map<string, Value>, newSets: map<string, Record>)
    requires env.baselineSets.Valid() && env.baselineGroups.Valid()
    requires forall k :: k in env.baselineSets.rows ==> SetKey(env.baselineSets.rows[k]) in newSets
    requires GroupsOwned(env, newSets)
    ensures var setMap := Assign(base, SetPairs(env.baselineSets, newSets));
            forall k :: k in env.baselineGroups.rows ==>
              KeyText(Get(env.baselineGroups.rows[k], SetIdField)) in setMap
              && exists i :: 0 <= i < |GroupRows(env, newSets)|
                             && GroupKey(GroupRows(env, newSets)[i]) == GroupLookupKey(env.baselineGroups.rows[k], setMap)
                             && Get(GroupRows(env, newSets)[i], GroupIdField) == Null
  {
    var sets := env.baselineSets;
    var groups := env.baselineGroups;
    var setMap := Assign(base, SetPairs(sets, newSets));
    var rows := GroupRows(env, newSets);
    var n := |env.sourceRows(GroupDocument)|;
    SetMapValues(base, sets, newSets);
    forall k | k in groups.rows
      ensures KeyText(Get(groups.rows[k], SetIdField)) in setMap
              && exists i :: 0 <= i < |rows|
                             && GroupKey(rows[i]) == GroupLookupKey(groups.rows[k], setMap)
                             && Get(rows[i], GroupIdField) == Null
    {
      var j :| 0 <= j < |groups.order| && groups.order[j] == k;
      GroupRowAt(env, newSets, j);
      RepointedKey(groups.rows[k], sets.rows, newSets, setMap);
    }
  }

  /** The row stage 1 writes for the `j`-th baseline group. */
  lemma GroupRowAt(env: Env, newSets: map<string, Record>, j: int)
    requires env.baselineGroups.Valid() && GroupsOwned(env, newSets)
    requires 0 <= j < |env.baselineGroups.order|
    ensures var g := env.baselineGroups.rows[env.baselineGroups.order[j]];
            |env.sourceRows(GroupDocument)| + j < |GroupRows(env, newSets)|
            && GroupRows(env, newSets)[|env.sourceRows(GroupDocument)| + j]
               == g[SetIdField := NewSetIdOf(g, env.baselineSets.rows, newSets)][GroupIdField := Null]
  {
  }

  /** A repointed group's business key is the key its set's new id and its name make. */
  lemma RepointedKey(g: Record, sets: map<string, Record>, newSets: map<string, Record>, setMap: map<string, Value>)
    requires GroupSetKnown(g, sets, newSets)
    requires KeyText(Get(g, SetIdField)) in setMap && setMap[KeyText(Get(g, SetIdField))] == NewSetIdOf(g, sets, newSets)
    ensures var r := g[SetIdField := NewSetIdOf(g, sets, newSets)][GroupIdField := Null];
            GroupKey(r) == GroupLookupKey(g, setMap) && Get(r, GroupIdField) == Null
  {
  }

  /**
   * The set map is total on the baseline: each baseline set id maps to the id
   * of a re-read set row with the same business key.
   */
  lemma SetMapTotal(base: map<string, Value>, sets: Snapshot, newSets: map<string, Record>)
    requires sets.Valid() && forall k :: k in sets.rows ==> SetKey(sets.rows[k]) in newSets
    requires KeyedBy(newSets, SetKey)
    ensures var m := Assign(base, SetPairs(sets, newSets));
            forall k :: k in sets.rows ==>
              k in m && exists w :: w in newSets.Values && SetKey(w) == SetKey(sets.rows[k]) && m[k] == Get(w, SetIdField)
  {
    var ps := SetPairs(sets, newSets);
    var m := Assign(base, ps);
    AssignAt(base, ps);
    forall k | k in sets.rows
      ensures k in m && exists w :: w in newSets.Values && SetKey(w) == SetKey(sets.rows[k]) && m[k] == Get(w, SetIdField)
    {
      var i :| 0 <= i < |sets.order| && sets.order[i] == k;
      assert ps[i].0 == k;
      assert LastWithKey(ps, i);
      var w := newSets[SetKey(sets.rows[k])];
      assert w in newSets.Values;
    }
  }

  /**
   * The group map is total on the baseline: each baseline group id maps to
   * the id of a re-read group row whose key is (new id of its set, its name).
   */
  lemma GroupMapTotal(base: map<string, Value>, groups: Snapshot, setMap: map<string, Value>,
                      newGroups: map<string, Record>)
    requires groups.Valid()
    requires forall k :: k in groups.rows ==> KeyText(Get(groups.rows[k], GroupIdField)) == k
    requires forall k :: k in groups.rows ==> KeyText(Get(groups.rows[k], SetIdField)) in setMap
    requires forall k :: k in groups.rows ==> GroupLookupKey(groups.rows[k], setMap) in newGroups
    requires KeyedBy(newGroups, GroupKey)
    ensures var m := Assign(base, GroupPairs(groups, setMap, newGroups));
            forall k :: k in groups.rows ==>
              k in m && exists w :: w in newGroups.Values
                                    && GroupKey(w) == GroupLookupKey(groups.rows[k], setMap)
                                    && m[k] == Get(w, GroupIdField)
  {
    var ps := GroupPairs(groups, setMap, newGroups);
    var m := Assign(base, ps);
    AssignAt(base, ps);
    forall k | k in groups.rows
      ensures k in m && exists w :: w in newGroups.Values
                                    && GroupKey(w) == GroupLookupKey(groups.rows[k], setMap)
                                    && m[k] == Get(w, GroupIdField)
    {
      var i :| 0 <= i < |groups.order| && groups.order[i] == k;
      assert ps[i].0 == k;
      forall j | i < j < |ps| ensures ps[j].0 != ps[i].0 {
        assert ps[j].0 == groups.order[j];
      }
      assert LastWithKey(ps, i);
      var w := newGroups[GroupLookupKey(groups.rows[k], setMap)];
      assert w in newGroups.Values;
    }
  }

  /**
   * The attribute map is total on the baseline: each baseline attribute id
   * maps to the id of the re-read attribute with the same business key.
   */
  lemma AttributeMapTotal(base: map<string, Value>, attributes: Snapshot, newAttributes: map<string, Record>)
    requires attributes.Valid() && forall k :: k in attributes.rows ==> k in newAttributes
    requires KeyedBy(attributes.rows, AttributeKey) && KeyedBy(newAttributes, AttributeKey)
    requires forall k, k' :: k in attributes.rows && k' in attributes.rows && k != k' ==>
               KeyText(Get(attributes.rows[k], AttributeIdField)) != KeyText(Get(attributes.rows[k'], AttributeIdField))
    ensures var m := Assign(base, AttributePairs(attributes, newAttributes));
            forall k :: k in attributes.rows ==>
              KeyText(Get(attributes.rows[k], AttributeIdField)) in m
              && exists w :: w in newAttributes.Values
                             && AttributeKey(w) == AttributeKey(attributes.rows[k])
                             && m[KeyText(Get(attributes.rows[k], AttributeIdField))] == Get(w, AttributeIdField)
  {
    var ps := AttributePairs(attributes, newAttributes);
    var m := Assign(base, ps);
    AssignAt(base, ps);
    forall k | k in attributes.rows
      ensures KeyText(Get(attributes.rows[k], AttributeIdField)) in m
              && exists w :: w in newAttributes.Values
                             && AttributeKey(w) == AttributeKey(attributes.rows[k])
                             && m[KeyText(Get(attributes.rows[k], AttributeIdField))] == Get(w, AttributeIdField)
    {
      var i :| 0 <= i < |attributes.order| && attributes.order[i] == k;
      forall j | i < j < |ps| ensures ps[j].0 != ps[i].0 {
        var k' := attributes.order[j];
        assert k' != k;
      }
      assert LastWithKey(ps, i);
      var w := newAttributes[k];
      assert w in newAttributes.Values;
    }
  }

  // ---------------------------------------------------------------------------
  // Stages 2 and 4: merge against destination rows by key

  /**
   * Walk the source keys in order. A key still among the destination rows
   * takes that row as its seed and removes it (the `unset`); any other key
   * gets the all-null seed. Returns the seeds and the rows left unconsumed.
   */
  function Consume(keys: seq<string>, dest: map<string, Record>, nullSeed: Record): (res: (seq<Record>, map<string, Record>))
    ensures |res.0| == |keys|
    ensures res.1.Keys <= dest.Keys
    ensures forall k :: k in res.1 ==> res.1[k] == dest[k]
  {
    if keys == [] then ([], dest)
    else
      var (seeds, rest) := Consume(keys[..|keys| - 1], dest, nullSeed);
      var k := keys[|keys| - 1];
      if k in rest then (seeds + [rest[k]], rest - {k}) else (seeds + [nullSeed], rest)
  }

  /** Source row `i` is the first with its key. */
  ghost predicate FirstWithKey(keys: seq<string>, i: int)
    requires 0 <= i < |keys|
  {
    forall j :: 0 <= j < i ==> keys[j] != keys[i]
  }

  /**
   * The merge, stated without the loop: a destination row seeds the first
   * source row with its key and no other, every other source row gets the
   * null seed, and the rows left over are exactly those whose key no source
   * row has.
   */
  lemma {:induction false} ConsumeSeeds(keys: seq<string>, dest: map<string, Record>, nullSeed: Record)
    ensures forall k :: k in Consume(keys, dest, nullSeed).1 <==> k in dest && k !in keys
    ensures forall i :: 0 <= i < |keys| ==>
              Consume(keys, dest, nullSeed).0[i]
              == if keys[i] in dest && FirstWithKey(keys, i) then dest[keys[i]] else nullSeed
  {
    ConsumeLeftovers(keys, dest, nullSeed);
    if keys != [] {
      var n := |keys| - 1;
      var init := keys[..n];
      ConsumeSeeds(init, dest, nullSeed);
      ConsumeLeftovers(init, dest, nullSeed);
      forall i | 0 <= i < n ensures FirstWithKey(init, i) == FirstWithKey(keys, i) {
        assert forall j :: 0 <= j < i ==> init[j] == keys[j];
      }
      FirstWithKeyLast(keys, init);
    }
  }

  /** The rows left over by the merge are those whose key no source row has. */
  lemma {:induction false} ConsumeLeftovers(keys: seq<string>, dest: map<string, Record>, nullSeed: Record)
    ensures forall k :: k in Consume(keys, dest, nullSeed).1 <==> k in dest && k !in keys
  {
    if keys != [] {
      var n := |keys| - 1;
      ConsumeLeftovers(keys[..n], dest, nullSeed);
      assert keys == keys[..n] + [keys[n]];
    }
  }

  /** The last source row is the first with its key exactly when no earlier row has that key. */
  lemma FirstWithKeyLast(keys: seq<string>, init: seq<string>)
    requires keys != [] && init == keys[..|keys| - 1]
    ensures FirstWithKey(keys, |keys| - 1) <==> keys[|keys| - 1] !in init
  {
    var n := |keys| - 1;
    if keys[n] in init {
      var jx :| 0 <= jx < n && init[jx] == keys[n];
      assert keys[jx] == keys[n];
    }
  }

  /**
   * A destination row seeds at most one output row: once a source row has
   * taken the row under its key, every later source row with the same key is
   * seeded with the all-null row.
   */
  lemma SeedsDistinct(keys: seq<string>, dest: map<string, Record>, nullSeed: Record, i: int, j: int)
    requires 0 <= i < j < |keys| && keys[i] == keys[j]
    ensures Consume(keys, dest, nullSeed).0[j] == nullSeed
  {
    ConsumeSeeds(keys, dest, nullSeed);
    assert !FirstWithKey(keys, j) by {
      assert keys[i] == keys[j];
    }
  }

  /** The keys of `order` whose rows are still in `rest`, in order: what the walk over the leftover rows visits once matched rows are removed. */
  function Remaining(order: seq<string>, rest: map<string, Record>): (ks: seq<string>)
    ensures forall k :: k in ks <==> k in order && k in rest
    ensures forall k :: k in ks ==> k in rest
  {
    if order == [] then []
    else
      var k := order[|order| - 1];
      Remaining(order[..|order| - 1], rest) + (if k in rest then [k] else [])
  }

  /**
   * With distinct keys that cover every unconsumed row, the remaining walk
   * visits each unconsumed row exactly once.
   */
  lemma {:induction false} RemainingCount(order: seq<string>, rest: map<string, Record>)
    requires forall i, j :: 0 <= i < j < |order| ==> order[i] != order[j]
    requires forall k :: k in rest ==> k in order
    ensures |Remaining(order, rest)| == |rest|
  {
    if order == [] {
      assert rest == map[];
    } else {
      var n := |order| - 1;
      var init := order[..n];
      var k := order[n];
      var others := rest - {k};
      assert order == init + [k];
      DropLastKey(order, rest, init, k);
      RemainingCount(init, others);
      RemainingIgnores(init, rest, k);
      assert |Remaining(order, rest)| == |Remaining(init, rest)| + (if k in rest then 1 else 0);
      RemoveKeyCount(rest, k);
    }
  }

  /** Without its last key, a list of distinct keys stays distinct and still covers the other rows. */
  lemma DropLastKey(order: seq<string>, rest: map<string, Record>, init: seq<string>, k: string)
    requires order == init + [k]
    requires forall i, j :: 0 <= i < j < |order| ==> order[i] != order[j]
    requires forall x :: x in rest ==> x in order
    ensures k !in init
    ensures forall i, j :: 0 <= i < j < |init| ==> init[i] != init[j]
    ensures forall x :: x in rest - {k} ==> x in init
  {
    forall i | 0 <= i < |init| ensures init[i] != k {
      assert order[i] == init[i] && order[|init|] == k;
    }
    forall i, j | 0 <= i < j < |init| ensures init[i] != init[j] {
      assert order[i] == init[i] && order[j] == init[j];
    }
    forall x | x in rest - {k} ensures x in init {
      var i :| 0 <= i < |order| && order[i] == x;
      assert i < |init| && init[i] == x;
    }
  }

  /** Removing a key from a map removes one row when the key is there and none otherwise. */
  lemma RemoveKeyCount(rest: map<string, Record>, k: string)
    ensures |rest| == |rest - {k}| + (if k in rest then 1 else 0)
  {
    if k in rest {
      assert rest.Keys == (rest - {k}).Keys + {k};
    } else {
      assert rest.Keys == (rest - {k}).Keys;
    }
  }

  /** A key the order does not list makes no difference to the remaining walk. */
  lemma {:induction false} RemainingIgnores(order: seq<string>, rest: map<string, Record>, k: string)
    requires k !in order
    ensures Remaining(order, rest) == Remaining(order, rest - {k})
  {
    if order != [] {
      var n := |order| - 1;
      assert order[n] in order;
      assert k !in order[..n];
      RemainingIgnores(order[..n], rest, k);
    }
  }

  /** Unconsumed rows with `attribute_id` cleared (`:242-247`). */
  function ClearedAttributes(keys: seq<string>, rest: map<string, Record>): (out: seq<Record>)
    requires forall k :: k in keys ==> k in rest
    ensures |out| == |keys|
    ensures forall i :: 0 <= i < |keys| ==> out[i] == rest[keys[i]][AttributeIdField := Null]
  {
    if keys == [] then []
    else ClearedAttributes(keys[..|keys| - 1], rest) + [rest[keys[|keys| - 1]][AttributeIdField := Null]]
  }

  /** The source rows' mapping keys, in order. */
  function Keys(src: seq<Record>, fields: seq<string>, sourceAttributes: map<string, Record>,
                destAttributes: map<string, Record>): (keys: seq<string>)
    ensures |keys| == |src|
    ensures forall i :: 0 <= i < |src| ==> keys[i] == MappingValue(src[i], fields, sourceAttributes, destAttributes)
  {
    seq(|src|, i requires 0 <= i < |src| => MappingValue(src[i], fields, sourceAttributes, destAttributes))
  }

  /** The all-null seed of a document: every column of its destination document, null. */
  function NullSeedOf(env: Env, doc: string): Record
  {
    NullSeed(env.destinationFields(env.documentMap(doc)))
  }

  /** The attribute stage's merge: seeds and unconsumed baseline attributes. */
  function AttributeMerge(env: Env): (seq<Record>, map<string, Record>)
  {
    Consume(Keys(env.sourceRows(AttributeDocument), AttributeKeyFields, env.sourceAttributes, env.baselineAttributes.rows),
            env.baselineAttributes.rows, NullSeedOf(env, AttributeDocument))
  }

  /** The rows written to the attribute table: one per source attribute, then the unconsumed baseline attributes. */
  function AttributeRows(env: Env): seq<Record>
  {
    var src := env.sourceRows(AttributeDocument);
    var (seeds, rest) := AttributeMerge(env);
    Seeded(env, AttributeDocument, src, seeds) + ClearedAttributes(Remaining(env.baselineAttributes.order, rest), rest)
  }

  /** The attribute table gets one row per source attribute plus one per unmatched baseline attribute. */
  lemma AttributeRowsCount(env: Env)
    requires env.baselineAttributes.Valid()
    ensures |AttributeRows(env)| == |env.sourceRows(AttributeDocument)| + |AttributeMerge(env).1|
  {
    var rest := AttributeMerge(env).1;
    RemainingCount(env.baselineAttributes.order, rest);
  }

  /**
   * Output row `i` is the transform of source attribute `i` over the baseline
   * attribute with its business key when no earlier source attribute took
   * it, and over the all-null seed otherwise.
   */
  lemma AttributeRowsSeeded(env: Env)
    ensures var src := env.sourceRows(AttributeDocument);
            var base := env.baselineAttributes.rows;
            var keys := Keys(src, AttributeKeyFields, env.sourceAttributes, base);
            forall i :: 0 <= i < |src| ==>
              AttributeRows(env)[i]
              == env.transform(AttributeDocument, src[i],
                               if keys[i] in base && FirstWithKey(keys, i) then base[keys[i]]
                               else NullSeedOf(env, AttributeDocument))
  {
    var src := env.sourceRows(AttributeDocument);
    var base := env.baselineAttributes.rows;
    var keys := Keys(src, AttributeKeyFields, env.sourceAttributes, base);
    ConsumeSeeds(keys, base, NullSeedOf(env, AttributeDocument));
  }

  /**
   * Every baseline attribute no source attribute matched is written after
   * the source-derived rows, with a null id and its other columns unchanged.
   */
  lemma AttributeLeftovers(env: Env)
    ensures var src := env.sourceRows(AttributeDocument);
            var base := env.baselineAttributes.rows;
            var keys := Keys(src, AttributeKeyFields, env.sourceAttributes, base);
            forall k :: k in base && k !in keys && k in env.baselineAttributes.order ==>
              base[k][AttributeIdField := Null] in AttributeRows(env)[|src|..]
  {
    var src := env.sourceRows(AttributeDocument);
    var base := env.baselineAttributes.rows;
    var keys := Keys(src, AttributeKeyFields, env.sourceAttributes, base);
    var rest := AttributeMerge(env).1;
    ConsumeSeeds(keys, base, NullSeedOf(env, AttributeDocument));
    var ks := Remaining(env.baselineAttributes.order, rest);
    var tail := ClearedAttributes(ks, rest);
    assert AttributeRows(env)[|src|..] == tail;
    forall k | k in base && k !in keys && k in env.baselineAttributes.order
      ensures base[k][AttributeIdField := Null] in tail
    {
      var i :| 0 <= i < |ks| && ks[i] == k;
      assert tail[i] == rest[k][AttributeIdField := Null];
    }
  }

  /** The source attribute key the merge uses is the attribute's business key, as the baseline is keyed. */
  lemma AttributeKeysAreBusinessKeys(env: Env)
    ensures var src := env.sourceRows(AttributeDocument);
            forall i :: 0 <= i < |src| ==>
              Keys(src, AttributeKeyFields, env.sourceAttributes, env.baselineAttributes.rows)[i] == AttributeKey(src[i])
  {
    var src := env.sourceRows(AttributeDocument);
    forall i | 0 <= i < |src|
      ensures Keys(src, AttributeKeyFields, env.sourceAttributes, env.baselineAttributes.rows)[i] == AttributeKey(src[i])
    {
      MappingValueRaw(src[i], AttributeKeyFields, env.sourceAttributes, env.baselineAttributes.rows);
    }
  }

  // ---------------------------------------------------------------------------
  // Stage 3: eav_entity_attribute

  /** All three foreign keys of an existing assignment resolve through the maps (`:280-282`). */
  predicate Resolvable(r: Record, attributeMap: map<string, Value>, setMap: map<string, Value>,
                       groupMap: map<string, Value>)
  {
    && IsSetIn(attributeMap, Get(r, AttributeIdField))
    && IsSetIn(setMap, Get(r, SetIdField))
    && IsSetIn(groupMap, Get(r, GroupIdField))
  }

  /** An assignment with its three foreign keys replaced by the new ids and its own id cleared. */
  function Remapped(r: Record, attributeMap: map<string, Value>, setMap: map<string, Value>,
                    groupMap: map<string, Value>): (out: Record)
    requires Resolvable(r, attributeMap, setMap, groupMap)
    ensures Get(out, AttributeIdField) in attributeMap.Values && Get(out, AttributeIdField) != Null
    ensures Get(out, SetIdField) in setMap.Values && Get(out, SetIdField) != Null
    ensures Get(out, GroupIdField) in groupMap.Values && Get(out, GroupIdField) != Null
    ensures Get(out, AttributeIdField) == attributeMap[KeyText(Get(r, AttributeIdField))]
    ensures Get(out, SetIdField) == setMap[KeyText(Get(r, SetIdField))]
    ensures Get(out, GroupIdField) == groupMap[KeyText(Get(r, GroupIdField))]
    ensures Get(out, EntityAttributeIdField) == Null
    ensures forall f :: f !in {AttributeIdField, SetIdField, GroupIdField, EntityAttributeIdField} ==>
              Get(out, f) == Get(r, f)
  {
    r[AttributeIdField := attributeMap[KeyText(Get(r, AttributeIdField))]]
     [SetIdField := setMap[KeyText(Get(r, SetIdField))]]
     [GroupIdField := groupMap[KeyText(Get(r, GroupIdField))]]
     [EntityAttributeIdField := Null]
  }

  /** The existing assignments carried forward, in order: the resolvable ones, remapped. */
  function Carried(rows: seq<Record>, attributeMap: map<string, Value>, setMap: map<string, Value>,
                   groupMap: map<string, Value>): (out: seq<Record>)
    ensures |out| <= |rows|
  {
    if rows == [] then []
    else
      var r := rows[|rows| - 1];
      Carried(rows[..|rows| - 1], attributeMap, setMap, groupMap)
      + (if Resolvable(r, attributeMap, setMap, groupMap) then [Remapped(r, attributeMap, setMap, groupMap)] else [])
  }

  /**
   * Every carried row is a resolvable existing row, remapped; every
   * resolvable existing row is carried; and nothing is dropped exactly when
   * every existing row resolves.
   */
  lemma {:induction false} CarriedExactly(rows: seq<Record>, attributeMap: map<string, Value>, setMap: map<string, Value>,
                                          groupMap: map<string, Value>)
    ensures forall x :: x in Carried(rows, attributeMap, setMap, groupMap) ==>
              exists r :: r in rows && Resolvable(r, attributeMap, setMap, groupMap)
                          && x == Remapped(r, attributeMap, setMap, groupMap)
    ensures forall r :: r in rows && Resolvable(r, attributeMap, setMap, groupMap) ==>
              Remapped(r, attributeMap, setMap, groupMap) in Carried(rows, attributeMap, setMap, groupMap)
    ensures |Carried(rows, attributeMap, setMap, groupMap)| == |rows|
            <==> forall r :: r in rows ==> Resolvable(r, attributeMap, setMap, groupMap)
  {
    if rows != [] {
      var init := rows[..|rows| - 1];
      var r := rows[|rows| - 1];
      CarriedExactly(init, attributeMap, setMap, groupMap);
      assert rows == init + [r];
      if !Resolvable(r, attributeMap, setMap, groupMap) {
        assert |Carried(init, attributeMap, setMap, groupMap)| <= |init|;
      }
    }
  }

  /** The rows written to eav_entity_attribute: transformed source assignments, then the carried existing ones. */
  function AssignmentRows(env: Env, attributeMap: map<string, Value>, setMap: map<string, Value>,
                          groupMap: map<string, Value>): seq<Record>
  {
    Transformed(env, EntityAttributeDocument, env.sourceRows(EntityAttributeDocument))
    + Carried(env.existingAssignments, attributeMap, setMap, groupMap)
  }

  /** A set map built from empty holds only ids of re-read set rows. */
  lemma SetMapFromReloaded(sets: Snapshot, newSets: map<string, Record>)
    requires sets.Valid() && forall k :: k in sets.rows ==> SetKey(sets.rows[k]) in newSets
    ensures forall v :: v in Assign(map[], SetPairs(sets, newSets)).Values ==>
              exists w :: w in newSets.Values && v == Get(w, SetIdField)
  {
    var ps := SetPairs(sets, newSets);
    var m := Assign(map[], ps);
    AssignFrom(map[], ps);
    forall v | v in m.Values ensures exists w :: w in newSets.Values && v == Get(w, SetIdField) {
      var k :| k in m && m[k] == v;
      var i :| 0 <= i < |ps| && ps[i] == (k, m[k]);
      var w := newSets[SetKey(sets.rows[sets.order[i]])];
      assert w in newSets.Values && v == Get(w, SetIdField);
    }
  }

  /** A group map built from empty holds only ids of re-read group rows. */
  lemma GroupMapFromReloaded(groups: Snapshot, setMap: map<string, Value>, newGroups: map<string, Record>)
    requires groups.Valid()
    requires forall k :: k in groups.rows ==> KeyText(Get(groups.rows[k], SetIdField)) in setMap
    requires forall k :: k in groups.rows ==> GroupLookupKey(groups.rows[k], setMap) in newGroups
    ensures forall v :: v in Assign(map[], GroupPairs(groups, setMap, newGroups)).Values ==>
              exists w :: w in newGroups.Values && v == Get(w, GroupIdField)
  {
    var ps := GroupPairs(groups, setMap, newGroups);
    var m := Assign(map[], ps);
    AssignFrom(map[], ps);
    forall v | v in m.Values ensures exists w :: w in newGroups.Values && v == Get(w, GroupIdField) {
      var k :| k in m && m[k] == v;
      var i :| 0 <= i < |ps| && ps[i] == (k, m[k]);
      var w := newGroups[GroupLookupKey(groups.rows[groups.order[i]], setMap)];
      assert w in newGroups.Values && v == Get(w, GroupIdField);
    }
  }

  /** An attribute map built from empty holds only ids of re-read attribute rows. */
  lemma AttributeMapFromReloaded(attributes: Snapshot, newAttributes: map<string, Record>)
    requires attributes.Valid() && forall k :: k in attributes.rows ==> k in newAttributes
    ensures forall v :: v in Assign(map[], AttributePairs(attributes, newAttributes)).Values ==>
              exists w :: w in newAttributes.Values && v == Get(w, AttributeIdField)
  {
    var ps := AttributePairs(attributes, newAttributes);
    var m := Assign(map[], ps);
    AssignFrom(map[], ps);
    forall v | v in m.Values ensures exists w :: w in newAttributes.Values && v == Get(w, AttributeIdField) {
      var k :| k in m && m[k] == v;
      var i :| 0 <= i < |ps| && ps[i] == (k, m[k]);
      var w := newAttributes[attributes.order[i]];
      assert w in newAttributes.Values && v == Get(w, AttributeIdField);
    }
  }

  /**
   * With the three maps built from empty, as a fresh step builds them, every
   * carried assignment points at an attribute, a set and a group that were
   * re-read after their write: its three new ids are ids of written rows.
   */
  lemma CarriedIdsReloaded(env: Env, setsReloaded: map<string, Record>, groupsReloaded: map<string, Record>,
                           attributesReloaded: map<string, Record>)
    requires env.baselineSets.Valid() && env.baselineGroups.Valid() && env.baselineAttributes.Valid()
    requires forall k :: k in env.baselineSets.rows ==> SetKey(env.baselineSets.rows[k]) in setsReloaded
    requires GroupsReloaded(env, Assign(map[], SetPairs(env.baselineSets, setsReloaded)), groupsReloaded)
    requires forall k :: k in env.baselineAttributes.rows ==> k in attributesReloaded
    ensures var setMap := Assign(map[], SetPairs(env.baselineSets, setsReloaded));
            var groupMap := Assign(map[], GroupPairs(env.baselineGroups, setMap, groupsReloaded));
            var attributeMap := Assign(map[], AttributePairs(env.baselineAttributes, attributesReloaded));
            forall x :: x in Carried(env.existingAssignments, attributeMap, setMap, groupMap) ==>
              && (exists w :: w in attributesReloaded.Values && Get(x, AttributeIdField) == Get(w, AttributeIdField))
              && (exists w :: w in setsReloaded.Values && Get(x, SetIdField) == Get(w, SetIdField))
              && (exists w :: w in groupsReloaded.Values && Get(x, GroupIdField) == Get(w, GroupIdField))
  {
    var setMap := Assign(map[], SetPairs(env.baselineSets, setsReloaded));
    var groupMap := Assign(map[], GroupPairs(env.baselineGroups, setMap, groupsReloaded));
    var attributeMap := Assign(map[], AttributePairs(env.baselineAttributes, attributesReloaded));
    var rows := env.existingAssignments;
    SetMapFromReloaded(env.baselineSets, setsReloaded);
    GroupMapFromReloaded(env.baselineGroups, setMap, groupsReloaded);
    AttributeMapFromReloaded(env.baselineAttributes, attributesReloaded);
    CarriedExactly(rows, attributeMap, setMap, groupMap);
    forall x | x in Carried(rows, attributeMap, setMap, groupMap)
      ensures && (exists w :: w in attributesReloaded.Values && Get(x, AttributeIdField) == Get(w, AttributeIdField))
              && (exists w :: w in setsReloaded.Values && Get(x, SetIdField) == Get(w, SetIdField))
              && (exists w :: w in groupsReloaded.Values && Get(x, GroupIdField) == Get(w, GroupIdField))
    {
      var r :| r in rows && Resolvable(r, attributeMap, setMap, groupMap) && x == Remapped(r, attributeMap, setMap, groupMap);
      assert Get(x, AttributeIdField) in attributeMap.Values;
      assert Get(x, SetIdField) in setMap.Values;
      assert Get(x, GroupIdField) in groupMap.Values;
    }
  }

  // ---------------------------------------------------------------------------
  // Stage 4: configured join tables

  /** `getDocuments`: the configured documents whose key-field list is not empty, each once, in first-listed order. */
  function Documents(names: seq<string>, lists: string -> seq<string>): (docs: seq<(string, seq<string>)>)
    ensures forall i :: 0 <= i < |docs| ==> docs[i].1 == lists(docs[i].0) && docs[i].1 != []
    ensures forall i, j :: 0 <= i < j < |docs| ==> docs[i].0 != docs[j].0
  {
    if names == [] then []
    else
      var docs := Documents(names[..|names| - 1], lists);
      var n := names[|names| - 1];
      if lists(n) != [] && (forall i :: 0 <= i < |docs| ==> docs[i].0 != n) then docs + [(n, lists(n))] else docs
  }

  /** A document is among the configured tables exactly when it is listed with a non-empty key list. */
  lemma {:induction false} DocumentsListed(names: seq<string>, lists: string -> seq<string>)
    ensures forall n :: (n in names && lists(n) != []) <==> exists i :: 0 <= i < |Documents(names, lists)| && Documents(names, lists)[i].0 == n
  {
    if names != [] {
      var init := names[..|names| - 1];
      var last := names[|names| - 1];
      DocumentsListed(init, lists);
      assert names == init + [last];
      var docs := Documents(init, lists);
      var all := Documents(names, lists);
      assert |docs| <= |all| && forall i :: 0 <= i < |docs| ==> all[i] == docs[i];
      forall n | n in names && lists(n) != [] ensures exists i :: 0 <= i < |all| && all[i].0 == n {
        if n in init {
          var i :| 0 <= i < |docs| && docs[i].0 == n;
          assert all[i].0 == n;
        } else {
          assert all[|docs|].0 == n;
        }
      }
      forall n | exists i :: 0 <= i < |all| && all[i].0 == n ensures n in names && lists(n) != [] {
        var i :| 0 <= i < |all| && all[i].0 == n;
        if i < |docs| {
          assert docs[i].0 == n;
        }
      }
    }
  }

  /** `eav_entity_type` only: a `default_attribute_set_id` with a new id is replaced by it, anything else is kept. */
  function FinishRow(doc: string, r: Record, setMap: map<string, Value>): (out: Record)
    ensures doc != EntityTypeDocument ==> out == r
    ensures doc == EntityTypeDocument && IsSetIn(setMap, Get(r, DefaultSetField)) ==>
              Get(out, DefaultSetField) == setMap[KeyText(Get(r, DefaultSetField))]
              && Get(out, DefaultSetField) in setMap.Values
    ensures doc == EntityTypeDocument && !IsSetIn(setMap, Get(r, DefaultSetField)) ==> out == r
    ensures forall f :: f != DefaultSetField ==> Get(out, f) == Get(r, f)
  {
    if doc == EntityTypeDocument && IsSetIn(setMap, Get(r, DefaultSetField))
    then r[DefaultSetField := setMap[KeyText(Get(r, DefaultSetField))]]
    else r
  }

  /** Every row finished by `FinishRow`. */
  function Finished(doc: string, rows: seq<Record>, setMap: map<string, Value>): (out: seq<Record>)
    ensures |out| == |rows|
    ensures forall i :: 0 <= i < |rows| ==> out[i] == FinishRow(doc, rows[i], setMap)
  {
    if rows == [] then [] else Finished(doc, rows[..|rows| - 1], setMap) + [FinishRow(doc, rows[|rows| - 1], setMap)]
  }

  /** A leftover join row: `attribute_id` replaced only when it is set and has a new id (`:352-359`). */
  function RemapAttributeId(r: Record, attributeMap: map<string, Value>): (out: Record)
    ensures Get(r, AttributeIdField) != Null && IsSetIn(attributeMap, Get(r, AttributeIdField)) ==>
              Get(out, AttributeIdField) == attributeMap[KeyText(Get(r, AttributeIdField))]
              && Get(out, AttributeIdField) in attributeMap.Values
    ensures !(Get(r, AttributeIdField) != Null && IsSetIn(attributeMap, Get(r, AttributeIdField))) ==> out == r
    ensures forall f :: f != AttributeIdField ==> Get(out, f) == Get(r, f)
  {
    if Get(r, AttributeIdField) != Null && IsSetIn(attributeMap, Get(r, AttributeIdField))
    then r[AttributeIdField := attributeMap[KeyText(Get(r, AttributeIdField))]]
    else r
  }

  /** Unconsumed join rows, each through `RemapAttributeId`. */
  function RemappedLeftovers(keys: seq<string>, rest: map<string, Record>, attributeMap: map<string, Value>): (out: seq<Record>)
    requires forall k :: k in keys ==> k in rest
    ensures |out| == |keys|
    ensures forall i :: 0 <= i < |keys| ==> out[i] == RemapAttributeId(rest[keys[i]], attributeMap)
  {
    if keys == [] then []
    else RemappedLeftovers(keys[..|keys| - 1], rest, attributeMap) + [RemapAttributeId(rest[keys[|keys| - 1]], attributeMap)]
  }

  /** The merge of a configured join table: seeds and unconsumed destination rows. */
  function JoinMerge(env: Env, doc: string, fields: seq<string>): (seq<Record>, map<string, Record>)
  {
    Consume(Keys(env.sourceRows(doc), fields, env.sourceAttributes, env.baselineAttributes.rows),
            env.destinationRecords(doc, fields).rows, NullSeedOf(env, doc))
  }

  /**
   * The rows written to a configured join table: each source row transformed
   * over its seed (and finished), then, when the key list is not empty, the
   * unconsumed destination rows with their attribute id remapped.
   */
  function JoinRows(env: Env, doc: string, fields: seq<string>, setMap: map<string, Value>,
                    attributeMap: map<string, Value>): seq<Record>
  {
    var src := env.sourceRows(doc);
    var (seeds, rest) := JoinMerge(env, doc, fields);
    Finished(doc, Seeded(env, doc, src, seeds), setMap)
    + (if fields != [] then RemappedLeftovers(Remaining(env.destinationRecords(doc, fields).order, rest), rest, attributeMap)
       else [])
  }

  /**
   * With a non-empty key list a configured join table gets one row per source
   * row plus one per unmatched destination row; with an empty one, only the
   * source rows.
   */
  lemma JoinRowsCount(env: Env, doc: string, fields: seq<string>, setMap: map<string, Value>,
                      attributeMap: map<string, Value>)
    requires env.destinationRecords(doc, fields).Valid()
    ensures fields != [] ==> |JoinRows(env, doc, fields, setMap, attributeMap)|
                             == |env.sourceRows(doc)| + |JoinMerge(env, doc, fields).1|
    ensures fields == [] ==> |JoinRows(env, doc, fields, setMap, attributeMap)| == |env.sourceRows(doc)|
  {
    var dest := env.destinationRecords(doc, fields);
    var rest := JoinMerge(env, doc, fields).1;
    RemainingCount(dest.order, rest);
  }

  /**
   * With a non-empty key list every destination row whose key no source row
   * produced is written after the source-derived rows, its attribute id
   * remapped.
   */
  lemma JoinLeftoversWritten(env: Env, doc: string, fields: seq<string>, setMap: map<string, Value>,
                             attributeMap: map<string, Value>)
    requires env.destinationRecords(doc, fields).Valid()
    requires fields != []
    ensures var src := env.sourceRows(doc);
            var dest := env.destinationRecords(doc, fields).rows;
            var keys := Keys(src, fields, env.sourceAttributes, env.baselineAttributes.rows);
            forall k :: k in dest && k !in keys ==>
              RemapAttributeId(dest[k], attributeMap) in JoinRows(env, doc, fields, setMap, attributeMap)[|src|..]
  {
    var src := env.sourceRows(doc);
    var dest := env.destinationRecords(doc, fields);
    var keys := Keys(src, fields, env.sourceAttributes, env.baselineAttributes.rows);
    var rest := JoinMerge(env, doc, fields).1;
    ConsumeSeeds(keys, dest.rows, NullSeedOf(env, doc));
    var ks := Remaining(dest.order, rest);
    JoinTail(env, doc, fields, setMap, attributeMap);
    forall k | k in dest.rows && k !in keys
      ensures RemapAttributeId(dest.rows[k], attributeMap) in RemappedLeftovers(ks, rest, attributeMap)
    {
      LeftoverRemapped(ks, rest, attributeMap, k);
    }
  }

  /**
   * Only the `attribute_id` of a leftover row is remapped: an unmatched
   * destination row is written with every other column, its default attribute
   * set included, as it was.
   */
  lemma LeftoversKeepOtherColumns(env: Env, doc: string, fields: seq<string>, setMap: map<string, Value>,
                                  attributeMap: map<string, Value>)
    requires env.destinationRecords(doc, fields).Valid()
    requires fields != []
    ensures var src := env.sourceRows(doc);
            var dest := env.destinationRecords(doc, fields).rows;
            var keys := Keys(src, fields, env.sourceAttributes, env.baselineAttributes.rows);
            forall k :: k in dest && k !in keys ==>
              exists r :: r in JoinRows(env, doc, fields, setMap, attributeMap)[|src|..]
                          && forall f :: f != AttributeIdField ==> Get(r, f) == Get(dest[k], f)
  {
    var src := env.sourceRows(doc);
    var dest := env.destinationRecords(doc, fields).rows;
    var keys := Keys(src, fields, env.sourceAttributes, env.baselineAttributes.rows);
    JoinLeftoversWritten(env, doc, fields, setMap, attributeMap);
    forall k | k in dest && k !in keys
      ensures exists r :: r in JoinRows(env, doc, fields, setMap, attributeMap)[|src|..]
                          && forall f :: f != AttributeIdField ==> Get(r, f) == Get(dest[k], f)
    {
      var r := RemapAttributeId(dest[k], attributeMap);
      assert r in JoinRows(env, doc, fields, setMap, attributeMap)[|src|..];
    }
  }

  /** After the source-derived rows, a join table holds the remapped leftovers. */
  lemma JoinTail(env: Env, doc: string, fields: seq<string>, setMap: map<string, Value>, attributeMap: map<string, Value>)
    requires fields != []
    ensures var rest := JoinMerge(env, doc, fields).1;
            JoinRows(env, doc, fields, setMap, attributeMap)[|env.sourceRows(doc)|..]
            == RemappedLeftovers(Remaining(env.destinationRecords(doc, fields).order, rest), rest, attributeMap)
  {
    var src := env.sourceRows(doc);
    var (seeds, rest) := JoinMerge(env, doc, fields);
    var head := Finished(doc, Seeded(env, doc, src, seeds), setMap);
    var tail := RemappedLeftovers(Remaining(env.destinationRecords(doc, fields).order, rest), rest, attributeMap);
    assert JoinRows(env, doc, fields, setMap, attributeMap) == head + tail;
    assert (head + tail)[|head|..] == tail;
  }

  /** A key the walk visits contributes its remapped row to the leftovers. */
  lemma LeftoverRemapped(ks: seq<string>, rest: map<string, Record>, attributeMap: map<string, Value>, k: string)
    requires forall x :: x in ks ==> x in rest
    requires k in ks
    ensures RemapAttributeId(rest[k], attributeMap) in RemappedLeftovers(ks, rest, attributeMap)
  {
    var i :| 0 <= i < |ks| && ks[i] == k;
    assert RemappedLeftovers(ks, rest, attributeMap)[i] == RemapAttributeId(rest[k], attributeMap);
  }

  /** The destination tables after the join-table stage: each configured table written in list order. */
  function JoinTables(env: Env, tables: map<string, seq<Record>>, docs: seq<(string, seq<string>)>,
                      setMap: map<string, Value>, attributeMap: map<string, Value>): map<string, seq<Record>>
  {
    if docs == [] then tables
    else
      var d := docs[|docs| - 1];
      JoinTables(env, tables, docs[..|docs| - 1], setMap, attributeMap)
        [env.documentMap(d.0) := JoinRows(env, d.0, d.1, setMap, attributeMap)]
  }

  // ---------------------------------------------------------------------------
  // One loop step of each row builder

  /** Consuming one more key extends the seeds by that key's seed and removes its row if it was still there. */
  lemma ConsumeStep(keys: seq<string>, dest: map<string, Record>, nullSeed: Record, i: int,
                    seeds: seq<Record>, rest: map<string, Record>)
    requires 0 <= i < |keys|
    requires seeds == Consume(keys[..i], dest, nullSeed).0 && rest == Consume(keys[..i], dest, nullSeed).1
    ensures keys[i] in rest ==> Consume(keys[..i + 1], dest, nullSeed).0 == seeds + [rest[keys[i]]]
                                && Consume(keys[..i + 1], dest, nullSeed).1 == rest - {keys[i]}
    ensures keys[i] !in rest ==> Consume(keys[..i + 1], dest, nullSeed).0 == seeds + [nullSeed]
                                 && Consume(keys[..i + 1], dest, nullSeed).1 == rest
  {
    assert keys[..i + 1][..i] == keys[..i];
  }

  /** One more source row adds its transform over its seed. */
  lemma SeededStep(env: Env, doc: string, src: seq<Record>, seeds: seq<Record>, i: int, seed: Record)
    requires 0 <= i < |src| && |seeds| == i
    ensures Seeded(env, doc, src[..i + 1], seeds + [seed]) == Seeded(env, doc, src[..i], seeds) + [env.transform(doc, src[i], seed)]
  {
    assert src[..i + 1][..i] == src[..i];
    assert (seeds + [seed])[..i] == seeds;
  }

  /** One more row finished. */
  lemma FinishedStep(doc: string, rows: seq<Record>, r: Record, setMap: map<string, Value>)
    ensures Finished(doc, rows + [r], setMap) == Finished(doc, rows, setMap) + [FinishRow(doc, r, setMap)]
  {
    assert (rows + [r])[..|rows|] == rows;
  }

  /** One more source row, transformed over its seed and finished, extends the rows built so far. */
  lemma FinishedSeededStep(env: Env, doc: string, src: seq<Record>, seeds: seq<Record>, i: int, seed: Record,
                           setMap: map<string, Value>, out: seq<Record>)
    requires 0 <= i < |src| && |seeds| == i
    requires out == Finished(doc, Seeded(env, doc, src[..i], seeds), setMap)
    ensures out + [FinishRow(doc, env.transform(doc, src[i], seed), setMap)]
            == Finished(doc, Seeded(env, doc, src[..i + 1], seeds + [seed]), setMap)
  {
    SeededStep(env, doc, src, seeds, i, seed);
    FinishedStep(doc, Seeded(env, doc, src[..i], seeds), env.transform(doc, src[i], seed), setMap);
  }

  /** One more key of the walk is visited when its row is still there. */
  lemma RemainingStep(order: seq<string>, rest: map<string, Record>, j: int)
    requires 0 <= j < |order|
    ensures Remaining(order[..j + 1], rest) == Remaining(order[..j], rest) + (if order[j] in rest then [order[j]] else [])
  {
    assert order[..j + 1][..j] == order[..j];
  }

  /** One more baseline attribute visited: appended, cleared, when no source attribute consumed it. */
  lemma ClearedAttributesStep(order: seq<string>, j: int, rest: map<string, Record>, prefix: seq<Record>, out: seq<Record>)
    requires 0 <= j < |order|
    requires out == prefix + ClearedAttributes(Remaining(order[..j], rest), rest)
    ensures order[j] !in rest ==> out == prefix + ClearedAttributes(Remaining(order[..j + 1], rest), rest)
    ensures order[j] in rest ==>
              out + [rest[order[j]][AttributeIdField := Null]] == prefix + ClearedAttributes(Remaining(order[..j + 1], rest), rest)
  {
    RemainingStep(order, rest, j);
    if order[j] in rest {
      ClearedAttributesSnoc(Remaining(order[..j], rest), order[j], rest, prefix, out);
    }
  }

  /** One more leftover attribute, cleared. */
  lemma ClearedAttributesSnoc(keys: seq<string>, k: string, rest: map<string, Record>, prefix: seq<Record>, out: seq<Record>)
    requires forall x :: x in keys ==> x in rest
    requires k in rest
    requires out == prefix + ClearedAttributes(keys, rest)
    ensures out + [rest[k][AttributeIdField := Null]] == prefix + ClearedAttributes(keys + [k], rest)
  {
    assert (keys + [k])[..|keys|] == keys;
  }

  /** One more destination row visited: appended, remapped, when no source row consumed it. */
  lemma RemappedLeftoversStep(order: seq<string>, j: int, rest: map<string, Record>, attributeMap: map<string, Value>,
                              prefix: seq<Record>, out: seq<Record>)
    requires 0 <= j < |order|
    requires out == prefix + RemappedLeftovers(Remaining(order[..j], rest), rest, attributeMap)
    ensures order[j] !in rest ==> out == prefix + RemappedLeftovers(Remaining(order[..j + 1], rest), rest, attributeMap)
    ensures order[j] in rest ==>
              out + [RemapAttributeId(rest[order[j]], attributeMap)]
              == prefix + RemappedLeftovers(Remaining(order[..j + 1], rest), rest, attributeMap)
  {
    RemainingStep(order, rest, j);
    if order[j] in rest {
      RemappedLeftoversSnoc(Remaining(order[..j], rest), order[j], rest, attributeMap, prefix, out);
    }
  }

  /** One more leftover join row, remapped. */
  lemma RemappedLeftoversSnoc(keys: seq<string>, k: string, rest: map<string, Record>, attributeMap: map<string, Value>,
                              prefix: seq<Record>, out: seq<Record>)
    requires forall x :: x in keys ==> x in rest
    requires k in rest
    requires out == prefix + RemappedLeftovers(keys, rest, attributeMap)
    ensures out + [RemapAttributeId(rest[k], attributeMap)] == prefix + RemappedLeftovers(keys + [k], rest, attributeMap)
  {
    assert (keys + [k])[..|keys|] == keys;
  }

  /** One more old-to-new pair, assigned, extends the map built so far. */
  lemma AssignStep(base: map<string, Value>, pairs: seq<(string, Value)>, i: int, m: map<string, Value>)
    requires 0 <= i < |pairs|
    requires m == Assign(base, pairs[..i])
    ensures m[pairs[i].0 := pairs[i].1] == Assign(base, pairs[..i + 1])
  {
    assert pairs[..i + 1][..i] == pairs[..i];
  }

  /** One more baseline set, with its id cleared, extends the rows built so far. */
  lemma ClearedStep(rows: seq<Record>, j: int, field: string, prefix: seq<Record>, out: seq<Record>)
    requires 0 <= j < |rows|
    requires out == prefix + Cleared(rows[..j], field)
    ensures out + [rows[j][field := Null]] == prefix + Cleared(rows[..j + 1], field)
  {
    assert rows[..j + 1][..j] == rows[..j];
  }

  /** One more baseline group, repointed, extends the rows built so far. */
  lemma RepointedStep(groups: seq<Record>, j: int, sets: map<string, Record>, newSets: map<string, Record>,
                      prefix: seq<Record>, out: seq<Record>, record: Record)
    requires 0 <= j < |groups|
    requires out == prefix + Repointed(groups[..j], sets, newSets)
    requires record == groups[j][SetIdField := NewSetIdOf(groups[j], sets, newSets)][GroupIdField := Null]
    ensures out + [record] == prefix + Repointed(groups[..j + 1], sets, newSets)
  {
    assert groups[..j + 1][..j] == groups[..j];
  }

  /** One more configured join table, written, extends the tables written so far. */
  lemma JoinTablesStep(env: Env, tables: map<string, seq<Record>>, docs: seq<(string, seq<string>)>, d: int,
                       setMap: map<string, Value>, attributeMap: map<string, Value>, current: map<string, seq<Record>>)
    requires 0 <= d < |docs|
    requires current == JoinTables(env, tables, docs[..d], setMap, attributeMap)
    ensures current[env.documentMap(docs[d].0) := JoinRows(env, docs[d].0, docs[d].1, setMap, attributeMap)]
            == JoinTables(env, tables, docs[..d + 1], setMap, attributeMap)
  {
    var upTo := docs[..d + 1];
    assert upTo[..|upTo| - 1] == docs[..d] && upTo[|upTo| - 1] == docs[d];
  }

  /** One more existing assignment visited: appended, remapped, exactly when it resolves. */
  lemma CarriedStep(rows: seq<Record>, j: int, attributeMap: map<string, Value>, setMap: map<string, Value>,
                    groupMap: map<string, Value>, prefix: seq<Record>, out: seq<Record>)
    requires 0 <= j < |rows|
    requires out == prefix + Carried(rows[..j], attributeMap, setMap, groupMap)
    ensures !Resolvable(rows[j], attributeMap, setMap, groupMap) ==>
              out == prefix + Carried(rows[..j + 1], attributeMap, setMap, groupMap)
    ensures Resolvable(rows[j], attributeMap, setMap, groupMap) ==>
              out + [Remapped(rows[j], attributeMap, setMap, groupMap)]
              == prefix + Carried(rows[..j + 1], attributeMap, setMap, groupMap)
  {
    assert rows[..j + 1][..j] == rows[..j];
  }

  /** One more listed document: appended when its key list is not empty and it is not there yet. */
  lemma DocumentsStep(names: seq<string>, i: int, lists: string -> seq<string>)
    requires 0 <= i < |names|
    ensures var docs := Documents(names[..i], lists);
            Documents(names[..i + 1], lists)
            == if lists(names[i]) != [] && (forall j :: 0 <= j < |docs| ==> docs[j].0 != names[i])
               then docs + [(names[i], lists(names[i]))] else docs
  {
    assert names[..i + 1][..i] == names[..i];
  }
}
