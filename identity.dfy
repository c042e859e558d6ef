/**
 * Identity resolution across the two schemas: the composite mapping key of a
 * row and the two-hop lookup of a source attribute id in the destination's
 * baseline attributes.
 */
module Identity {
  import opened Records

  const AttributeIdField := "attribute_id"
  const EntityTypeIdField := "entity_type_id"
  const AttributeCodeField := "attribute_code"

  /** The business key of an attribute: `entity_type_id-attribute_code`. */
  function AttributeKey(r: Record): string
  {
    Implode([KeyText(Get(r, EntityTypeIdField)), KeyText(Get(r, AttributeCodeField))])
  }

  /**
   * `getDestinationAttributeId`: find the source attribute by id in the source
   * baseline, take its business key, and return the `attribute_id` the
   * destination baseline holds under that key; null when either lookup misses.
   * `sourceAttributes` is keyed by source attribute id, `destAttributes` by
   * business key.
   */
  function DestinationAttributeId(sourceAttributes: map<string, Record>, destAttributes: map<string, Record>,
                                  sourceId: Value): (id: Value)
    ensures KeyText(sourceId) !in sourceAttributes ==> id == Null
    ensures KeyText(sourceId) in sourceAttributes && AttributeKey(sourceAttributes[KeyText(sourceId)]) !in destAttributes
            ==> id == Null
    ensures id != Null ==> KeyText(sourceId) in sourceAttributes
                           && AttributeKey(sourceAttributes[KeyText(sourceId)]) in destAttributes
                           && id == Get(destAttributes[AttributeKey(sourceAttributes[KeyText(sourceId)])], AttributeIdField)
    ensures KeyText(sourceId) in sourceAttributes && AttributeKey(sourceAttributes[KeyText(sourceId)]) in destAttributes
            ==> id == Get(destAttributes[AttributeKey(sourceAttributes[KeyText(sourceId)])], AttributeIdField)
  {
    var sk := KeyText(sourceId);
    if sk in sourceAttributes then
      var source := sourceAttributes[sk];
      var key := AttributeKey(source);
      // A two-part key is never falsy, so the truthiness test never rejects it.
      ImplodePair(KeyText(Get(source, EntityTypeIdField)), KeyText(Get(source, AttributeCodeField)));
      if Truthy(key) && key in destAttributes then Get(destAttributes[key], AttributeIdField) else Null
    else Null
  }

  /**
   * When the destination baseline is keyed by business key, the lookup finds
   * a destination attribute exactly when one with the source attribute's
   * entity type and code exists (and has an id), and returns that one's id.
   */
  lemma CrossSchemaLookup(sourceAttributes: map<string, Record>, destAttributes: map<string, Record>, sourceId: Value)
    requires KeyedBy(destAttributes, AttributeKey)
    ensures var id := DestinationAttributeId(sourceAttributes, destAttributes, sourceId);
            id != Null <==>
              (KeyText(sourceId) in sourceAttributes
               && exists d :: d in destAttributes.Values
                              && AttributeKey(d) == AttributeKey(sourceAttributes[KeyText(sourceId)])
                              && Get(d, AttributeIdField) != Null)
    ensures var id := DestinationAttributeId(sourceAttributes, destAttributes, sourceId);
            forall d :: d in destAttributes.Values && KeyText(sourceId) in sourceAttributes
                        && AttributeKey(d) == AttributeKey(sourceAttributes[KeyText(sourceId)])
                        ==> id == Get(d, AttributeIdField)
  {
    var sk := KeyText(sourceId);
    if sk in sourceAttributes {
      var key := AttributeKey(sourceAttributes[sk]);
      ImplodePair(KeyText(Get(sourceAttributes[sk], EntityTypeIdField)),
                  KeyText(Get(sourceAttributes[sk], AttributeCodeField)));
      forall d | d in destAttributes.Values && AttributeKey(d) == key
        ensures key in destAttributes && destAttributes[key] == d
      {
        var k :| k in destAttributes && destAttributes[k] == d;
        assert AttributeKey(destAttributes[k]) == k;
      }
      if key in destAttributes {
        assert AttributeKey(destAttributes[key]) == key;
        assert destAttributes[key] in destAttributes.Values;
      }
    }
  }

  /** One column's share of a mapping key: an `attribute_id` is first resolved into the destination. */
  function KeyPart(r: Record, field: string, sourceAttributes: map<string, Record>,
                   destAttributes: map<string, Record>): string
  {
    if field == AttributeIdField
    then KeyText(DestinationAttributeId(sourceAttributes, destAttributes, Get(r, field)))
    else KeyText(Get(r, field))
  }

  /** The parts of a mapping key, one per key field, in the order of the key fields. */
  function KeyParts(r: Record, fields: seq<string>, sourceAttributes: map<string, Record>,
                    destAttributes: map<string, Record>): (parts: seq<string>)
    ensures |parts| == |fields|
    ensures forall i :: 0 <= i < |fields| ==>
              parts[i] == (if fields[i] == AttributeIdField
                           then KeyText(DestinationAttributeId(sourceAttributes, destAttributes, Get(r, fields[i])))
                           else KeyText(Get(r, fields[i])))
  {
    if fields == [] then []
    else KeyParts(r, fields[..|fields| - 1], sourceAttributes, destAttributes)
         + [KeyPart(r, fields[|fields| - 1], sourceAttributes, destAttributes)]
  }

  /** `getMappingValue`: the key fields' values in order, joined with '-'. */
  function MappingValue(r: Record, fields: seq<string>, sourceAttributes: map<string, Record>,
                        destAttributes: map<string, Record>): string
  {
    Implode(KeyParts(r, fields, sourceAttributes, destAttributes))
  }

  /**
   * Without an `attribute_id` key field the mapping key is the row's raw
   * composite key; in particular the attribute stage's key is the attribute's
   * business key.
   */
  lemma MappingValueRaw(r: Record, fields: seq<string>, sourceAttributes: map<string, Record>,
                        destAttributes: map<string, Record>)
    requires AttributeIdField !in fields
    ensures MappingValue(r, fields, sourceAttributes, destAttributes) == RawKey(r, fields)
    ensures fields == [EntityTypeIdField, AttributeCodeField] ==>
              MappingValue(r, fields, sourceAttributes, destAttributes) == AttributeKey(r)
  {
    var parts := KeyParts(r, fields, sourceAttributes, destAttributes);
    var raw := seq(|fields|, i requires 0 <= i < |fields| => KeyText(Get(r, fields[i])));
    assert parts == raw;
    if fields == [EntityTypeIdField, AttributeCodeField] {
      assert raw == [KeyText(Get(r, EntityTypeIdField)), KeyText(Get(r, AttributeCodeField))];
    }
  }

  /** A key field named `attribute_id` contributes the destination id, not the row's own value. */
  lemma MappingValueResolvesAttributeId(r: Record, sourceAttributes: map<string, Record>,
                                        destAttributes: map<string, Record>, other: string)
    requires other != AttributeIdField
    ensures MappingValue(r, [AttributeIdField, other], sourceAttributes, destAttributes)
            == Implode([KeyText(DestinationAttributeId(sourceAttributes, destAttributes, Get(r, AttributeIdField))),
                        KeyText(Get(r, other))])
  {
    var parts := KeyParts(r, [AttributeIdField, other], sourceAttributes, destAttributes);
    assert parts == [KeyText(DestinationAttributeId(sourceAttributes, destAttributes, Get(r, AttributeIdField))),
                     KeyText(Get(r, other))];
  }
}
