/**
 * Rows and values as the EAV migration step sees them.
 *
 * A row is a PHP associative array from column name to value; the database
 * layer hands every column back as text or NULL. Composite business keys are
 * built by joining column values with '-', exactly as PHP's `implode('-', ...)`
 * does, so the string form (and its collisions) is kept.
 */
module Records {

  /** A column value: SQL NULL or its text. */
  datatype Value = Null | Text(s: string)

  /** A row: column name to value. */
  type Record = map<string, Value>

  /** Reading a column: a column the row lacks reads as null. */
  function Get(r: Record, field: string): Value
  {
    if field in r then r[field] else Null
  }

  /** How PHP turns a value into a string, in `implode` and as an array key: null becomes "". */
  function KeyText(v: Value): string
  {
    match v
    case Null => ""
    case Text(s) => s
  }

  /** An old id is set in an old-id to new-id map: the key is there and holds a non-null id. */
  predicate IsSetIn(m: map<string, Value>, v: Value)
  {
    KeyText(v) in m && m[KeyText(v)] != Null
  }

  /** PHP truthiness of a string: everything but "" and "0". */
  predicate Truthy(s: string)
  {
    s != "" && s != "0"
  }

  /** The seed of an unmatched row: every listed column, all null. */
  function NullSeed(fields: seq<string>): (r: Record)
    ensures forall f :: f in r <==> f in fields
    ensures forall f :: f in r ==> r[f] == Null
  {
    map f | f in fields :: Null
  }

  /** The separator of composite keys. */
  const Glue: char := '-'

  /** The parts joined with the separator between each two. */
  function Implode(parts: seq<string>): string
  {
    if |parts| == 0 then ""
    else if |parts| == 1 then parts[0]
    else parts[0] + [Glue] + Implode(parts[1..])
  }

  /** A key of two parts is the two texts around one separator, so it is never falsy in PHP. */
  lemma ImplodePair(a: string, b: string)
    ensures Implode([a, b]) == a + [Glue] + b
    ensures Truthy(Implode([a, b]))
  {
    assert [a, b][1..] == [b];
    var k := Implode([a, b]);
    assert k[|a|] == Glue;
  }

  /** Two different part lists can join to the same key: the string key is not injective. */
  lemma ImplodeCollides()
    ensures ["a-b", "c"] != ["a", "b-c"]
    ensures Implode(["a-b", "c"]) == Implode(["a", "b-c"])
  {
    ImplodePair("a-b", "c");
    ImplodePair("a", "b-c");
    assert ["a-b", "c"][0] != ["a", "b-c"][0];
  }

  /** In a separator-free head followed by the separator, the first separator sits right after the head. */
  lemma FirstGlue(x: string, s: string)
    requires Glue !in x
    ensures (x + [Glue] + s)[|x|] == Glue
    ensures forall i :: 0 <= i < |x| ==> (x + [Glue] + s)[i] != Glue
  {
    forall i | 0 <= i < |x| ensures (x + [Glue] + s)[i] != Glue {
      assert (x + [Glue] + s)[i] == x[i];
    }
  }

  /** Separator-free heads split a joined string at the same place. */
  lemma SplitAtGlue(x: string, s: string, y: string, t: string)
    requires Glue !in x && Glue !in y
    requires x + [Glue] + s == y + [Glue] + t
    ensures x == y && s == t
  {
    var u := x + [Glue] + s;
    FirstGlue(x, s);
    FirstGlue(y, t);
    assert |x| == |y|;
    assert x == u[..|x|];
    assert y == (y + [Glue] + t)[..|y|];
    assert s == u[|x| + 1..];
    assert t == (y + [Glue] + t)[|y| + 1..];
  }

  /**
   * The joined key is injective on part lists of one length in which every
   * part but the last is free of the separator, which is the case for keys
   * that lead with a numeric id (`entity_type_id-code`, `set_id-group_name`).
   */
  lemma {:induction false} ImplodeInjective(a: seq<string>, b: seq<string>)
    requires |a| == |b| >= 1
    requires forall i :: 0 <= i < |a| - 1 ==> Glue !in a[i] && Glue !in b[i]
    requires Implode(a) == Implode(b)
    ensures a == b
  {
    if |a| > 1 {
      SplitAtGlue(a[0], Implode(a[1..]), b[0], Implode(b[1..]));
      ImplodeInjective(a[1..], b[1..]);
      assert a == [a[0]] + a[1..];
      assert b == [b[0]] + b[1..];
    }
  }

  /** The raw composite key of a row: its values of the given columns, joined. */
  function RawKey(r: Record, fields: seq<string>): string
  {
    Implode(seq(|fields|, i requires 0 <= i < |fields| => KeyText(Get(r, fields[i]))))
  }

  /**
   * A PHP associative array of rows: its keys in insertion order, and the row
   * each key holds.
   */
  datatype Snapshot = Snapshot(order: seq<string>, rows: map<string, Record>) {

    /** Keys are distinct and are exactly the keys of the rows. */
    ghost predicate Valid()
    {
      && (forall i, j :: 0 <= i < j < |order| ==> order[i] != order[j])
      && (forall k :: k in rows <==> k in order)
    }

    /** The rows in iteration order. */
    function Values(): (vs: seq<Record>)
      requires Valid()
      ensures |vs| == |order|
      ensures forall i :: 0 <= i < |order| ==> vs[i] == rows[order[i]]
    {
      seq(|order|, i requires 0 <= i < |order| && Valid() => rows[order[i]])
    }
  }

  /** Every row is stored under the key the given key function computes from it. */
  ghost predicate KeyedBy(m: map<string, Record>, key: Record -> string)
  {
    forall k :: k in m ==> key(m[k]) == k
  }
}
