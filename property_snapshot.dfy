/**
 * The item-property change log collapsed to its latest value per
 * (item, property), and the pivot of three of those properties into one
 * record per item (scripts/ecommerce-full-etl.py, `item_props_processed`,
 * `latest_properties` and `important_props`).
 */
module PropertySnapshot {
  import opened Options

  /** A row of the `item_properties` catalog table. */
  datatype RawProperty = RawProperty(timestamp: int, itemid: int, property: string, value: string)

  /**
   * A processed property row. `propertyTimeMs` stands for `property_time`
   * in epoch milliseconds; `numericText` is the text whose float cast is
   * `numeric_value`.
   */
  datatype PropertyRow = PropertyRow(
    propertyTimeMs: int,
    itemId: int,
    propertyName: string,
    propertyValue: string,
    numericText: Option<string>)

  /** The window partition: one latest row per (item_id, property_name). */
  type PropertyKey = (int, string)

  function KeyOf(r: PropertyRow): PropertyKey { (r.itemId, r.propertyName) }

  // ---- numeric extraction ----

  predicate StartsWithN(v: string) { |v| > 0 && v[0] == 'n' }

  /** `regexp_replace(v, "n", "")`: every `n`, not only the leading one, is removed. */
  function RemoveEveryN(v: string): (r: string)
    ensures 'n' !in r
    ensures |r| <= |v|
    decreases |v|
  {
    if v == [] then []
    else (if v[0] == 'n' then [] else [v[0]]) + RemoveEveryN(v[1..])
  }

  /** `numeric_value` before its float cast: present only for values starting with `n`. */
  function NumericText(v: string): (r: Option<string>)
    ensures r.Some? <==> StartsWithN(v)
    ensures StartsWithN(v) ==> r == Some(RemoveEveryN(v))
  {
    if StartsWithN(v) then Some(RemoveEveryN(v)) else None
  }

  /** Stripping a concatenation strips each part: the kept characters stay in order. */
  lemma {:induction false} RemoveEveryNAppend(a: string, b: string)
    ensures RemoveEveryN(a + b) == RemoveEveryN(a) + RemoveEveryN(b)
    decreases |a|
  {
    if a == [] {
      assert a + b == b;
    } else {
      assert (a + b)[0] == a[0];
      assert (a + b)[1..] == a[1..] + b;
      RemoveEveryNAppend(a[1..], b);
    }
  }

  /** A single character is dropped if it is `n` and kept otherwise. */
  lemma RemoveEveryNChar(c: char)
    ensures RemoveEveryN([c]) == if c == 'n' then [] else [c]
  {
    assert [c][1..] == [];
  }

  /** Stripping keeps every character other than `n` exactly as often as it occurs. */
  lemma {:induction false} RemoveEveryNKeepsOthers(v: string)
    ensures multiset(RemoveEveryN(v)) == multiset(v)['n' := 0]
    decreases |v|
  {
    if v != [] {
      RemoveEveryNKeepsOthers(v[1..]);
      assert v == [v[0]] + v[1..];
      assert multiset(v) == multiset{v[0]} + multiset(v[1..]);
    }
  }

  lemma NumericTextExamples()
    ensures NumericText("n19.99") == Some("19.99")
    ensures NumericText("19.99") == None
    ensures NumericText("") == None
  {
    assert RemoveEveryN("n19.99") == "19.99" by {
      assert RemoveEveryN("9") == "9";
      assert RemoveEveryN("99") == "99";
      assert RemoveEveryN(".99") == ".99";
      assert RemoveEveryN("9.99") == "9.99";
      assert RemoveEveryN("19.99") == "19.99";
    }
  }

  /** An `n` after the first one is removed too. */
  lemma NumericTextDropsInnerN()
    ensures NumericText("n12n5") == Some("125")
  {
    assert RemoveEveryN("n12n5") == "125" by {
      assert RemoveEveryN("5") == "5";
      assert RemoveEveryN("n5") == "5";
      assert RemoveEveryN("2n5") == "25";
      assert RemoveEveryN("12n5") == "125";
    }
  }

  /** The select of one change-log row plus its `numeric_value` column. */
  function ProcessProperty(r: RawProperty): (p: PropertyRow)
    ensures KeyOf(p) == (r.itemid, r.property)
    ensures p.propertyTimeMs == r.timestamp && p.propertyValue == r.value
    ensures p.numericText.Some? <==> StartsWithN(r.value)
    ensures p.numericText == NumericText(r.value)
  {
    PropertyRow(r.timestamp, r.itemid, r.property, r.value, NumericText(r.value))
  }

  function ProcessProperties(raws: seq<RawProperty>): (ps: seq<PropertyRow>)
    ensures |ps| == |raws|
    ensures forall i :: 0 <= i < |raws| ==> ps[i] == ProcessProperty(raws[i])
  {
    seq(|raws|, i requires 0 <= i < |raws| => ProcessProperty(raws[i]))
  }

  // ---- latest snapshot: row_number() = 1 over (item_id, property_name) by time desc ----

  /**
   * Row i is the one the window keeps for its key: no row of the key is
   * later, and every earlier row of the key is strictly older (ties between
   * equally late rows go to the first in input order).
   */
  ghost predicate IsLatest(rows: seq<PropertyRow>, i: int)
  {
    && 0 <= i < |rows|
    && forall j :: 0 <= j < |rows| && KeyOf(rows[j]) == KeyOf(rows[i]) ==>
         && rows[j].propertyTimeMs <= rows[i].propertyTimeMs
         && (j < i ==> rows[j].propertyTimeMs < rows[i].propertyTimeMs)
  }

  function Keys(rows: seq<PropertyRow>): set<PropertyKey>
  {
    set r | r in rows :: KeyOf(r)
  }

  /** `latest_properties`, keyed by its window partition. */
  function LatestSnapshot(rows: seq<PropertyRow>): (r: map<PropertyKey, PropertyRow>)
    ensures r.Keys == Keys(rows)
    ensures forall k :: k in r ==> KeyOf(r[k]) == k && r[k] in rows
    decreases |rows|
  {
    if rows == [] then map[]
    else
      var m := LatestSnapshot(rows[..|rows| - 1]);
      var r := rows[|rows| - 1];
      if KeyOf(r) !in m || m[KeyOf(r)].propertyTimeMs < r.propertyTimeMs then m[KeyOf(r) := r] else m
  }

  /** Keys present in the snapshot, and a kept row for each of them. */
  ghost predicate ChoosesLatest(rows: seq<PropertyRow>, m: map<PropertyKey, PropertyRow>)
  {
    && m.Keys == Keys(rows)
    && forall k :: k in m ==> KeyOf(m[k]) == k && exists i :: IsLatest(rows, i) && rows[i] == m[k]
  }

  lemma {:induction false} LatestSnapshotChooses(rows: seq<PropertyRow>)
    ensures ChoosesLatest(rows, LatestSnapshot(rows))
    decreases |rows|
  {
    if rows != [] {
      var n := |rows| - 1;
      LatestSnapshotChooses(rows[..n]);
      LatestStep(rows[..n], rows[n]);
      assert rows[..n] + [rows[n]] == rows;
    }
  }

  /** Appending one row to the change log keeps the snapshot choosing latest rows. */
  lemma LatestStep(pre: seq<PropertyRow>, r: PropertyRow)
    requires ChoosesLatest(pre, LatestSnapshot(pre))
    ensures ChoosesLatest(pre + [r], LatestSnapshot(pre + [r]))
  {
    var rows := pre + [r];
    var n := |pre|;
    assert rows[..n] == pre;
    var m := LatestSnapshot(pre);
    var m' := LatestSnapshot(rows);
    forall k | k in m'
      ensures KeyOf(m'[k]) == k && exists i :: IsLatest(rows, i) && rows[i] == m'[k]
    {
      if k == KeyOf(r) && (k !in m || m[k].propertyTimeMs < r.propertyTimeMs) {
        NewRowIsLatest(pre, r, m);
        assert rows[n] == m'[k];
      } else {
        var i :| IsLatest(pre, i) && pre[i] == m[k];
        OldRowStaysLatest(pre, r, i);
        assert rows[i] == m'[k];
      }
    }
  }

  lemma NewRowIsLatest(pre: seq<PropertyRow>, r: PropertyRow, m: map<PropertyKey, PropertyRow>)
    requires ChoosesLatest(pre, m)
    requires KeyOf(r) !in m || m[KeyOf(r)].propertyTimeMs < r.propertyTimeMs
    ensures IsLatest(pre + [r], |pre|)
  {
    var rows := pre + [r];
    var k := KeyOf(r);
    forall j | 0 <= j < |rows| && KeyOf(rows[j]) == k
      ensures rows[j].propertyTimeMs <= r.propertyTimeMs
      ensures j < |pre| ==> rows[j].propertyTimeMs < r.propertyTimeMs
    {
      if j < |pre| {
        assert pre[j] == rows[j];
        assert k in Keys(pre);
        var i :| IsLatest(pre, i) && pre[i] == m[k];
      }
    }
  }

  lemma OldRowStaysLatest(pre: seq<PropertyRow>, r: PropertyRow, i: int)
    requires IsLatest(pre, i)
    requires KeyOf(r) == KeyOf(pre[i]) ==> r.propertyTimeMs <= pre[i].propertyTimeMs
    ensures IsLatest(pre + [r], i)
  {
    var rows := pre + [r];
    forall j | 0 <= j < |rows| && KeyOf(rows[j]) == KeyOf(rows[i])
      ensures rows[j].propertyTimeMs <= rows[i].propertyTimeMs
      ensures j < i ==> rows[j].propertyTimeMs < rows[i].propertyTimeMs
    {
      if j < |pre| {
        assert pre[j] == rows[j];
      }
    }
  }

  /** At most one row of a key is the latest one. */
  lemma LatestIsUnique(rows: seq<PropertyRow>, i: int, i': int)
    requires IsLatest(rows, i) && IsLatest(rows, i') && KeyOf(rows[i]) == KeyOf(rows[i'])
    ensures i == i'
  {
  }

  /**
   * The snapshot has exactly one row per key of the input; that row is the
   * input row the window keeps, so it is an input row, of that key, and no
   * input row of the key has a later timestamp.
   */
  lemma LatestSnapshotSpec(rows: seq<PropertyRow>)
    ensures LatestSnapshot(rows).Keys == Keys(rows)
    ensures forall i :: IsLatest(rows, i) ==>
              KeyOf(rows[i]) in LatestSnapshot(rows) && LatestSnapshot(rows)[KeyOf(rows[i])] == rows[i]
    ensures forall k :: k in LatestSnapshot(rows) ==>
              KeyOf(LatestSnapshot(rows)[k]) == k && LatestSnapshot(rows)[k] in rows
    ensures forall k, j :: k in LatestSnapshot(rows) && 0 <= j < |rows| && KeyOf(rows[j]) == k ==>
              rows[j].propertyTimeMs <= LatestSnapshot(rows)[k].propertyTimeMs
  {
    LatestSnapshotChooses(rows);
    var m := LatestSnapshot(rows);
    forall i | IsLatest(rows, i)
      ensures KeyOf(rows[i]) in m && m[KeyOf(rows[i])] == rows[i]
    {
      var k := KeyOf(rows[i]);
      assert k in Keys(rows);
      var i' :| IsLatest(rows, i') && rows[i'] == m[k];
      LatestIsUnique(rows, i, i');
    }
    forall k, j | k in m && 0 <= j < |rows| && KeyOf(rows[j]) == k
      ensures rows[j].propertyTimeMs <= m[k].propertyTimeMs
    {
      var i :| IsLatest(rows, i) && rows[i] == m[k];
    }
  }

  // ---- pivot of categoryid, available and price ----

  const PivotProperties: set<string> := {"categoryid", "available", "price"}

  /** A row of `important_props`; a field is None when the item has no such property. */
  datatype ItemAttributes = ItemAttributes(categoryid: Option<string>, available: Option<string>, price: Option<string>)

  /** The pivot column named after a property. */
  function Field(a: ItemAttributes, name: string): Option<string>
    requires name in PivotProperties
  {
    if name == "categoryid" then a.categoryid else if name == "available" then a.available else a.price
  }

  /** `first(property_value)` of the snapshot rows of one item and property. */
  function PivotValue(latest: map<PropertyKey, PropertyRow>, item: int, name: string): Option<string>
  {
    if (item, name) in latest then Some(latest[(item, name)].propertyValue) else None
  }

  /** `important_props`: one record per item that has at least one pivoted property. */
  function Pivot(latest: map<PropertyKey, PropertyRow>): (r: map<int, ItemAttributes>)
    ensures forall item :: item in r <==> exists name :: name in PivotProperties && (item, name) in latest
    ensures forall item, name :: item in r && name in PivotProperties ==>
              (Field(r[item], name).Some? <==> (item, name) in latest)
    ensures forall item, name :: item in r && name in PivotProperties && (item, name) in latest ==>
              Field(r[item], name) == Some(latest[(item, name)].propertyValue)
  {
    var items := set k | k in latest && k.1 in PivotProperties :: k.0;
    map item | item in items ::
      ItemAttributes(PivotValue(latest, item, "categoryid"), PivotValue(latest, item, "available"),
                     PivotValue(latest, item, "price"))
  }

  /**
   * Pivoting the snapshot: an item has a record exactly when some change-log
   * row of it names a pivoted property, and each field holds the value of the
   * latest such row, or is None when the item has no row of that property.
   */
  lemma PivotOfLatest(rows: seq<PropertyRow>, item: int, name: string)
    requires name in PivotProperties
    ensures var attrs := Pivot(LatestSnapshot(rows));
      && (item in attrs <==> exists r :: r in rows && r.itemId == item && r.propertyName in PivotProperties)
      && (item in attrs ==>
            (Field(attrs[item], name).Some? <==> exists r :: r in rows && KeyOf(r) == (item, name)))
      && (forall i :: IsLatest(rows, i) && KeyOf(rows[i]) == (item, name) ==>
            item in attrs && Field(attrs[item], name) == Some(rows[i].propertyValue))
  {
    LatestSnapshotSpec(rows);
    var latest := LatestSnapshot(rows);
    var attrs := Pivot(latest);
    if item in attrs {
      var n :| n in PivotProperties && (item, n) in latest;
      assert (item, n) in Keys(rows);
    }
    if exists r :: r in rows && r.itemId == item && r.propertyName in PivotProperties {
      var r :| r in rows && r.itemId == item && r.propertyName in PivotProperties;
      assert KeyOf(r) in Keys(rows);
    }
    if exists r :: r in rows && KeyOf(r) == (item, name) {
      var r :| r in rows && KeyOf(r) == (item, name);
      assert KeyOf(r) in Keys(rows);
    }
  }
}
