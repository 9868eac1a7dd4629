/** Variant instances in memory, normalised in place before they are written, and
    the table they are written to. */
module VariantTable {
  import opened Prelude
  import opened Normalization
  import opened Variants

  class Variant {
    var product: ProductId
    var store: StoreId
    var attribute: string
    var value: string
    var normalizedAttribute: string
    var normalizedValue: string
    var sku: string
    var isActive: bool
    var extra: map<string, Cell>

    constructor (r: Row)
      ensures AsRow() == r
    {
      product, store, attribute, value := r.product, r.store, r.attribute, r.value;
      normalizedAttribute, normalizedValue, sku := r.normalizedAttribute, r.normalizedValue, r.sku;
      isActive, extra := r.isActive, r.extra;
    }

    function AsRow(): Row
      reads this
    {
      Row(product, store, attribute, value, normalizedAttribute, normalizedValue, sku, isActive, extra)
    }

    method NormalizeFields(lower: Lower, products: map<ProductId, StoreId>)
      requires product in products
      modifies this
      ensures AsRow() == Normalized(lower, old(AsRow()), products[old(product)])
    {
      ghost var now := Normalized(lower, AsRow(), products[product]);
      attribute := Strip(attribute);
      value := Strip(value);
      normalizedAttribute := NormalizationKey(lower, Some(attribute));
      normalizedValue := NormalizationKey(lower, Some(value));
      sku := Strip(NormalizeDigits(Some(sku)));
      store := products[product];
      assert AsRow() == now;
    }
  }

  function Rows(objs: seq<Variant>): (rows: seq<Row>)
    reads objs
    ensures |rows| == |objs| && forall i :: 0 <= i < |objs| ==> rows[i] == objs[i].AsRow()
  {
    if objs == [] then [] else [objs[0].AsRow()] + Rows(objs[1..])
  }

  function Keyed(pks: seq<Pk>, rows: seq<Row>): map<Pk, Row>
    requires |pks| == |rows|
  {
    if pks == [] then map[] else Keyed(pks[1..], rows[1..])[pks[0] := rows[0]]
  }

  lemma {:induction false} KeyedAt(pks: seq<Pk>, rows: seq<Row>)
    requires |pks| == |rows| && forall i, j :: 0 <= i < j < |pks| ==> pks[i] != pks[j]
    ensures forall pk :: pk in Keyed(pks, rows) <==> pk in pks
    ensures forall i :: 0 <= i < |pks| ==> Keyed(pks, rows)[pks[i]] == rows[i]
  {
    if pks != [] {
      KeyedAt(pks[1..], rows[1..]);
    }
  }

  lemma InsertedAt(before: map<Pk, Row>, m: map<Pk, Row>, pks: seq<Pk>, now: seq<Row>)
    requires |pks| == |now| && (forall pk :: pk in m <==> pk in pks) && (forall i :: 0 <= i < |pks| ==> m[pks[i]] == now[i])
    requires m.Keys * before.Keys == {}
    ensures forall pk :: pk in before + m <==> pk in before || pk in pks
    ensures forall pk :: pk in before ==> (before + m)[pk] == before[pk]
    ensures forall i :: 0 <= i < |pks| ==> pks[i] !in before && pks[i] in before + m && (before + m)[pks[i]] == now[i]
  {
    forall pk | pk in m ensures pk !in before {
      assert pk !in m.Keys * before.Keys;
    }
    assert forall i :: 0 <= i < |pks| ==> pks[i] in m;
  }

  class Table {
    const lower: Lower
    const products: map<ProductId, StoreId>
    var rows: map<Pk, Row>

    constructor (lower: Lower, products: map<ProductId, StoreId>)
      ensures this.lower == lower && this.products == products && rows == map[]
      ensures Consistent(lower, products, rows)
    {
      this.lower, this.products, rows := lower, products, map[];
    }

    // A write that would break a constraint is refused as a whole.
    method Write(candidate: map<Pk, Row>) returns (error: Option<WriteError>)
      modifies this
      ensures error == if Unique(candidate) then None else Some(Integrity)
      ensures rows == if Unique(candidate) then candidate else old(rows)
    {
      if !Unique(candidate) {
        return Some(Integrity);
      }
      rows := candidate;
      error := None;
    }

    ghost predicate Did(before: map<Pk, Row>, w: Variants.Write, error: Option<WriteError>)
      reads this
    {
      match Effect(lower, products, before, w)
      case Ok(after) => error == None && rows == after
      case Err(e) => error == Some(e) && rows == before
    }

    method Save(pk: Pk, v: Variant) returns (error: Option<WriteError>)
      modifies this, v
      ensures Did(old(rows), Variants.Save(pk, old(v.AsRow())), error)
      ensures old(v.product) in products ==> v.AsRow() == Normalized(lower, old(v.AsRow()), products[old(v.product)])
      ensures error == Some(NoSuchProduct) <==> old(v.product) !in products
      ensures rows == if error == None then old(rows)[pk := v.AsRow()] else old(rows)
    {
      if v.product !in products {
        return Some(NoSuchProduct);
      }
      v.NormalizeFields(lower, products);
      error := Write(rows[pk := v.AsRow()]);
    }

    /** save(update_fields=...): the instance is normalised as a whole, the row
        only in the named columns. */
    method SaveFields(pk: Pk, v: Variant, fields: set<string>) returns (error: Option<WriteError>)
      modifies this, v
      ensures Did(old(rows), Variants.PartialSave(pk, old(v.AsRow()), fields), error)
      ensures old(v.product) in products ==> v.AsRow() == Normalized(lower, old(v.AsRow()), products[old(v.product)])
      ensures error != None || fields == {} ==> rows == old(rows)
      ensures error == None && fields != {} ==>
                && pk in old(rows) && rows.Keys == old(rows).Keys
                && (forall other :: other in rows && other != pk ==> rows[other] == old(rows)[other])
                && rows[pk] == WriteFields(old(rows)[pk], v.AsRow(), fields)
    {
      if v.product !in products {
        return Some(NoSuchProduct);
      }
      v.NormalizeFields(lower, products);
      if fields == {} {
        return None;
      }
      if pk !in rows {
        return Some(NoSuchRow);
      }
      error := Write(rows[pk := WriteFields(rows[pk], v.AsRow(), fields)]);
    }

    ghost predicate IsNormalized(was: Row, now: Row) {
      was.product in products && now == Normalized(lower, was, products[was.product])
    }

    method NormalizeOne(obj: Variant, ghost was: Row)
      requires was.product in products && (obj.AsRow() == was || IsNormalized(was, obj.AsRow()))
      modifies obj
      ensures IsNormalized(was, obj.AsRow())
    {
      NormalizedTwice(lower, was, products[was.product]);
      obj.NormalizeFields(lower, products);
    }

    method NormalizeAll(objs: seq<Variant>)
      requires forall v :: v in objs ==> v.product in products
      modifies objs
      ensures forall v :: v in objs ==> IsNormalized(old(v.AsRow()), v.AsRow())
    {
      for i := 0 to |objs|
        invariant forall v :: v in objs[..i] ==> IsNormalized(old(v.AsRow()), v.AsRow())
        invariant forall v :: v in objs && v !in objs[..i] ==> v.AsRow() == old(v.AsRow())
      {
        NormalizeOne(objs[i], old(objs[i].AsRow()));
        assert objs[..i + 1] == objs[..i] + [objs[i]];
      }
      assert objs[..|objs|] == objs;
    }

    lemma AllNormalizedAt(pks: seq<Pk>, was: seq<Row>, now: seq<Row>)
      requires |pks| == |was| == |now| && forall i, j :: 0 <= i < j < |pks| ==> pks[i] != pks[j]
      requires forall i :: 0 <= i < |was| ==> IsNormalized(was[i], now[i])
      ensures KnownProducts(products, Keyed(pks, was))
      ensures Keyed(pks, now) == AllNormalized(lower, products, Keyed(pks, was))
    {
      KeyedAt(pks, was);
      KeyedAt(pks, now);
      forall pk | pk in pks
        ensures IsNormalized(Keyed(pks, was)[pk], Keyed(pks, now)[pk])
      {
        var i :| 0 <= i < |pks| && pks[i] == pk;
        assert IsNormalized(was[i], now[i]);
      }
    }

    lemma KnownIffAll(pks: seq<Pk>, was: seq<Row>)
      requires |pks| == |was| && forall i, j :: 0 <= i < j < |pks| ==> pks[i] != pks[j]
      ensures KnownProducts(products, Keyed(pks, was)) <==> forall i :: 0 <= i < |was| ==> was[i].product in products
    {
      KeyedAt(pks, was);
      if KnownProducts(products, Keyed(pks, was)) {
        forall i | 0 <= i < |was| ensures was[i].product in products {
          assert pks[i] in Keyed(pks, was);
        }
      }
    }

    /** Normalises every instance, then inserts them all or none. Two entries may
        not name the same key; they may be the same object. */
    method BulkCreate(pks: seq<Pk>, objs: seq<Variant>) returns (error: Option<WriteError>)
      requires |pks| == |objs| && forall i, j :: 0 <= i < j < |pks| ==> pks[i] != pks[j]
      modifies this, objs
      ensures Did(old(rows), Variants.BulkCreate(Keyed(pks, old(Rows(objs)))), error)
      ensures error == Some(NoSuchProduct) <==> exists i :: 0 <= i < |objs| && old(Rows(objs))[i].product !in products
      ensures error != None ==> rows == old(rows)
      ensures error == None ==> AreInserted(old(rows), pks, old(Rows(objs)))
    {
      ghost var was := Rows(objs);
      KnownIffAll(pks, was);
      if exists i :: 0 <= i < |objs| && objs[i].product !in products {
        return Some(NoSuchProduct);
      }
      var now := NormalizeRows(objs);
      error := Insert(pks, now, was);
    }

    // Each instance has a new row, which is its normal form; no other row changed.
    ghost predicate AreInserted(before: map<Pk, Row>, pks: seq<Pk>, was: seq<Row>)
      requires |pks| == |was|
      reads this
    {
      && (forall pk :: pk in rows <==> pk in before || pk in pks)
      && (forall pk :: pk in before ==> rows[pk] == before[pk])
      && forall i :: 0 <= i < |pks| ==> pks[i] !in before && pks[i] in rows && IsNormalized(was[i], rows[pks[i]])
    }

    method NormalizeRows(objs: seq<Variant>) returns (now: seq<Row>)
      requires forall i :: 0 <= i < |objs| ==> objs[i].product in products
      modifies objs
      ensures |now| == |objs| && forall i :: 0 <= i < |objs| ==> IsNormalized(old(Rows(objs))[i], now[i])
    {
      assert forall v :: v in objs ==> v.product in products;
      NormalizeAll(objs);
      now := Rows(objs);
      assert forall i :: 0 <= i < |objs| ==> objs[i] in objs && IsNormalized(old(Rows(objs))[i], now[i]);
    }

    method Insert(pks: seq<Pk>, now: seq<Row>, ghost was: seq<Row>) returns (error: Option<WriteError>)
      requires |pks| == |was| == |now| && forall i, j :: 0 <= i < j < |pks| ==> pks[i] != pks[j]
      requires forall i :: 0 <= i < |was| ==> IsNormalized(was[i], now[i])
      modifies this
      ensures Did(old(rows), Variants.BulkCreate(Keyed(pks, was)), error)
      ensures error == None || error == Some(Integrity)
      ensures error != None ==> rows == old(rows)
      ensures error == None ==> AreInserted(old(rows), pks, was)
    {
      AllNormalizedAt(pks, was, now);
      var inserted := Keyed(pks, now);
      assert Effect(lower, products, rows, Variants.BulkCreate(Keyed(pks, was))) == Inserted(rows, inserted);
      if inserted.Keys * rows.Keys != {} {
        return Some(Integrity);
      }
      KeyedAt(pks, now);
      InsertedAt(rows, inserted, pks, now);
      error := Write(rows + inserted);
    }

    method Update(pks: set<Pk>, changes: map<string, Cell>) returns (error: Option<WriteError>)
      modifies this
      ensures Did(old(rows), Variants.Update(pks, changes), error)
      ensures error == Some(VariantMutation) <==> exists name :: name in changes && IsSensitive(name)
      ensures error == None || error == Some(VariantMutation) || error == Some(Integrity)
      ensures error != None ==> rows == old(rows)
      ensures error == None ==> rows.Keys == old(rows).Keys && forall pk :: pk in rows ==>
                if pk in pks then IsUpdated(old(rows)[pk], changes, rows[pk]) else rows[pk] == old(rows)[pk]
    {
      forall was | forall name :: name in changes ==> !IsSensitive(name)
        ensures IsUpdated(was, changes, Assign(was, changes))
      {
        AssignUpdates(was, changes);
      }
      var blocked := SENSITIVE_FIELDS * changes.Keys;
      if blocked != {} {
        return Some(VariantMutation);
      }
      assert forall name :: name in SENSITIVE_FIELDS && name in changes.Keys ==> name in blocked;
      assert changes.Keys !! SENSITIVE_FIELDS;
      error := Write(map pk | pk in rows :: if pk in pks then Assign(rows[pk], changes) else rows[pk]);
    }

    method BulkUpdate(instances: map<Pk, Row>, fields: set<string>) returns (error: Option<WriteError>)
      modifies this
      ensures Did(old(rows), Variants.BulkUpdate(instances, fields), error)
      ensures error == Some(VariantMutation) <==> exists name :: name in fields && IsSensitive(name)
      ensures error == None || error == Some(VariantMutation) || error == Some(Integrity)
      ensures error != None ==> rows == old(rows)
      ensures error == None ==> rows.Keys == old(rows).Keys && forall pk :: pk in rows ==>
                if pk in instances then IsUpdatedFrom(old(rows)[pk], instances[pk], fields, rows[pk]) else rows[pk] == old(rows)[pk]
    {
      forall was, instance | forall name :: name in fields ==> !IsSensitive(name)
        ensures IsUpdatedFrom(was, instance, fields, WriteFields(was, instance, fields))
      {
        WriteFieldsUpdates(was, instance, fields);
      }
      var blocked := SENSITIVE_FIELDS * fields;
      if blocked != {} {
        return Some(VariantMutation);
      }
      assert forall name :: name in SENSITIVE_FIELDS && name in fields ==> name in blocked;
      assert fields !! SENSITIVE_FIELDS;
      error := Write(map pk | pk in rows :: if pk in instances then WriteFields(rows[pk], instances[pk], fields) else rows[pk]);
    }
  }

  // Normalising an instance that is already normalised changes nothing.
  lemma NormalizedTwice(lower: Lower, r: Row, store: StoreId)
    ensures Normalized(lower, Normalized(lower, r, store), store) == Normalized(lower, r, store)
  {
    StripTwice(r.attribute);
    StripTwice(r.value);
    var digits := NormalizeDigits(Some(r.sku));
    StripTwice(digits);
    forall c | c in Strip(digits) ensures DigitTable(c) == [c] {
      CharsOfStrip(digits, c);
      var from := CharsOfFlat(DigitTable, r.sku, c);
    }
    FlatFixed(DigitTable, Strip(digits));
  }
}
